# Streaming NDJSON receiver: request state machine

`DataReceiverHandler` in `app.py` is a Tornado handler with a streamed body.
It takes an NDJSON body (one JSON document per line) in network chunks and
reassembles the lines. Each line is parsed with `json.loads`. A line that
parses is kept as a record and counted valid; any other line is counted
invalid. When the body is complete, `post` reports `bytes`, `valid`,
`invalid` and `total`.

The model has four modules:

- `Wrappers` (`wrappers.dfy`): the `Option` datatype.
- `Lines` (`lines.dfy`): byte sequences and the two library splits the
  handler uses. `ReadLines` is `BytesIO(data).readlines()`: each line ends at
  a newline and keeps it, the last line may have no newline, and empty data
  has no lines. `RSplitNewline` is `chunk.rsplit(b'\n', 1)` unpacked into
  `head, tail`. It is `None` where the unpacking raises, which is when the
  chunk holds no newline.
- `Handler` (`handler.dfy`):
  - The class `DataReceiverHandler`. Its five fields are updated in place by
    the constructor (`initialize`) and by the methods `LoadJson`,
    `DataReceived` and `Post`. `LoadJson` is a loop with invariants over the
    lines.
  - The pure functions that specify those methods: `Absorb` for `load_json`,
    `Receive` for `data_received`, `Run` for a sequence of chunks, and
    `Finish`/`Report`/`Respond` for `post`.
  - The lemmas about those functions.
  - A ghost field `received` records the chunks accepted so far. `Valid()`
    says that the fields hold `Run(received)`.
- `Request` (`request.dfy`): theorems about a whole request, stated in terms
  of the request body (the chunks laid end to end).

`json.loads` is a parameter `parse: seq<byte> -> Option<V>`, a constant field
of the handler. It returns `None` where `json.loads` raises. Any line that
parses is counted valid, whatever fields it has.

Three behaviours of the code are modelled as written:

- **Chunk with no newline.** The unpacking at app.py:32 raises. The byte
  count has already grown at app.py:31. `DataReceived` returns `ok == false`
  with only `bytesLen` changed, `Receive` and `Run` are `None`, and `RunFails`
  characterises the failing requests. One might expect such a chunk to be
  added to the pending tail to wait for a later newline. The code raises
  instead, and the model follows the code. An empty chunk also raises,
  rather than doing nothing.
- **Dropped newline.** The newline that `rsplit` splits at is discarded. An
  empty line that ends at that newline is never counted. `EmptyCuts` counts
  these losses, and `RequestAccounting` proves that
  `total + EmptyCuts == |ReadLines(body)|`.
  - One might expect `total` to be the number of lines in the body, and the
    counts not to depend on how the body is chunked. That holds only when no
    empty line is lost.
  - `SplittingIndependence` proves what does hold, for a parser that, like
    `json.loads` on lines it decodes as UTF-8, ignores a trailing newline and
    rejects empty input. The records, the valid count and the byte count do
    not depend on chunking. The invalid counts differ exactly by the lost
    empty lines.
  - `EmptyLineBeforeCutIsLost` gives an instance: the chunk `A\n\n` has two
    lines, and the request reports one.
- **Empty input.** `ReadLines([])` is `[]`, so `load_json(b'')` changes
  nothing (`AbsorbSpec`).

`post` does not clear the pending tail; `Post` leaves `prevTail` as it was.

## Model

| member | source | states |
|---|---|---|
| Lines.RSplitNewline | app.py:32 | `None` exactly when the chunk holds no newline; otherwise the chunk is `head`, one newline, then `tail`, and `tail` holds no newline, so the split is at the last newline |
| Lines.LineLength | app.py:38 | the first line of non-empty data runs to the first newline (inclusive) or to the end, and holds no earlier newline |
| Lines.ReadLines | app.py:37-38 | `readlines` yields no lines exactly when the data is empty |
| Lines.ReadLinesJoin | app.py:37-38 | the lines laid end to end give back the data: nothing is lost or added |
| Lines.ReadLinesShape | app.py:37-38 | every line is non-empty and has a newline at most as its last byte; every line but the last ends with a newline |
| Lines.ReadLinesUnique | app.py:37-38 | any split with that shape which lays out to the data is the one `readlines` returns |
| Lines.ReadLinesCount | app.py:37-38 | the number of lines is the number of newlines, plus one when the data ends without a newline |
| Lines.ReadLinesAppend | app.py:37-38 | reading two pieces, the first ending at a line boundary, yields the lines of the first and then those of the second |
| Lines.ReadLinesNewlineEnded | app.py:32-33 | after data that ends at a line boundary, one more newline adds one empty line |
| Lines.ReadLinesNewlineOpen | app.py:32-33 | after data whose last line has no newline, one more newline terminates that line and adds none |
| Handler.Parsed | app.py:38-41 | the values of the lines that parse, in line order; its length is `ValidCount` (`ParsedLength`) and it is additive over batches (`ParsedAppend`) |
| Handler.ValidCount | app.py:39-41 | the number of lines on which the parser succeeds |
| Handler.InvalidCount | app.py:39-43 | the number of lines on which the parser fails; with `ValidCount` it partitions the lines (`CountsPartition`) |
| Handler.CountsPartition | app.py:39-43 | every line is counted exactly once, as valid or as invalid |
| Handler.ParsedLength | app.py:40-41 | one value is kept per valid line |
| Handler.ParsedAppend | app.py:38-43 | records and counts of two batches of lines are those of each batch, added up in order: a line's outcome does not depend on the other lines |
| Handler.BadLineSkipped | app.py:39-43 | a line that fails to parse is counted invalid, and the lines after it are handled as if it were absent |
| Handler.Initial | app.py:23-28 | the state `initialize` sets: zero bytes, empty tail, no records, both counters zero; `Run` of no chunks |
| Handler.Absorb | app.py:36-43 | the state after `load_json(data)`: `Parsed` of the lines of `data` appended to the records, `ValidCount` and `InvalidCount` added to the counters, the byte count and tail unchanged (`AbsorbSpec`) |
| Handler.AbsorbSpec | app.py:36-43 | `load_json` adds the number of lines of its input to `valid + invalid`, keeps one record per valid line, leaves the byte count and tail alone, and does nothing on empty input |
| Handler.Receive | app.py:32 | `data_received` fails exactly when the chunk holds no newline |
| Handler.Accept | app.py:31-34 | the success path of `data_received`: the byte count grows by the chunk size, old tail plus `head` go through `Absorb`, and `tail` becomes the pending tail |
| Handler.ReceiveSpec | app.py:30-34 | the byte count grows by the chunk length; the new tail is the bytes after the chunk's last newline and holds no newline; the old tail plus the bytes before that newline go through `load_json`, which appends their records and counts their lines |
| Handler.Run | app.py:23-34 | the state after `initialize` and one `data_received` per chunk in order; `None` as soon as one of them raises (`RunFails`) |
| Handler.Finish | app.py:46 | the state after `post` has passed the pending tail to `load_json` |
| Handler.Report | app.py:56-60 | the statistics of a state: `bytes`, `valid`, `invalid`, and `total = valid + invalid` |
| Handler.Respond | app.py:23-60 | the statistics of a whole request: every chunk received, then `post`; `None` where a chunk raises |
| Handler.RunInvariant | app.py:30-43 | after any accepted chunks, the byte count is the length of the body so far, the number of records equals the valid count, and the tail holds no newline |
| Handler.DataReceiverHandler.constructor | app.py:23-28 | zero bytes, empty tail, no records, both counters zero; the handler is in the state of an empty chunk sequence |
| Handler.DataReceiverHandler.LoadJson | app.py:36-43 | the loop appends the values of the lines that parse, in order, and counts the valid and invalid lines; the new state is `Absorb` of the old |
| Handler.DataReceiverHandler.DataReceived | app.py:30-34 | the byte count grows by the chunk length even when the call fails; it fails exactly when the chunk holds no newline, and then nothing else changes; otherwise the new state is `Receive` of the old and `Valid` is kept |
| Handler.DataReceiverHandler.Post | app.py:45-60 | the tail goes through `load_json` first; `bytes` is the byte count, `total == valid + invalid`, records equal the valid count, and the report is that of the whole chunk sequence |
| Request.ReadLinesNewlineCount | app.py:32-33 | the dropped newline would have added a line exactly when it ends an empty line |
| Request.ParsedNewline | app.py:32-40 | for a parser that ignores a trailing newline and rejects empty input, dropping the newline after a batch changes neither the records nor the valid count |
| Request.RunAccounting | app.py:30-43 | after any accepted chunks, the body is the consumed part (ending at a line boundary) plus the tail; the lines counted are those of the consumed part, less the empty lines lost |
| Request.RunRecords | app.py:30-43 | for such a parser, the records and the valid count after any accepted chunks are those of the lines of the consumed part |
| Request.RequestAccounting | app.py:30-60 | the reported `bytes` is the body length, `total == valid + invalid`, and `total` plus the lost empty lines is the number of lines of the body |
| Request.RequestRecords | app.py:30-50 | for such a parser, the records handed to the CSV writer and the valid count are those of the body's lines; invalid plus lost empty lines is the invalid count of the body's lines |
| Request.SplittingIndependence | app.py:30-60 | for a tolerant parser (`Tolerant`), two chunkings of one body give the same bytes, records and valid count; their invalid counts differ only by the empty lines each loses |
| Request.RunFails | app.py:32 | a request fails exactly when one of its chunks holds no newline |
| Request.EmptyBody | app.py:45-60 | a request with no chunks reports zero bytes and zero records |
| Request.EmptyLineBeforeCutIsLost | app.py:32-33 | a single chunk `A\n\n` has two lines, and the request reports a total of one |

## Left out

- Tornado server setup, socket binding, process forking and the asyncio event loop (app.py:21, 66-77). These are I/O and process plumbing.
- The CSV write (app.py:48-50). It is filesystem I/O keyed on the current date through a library writer. The model stops at the `records` list that the writer would receive.
- The inside of `json.loads` (app.py:40). It is a foreign parser and is a parameter here. The whole-body record theorems assume `Tolerant`: the parser rejects empty input and ignores one trailing newline. This is an assumption about `json.loads`, not proved from it. It holds for lines that `json.loads` decodes as UTF-8, meaning no UTF-16/32 byte-order mark and no NUL among the first two bytes. On other lines, adding a newline changes the length and so can change the encoding `json.loads` guesses. An example: `b'\x001\x00'` raises, but `b'\x001\x00\n'` parses.
- RunRecords, RequestRecords and SplittingIndependence: do not cover bodies with lines that `json.loads` does not decode as UTF-8. For such lines, the records and valid count the program reports can depend on how the body is chunked.
- `self.write` serialisation and the constant `'status': 'ok'` (app.py:52-64). Only the four numbers of the statistics block are modelled.
- Exceptions other than the one from unpacking an `rsplit` with no newline. After that exception the model treats the request as failed (`Run` is `None`). What Tornado does with the request next is not modelled.
- Python integers are unbounded, and so are the model's `nat` counters. No width is involved.
