/** The per-request state of `DataReceiverHandler` (app.py) and its
    operations: `initialize`, `data_received`, `load_json` and the statistics
    that `post` reports.

    `json.loads` is not modelled: the handler is given a parser `parse` that
    maps one line (with its newline, as `readlines` yields it) to `Some(value)`
    when it parses and to `None` when `json.loads` would raise. */
module Handler {
  import opened Wrappers
  import opened Lines

  /** The values `load_json` appends for the lines that parse, in order. */
  function Parsed<V>(lines: seq<seq<byte>>, parse: seq<byte> -> Option<V>): seq<V>
  {
    if lines == [] then []
    else
      var init := Parsed(lines[..|lines| - 1], parse);
      match parse(lines[|lines| - 1])
      case Some(v) => init + [v]
      case None => init
  }

  /** The number of lines that parse. */
  function ValidCount<V>(lines: seq<seq<byte>>, parse: seq<byte> -> Option<V>): nat
  {
    if lines == [] then 0
    else ValidCount(lines[..|lines| - 1], parse) + (if parse(lines[|lines| - 1]).Some? then 1 else 0)
  }

  /** The number of lines on which the parser fails. */
  function InvalidCount<V>(lines: seq<seq<byte>>, parse: seq<byte> -> Option<V>): nat
  {
    if lines == [] then 0
    else InvalidCount(lines[..|lines| - 1], parse) + (if parse(lines[|lines| - 1]).None? then 1 else 0)
  }

  /** Every line is counted exactly once, as valid or as invalid. */
  lemma {:induction false} CountsPartition<V>(lines: seq<seq<byte>>, parse: seq<byte> -> Option<V>)
    ensures ValidCount(lines, parse) + InvalidCount(lines, parse) == |lines|
  {
    if lines != [] {
      CountsPartition(lines[..|lines| - 1], parse);
    }
  }

  /** One value is kept per valid line. */
  lemma {:induction false} ParsedLength<V>(lines: seq<seq<byte>>, parse: seq<byte> -> Option<V>)
    ensures |Parsed(lines, parse)| == ValidCount(lines, parse)
  {
    if lines != [] {
      ParsedLength(lines[..|lines| - 1], parse);
    }
  }

  /** The outcome of a batch is the outcome of its two halves, one after the
      other: no line affects how another line is handled. */
  lemma {:induction false} ParsedAppend<V>(a: seq<seq<byte>>, b: seq<seq<byte>>, parse: seq<byte> -> Option<V>)
    ensures Parsed(a + b, parse) == Parsed(a, parse) + Parsed(b, parse)
    ensures ValidCount(a + b, parse) == ValidCount(a, parse) + ValidCount(b, parse)
    ensures InvalidCount(a + b, parse) == InvalidCount(a, parse) + InvalidCount(b, parse)
    decreases |b|
  {
    if b == [] {
      assert a + b == a;
    } else {
      var b' := b[..|b| - 1];
      assert (a + b)[..|a + b| - 1] == a + b';
      assert (a + b)[|a + b| - 1] == b[|b| - 1];
      ParsedAppend(a, b', parse);
    }
  }

  /** One more line: its value is appended and it is counted valid when it
      parses; it is counted invalid otherwise. */
  lemma CountsStep<V>(lines: seq<seq<byte>>, i: nat, parse: seq<byte> -> Option<V>)
    requires i < |lines|
    ensures Parsed(lines[..i + 1], parse)
      == Parsed(lines[..i], parse) + (if parse(lines[i]).Some? then [parse(lines[i]).value] else [])
    ensures ValidCount(lines[..i + 1], parse) == ValidCount(lines[..i], parse) + (if parse(lines[i]).Some? then 1 else 0)
    ensures InvalidCount(lines[..i + 1], parse) == InvalidCount(lines[..i], parse) + (if parse(lines[i]).None? then 1 else 0)
  {
    assert lines[..i + 1][..i] == lines[..i];
  }

  /** A line that fails to parse is counted invalid and is skipped: the lines
      after it are handled as if it were not there. */
  lemma BadLineSkipped<V>(a: seq<seq<byte>>, bad: seq<byte>, b: seq<seq<byte>>, parse: seq<byte> -> Option<V>)
    requires parse(bad).None?
    ensures Parsed(a + [bad] + b, parse) == Parsed(a, parse) + Parsed(b, parse)
    ensures ValidCount(a + [bad] + b, parse) == ValidCount(a, parse) + ValidCount(b, parse)
    ensures InvalidCount(a + [bad] + b, parse) == InvalidCount(a, parse) + 1 + InvalidCount(b, parse)
  {
    ParsedAppend(a, [bad], parse);
    ParsedAppend(a + [bad], b, parse);
    assert [bad][..0] == [];
  }

  /** The five fields of the handler. */
  datatype HandlerState<V> = HandlerState(
    bytesLen: nat,          // bytes received so far
    prevTail: seq<byte>,    // bytes after the last newline seen
    records: seq<V>,        // parsed values, in order
    valid: nat,             // lines that parsed
    invalid: nat)           // lines that did not

  /** The statistics block of the response. */
  datatype Stats = Stats(bytes: nat, valid: nat, invalid: nat, total: nat)

  /** The state `initialize` sets up. */
  function Initial<V>(): HandlerState<V>
  {
    HandlerState(0, [], [], 0, 0)
  }

  /** The state after `load_json(data)`. */
  function Absorb<V>(st: HandlerState<V>, data: seq<byte>, parse: seq<byte> -> Option<V>): HandlerState<V>
  {
    var lines := ReadLines(data);
    st.(records := st.records + Parsed(lines, parse),
        valid := st.valid + ValidCount(lines, parse),
        invalid := st.invalid + InvalidCount(lines, parse))
  }

  /** `load_json` counts each line of its input once, keeps one value per
      valid line, touches neither the byte count nor the pending tail, and
      does nothing on empty input. */
  lemma AbsorbSpec<V>(st: HandlerState<V>, data: seq<byte>, parse: seq<byte> -> Option<V>)
    ensures var r := Absorb(st, data, parse);
      && r.bytesLen == st.bytesLen && r.prevTail == st.prevTail
      && r.valid + r.invalid == st.valid + st.invalid + |ReadLines(data)|
      && |r.records| - r.valid == |st.records| - st.valid
      && (data == [] ==> r == st)
  {
    var lines := ReadLines(data);
    CountsPartition(lines, parse);
    ParsedLength(lines, parse);
  }

  /** The state after `data_received(chunk)`; `None` where it raises because
      the chunk holds no newline. */
  function Receive<V>(st: HandlerState<V>, chunk: seq<byte>, parse: seq<byte> -> Option<V>): (r: Option<HandlerState<V>>)
    ensures r.None? <==> NL !in chunk
  {
    match RSplitNewline(chunk)
    case None => None
    case Some((head, tail)) => Some(Accept(st, |chunk|, head, tail, parse))
  }

  /** The state after a chunk of `size` bytes, split at its last newline
      into `head` and `tail`, has been received. */
  function Accept<V>(st: HandlerState<V>, size: nat, head: seq<byte>, tail: seq<byte>, parse: seq<byte> -> Option<V>): HandlerState<V>
  {
    Absorb(st.(bytesLen := st.bytesLen + size), st.prevTail + head, parse).(prevTail := tail)
  }

  /** What one accepted chunk does: the byte count grows by its length; the
      bytes after its last newline, which hold no newline, become the pending
      tail; the old pending tail followed by the bytes before that newline
      (the newline itself is dropped) go through `load_json`. */
  lemma ReceiveSpec<V>(st: HandlerState<V>, chunk: seq<byte>, parse: seq<byte> -> Option<V>)
    requires NL in chunk
    ensures var r := Receive(st, chunk, parse).value;
      && r.bytesLen == st.bytesLen + |chunk|
      && NL !in r.prevTail
      && |r.prevTail| < |chunk|
      && chunk == chunk[..|chunk| - |r.prevTail| - 1] + [NL] + r.prevTail
      && var data := st.prevTail + chunk[..|chunk| - |r.prevTail| - 1];
         && r.records == st.records + Parsed(ReadLines(data), parse)
         && r.valid + r.invalid == st.valid + st.invalid + |ReadLines(data)|
         && (|st.records| == st.valid ==> |r.records| == r.valid)
  {
    var Some((head, tail)) := RSplitNewline(chunk);
    assert chunk[..|chunk| - |tail| - 1] == head;
    AbsorbSpec(st.(bytesLen := st.bytesLen + |chunk|), st.prevTail + head, parse);
  }

  /** The state after the chunks of a request body, delivered in order, have
      all been received; `None` where one of them raises. */
  function Run<V>(chunks: seq<seq<byte>>, parse: seq<byte> -> Option<V>): Option<HandlerState<V>>
  {
    if chunks == [] then Some(Initial())
    else match Run(chunks[..|chunks| - 1], parse)
      case None => None
      case Some(st) => Receive(st, chunks[|chunks| - 1], parse)
  }

  /** What holds after any sequence of accepted chunks: the byte count is
      the length of the body so far, one record is kept per valid line, and
      the pending tail holds no newline. */
  lemma {:induction false} RunInvariant<V>(chunks: seq<seq<byte>>, parse: seq<byte> -> Option<V>)
    requires Run(chunks, parse).Some?
    ensures Run(chunks, parse).value.bytesLen == |Concat(chunks)|
    ensures |Run(chunks, parse).value.records| == Run(chunks, parse).value.valid
    ensures NL !in Run(chunks, parse).value.prevTail
  {
    if chunks != [] {
      var init, chunk := chunks[..|chunks| - 1], chunks[|chunks| - 1];
      RunInvariant(init, parse);
      var st0 := Run(init, parse).value;
      assert Run(chunks, parse) == Receive(st0, chunk, parse);
      ReceiveSpec(st0, chunk, parse);
      ConcatLast(chunks);
    }
  }

  /** `Run` takes one more chunk by one more `Receive`. */
  lemma RunStep<V>(chunks: seq<seq<byte>>, chunk: seq<byte>, parse: seq<byte> -> Option<V>, st: HandlerState<V>)
    requires Run(chunks, parse) == Some(st)
    ensures Run(chunks + [chunk], parse) == Receive(st, chunk, parse)
  {
    assert (chunks + [chunk])[..|chunks|] == chunks;
  }

  /** `Receive` on a chunk with a newline, step by step. */
  lemma ReceiveSplit<V>(st: HandlerState<V>, chunk: seq<byte>, parse: seq<byte> -> Option<V>, head: seq<byte>, tail: seq<byte>)
    requires RSplitNewline(chunk) == Some((head, tail))
    ensures Receive(st, chunk, parse) == Some(Accept(st, |chunk|, head, tail, parse))
  {
  }

  /** A run followed by one more chunk that holds a newline. */
  lemma AcceptStep<V>(chunks: seq<seq<byte>>, chunk: seq<byte>, parse: seq<byte> -> Option<V>,
                      st: HandlerState<V>, head: seq<byte>, tail: seq<byte>)
    requires Run(chunks, parse) == Some(st) && RSplitNewline(chunk) == Some((head, tail))
    ensures Run(chunks + [chunk], parse) == Receive(st, chunk, parse) == Some(Accept(st, |chunk|, head, tail, parse))
    ensures chunk[..|chunk| - |tail| - 1] == head
  {
    RunStep(chunks, chunk, parse, st);
    ReceiveSplit(st, chunk, parse, head, tail);
  }

  /** The state after `post` has passed the pending tail to `load_json`. */
  function Finish<V>(st: HandlerState<V>, parse: seq<byte> -> Option<V>): HandlerState<V>
  {
    Absorb(st, st.prevTail, parse)
  }

  /** The statistics `post` writes for a state. */
  function Report<V>(st: HandlerState<V>): Stats
  {
    Stats(st.bytesLen, st.valid, st.invalid, st.valid + st.invalid)
  }

  /** The statistics of a whole request: every chunk received, then `post`. */
  function Respond<V>(chunks: seq<seq<byte>>, parse: seq<byte> -> Option<V>): Option<Stats>
  {
    match Run(chunks, parse)
    case None => None
    case Some(st) => Some(Report(Finish(st, parse)))
  }

  /** `Respond` reports the finished state that `Run` leads to. */
  lemma RespondOfRun<V>(chunks: seq<seq<byte>>, parse: seq<byte> -> Option<V>, st: HandlerState<V>)
    requires Run(chunks, parse) == Some(st)
    ensures Respond(chunks, parse) == Some(Report(Finish(st, parse)))
  {
  }

  /** The request handler. `received` records the chunks accepted so far;
      `Valid` says that the fields hold the state those chunks lead to. */
  class DataReceiverHandler<V> {
    const parse: seq<byte> -> Option<V>
    var bytesLen: nat
    var prevTail: seq<byte>
    var records: seq<V>
    var recordsValid: nat
    var recordsInvalid: nat
    ghost var received: seq<seq<byte>>

    function State(): HandlerState<V>
      reads this
    {
      HandlerState(bytesLen, prevTail, records, recordsValid, recordsInvalid)
    }

    ghost predicate Valid()
      reads this
    {
      Run(received, parse) == Some(State())
    }

    /** `initialize`: nothing received, nothing counted. */
    constructor (parse: seq<byte> -> Option<V>)
      ensures this.parse == parse && received == []
      ensures bytesLen == 0 && prevTail == [] && records == []
      ensures recordsValid == 0 && recordsInvalid == 0
      ensures Valid()
    {
      this.parse := parse;
      bytesLen := 0;
      prevTail := [];
      records := [];
      recordsValid := 0;
      recordsInvalid := 0;
      received := [];
    }

    /** `load_json(data)`: each line of `data` is parsed; its value is
        appended and counted valid when it parses, counted invalid otherwise. */
    method LoadJson(data: seq<byte>)
      modifies this
      ensures bytesLen == old(bytesLen) && prevTail == old(prevTail) && received == old(received)
      ensures records == old(records) + Parsed(ReadLines(data), parse)
      ensures recordsValid == old(recordsValid) + ValidCount(ReadLines(data), parse)
      ensures recordsInvalid == old(recordsInvalid) + InvalidCount(ReadLines(data), parse)
      ensures State() == Absorb(old(State()), data, parse)
    {
      var lines := ReadLines(data);
      var i := 0;
      while i < |lines|
        invariant i <= |lines|
        invariant bytesLen == old(bytesLen) && prevTail == old(prevTail) && received == old(received)
        invariant records == old(records) + Parsed(lines[..i], parse)
        invariant recordsValid == old(recordsValid) + ValidCount(lines[..i], parse)
        invariant recordsInvalid == old(recordsInvalid) + InvalidCount(lines[..i], parse)
      {
        CountsStep(lines, i, parse);
        match parse(lines[i]) {
          case Some(value) =>
            records := records + [value];
            recordsValid := recordsValid + 1;
          case None =>
            recordsInvalid := recordsInvalid + 1;
        }
        i := i + 1;
      }
      assert lines[..i] == lines;
    }

    /** `data_received(chunk)`. The byte count grows first; when the chunk
        holds no newline the split raises (`ok` is false) and nothing else
        changes. Otherwise the pending tail and the bytes before the chunk's
        last newline go through `load_json`, that newline is dropped, and the
        bytes after it become the new pending tail. */
    method DataReceived(chunk: seq<byte>) returns (ok: bool)
      requires Valid()
      modifies this
      ensures bytesLen == old(bytesLen) + |chunk|
      ensures ok <==> NL in chunk
      ensures !ok ==> State() == old(State()).(bytesLen := bytesLen) && received == old(received)
      ensures ok ==> received == old(received) + [chunk] && Valid()
      ensures ok ==> Some(State()) == Receive(old(State()), chunk, parse)
    {
      ghost var before := State();
      bytesLen := bytesLen + |chunk|;
      match RSplitNewline(chunk) {
        case None =>
          ok := false;
        case Some((head, tail)) =>
          AcceptStep(received, chunk, parse, before, head, tail);
          ghost var counted := State();
          assert counted == before.(bytesLen := before.bytesLen + |chunk|);
          LoadJson(prevTail + head);
          prevTail := tail;
          received := received + [chunk];
          ok := true;
          assert State() == Accept(before, |chunk|, head, tail, parse);
      }
    }

    /** The statistics block of `post`: the pending tail goes through
        `load_json` first; `total` is `valid + invalid`. */
    method Post() returns (stats: Stats)
      requires Valid()
      modifies this
      ensures bytesLen == old(bytesLen) && prevTail == old(prevTail) && received == old(received)
      ensures State() == Finish(old(State()), parse)
      ensures Respond(received, parse) == Some(stats)
      ensures stats == Stats(bytesLen, recordsValid, recordsInvalid, recordsValid + recordsInvalid)
      ensures |records| == recordsValid
    {
      ghost var before := State();
      RunInvariant(received, parse);
      RespondOfRun(received, parse, before);
      AbsorbSpec(before, prevTail, parse);
      LoadJson(prevTail);
      stats := Stats(bytesLen, recordsValid, recordsInvalid, recordsValid + recordsInvalid);
      assert State() == Finish(before, parse);
      assert stats == Report(Finish(before, parse));
    }
  }
}
