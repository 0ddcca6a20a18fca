/** What a whole request reports, in terms of its body: the chunks that
    `data_received` was given, laid end to end. */
module Request {
  import opened Wrappers
  import opened Lines
  import opened Handler

  /** The part of the body that has gone through `load_json` (or been
      dropped as the newline `rsplit` splits at) once every chunk has been
      received: everything up to and including the last chunk's last newline. */
  function Consumed(chunks: seq<seq<byte>>): seq<byte>
  {
    if chunks == [] then []
    else match RSplitNewline(chunks[|chunks| - 1])
      case None => Concat(chunks)
      case Some((head, _)) => Concat(chunks[..|chunks| - 1]) + head + [NL]
  }

  /** True when the newline `rsplit` drops from `chunk` ends an empty line of
      the body, where `before` is the body up to `chunk`. */
  predicate CutsEmptyLine(before: seq<byte>, chunk: seq<byte>)
  {
    match RSplitNewline(chunk)
    case None => false
    case Some((head, _)) => EndsLine(before + head)
  }

  /** The number of chunks whose dropped newline ends an empty line: the
      lines of the body that are never counted. */
  function EmptyCuts(chunks: seq<seq<byte>>): nat
  {
    if chunks == [] then 0
    else
      var init := chunks[..|chunks| - 1];
      EmptyCuts(init) + (if CutsEmptyLine(Concat(init), chunks[|chunks| - 1]) then 1 else 0)
  }

  /** A parser that ignores one trailing newline and rejects the empty
      document. `json.loads` behaves so on lines it decodes as UTF-8 (no
      UTF-16/32 byte-order mark and no NUL among the first two bytes); on
      other lines the added newline can change the encoding it guesses, and
      the results that assume this predicate do not cover them. */
  ghost predicate Tolerant<V>(parse: seq<byte> -> Option<V>)
  {
    parse([]).None? && forall line :: parse(line + [NL]) == parse(line)
  }

  /** The line count of a batch gains one for the dropped newline exactly
      when that newline would end an empty line. */
  lemma ReadLinesNewlineCount(d: seq<byte>)
    ensures |ReadLines(d + [NL])| == |ReadLines(d)| + (if EndsLine(d) then 1 else 0)
  {
    if EndsLine(d) {
      ReadLinesNewlineEnded(d);
    } else {
      ReadLinesNewlineOpen(d);
    }
  }

  /** For a tolerant parser, dropping the newline after a batch changes
      nothing that is kept: the lost empty line would have been invalid, and
      an unterminated last line parses as it would have with its newline. */
  lemma ParsedNewline<V>(d: seq<byte>, parse: seq<byte> -> Option<V>)
    requires Tolerant(parse)
    ensures Parsed(ReadLines(d + [NL]), parse) == Parsed(ReadLines(d), parse)
    ensures ValidCount(ReadLines(d + [NL]), parse) == ValidCount(ReadLines(d), parse)
  {
    var lines := ReadLines(d);
    if EndsLine(d) {
      ReadLinesNewlineEnded(d);
      ParsedAppend(lines, [[NL]], parse);
      assert [NL] == [] + [NL];
      assert [[NL]][..0] == [];
    } else {
      ReadLinesNewlineOpen(d);
      var n := |lines|;
      var init, last := lines[..n - 1], lines[n - 1];
      assert lines == init + [last];
      ParsedAppend(init, [last], parse);
      ParsedAppend(init, [last + [NL]], parse);
      assert [last][..0] == [] && [last + [NL]][..0] == [];
    }
  }

  /** How one accepted chunk moves the consumed part of the body: the
      pending tail and the bytes before the chunk's last newline are
      consumed, and the newline after them. */
  lemma ConsumedStep(before: seq<byte>, done: seq<byte>, pending: seq<byte>, chunk: seq<byte>, head: seq<byte>, tail: seq<byte>)
    requires before == done + pending && EndsLine(done)
    requires chunk == head + [NL] + tail
    ensures before + chunk == done + (pending + head + [NL]) + tail
    ensures before + head + [NL] == done + (pending + head + [NL])
    ensures EndsLine(before + head) <==> EndsLine(pending + head)
  {
  }

  /** The last step of a successful run, spelled out. */
  lemma RunLast<V>(chunks: seq<seq<byte>>, parse: seq<byte> -> Option<V>)
    requires chunks != [] && Run(chunks, parse).Some?
    ensures var init, chunk := chunks[..|chunks| - 1], chunks[|chunks| - 1];
      && Run(init, parse).Some?
      && RSplitNewline(chunk).Some?
      && var st0, (head, tail) := Run(init, parse).value, RSplitNewline(chunk).value;
         && Run(chunks, parse).value
            == Absorb(st0.(bytesLen := st0.bytesLen + |chunk|), st0.prevTail + head, parse).(prevTail := tail)
         && Consumed(chunks) == Concat(init) + head + [NL]
         && Concat(chunks) == Concat(init) + chunk
         && EmptyCuts(chunks) == EmptyCuts(init) + (if CutsEmptyLine(Concat(init), chunk) then 1 else 0)
  {
    ConcatLast(chunks);
  }

  /** After every accepted chunk the body splits into the consumed part,
      which ends at a line boundary, and the pending tail; and the lines
      counted so far are the lines of the consumed part, less one per
      newline dropped at the end of an empty line. */
  lemma {:induction false} RunAccounting<V>(chunks: seq<seq<byte>>, parse: seq<byte> -> Option<V>)
    requires Run(chunks, parse).Some?
    ensures var st := Run(chunks, parse).value;
      && Concat(chunks) == Consumed(chunks) + st.prevTail
      && EndsLine(Consumed(chunks))
      && st.valid + st.invalid + EmptyCuts(chunks) == |ReadLines(Consumed(chunks))|
  {
    if chunks != [] {
      var init, chunk := chunks[..|chunks| - 1], chunks[|chunks| - 1];
      RunAccounting(init, parse);
      RunLast(chunks, parse);
      var st0 := Run(init, parse).value;
      var Some((head, tail)) := RSplitNewline(chunk);
      var data := st0.prevTail + head;
      AbsorbSpec(st0.(bytesLen := st0.bytesLen + |chunk|), data, parse);
      ConsumedStep(Concat(init), Consumed(init), st0.prevTail, chunk, head, tail);
      ReadLinesAppend(Consumed(init), data + [NL]);
      ReadLinesNewlineCount(data);
    }
  }

  /** For a tolerant parser, the records kept and the valid count after
      every accepted chunk are those of the lines of the consumed part. */
  lemma {:induction false} RunRecords<V>(chunks: seq<seq<byte>>, parse: seq<byte> -> Option<V>)
    requires Tolerant(parse) && Run(chunks, parse).Some?
    ensures var st := Run(chunks, parse).value;
      && st.records == Parsed(ReadLines(Consumed(chunks)), parse)
      && st.valid == ValidCount(ReadLines(Consumed(chunks)), parse)
  {
    if chunks != [] {
      var init, chunk := chunks[..|chunks| - 1], chunks[|chunks| - 1];
      RunRecords(init, parse);
      RunAccounting(init, parse);
      RunLast(chunks, parse);
      var st0 := Run(init, parse).value;
      var Some((head, tail)) := RSplitNewline(chunk);
      var data := st0.prevTail + head;
      ConsumedStep(Concat(init), Consumed(init), st0.prevTail, chunk, head, tail);
      ReadLinesAppend(Consumed(init), data + [NL]);
      ParsedAppend(ReadLines(Consumed(init)), ReadLines(data + [NL]), parse);
      ParsedNewline(data, parse);
    }
  }

  /** The statistics of a request: `bytes` is the length of the body,
      `total` is `valid + invalid`, and `total` is the number of lines
      `readlines` finds in the body less the empty lines lost at dropped
      newlines. */
  lemma RequestAccounting<V>(chunks: seq<seq<byte>>, parse: seq<byte> -> Option<V>)
    requires Respond(chunks, parse).Some?
    ensures var stats := Respond(chunks, parse).value;
      && stats.bytes == |Concat(chunks)|
      && stats.total == stats.valid + stats.invalid
      && stats.total + EmptyCuts(chunks) == |ReadLines(Concat(chunks))|
  {
    var st := Run(chunks, parse).value;
    RunInvariant(chunks, parse);
    RunAccounting(chunks, parse);
    AbsorbSpec(st, st.prevTail, parse);
    ReadLinesAppend(Consumed(chunks), st.prevTail);
  }

  /** For a tolerant parser, the records a request hands to the CSV writer
      and its valid count are those of the lines of the whole body, however
      it was chunked; only empty lines at dropped newlines go uncounted, and
      those are invalid lines. */
  lemma RequestRecords<V>(chunks: seq<seq<byte>>, parse: seq<byte> -> Option<V>)
    requires Tolerant(parse) && Run(chunks, parse).Some?
    ensures var final := Finish(Run(chunks, parse).value, parse);
      var lines := ReadLines(Concat(chunks));
      && final.records == Parsed(lines, parse)
      && final.valid == ValidCount(lines, parse)
      && final.invalid + EmptyCuts(chunks) == InvalidCount(lines, parse)
  {
    var st := Run(chunks, parse).value;
    RunAccounting(chunks, parse);
    RunRecords(chunks, parse);
    AbsorbSpec(st, st.prevTail, parse);
    var done := ReadLines(Consumed(chunks));
    ReadLinesAppend(Consumed(chunks), st.prevTail);
    ParsedAppend(done, ReadLines(st.prevTail), parse);
    CountsPartition(ReadLines(Concat(chunks)), parse);
  }

  /** Two chunkings of one body, with a tolerant parser, report the same
      bytes, the same valid count and the same records; their invalid counts
      differ only by the empty lines each loses. */
  lemma SplittingIndependence<V>(c1: seq<seq<byte>>, c2: seq<seq<byte>>, parse: seq<byte> -> Option<V>)
    requires Tolerant(parse) && Run(c1, parse).Some? && Run(c2, parse).Some?
    requires Concat(c1) == Concat(c2)
    ensures var f1, f2 := Finish(Run(c1, parse).value, parse), Finish(Run(c2, parse).value, parse);
      && f1.bytesLen == f2.bytesLen
      && f1.records == f2.records
      && f1.valid == f2.valid
      && f1.invalid + EmptyCuts(c1) == f2.invalid + EmptyCuts(c2)
  {
    RequestRecords(c1, parse);
    RequestRecords(c2, parse);
    RunInvariant(c1, parse);
    RunInvariant(c2, parse);
    AbsorbSpec(Run(c1, parse).value, Run(c1, parse).value.prevTail, parse);
    AbsorbSpec(Run(c2, parse).value, Run(c2, parse).value.prevTail, parse);
  }

  /** A request fails exactly when one of its chunks holds no newline. */
  lemma {:induction false} RunFails<V>(chunks: seq<seq<byte>>, parse: seq<byte> -> Option<V>)
    ensures Run(chunks, parse).None? <==> exists i :: 0 <= i < |chunks| && NL !in chunks[i]
  {
    if chunks != [] {
      var init := chunks[..|chunks| - 1];
      RunFails(init, parse);
      if exists i :: 0 <= i < |init| && NL !in init[i] {
        var i :| 0 <= i < |init| && NL !in init[i];
        assert chunks[i] == init[i];
      }
      if exists i :: 0 <= i < |chunks| && NL !in chunks[i] {
        var i :| 0 <= i < |chunks| && NL !in chunks[i];
        if i < |init| {
          assert init[i] == chunks[i];
        }
      }
    }
  }

  /** An empty body reports zero bytes and zero records. */
  lemma EmptyBody<V>(parse: seq<byte> -> Option<V>)
    ensures Respond([], parse) == Some(Stats(0, 0, 0, 0))
  {
  }

  /** A chunk ending in two newlines loses the empty line between them:
      `readlines` finds two lines in its bytes, the request reports one. */
  lemma EmptyLineBeforeCutIsLost<V>(parse: seq<byte> -> Option<V>)
    ensures Respond([[65, NL, NL]], parse).Some?
    ensures Respond([[65, NL, NL]], parse).value.total == 1
    ensures |ReadLines([65, NL, NL])| == 2
  {
    var chunks: seq<seq<byte>> := [[65, NL, NL]];
    assert NL in chunks[0];
    RunFails(chunks, parse);
    assert EmptyCuts(chunks) == 1 by {
      assert chunks[..0] == [];
      var c: seq<byte> := [65, NL, NL];
      assert c[..|c| - 1] == [65, NL] && c[|c| - 1] == NL;
      assert RSplitNewline(c) == Some(([65, NL], []));
      assert EndsLine(Concat([]) + [65, NL]);
    }
    assert Concat(chunks) == [65, NL, NL];
    RequestAccounting(chunks, parse);
    ReadLinesCount([65, NL, NL]);
    assert multiset([65, NL, NL])[NL] == 2;
  }
}
