/** Byte sequences and the two library splitting operations the request
    handler relies on: `BytesIO.readlines` (here `ReadLines`) and
    `bytes.rsplit(b'\n', 1)` (here `RSplitNewline`). */
module Lines {
  import opened Wrappers

  newtype byte = b: int | 0 <= b < 256

  /** The line terminator, b'\n'. */
  const NL: byte := 10

  /** The bytes of `pieces` laid end to end. */
  function Concat(pieces: seq<seq<byte>>): seq<byte>
  {
    if pieces == [] then [] else pieces[0] + Concat(pieces[1..])
  }

  lemma {:induction false} ConcatAppend(a: seq<seq<byte>>, b: seq<seq<byte>>)
    ensures Concat(a + b) == Concat(a) + Concat(b)
  {
    if a == [] {
      assert a + b == b;
    } else {
      assert (a + b)[1..] == a[1..] + b;
      ConcatAppend(a[1..], b);
    }
  }

  /** The body so far is the body before the last chunk, then that chunk. */
  lemma ConcatLast(chunks: seq<seq<byte>>)
    requires chunks != []
    ensures Concat(chunks) == Concat(chunks[..|chunks| - 1]) + chunks[|chunks| - 1]
  {
    var init := chunks[..|chunks| - 1];
    assert chunks == init + [chunks[|chunks| - 1]];
    ConcatAppend(init, [chunks[|chunks| - 1]]);
    assert Concat([chunks[|chunks| - 1]]) == chunks[|chunks| - 1];
  }

  /** True when `d` is empty or its last byte is a newline: cutting a byte
      sequence right after such a prefix never cuts a line in two. */
  predicate EndsLine(d: seq<byte>)
  {
    d == [] || d[|d| - 1] == NL
  }

  /** The length of the first line of `d`: up to and including the first
      newline, or all of `d` when it holds none. */
  function LineLength(d: seq<byte>): (n: nat)
    requires d != []
    ensures 0 < n <= |d|
    ensures NL !in d[..n - 1]
    ensures n == |d| || d[n - 1] == NL
  {
    if d[0] == NL || |d| == 1 then 1
    else
      var m := LineLength(d[1..]);
      assert d[..m] == [d[0]] + d[1..][..m - 1];
      1 + m
  }

  /** The three conditions that determine the first line length. */
  lemma LineLengthUnique(d: seq<byte>, n: nat)
    requires 0 < n <= |d|
    requires NL !in d[..n - 1]
    requires n == |d| || d[n - 1] == NL
    ensures LineLength(d) == n
  {
  }

  /** A single line: non-empty, with a newline at most as its last byte. */
  predicate IsLine(p: seq<byte>)
  {
    p != [] && NL !in p[..|p| - 1]
  }

  /** A split of a byte sequence into lines as `readlines` produces them:
      every piece is non-empty, holds a newline at most as its last byte,
      and every piece but the last ends with one. */
  ghost predicate IsLineSplit(pieces: seq<seq<byte>>)
  {
    && (forall i :: 0 <= i < |pieces| ==> IsLine(pieces[i]))
    && (forall i :: 0 <= i < |pieces| - 1 ==> EndsLine(pieces[i]))
  }

  /** `BytesIO(d).readlines()`: the lines of `d`, each keeping its newline;
      a last line without newline is kept as it is; empty input has no lines. */
  function ReadLines(d: seq<byte>): (lines: seq<seq<byte>>)
    ensures lines == [] <==> d == []
    decreases |d|
  {
    if d == [] then []
    else
      var n := LineLength(d);
      [d[..n]] + ReadLines(d[n..])
  }

  /** `readlines` loses and adds nothing: its lines lay out to the input. */
  lemma {:induction false} ReadLinesJoin(d: seq<byte>)
    ensures Concat(ReadLines(d)) == d
    decreases |d|
  {
    if d != [] {
      var n := LineLength(d);
      var rest := ReadLines(d[n..]);
      ReadLinesJoin(d[n..]);
      ReadLinesUnfold(d);
      var lines := [d[..n]] + rest;
      assert lines[1..] == rest;
      assert d == d[..n] + d[n..];
    }
  }

  /** `readlines` splits exactly at the newlines. */
  lemma {:induction false} ReadLinesShape(d: seq<byte>)
    ensures IsLineSplit(ReadLines(d))
    decreases |d|
  {
    if d != [] {
      var n := LineLength(d);
      var rest := ReadLines(d[n..]);
      ReadLinesShape(d[n..]);
      ReadLinesUnfold(d);
      var lines := [d[..n]] + rest;
      assert d[..n][..n - 1] == d[..n - 1];
      assert IsLine(lines[0]);
      assert rest != [] ==> EndsLine(lines[0]);
      forall i | 0 < i < |lines|
        ensures IsLine(lines[i]) && (i < |lines| - 1 ==> EndsLine(lines[i]))
      {
        assert lines[i] == rest[i - 1];
      }
    }
  }

  /** One step of `ReadLines`: the first line, then the lines of the rest. */
  lemma ReadLinesUnfold(d: seq<byte>)
    requires d != []
    ensures ReadLines(d) == [d[..LineLength(d)]] + ReadLines(d[LineLength(d)..])
  {
  }

  /** The pieces after the first of a line split are a line split too. */
  lemma LineSplitRest(pieces: seq<seq<byte>>)
    requires IsLineSplit(pieces) && pieces != []
    ensures IsLineSplit(pieces[1..])
  {
    forall i | 0 <= i < |pieces| - 1
      ensures IsLine(pieces[1..][i]) && (i < |pieces| - 2 ==> EndsLine(pieces[1..][i]))
    {
      assert pieces[1..][i] == pieces[i + 1];
    }
  }

  /** The first piece of a line split is the first line of what it lays out. */
  lemma FirstPieceIsFirstLine(pieces: seq<seq<byte>>)
    requires IsLineSplit(pieces) && pieces != []
    ensures var d, p := Concat(pieces), pieces[0];
      && LineLength(d) == |p| && d[..|p|] == p && d[|p|..] == Concat(pieces[1..])
  {
    var d, p := Concat(pieces), pieces[0];
    assert d == p + Concat(pieces[1..]);
    assert d[..|p|] == p;
    assert d[..|p|][..|p| - 1] == p[..|p| - 1];
    if |pieces| > 1 {
      assert EndsLine(pieces[0]);
    } else {
      assert Concat(pieces[1..]) == [];
    }
    LineLengthUnique(d, |p|);
  }

  /** The line split of a byte sequence is unique: whatever satisfies
      `IsLineSplit` and lays out to `d` is `ReadLines(d)`. */
  lemma {:induction false} ReadLinesUnique(d: seq<byte>, pieces: seq<seq<byte>>)
    requires IsLineSplit(pieces) && Concat(pieces) == d
    ensures pieces == ReadLines(d)
    decreases |pieces|
  {
    if pieces != [] {
      var p := pieces[0];
      FirstPieceIsFirstLine(pieces);
      LineSplitRest(pieces);
      ReadLinesUnique(d[|p|..], pieces[1..]);
      ReadLinesUnfold(d);
      assert pieces == [p] + pieces[1..];
    }
  }

  /** The first line holds one newline when it is terminated, none otherwise. */
  lemma FirstLineNewlines(d: seq<byte>)
    requires d != []
    ensures multiset(d)[NL] == multiset(d[LineLength(d)..])[NL] + (if d[LineLength(d) - 1] == NL then 1 else 0)
  {
    var n := LineLength(d);
    assert d == d[..n - 1] + [d[n - 1]] + d[n..];
    assert multiset(d) == multiset(d[..n - 1]) + multiset{d[n - 1]} + multiset(d[n..]);
  }

  /** `readlines` yields one line per newline, plus one for a final
      line that has none. */
  lemma {:induction false} ReadLinesCount(d: seq<byte>)
    ensures |ReadLines(d)| == multiset(d)[NL] + (if EndsLine(d) then 0 else 1)
    decreases |d|
  {
    if d != [] {
      var n := LineLength(d);
      FirstLineNewlines(d);
      ReadLinesCount(d[n..]);
      if d[n - 1] != NL {
        assert d[n..] == [];
      } else if n < |d| {
        assert d[n..][|d[n..]| - 1] == d[|d| - 1];
      }
    }
  }

  /** Prepending one element before a concatenation of two sequences. */
  lemma ConsAssoc<T>(x: T, r1: seq<T>, r2: seq<T>)
    ensures [x] + (r1 + r2) == ([x] + r1) + r2
  {
  }

  /** Where `a` holds a newline, the first line of `a + b` is that of `a`. */
  lemma FirstLineOfAppend(a: seq<byte>, b: seq<byte>)
    requires a != [] && (LineLength(a) < |a| || EndsLine(a))
    ensures ReadLines(a + b) == [a[..LineLength(a)]] + ReadLines(a[LineLength(a)..] + b)
  {
    var n := LineLength(a);
    assert (a + b)[..n - 1] == a[..n - 1];
    LineLengthUnique(a + b, n);
    assert (a + b)[..n] == a[..n];
    assert (a + b)[n..] == a[n..] + b;
    ReadLinesUnfold(a + b);
  }

  /** Reading `a + b` line by line, where `a` ends at a line boundary,
      reads the lines of `a` and then those of `b`. */
  lemma {:induction false} ReadLinesAppend(a: seq<byte>, b: seq<byte>)
    requires EndsLine(a)
    ensures ReadLines(a + b) == ReadLines(a) + ReadLines(b)
    decreases |a|
  {
    if a == [] {
      assert a + b == b;
    } else {
      var n := LineLength(a);
      FirstLineOfAppend(a, b);
      assert EndsLine(a[n..]);
      ReadLinesAppend(a[n..], b);
      ReadLinesUnfold(a);
      ConsAssoc(a[..n], ReadLines(a[n..]), ReadLines(b));
    }
  }

  /** A newline after bytes that hold none terminates the one line they form. */
  lemma SingleLineNewline(d: seq<byte>)
    requires d != [] && NL !in d
    ensures ReadLines(d) == [d] && ReadLines(d + [NL]) == [d + [NL]]
  {
    var n := |d|;
    LineLengthUnique(d, n);
    assert d[..n] == d && d[n..] == [];
    ReadLinesUnfold(d);
    assert (d + [NL])[..n] == d;
    LineLengthUnique(d + [NL], n + 1);
    assert (d + [NL])[..n + 1] == d + [NL];
    assert (d + [NL])[n + 1..] == [];
    ReadLinesUnfold(d + [NL]);
  }

  /** `lines` with a newline added to its last line. */
  function CloseLast(lines: seq<seq<byte>>): seq<seq<byte>>
    requires lines != []
  {
    lines[..|lines| - 1] + [lines[|lines| - 1] + [NL]]
  }

  /** Closing the last line leaves the lines before it alone. */
  lemma CloseLastCons(x: seq<byte>, rest: seq<seq<byte>>)
    requires rest != []
    ensures CloseLast([x] + rest) == [x] + CloseLast(rest)
  {
    var lines := [x] + rest;
    assert lines[..|lines| - 1] == [x] + rest[..|rest| - 1];
    ConsAssoc(x, rest[..|rest| - 1], [rest[|rest| - 1] + [NL]]);
  }

  /** The step of `ReadLinesNewlineOpen` past a terminated first line:
      adding a newline to `d` changes only what it changes in the rest. */
  lemma NewlineAfterFirstLine(d: seq<byte>)
    requires d != [] && LineLength(d) < |d|
    requires ReadLines(d[LineLength(d)..]) != []
    requires ReadLines(d[LineLength(d)..] + [NL]) == CloseLast(ReadLines(d[LineLength(d)..]))
    ensures ReadLines(d + [NL]) == CloseLast(ReadLines(d))
  {
    var n := LineLength(d);
    FirstLineOfAppend(d, [NL]);
    ReadLinesUnfold(d);
    CloseLastCons(d[..n], ReadLines(d[n..]));
  }

  /** The lines of a single newline. */
  lemma ReadLinesOfNewline()
    ensures ReadLines([NL]) == [[NL]]
  {
    LineLengthUnique([NL], 1);
    ReadLinesUnfold([NL]);
    assert [NL][..1] == [NL];
    assert [NL][1..] == [];
  }

  /** Adding a newline to `d` that ends at a line boundary adds an empty
      line. */
  lemma ReadLinesNewlineEnded(d: seq<byte>)
    requires EndsLine(d)
    ensures ReadLines(d + [NL]) == ReadLines(d) + [[NL]]
  {
    ReadLinesAppend(d, [NL]);
    ReadLinesOfNewline();
  }

  /** Adding a newline to `d` whose last line is unterminated terminates
      that line. */
  lemma {:induction false} ReadLinesNewlineOpen(d: seq<byte>)
    requires !EndsLine(d)
    ensures ReadLines(d) != [] && ReadLines(d + [NL]) == CloseLast(ReadLines(d))
    decreases |d|
  {
    if NL !in d {
      SingleLineNewline(d);
    } else {
      var n := LineLength(d);
      assert n < |d|;
      assert d[n..][|d[n..]| - 1] == d[|d| - 1];
      ReadLinesNewlineOpen(d[n..]);
      NewlineAfterFirstLine(d);
    }
  }

  /** `chunk.rsplit(b'\n', 1)` unpacked into `head, tail`: the bytes before
      and after the last newline, which is dropped. `None` where the source
      raises because the chunk holds no newline and the split has one part. */
  function RSplitNewline(chunk: seq<byte>): (r: Option<(seq<byte>, seq<byte>)>)
    ensures r.None? <==> NL !in chunk
    ensures r.Some? ==> chunk == r.value.0 + [NL] + r.value.1 && NL !in r.value.1
  {
    if chunk == [] then None
    else
      var init, last := chunk[..|chunk| - 1], chunk[|chunk| - 1];
      assert chunk == init + [last];
      if last == NL then Some((init, []))
      else match RSplitNewline(init)
        case None => None
        case Some((head, tail)) => Some((head, tail + [last]))
  }
}
