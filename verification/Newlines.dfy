/** Newline normalisation of text: every CR LF, then every remaining CR, becomes LF. */
module Newlines {
  import opened Bytes

  const LF: Byte := 10
  const CR: Byte := 13

  function ReplaceCrLf(data: seq<Byte>): seq<Byte> {
    if |data| >= 2 && data[0] == CR && data[1] == LF then [LF] + ReplaceCrLf(data[2..])
    else if data == [] then []
    else [data[0]] + ReplaceCrLf(data[1..])
  }

  function ReplaceCr(data: seq<Byte>): seq<Byte> {
    if data == [] then [] else [if data[0] == CR then LF else data[0]] + ReplaceCr(data[1..])
  }

  function NormalizedTextBytes(data: seq<Byte>): seq<Byte> {
    ReplaceCr(ReplaceCrLf(data))
  }

  lemma {:induction false} ReplaceCrLeavesNone(data: seq<Byte>)
    ensures CR !in ReplaceCr(data)
  {
    if data != [] {
      ReplaceCrLeavesNone(data[1..]);
    }
  }

  lemma {:induction false} WithoutCr(data: seq<Byte>)
    requires CR !in data
    ensures ReplaceCrLf(data) == data && ReplaceCr(data) == data
  {
    if data != [] {
      assert data[0] in data;
      WithoutCr(data[1..]);
    }
  }

  lemma {:induction false} ReplaceCrBringsLf(data: seq<Byte>, b: Byte)
    ensures b in ReplaceCr(data) ==> b == LF || b in data
  {
    if data != [] {
      ReplaceCrBringsLf(data[1..], b);
      assert b in data[1..] ==> b in data;
    }
  }

  lemma {:induction false} ReplaceCrLfBringsLf(data: seq<Byte>, b: Byte)
    ensures b in ReplaceCrLf(data) ==> b == LF || b in data
    decreases |data|
  {
    if |data| >= 2 && data[0] == CR && data[1] == LF {
      ReplaceCrLfBringsLf(data[2..], b);
      assert b in data[2..] ==> b in data;
    } else if data != [] {
      ReplaceCrLfBringsLf(data[1..], b);
      assert b in data[1..] ==> b in data;
    }
  }

  /** Normalised text holds no CR, text without CR is left alone, and so normalising twice is normalising once. */
  lemma NormalizingIsIdempotent(data: seq<Byte>)
    ensures forall b :: b in NormalizedTextBytes(data) ==> b != 13 && (b == 10 || b in data)
    ensures NormalizedTextBytes(data) == data <==> 13 !in data
    ensures NormalizedTextBytes(NormalizedTextBytes(data)) == NormalizedTextBytes(data)
  {
    ReplaceCrLeavesNone(ReplaceCrLf(data));
    forall b | b in NormalizedTextBytes(data) ensures b != 13 && (b == 10 || b in data) {
      ReplaceCrBringsLf(ReplaceCrLf(data), b);
      ReplaceCrLfBringsLf(data, b);
    }
    WithoutCr(NormalizedTextBytes(data));
    if CR !in data {
      WithoutCr(data);
    }
  }

  // ---------------------------------------------------------------------------------------------
  // Pieces
  // ---------------------------------------------------------------------------------------------

  predicate SplitsCrLf(a: seq<Byte>, b: seq<Byte>) {
    a != [] && b != [] && a[|a| - 1] == CR && b[0] == LF
  }

  lemma {:induction false} ReplaceCrAppend(a: seq<Byte>, b: seq<Byte>)
    ensures ReplaceCr(a + b) == ReplaceCr(a) + ReplaceCr(b)
  {
    if a == [] {
      assert a + b == b;
    } else {
      assert (a + b)[1..] == a[1..] + b;
      ReplaceCrAppend(a[1..], b);
    }
  }

  predicate StartsCrLf(s: seq<Byte>) {
    |s| >= 2 && s[0] == CR && s[1] == LF
  }

  lemma ReplaceCrLfStep(s: seq<Byte>)
    ensures s == [] ==> ReplaceCrLf(s) == []
    ensures StartsCrLf(s) ==> ReplaceCrLf(s) == [LF] + ReplaceCrLf(s[2..])
    ensures s != [] && !StartsCrLf(s) ==> ReplaceCrLf(s) == [s[0]] + ReplaceCrLf(s[1..])
  {
  }

  lemma {:induction false} ReplaceCrLfAppend(a: seq<Byte>, b: seq<Byte>)
    requires !SplitsCrLf(a, b)
    ensures ReplaceCrLf(a + b) == ReplaceCrLf(a) + ReplaceCrLf(b)
  {
    hide ReplaceCrLf;
    ReplaceCrLfStep(a);
    ReplaceCrLfStep(a + b);
    if a == [] {
      assert a + b == b;
    } else if StartsCrLf(a) {
      assert (a + b)[2..] == a[2..] + b;
      ReplaceCrLfAppend(a[2..], b);
    } else {
      assert (a + b)[1..] == a[1..] + b;
      ReplaceCrLfAppend(a[1..], b);
    }
  }

  /** Text can be normalised piece by piece, as long as no CR LF is cut in two. */
  lemma NormalizedAppend(a: seq<Byte>, b: seq<Byte>)
    requires !SplitsCrLf(a, b)
    ensures NormalizedTextBytes(a + b) == NormalizedTextBytes(a) + NormalizedTextBytes(b)
  {
    ReplaceCrLfAppend(a, b);
    ReplaceCrAppend(ReplaceCrLf(a), ReplaceCrLf(b));
  }

  // ---------------------------------------------------------------------------------------------
  // Lines and their endings
  // ---------------------------------------------------------------------------------------------

  datatype Ending = Unix | Mac | Windows

  datatype Line = Line(content: seq<Byte>, ending: Ending)

  function EndingBytes(e: Ending): seq<Byte> {
    match e case Unix => [LF] case Mac => [CR] case Windows => [CR, LF]
  }

  predicate Plain(content: seq<Byte>) {
    CR !in content && LF !in content
  }

  predicate PlainLines(lines: seq<Line>) {
    forall i :: 0 <= i < |lines| ==> Plain(lines[i].content)
  }

  /** Lines with their endings, then a last line without one. */
  function Text(lines: seq<Line>, last: seq<Byte>): seq<Byte> {
    if lines == [] then last else lines[0].content + EndingBytes(lines[0].ending) + Text(lines[1..], last)
  }

  function ToUnix(lines: seq<Line>): (unix: seq<Line>)
    ensures |unix| == |lines|
    ensures forall i :: 0 <= i < |lines| ==> unix[i] == Line(lines[i].content, Unix)
  {
    if lines == [] then [] else [Line(lines[0].content, Unix)] + ToUnix(lines[1..])
  }

  /** An old Mac ending, then an empty line with a Unix ending: together they read as one Windows ending. */
  predicate ReadsAsOne(lines: seq<Line>) {
    |lines| >= 2 && lines[0].ending == Mac && lines[1].content == [] && lines[1].ending == Unix
  }

  ghost predicate Unambiguous(lines: seq<Line>) {
    forall i :: 0 <= i <= |lines| ==> !ReadsAsOne(lines[i..])
  }

  function Merges(lines: seq<Line>): nat {
    if lines == [] then 0
    else Merges(lines[1..]) + if ReadsAsOne(lines) then 1 else 0
  }

  lemma {:induction false} MergesNone(lines: seq<Line>)
    ensures Merges(lines) == 0 <==> Unambiguous(lines)
  {
    if lines != [] {
      MergesNone(lines[1..]);
      assert lines[0..] == lines;
      forall i | 1 <= i <= |lines| ensures lines[i..] == lines[1..][i - 1..] {
      }
      if Unambiguous(lines) {
        forall i | 0 <= i <= |lines[1..]| ensures !ReadsAsOne(lines[1..][i..]) {
          assert lines[1..][i..] == lines[i + 1..];
        }
      }
    }
  }

  lemma NormalizedPiece(content: seq<Byte>, ending: Ending)
    requires Plain(content)
    ensures NormalizedTextBytes(content) == content
    ensures NormalizedTextBytes(content + EndingBytes(ending)) == content + [LF]
  {
    WithoutCr(content);
    NormalizedAppend(content, EndingBytes(ending));
    assert [CR, LF][2..] == [] && [CR][1..] == [] && [LF][1..] == [];
    assert ReplaceCrLf([LF]) == [LF] + ReplaceCrLf([]) == [LF] && ReplaceCrLf([CR]) == [CR] + ReplaceCrLf([]) == [CR];
    assert ReplaceCr([LF]) == [LF] + ReplaceCr([]) == [LF] && ReplaceCr([CR]) == [LF] + ReplaceCr([]) == [LF];
    assert ReplaceCrLf([CR, LF]) == [LF] + ReplaceCrLf([]) == [LF];
    assert NormalizedTextBytes([CR, LF]) == [LF];
  }

  lemma {:induction false} NormalizedText(lines: seq<Line>, last: seq<Byte>)
    requires PlainLines(lines) && Plain(last)
    ensures |NormalizedTextBytes(Text(lines, last))| == |Text(ToUnix(lines), last)| - Merges(lines)
    ensures Merges(lines) == 0 ==> NormalizedTextBytes(Text(lines, last)) == Text(ToUnix(lines), last)
    decreases |lines|
  {
    if lines == [] {
      NormalizedPiece(last, Unix);
    } else {
      var first, rest := lines[0], lines[1..];
      var piece := first.content + EndingBytes(first.ending);
      NormalizedPiece(first.content, first.ending);
      assert ToUnix(lines)[1..] == ToUnix(rest);
      if ReadsAsOne(lines) {
        var after := rest[1..];
        NormalizedPiece(first.content, Windows);
        NormalizedText(after, last);
        MergedPair(lines, last);
        NormalizedAppend(first.content + [CR, LF], Text(after, last));
        assert ToUnix(rest)[1..] == ToUnix(after);
        assert !ReadsAsOne(rest);
      } else {
        NormalizedText(rest, last);
        NoSplit(lines, last);
        NormalizedAppend(piece, Text(rest, last));
      }
    }
  }

  lemma MergedPair(lines: seq<Line>, last: seq<Byte>)
    requires ReadsAsOne(lines)
    ensures Text(lines, last) == lines[0].content + [CR, LF] + Text(lines[1..][1..], last)
  {
    assert Text(lines[1..], last) == [] + [LF] + Text(lines[1..][1..], last);
  }

  lemma NoSplit(lines: seq<Line>, last: seq<Byte>)
    requires PlainLines(lines) && Plain(last) && lines != [] && !ReadsAsOne(lines)
    ensures !SplitsCrLf(lines[0].content + EndingBytes(lines[0].ending), Text(lines[1..], last))
  {
    if |lines| >= 2 {
      var second := lines[1];
      assert lines[1..][0] == second;
      assert Text(lines[1..], last) == second.content + EndingBytes(second.ending) + Text(lines[1..][1..], last);
      assert second.content != [] ==> second.content[0] in second.content;
    } else {
      assert last != [] ==> last[0] in last;
    }
  }

  /**
   * Whatever ends its lines, text normalises to the same lines ended by LF, exactly if no old Mac ending stands
   * before an empty line with a Unix ending.
   */
  lemma LineEndingsNormaliseIff(lines: seq<Line>, last: seq<Byte>)
    requires PlainLines(lines) && Plain(last)
    ensures NormalizedTextBytes(Text(lines, last)) == Text(ToUnix(lines), last) <==> Unambiguous(lines)
  {
    NormalizedText(lines, last);
    MergesNone(lines);
  }
}
