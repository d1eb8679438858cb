/**
 * Rewriting ranges of a text by splicing, from the last range to the first so that the offsets of the ranges still to
 * come stay valid. An edit is an arbitrary function of the text in its range.
 */
module Splicing {
  import opened Sorting

  datatype Rewrite = Rewrite(start: nat, end: nat, edit: string -> string)

  /** `text[from:to]`, which clamps its bounds to the text. */
  function Slice(text: string, from: nat, to: nat): string {
    var end := if to < |text| then to else |text|;
    if from < end then text[from..end] else []
  }

  function Splice(text: string, r: Rewrite): string {
    Slice(text, 0, r.start) + r.edit(Slice(text, r.start, r.end)) + Slice(text, r.end, |text|)
  }

  function StartsLater(): (Rewrite, Rewrite) -> bool {
    (r: Rewrite, s: Rewrite) => r.start >= s.start
  }

  function SpliceAll(text: string, rewrites: seq<Rewrite>): string
    decreases |rewrites|
  {
    if rewrites == [] then text else SpliceAll(Splice(text, rewrites[0]), rewrites[1..])
  }

  method ApplyRewrites(original: string, rewrites: seq<Rewrite>) returns (text: string)
    ensures text == SpliceAll(original, Sort(rewrites, StartsLater()))
  {
    var sorted := Sort(rewrites, StartsLater());
    text := original;
    for i := 0 to |sorted|
      invariant SpliceAll(text, sorted[i..]) == SpliceAll(original, sorted)
    {
      var segment := Slice(text, sorted[i].start, sorted[i].end);
      text := Slice(text, 0, sorted[i].start) + sorted[i].edit(segment) + Slice(text, sorted[i].end, |text|);
    }
  }

  // ---------------------------------------------------------------------------------------------
  // Disjoint ranges
  // ---------------------------------------------------------------------------------------------

  /** The first `upto` characters with every range replaced by the edit of what the original has there. */
  function Rewritten(original: string, rewrites: seq<Rewrite>, upto: nat): string
    requires Descending(rewrites, upto) && upto <= |original|
    decreases |rewrites|
  {
    if rewrites == [] then original[..upto]
    else
      var last := rewrites[0];
      Rewritten(original, rewrites[1..], last.start) + last.edit(original[last.start..last.end])
      + original[last.end..upto]
  }

  /** Ranges from right to left, none overlapping the next, all within the first `upto` characters. */
  predicate Descending(rewrites: seq<Rewrite>, upto: nat)
    decreases |rewrites|
  {
    rewrites == [] || (rewrites[0].start <= rewrites[0].end <= upto && Descending(rewrites[1..], rewrites[0].start))
  }

  lemma {:induction false} SplicingIsSimultaneous(original: string, rewrites: seq<Rewrite>, upto: nat, tail: string)
    requires Descending(rewrites, upto) && upto <= |original|
    ensures SpliceAll(original[..upto] + tail, rewrites) == Rewritten(original, rewrites, upto) + tail
    decreases |rewrites|
  {
    if rewrites != [] {
      hide Splice, SpliceAll, Rewritten;
      var r := rewrites[0];
      var edited := r.edit(original[r.start..r.end]);
      var rest := edited + (original[r.end..upto] + tail);
      SpliceStep(original, r, upto, tail);
      SpliceFirst(original[..upto] + tail, rewrites);
      SplicingIsSimultaneous(original, rewrites[1..], r.start, rest);
      Unfolded(original, rewrites, upto);
      Regrouped(Rewritten(original, rewrites[1..], r.start), edited, original[r.end..upto], tail);
    }
  }

  lemma Regrouped(a: string, b: string, c: string, d: string)
    ensures a + (b + (c + d)) == a + b + c + d
  {
  }

  lemma SpliceFirst(text: string, rewrites: seq<Rewrite>)
    requires rewrites != []
    ensures SpliceAll(text, rewrites) == SpliceAll(Splice(text, rewrites[0]), rewrites[1..])
  {
    hide Splice;
  }

  lemma SpliceStep(original: string, r: Rewrite, upto: nat, tail: string)
    requires r.start <= r.end <= upto <= |original|
    ensures Splice(original[..upto] + tail, r)
            == original[..r.start] + (r.edit(original[r.start..r.end]) + (original[r.end..upto] + tail))
  {
    var text := original[..upto] + tail;
    assert Slice(text, 0, r.start) == original[..r.start];
    assert Slice(text, r.start, r.end) == original[r.start..r.end];
    assert Slice(text, r.end, |text|) == original[r.end..upto] + tail;
  }

  predicate Disjoint(r: Rewrite, s: Rewrite) {
    r.end <= s.start || s.end <= r.start
  }

  function AreDisjoint(): (Rewrite, Rewrite) -> bool {
    (r: Rewrite, s: Rewrite) => Disjoint(r, s)
  }

  predicate InText(original: string, r: Rewrite) {
    r.start < r.end <= |original|
  }

  lemma {:induction false} DisjointDescend(rewrites: seq<Rewrite>, upto: nat)
    requires Sorted(rewrites, StartsLater()) && Pairwise(rewrites, AreDisjoint())
    requires forall i :: 0 <= i < |rewrites| ==> rewrites[i].start < rewrites[i].end <= upto
    ensures Descending(rewrites, upto)
    decreases |rewrites|
  {
    if rewrites != [] {
      forall i | 0 < i < |rewrites| ensures rewrites[i].end <= rewrites[0].start {
        assert StartsLater()(rewrites[0], rewrites[i]);
        assert AreDisjoint()(rewrites[0], rewrites[i]);
      }
      var rest := rewrites[1..];
      assert Sorted(rest, StartsLater());
      assert Pairwise(rest, AreDisjoint()) by {
        forall i, j | 0 <= i < |rest| && 0 <= j < |rest| && i != j ensures AreDisjoint()(rest[i], rest[j]) {
          assert AreDisjoint()(rewrites[i + 1], rewrites[j + 1]);
        }
      }
      DisjointDescend(rest, rewrites[0].start);
    }
  }

  lemma SortedDescend(original: string, rewrites: seq<Rewrite>)
    requires Pairwise(rewrites, AreDisjoint()) && forall r :: r in rewrites ==> InText(original, r)
    ensures Descending(Sort(rewrites, StartsLater()), |original|)
  {
    var sorted := Sort(rewrites, StartsLater());
    assert TotalPreorder(StartsLater());
    SortIsSorted(rewrites, StartsLater());
    SortKeepsPairwise(rewrites, StartsLater(), AreDisjoint());
    SortKeepsMembers(rewrites, StartsLater());
    forall i | 0 <= i < |sorted| ensures sorted[i].start < sorted[i].end <= |original| {
      assert sorted[i] in sorted;
    }
    DisjointDescend(sorted, |original|);
  }

  /** For ranges that do not overlap, in whatever order they were collected, splicing rewrites them all at once. */
  lemma DisjointRewritesAreExact(original: string, rewrites: seq<Rewrite>)
    requires Pairwise(rewrites, AreDisjoint()) && forall r :: r in rewrites ==> InText(original, r)
    ensures var sorted := Sort(rewrites, StartsLater());
            Descending(sorted, |original|) && SpliceAll(original, sorted) == Rewritten(original, sorted, |original|)
  {
    SortedDescend(original, rewrites);
    var sorted := Sort(rewrites, StartsLater());
    assert original[..|original|] + [] == original;
    SplicingIsSimultaneous(original, sorted, |original|, []);
  }

  /** How far the text at a position moves: by what the ranges before it grow. */
  function Shift(original: string, rewrites: seq<Rewrite>, upto: nat, p: nat): int
    requires Descending(rewrites, upto) && upto <= |original|
    decreases |rewrites|
  {
    if rewrites == [] then 0
    else
      var r := rewrites[0];
      Shift(original, rewrites[1..], r.start, p)
      + if r.end <= p then |r.edit(original[r.start..r.end])| - (r.end - r.start) else 0
  }

  ghost predicate Outside(rewrites: seq<Rewrite>, p: nat) {
    forall i :: 0 <= i < |rewrites| ==> p < rewrites[i].start || rewrites[i].end <= p
  }

  lemma {:induction false} RewrittenLength(original: string, rewrites: seq<Rewrite>, upto: nat)
    requires Descending(rewrites, upto) && upto <= |original|
    ensures |Rewritten(original, rewrites, upto)| == upto + Shift(original, rewrites, upto, upto)
    ensures forall p :: p >= upto ==> Shift(original, rewrites, upto, p) == Shift(original, rewrites, upto, upto)
    decreases |rewrites|
  {
    if rewrites != [] {
      RewrittenLength(original, rewrites[1..], rewrites[0].start);
    }
  }

  /** Text outside every range is kept, and moves by what the ranges before it grow. */
  lemma {:induction false} OutsideIsKept(original: string, rewrites: seq<Rewrite>, upto: nat, p: nat)
    requires Descending(rewrites, upto) && upto <= |original| && p < upto && Outside(rewrites, p)
    ensures var q := p + Shift(original, rewrites, upto, p);
            0 <= q < |Rewritten(original, rewrites, upto)| && Rewritten(original, rewrites, upto)[q] == original[p]
    decreases |rewrites|
  {
    if rewrites != [] {
      var r, rest := rewrites[0], rewrites[1..];
      var before := Rewritten(original, rest, r.start);
      var edited := r.edit(original[r.start..r.end]);
      RewrittenLength(original, rest, r.start);
      if p < r.start {
        assert Outside(rest, p);
        OutsideIsKept(original, rest, r.start, p);
      } else {
        assert Shift(original, rest, r.start, p) == |before| - r.start;
        assert (before + edited + original[r.end..upto])[|before| + |edited| + (p - r.end)] == original[p];
      }
    }
  }

  /** Each range holds the edit of its original text, and moves by what the ranges before it grow. */
  lemma {:induction false} InsideIsEdited(original: string, rewrites: seq<Rewrite>, upto: nat, i: nat)
    requires Descending(rewrites, upto) && upto <= |original| && i < |rewrites|
    ensures rewrites[i].start <= rewrites[i].end <= |original| && Descending(rewrites[i + 1..], rewrites[i].start)
    ensures var r := rewrites[i];
            var at := r.start + Shift(original, rewrites[i + 1..], r.start, r.start);
            var edited := r.edit(original[r.start..r.end]);
            && 0 <= at && at + |edited| <= |Rewritten(original, rewrites, upto)|
            && Rewritten(original, rewrites, upto)[at..at + |edited|] == edited
    decreases |rewrites|
  {
    var r, rest := rewrites[0], rewrites[1..];
    var before := Rewritten(original, rest, r.start);
    var edited := r.edit(original[r.start..r.end]);
    RewrittenLength(original, rest, r.start);
    hide Rewritten, Shift;
    assert Rewritten(original, rewrites, upto) == before + edited + original[r.end..upto] by {
      Unfolded(original, rewrites, upto);
    }
    if i == 0 {
      assert (before + edited + original[r.end..upto])[|before|..|before| + |edited|] == edited;
    } else {
      InsideIsEdited(original, rest, r.start, i - 1);
      assert rest[i..] == rewrites[i + 1..];
      var s := rest[i - 1];
      var at := s.start + Shift(original, rest[i..], s.start, s.start);
      var inner := s.edit(original[s.start..s.end]);
      SliceOfPrefix(before, edited, original[r.end..upto], at, |inner|);
    }
  }

  lemma Unfolded(original: string, rewrites: seq<Rewrite>, upto: nat)
    requires Descending(rewrites, upto) && upto <= |original| && rewrites != []
    ensures var r := rewrites[0];
            Rewritten(original, rewrites, upto)
            == Rewritten(original, rewrites[1..], r.start) + r.edit(original[r.start..r.end]) + original[r.end..upto]
  {
  }

  lemma SliceOfPrefix(before: string, a: string, b: string, at: nat, n: nat)
    requires at + n <= |before|
    ensures (before + a + b)[at..at + n] == before[at..at + n]
  {
  }
}
