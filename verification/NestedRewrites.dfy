/**
 * Rewrites of ranges nested in each other, as methods in the body of a method are. Splicing goes from the last start to
 * the first, so a range is spliced with the end it had before the ranges inside it were edited.
 */
module NestedRewrites {
  import opened Sorting
  import opened Splicing

  /** A range, the ranges inside it and the ranges behind it. */
  datatype Forest = Nil | Node(range: Rewrite, inside: Forest, behind: Forest)

  /** The ranges in the order in which they are spliced. */
  function Ranges(f: Forest): seq<Rewrite> {
    match f
    case Nil => []
    case Node(r, inside, behind) => Ranges(behind) + Ranges(inside) + [r]
  }

  predicate Fits(f: Forest, from: nat, upto: nat) {
    match f
    case Nil => from <= upto
    case Node(r, inside, behind) =>
      from <= r.start <= r.end <= upto && Fits(inside, r.start, r.end) && Fits(behind, r.end, upto)
  }

  /** The text between two positions with each range replaced by the edit of what the ranges inside it leave. */
  function Edited(original: string, f: Forest, from: nat, upto: nat): string
    requires Fits(f, from, upto) && upto <= |original|
  {
    match f
    case Nil => original[from..upto]
    case Node(r, inside, behind) =>
      original[from..r.start]
      + r.edit(Edited(original, inside, r.start, r.end))
      + Edited(original, behind, r.end, upto)
  }

  /** Splicing all ranges, in a text that goes on with `tail`, gives that text. */
  ghost predicate IsExact(original: string, f: Forest, from: nat, upto: nat, tail: string)
    requires Fits(f, from, upto) && upto <= |original|
  {
    SpliceAll(original[..upto] + tail, Ranges(f)) == original[..from] + Edited(original, f, from, upto) + tail
  }

  /** So it does for each range with those inside and behind it: after every splice the text is as it should be. */
  ghost predicate EachIsExact(original: string, f: Forest, from: nat, upto: nat, tail: string)
    requires Fits(f, from, upto) && upto <= |original|
  {
    && IsExact(original, f, from, upto, tail)
    && match f
       case Nil => true
       case Node(r, inside, behind) =>
         && EachIsExact(original, behind, r.end, upto, tail)
         && EachIsExact(original, inside, r.start, r.end, Edited(original, behind, r.end, upto) + tail)
  }

  // ---------------------------------------------------------------------------------------------
  // Stale ends
  // ---------------------------------------------------------------------------------------------

  /** By how much the stale end, `cut` characters on, lies beyond a segment that has shrunk. */
  function Overrun(segment: string, after: string, cut: nat): nat
    requires |segment| <= cut
  {
    if cut - |segment| < |after| then cut - |segment| else |after|
  }

  /** What an edit must make of a segment that no longer is `cut` characters long. */
  ghost predicate StaleEndIsHarmless(edit: string -> string, segment: string, after: string, cut: nat) {
    if |segment| >= cut then edit(segment) == edit(segment[..cut]) + segment[cut..]
    else
      var over := after[..Overrun(segment, after, cut)];
      edit(segment + over) == edit(segment) + over
  }

  lemma SameMiddle(before: string, a: string, b: string, after: string)
    ensures before + a + after == before + b + after <==> a == b
  {
    var s, t := before + a + after, before + b + after;
    if s == t {
      assert |a| == |b| && s[|before|..|before| + |a|] == a && t[|before|..|before| + |b|] == b;
    }
  }

  /** The splice of a range that ends where `segment` does, or beyond the end of the text. */
  lemma SpliceReaching(before: string, segment: string, after: string, r: Rewrite)
    requires r.start == |before| && r.end >= |before| + |segment|
    requires r.end == |before| + |segment| || after == []
    ensures Splice(before + segment + after, r) == before + r.edit(segment) + after
  {
    var text := before + segment + after;
    assert Slice(text, 0, r.start) == before;
    assert Slice(text, r.start, r.end) == segment;
    assert Slice(text, r.end, |text|) == after;
  }

  /**
   * One splice replaces just the segment exactly if the edit leaves alone what the stale end cuts off a segment that
   * has grown, or what it reaches of the text behind a segment that has shrunk.
   */
  lemma SpliceIsExactIff(before: string, segment: string, after: string, r: Rewrite)
    requires r.start == |before| && r.start <= r.end
    ensures Splice(before + segment + after, r) == before + r.edit(segment) + after <==>
              StaleEndIsHarmless(r.edit, segment, after, r.end - r.start)
  {
    hide Splice;
    var cut := r.end - r.start;
    if |segment| >= cut {
      assert before + segment + after == before + segment[..cut] + (segment[cut..] + after);
      SpliceReaching(before, segment[..cut], segment[cut..] + after, r);
      assert before + r.edit(segment[..cut]) + (segment[cut..] + after)
          == before + (r.edit(segment[..cut]) + segment[cut..]) + after;
      SameMiddle(before, r.edit(segment), r.edit(segment[..cut]) + segment[cut..], after);
    } else {
      var over := Overrun(segment, after, cut);
      assert before + segment + after == before + (segment + after[..over]) + after[over..];
      SpliceReaching(before, segment + after[..over], after[over..], r);
      assert before + (r.edit(segment) + after[..over]) + after[over..] == before + r.edit(segment) + after;
      SameMiddle(before, r.edit(segment) + after[..over], r.edit(segment + after[..over]), after[over..]);
    }
  }

  // ---------------------------------------------------------------------------------------------
  // Any nesting
  // ---------------------------------------------------------------------------------------------

  /** Each range's stale end does no harm, when what is inside and behind it is as it should be. */
  ghost predicate Harmless(original: string, f: Forest, from: nat, upto: nat, tail: string)
    requires Fits(f, from, upto) && upto <= |original|
  {
    match f
    case Nil => true
    case Node(r, inside, behind) =>
      var after := Edited(original, behind, r.end, upto) + tail;
      && Harmless(original, behind, r.end, upto, tail)
      && Harmless(original, inside, r.start, r.end, after)
      && StaleEndIsHarmless(r.edit, Edited(original, inside, r.start, r.end), after, r.end - r.start)
  }

  lemma {:induction false} SpliceAllAppend(text: string, a: seq<Rewrite>, b: seq<Rewrite>)
    ensures SpliceAll(text, a + b) == SpliceAll(SpliceAll(text, a), b)
    decreases |a|
  {
    hide Splice;
    if a == [] {
      assert a + b == b;
    } else {
      assert (a + b)[1..] == a[1..] + b;
      SpliceAllAppend(Splice(text, a[0]), a[1..], b);
    }
  }

  lemma SpliceLast(text: string, a: seq<Rewrite>, b: seq<Rewrite>, r: Rewrite)
    ensures SpliceAll(text, a + b + [r]) == Splice(SpliceAll(SpliceAll(text, a), b), r)
  {
    SpliceAllAppend(text, a + b, [r]);
    SpliceAllAppend(text, a, b);
    hide Splice;
    var last := SpliceAll(text, a + b);
    assert SpliceAll(last, [r]) == SpliceAll(Splice(last, r), [r][1..]) == Splice(last, r);
  }

  /** With what is inside and behind a range spliced exactly, its own splice is exact exactly if its end is harmless. */
  lemma OutermostIsExactIff(original: string, f: Forest, from: nat, upto: nat, tail: string)
    requires f.Node? && Fits(f, from, upto) && upto <= |original|
    requires IsExact(original, f.behind, f.range.end, upto, tail)
    requires IsExact(original, f.inside, f.range.start, f.range.end,
               Edited(original, f.behind, f.range.end, upto) + tail)
    ensures IsExact(original, f, from, upto, tail) <==>
              StaleEndIsHarmless(f.range.edit, Edited(original, f.inside, f.range.start, f.range.end),
                  Edited(original, f.behind, f.range.end, upto) + tail, f.range.end - f.range.start)
  {
    hide Splice, SpliceAll, Edited, StaleEndIsHarmless, Ranges;
    var r := f.range;
    assert Fits(f.behind, r.end, upto) && Fits(f.inside, r.start, r.end) && r.start <= r.end;
    hide Fits;
    var segment, behind := Edited(original, f.inside, r.start, r.end), Edited(original, f.behind, r.end, upto);
    SpliceLast(original[..upto] + tail, Ranges(f.behind), Ranges(f.inside), r);
    assert Ranges(f) == Ranges(f.behind) + Ranges(f.inside) + [r] by { RangesOf(f); }
    Unfolded(original, f, from, upto, tail);
    assert original[..r.end] + behind + tail == original[..r.end] + (behind + tail);
    SpliceIsExactIff(original[..r.start], segment, behind + tail, r);
  }

  lemma RangesOf(f: Forest)
    ensures Ranges(f) == if f.Nil? then [] else Ranges(f.behind) + Ranges(f.inside) + [f.range]
  {
  }

  lemma Unfolded(original: string, f: Forest, from: nat, upto: nat, tail: string)
    requires f.Node? && Fits(f, from, upto) && upto <= |original|
    ensures var r := f.range;
            original[..from] + Edited(original, f, from, upto) + tail
            == original[..r.start] + r.edit(Edited(original, f.inside, r.start, r.end))
               + (Edited(original, f.behind, r.end, upto) + tail)
  {
    assert original[..f.range.start] == original[..from] + original[from..f.range.start];
  }

  /** After every splice the text is as it should be exactly if no stale end does harm. */
  lemma {:induction false} EachIsExactIff(original: string, f: Forest, from: nat, upto: nat, tail: string)
    requires Fits(f, from, upto) && upto <= |original|
    ensures EachIsExact(original, f, from, upto, tail) <==> Harmless(original, f, from, upto, tail)
    ensures Harmless(original, f, from, upto, tail) ==> IsExact(original, f, from, upto, tail)
  {
    hide IsExact, StaleEndIsHarmless;
    match f
    case Nil =>
      NothingIsExact(original, from, upto, tail);
    case Node(r, inside, behind) =>
      var after := Edited(original, behind, r.end, upto) + tail;
      EachIsExactIff(original, behind, r.end, upto, tail);
      EachIsExactIff(original, inside, r.start, r.end, after);
      if IsExact(original, behind, r.end, upto, tail) && IsExact(original, inside, r.start, r.end, after) {
        OutermostIsExactIff(original, f, from, upto, tail);
      }
  }

  lemma NothingIsExact(original: string, from: nat, upto: nat, tail: string)
    requires from <= upto <= |original|
    ensures IsExact(original, Nil, from, upto, tail)
  {
    assert original[..upto] == original[..from] + original[from..upto];
  }

  // ---------------------------------------------------------------------------------------------
  // The list of a file
  // ---------------------------------------------------------------------------------------------

  predicate Nested(outer: Rewrite, inner: Rewrite) {
    outer.start < inner.start < inner.end <= outer.end
  }

  function AreApartOrNested(): (Rewrite, Rewrite) -> bool {
    (r: Rewrite, s: Rewrite) => Disjoint(r, s) || Nested(r, s) || Nested(s, r)
  }

  /** How many of the ranges, from the last one, begin at `end` or later. */
  function BehindCount(rewrites: seq<Rewrite>, end: nat): (k: nat)
    ensures k <= |rewrites| && (forall i :: 0 <= i < k ==> rewrites[i].start >= end)
    ensures k < |rewrites| ==> rewrites[k].start < end
  {
    if rewrites == [] || rewrites[0].start < end then 0 else 1 + BehindCount(rewrites[1..], end)
  }

  /** The ranges of a list by descending start, as they lie in each other. */
  function ForestOf(rewrites: seq<Rewrite>): Forest
    decreases |rewrites|
  {
    if rewrites == [] then Nil
    else
      var (rest, r) := (rewrites[..|rewrites| - 1], rewrites[|rewrites| - 1]);
      var k := BehindCount(rest, r.end);
      Node(r, ForestOf(rest[k..]), ForestOf(rest[..k]))
  }

  lemma ForestStep(rewrites: seq<Rewrite>)
    ensures rewrites == [] ==> ForestOf(rewrites) == Nil
    ensures rewrites != [] ==>
              var (rest, r) := (rewrites[..|rewrites| - 1], rewrites[|rewrites| - 1]);
              var k := BehindCount(rest, r.end);
              ForestOf(rewrites) == Node(r, ForestOf(rest[k..]), ForestOf(rest[..k]))
  {
    hide BehindCount;
  }

  lemma {:induction false} ForestHasRanges(rewrites: seq<Rewrite>)
    ensures Ranges(ForestOf(rewrites)) == rewrites
    decreases |rewrites|
  {
    hide Ranges, BehindCount, ForestOf;
    ForestStep(rewrites);
    RangesOf(ForestOf(rewrites));
    if rewrites != [] {
      var rest, r := rewrites[..|rewrites| - 1], rewrites[|rewrites| - 1];
      var k := BehindCount(rest, r.end);
      ForestHasRanges(rest[k..]);
      ForestHasRanges(rest[..k]);
      assert rest[..k] + rest[k..] + [r] == rewrites;
    }
  }

  ghost predicate Between(rewrites: seq<Rewrite>, from: nat, upto: nat) {
    from <= upto && forall i :: 0 <= i < |rewrites| ==> from <= rewrites[i].start < rewrites[i].end <= upto
  }

  lemma {:induction false} ForestFits(rewrites: seq<Rewrite>, from: nat, upto: nat)
    requires Sorted(rewrites, StartsLater()) && Pairwise(rewrites, AreApartOrNested()) && Between(rewrites, from, upto)
    ensures Fits(ForestOf(rewrites), from, upto)
    decreases |rewrites|
  {
    hide BehindCount, ForestOf;
    ForestStep(rewrites);
    if rewrites != [] {
      var n := |rewrites| - 1;
      var rest, r := rewrites[..n], rewrites[n];
      var k := BehindCount(rest, r.end);
      PartKeepsOrder(rewrites, k, n);
      PartKeepsOrder(rewrites, 0, k);
      assert rest[k..] == rewrites[k..n] && rest[..k] == rewrites[0..k];
      forall i | k <= i < n ensures r.start <= rewrites[i].start < rewrites[i].end <= r.end {
        assert i > k ==> StartsLater()(rewrites[k], rewrites[i]);
        assert StartsLater()(rewrites[i], r) && AreApartOrNested()(rewrites[i], r);
      }
      forall i | 0 <= i < k ensures r.end <= rewrites[i].start < rewrites[i].end <= upto {
        assert rest[i] == rewrites[i];
      }
      ForestFits(rest[k..], r.start, r.end);
      ForestFits(rest[..k], r.end, upto);
    }
  }

  lemma PartKeepsOrder(rewrites: seq<Rewrite>, i: nat, j: nat)
    requires Sorted(rewrites, StartsLater()) && Pairwise(rewrites, AreApartOrNested()) && i <= j <= |rewrites|
    ensures Sorted(rewrites[i..j], StartsLater()) && Pairwise(rewrites[i..j], AreApartOrNested())
  {
    var part := rewrites[i..j];
    forall k, l | 0 <= k < l < |part| ensures StartsLater()(part[k], part[l]) {
      assert StartsLater()(rewrites[i + k], rewrites[i + l]);
    }
    forall k, l | 0 <= k < |part| && 0 <= l < |part| && k != l ensures AreApartOrNested()(part[k], part[l]) {
      assert AreApartOrNested()(rewrites[i + k], rewrites[i + l]);
    }
  }

  /** The nesting of the ranges of a text, in whatever order they were collected. */
  lemma ForestOfText(original: string, rewrites: seq<Rewrite>)
    requires Pairwise(rewrites, AreApartOrNested()) && forall r :: r in rewrites ==> InText(original, r)
    ensures var sorted := Sort(rewrites, StartsLater());
            Fits(ForestOf(sorted), 0, |original|) && Ranges(ForestOf(sorted)) == sorted
  {
    var sorted := Sort(rewrites, StartsLater());
    assert TotalPreorder(StartsLater());
    hide TotalPreorder, Sort, Sorted, Pairwise, ForestOf, Ranges, Fits, AreApartOrNested, StartsLater;
    SortIsSorted(rewrites, StartsLater());
    SortKeepsPairwise(rewrites, StartsLater(), AreApartOrNested());
    SortKeepsMembers(rewrites, StartsLater());
    forall i | 0 <= i < |sorted| ensures 0 <= sorted[i].start < sorted[i].end <= |original| {
      assert sorted[i] in sorted;
    }
    ForestHasRanges(sorted);
    ForestFits(sorted, 0, |original|);
  }

  /**
   * The whole list of a file, ranges apart or nested to any depth: after every splice the text is as it should be
   * exactly if no stale end does harm, and then so is the text in the end.
   */
  lemma RewritesAreExactIff(original: string, rewrites: seq<Rewrite>)
    requires Pairwise(rewrites, AreApartOrNested()) && forall r :: r in rewrites ==> InText(original, r)
    ensures var sorted := Sort(rewrites, StartsLater());
            var f := ForestOf(sorted);
            && Fits(f, 0, |original|)
            && (EachIsExact(original, f, 0, |original|, []) <==> Harmless(original, f, 0, |original|, []))
            && (Harmless(original, f, 0, |original|, []) ==>
                  SpliceAll(original, sorted) == Edited(original, f, 0, |original|))
  {
    var sorted := Sort(rewrites, StartsLater());
    var f := ForestOf(sorted);
    ForestOfText(original, rewrites);
    hide *;
    EachIsExactIff(original, f, 0, |original|, []);
    if IsExact(original, f, 0, |original|, []) {
      ExactText(original, f);
    }
  }

  lemma ExactText(original: string, f: Forest)
    requires Fits(f, 0, |original|) && IsExact(original, f, 0, |original|, [])
    ensures SpliceAll(original, Ranges(f)) == Edited(original, f, 0, |original|)
  {
    hide SpliceAll, Ranges, Edited;
    assert original[..|original|] + [] == original;
    assert original[..0] + Edited(original, f, 0, |original|) + [] == Edited(original, f, 0, |original|);
  }

  // ---------------------------------------------------------------------------------------------
  // Edits that keep the length, and pairs
  // ---------------------------------------------------------------------------------------------

  /** No edit changes the length of what is in its range. */
  ghost predicate KeepsLengths(original: string, f: Forest, from: nat, upto: nat)
    requires Fits(f, from, upto) && upto <= |original|
  {
    match f
    case Nil => true
    case Node(r, inside, behind) =>
      && |r.edit(Edited(original, inside, r.start, r.end))| == r.end - r.start
      && KeepsLengths(original, inside, r.start, r.end) && KeepsLengths(original, behind, r.end, upto)
  }

  lemma {:induction false} LengthsAreKept(original: string, f: Forest, from: nat, upto: nat)
    requires Fits(f, from, upto) && upto <= |original| && KeepsLengths(original, f, from, upto)
    ensures |Edited(original, f, from, upto)| == upto - from
  {
    if f.Node? {
      LengthsAreKept(original, f.inside, f.range.start, f.range.end);
      LengthsAreKept(original, f.behind, f.range.end, upto);
    }
  }

  lemma FullSegmentIsHarmless(edit: string -> string, segment: string, after: string)
    ensures StaleEndIsHarmless(edit, segment, after, |segment|)
  {
    assert segment[..|segment|] == segment && segment[|segment|..] == [];
  }

  /** Edits that keep the length leave every end valid, at any depth of nesting. */
  lemma {:induction false} KeptLengthsAreHarmless(original: string, f: Forest, from: nat, upto: nat, tail: string)
    requires Fits(f, from, upto) && upto <= |original| && KeepsLengths(original, f, from, upto)
    ensures Harmless(original, f, from, upto, tail)
  {
    hide StaleEndIsHarmless, Edited;
    if f.Node? {
      var r, after := f.range, Edited(original, f.behind, f.range.end, upto) + tail;
      LengthsAreKept(original, f.inside, r.start, r.end);
      FullSegmentIsHarmless(r.edit, Edited(original, f.inside, r.start, r.end), after);
      KeptLengthsAreHarmless(original, f.behind, r.end, upto, tail);
      KeptLengthsAreHarmless(original, f.inside, r.start, r.end, after);
    }
  }

  function Pair(outer: Rewrite, inner: Rewrite): Forest {
    Node(outer, Node(inner, Nil, Nil), Nil)
  }

  /** The outer range once the inner one is edited. */
  function Segment(original: string, outer: Rewrite, inner: Rewrite): string
    requires InText(original, outer) && Nested(outer, inner)
  {
    original[outer.start..inner.start] + inner.edit(original[inner.start..inner.end]) + original[inner.end..outer.end]
  }

  /** Splicing the two ranges gives the outer edit of that segment, in the text around it. */
  ghost predicate NestedIsExact(original: string, outer: Rewrite, inner: Rewrite)
    requires InText(original, outer) && Nested(outer, inner)
  {
    SpliceAll(original, Sort([outer, inner], StartsLater()))
    == original[..outer.start] + outer.edit(Segment(original, outer, inner)) + original[outer.end..]
  }

  /** One range nested in another, and nothing else. */
  lemma NestedIsExactIff(original: string, outer: Rewrite, inner: Rewrite)
    requires InText(original, outer) && Nested(outer, inner)
    ensures NestedIsExact(original, outer, inner) <==>
              StaleEndIsHarmless(outer.edit, Segment(original, outer, inner), original[outer.end..],
                  outer.end - outer.start)
  {
    var f, inside, n := Pair(outer, inner), Node(inner, Nil, Nil), |original|;
    var after := original[outer.end..n] + [];
    assert after == original[outer.end..];
    FullSegmentIsHarmless(inner.edit, original[inner.start..inner.end], original[inner.end..outer.end] + after);
    hide StaleEndIsHarmless, Splice;
    assert Edited(original, inside, outer.start, outer.end) == Segment(original, outer, inner);
    EachIsExactIff(original, inside, outer.start, outer.end, after);
    NothingIsExact(original, outer.end, n, []);
    OutermostIsExactIff(original, f, 0, n, []);
    PairIsSorted(outer, inner);
    Unfolded(original, f, 0, n, []);
    assert original[..n] + [] == original && original[..0] == [];
    hide SpliceAll, Sort, Segment;
  }

  lemma PairIsSorted(outer: Rewrite, inner: Rewrite)
    requires Nested(outer, inner)
    ensures Sort([outer, inner], StartsLater()) == Ranges(Pair(outer, inner)) == [inner, outer]
  {
    var leq := StartsLater();
    assert [outer, inner][1..] == [inner] && [inner][1..] == [];
    assert Sort([inner], leq) == Insert(inner, Sort([], leq), leq) == [inner];
    assert Sort([outer, inner], leq) == Insert(outer, [inner], leq)
           == [inner] + Insert(outer, [], leq) == [inner, outer];
  }

  /** An inner edit that keeps the length leaves the outer end valid. */
  lemma NestedRewriteIsExact(original: string, outer: Rewrite, inner: Rewrite)
    requires InText(original, outer) && Nested(outer, inner)
    requires |inner.edit(original[inner.start..inner.end])| == inner.end - inner.start
    ensures NestedIsExact(original, outer, inner)
  {
    hide NestedIsExact;
    NestedIsExactIff(original, outer, inner);
    FullSegmentIsHarmless(outer.edit, Segment(original, outer, inner), original[outer.end..]);
  }
}
