/** Stable sorting, as both host languages sort, and the code-unit order of strings. */
module Sorting {

  function Insert<T>(x: T, s: seq<T>, leq: (T, T) -> bool): seq<T> {
    if s == [] then [x]
    else if leq(x, s[0]) then [x] + s
    else [s[0]] + Insert(x, s[1..], leq)
  }

  /** Insertion from the right, before the first element that is not smaller: equal elements keep their order. */
  function Sort<T>(s: seq<T>, leq: (T, T) -> bool): seq<T> {
    if s == [] then [] else Insert(s[0], Sort(s[1..], leq), leq)
  }

  ghost predicate Sorted<T>(s: seq<T>, leq: (T, T) -> bool) {
    forall i, j :: 0 <= i < j < |s| ==> leq(s[i], s[j])
  }

  ghost predicate TotalPreorder<T(!new)>(leq: (T, T) -> bool) {
    && (forall x, y :: leq(x, y) || leq(y, x))
    && (forall x, y, z :: leq(x, y) && leq(y, z) ==> leq(x, z))
  }

  ghost predicate TotalOrder<T(!new)>(leq: (T, T) -> bool) {
    && TotalPreorder(leq)
    && (forall x, y :: leq(x, y) && leq(y, x) ==> x == y)
  }

  lemma {:induction false} InsertIsPermutation<T>(x: T, s: seq<T>, leq: (T, T) -> bool)
    ensures multiset(Insert(x, s, leq)) == multiset{x} + multiset(s)
  {
    if s == [] || leq(x, s[0]) {
      assert multiset([x] + s) == multiset{x} + multiset(s);
    } else {
      InsertIsPermutation(x, s[1..], leq);
      assert s == [s[0]] + s[1..];
    }
  }

  lemma {:induction false} SortIsPermutation<T>(s: seq<T>, leq: (T, T) -> bool)
    ensures multiset(Sort(s, leq)) == multiset(s) && |Sort(s, leq)| == |s|
  {
    if s != [] {
      SortIsPermutation(s[1..], leq);
      InsertIsPermutation(s[0], Sort(s[1..], leq), leq);
      assert s == [s[0]] + s[1..];
      assert |Sort(s, leq)| == |multiset(Sort(s, leq))|;
    }
  }

  lemma {:induction false} InsertKeepsSorted<T(!new)>(x: T, s: seq<T>, leq: (T, T) -> bool)
    requires TotalPreorder(leq) && Sorted(s, leq)
    ensures Sorted(Insert(x, s, leq), leq)
  {
    if s == [] {
    } else if leq(x, s[0]) {
      forall j | 0 <= j < |s| ensures leq(x, s[j]) {
        assert j > 0 ==> leq(s[0], s[j]);
      }
    } else {
      InsertKeepsSorted(x, s[1..], leq);
      InsertIsPermutation(x, s[1..], leq);
      var rest := Insert(x, s[1..], leq);
      forall j | 0 <= j < |rest| ensures leq(s[0], rest[j]) {
        assert rest[j] in multiset(rest);
        if rest[j] != x {
          assert rest[j] in multiset(s[1..]);
          var k :| 0 <= k < |s[1..]| && s[1..][k] == rest[j];
          assert leq(s[0], s[k + 1]);
        }
      }
    }
  }

  lemma {:induction false} SortIsSorted<T(!new)>(s: seq<T>, leq: (T, T) -> bool)
    requires TotalPreorder(leq)
    ensures Sorted(Sort(s, leq), leq)
  {
    if s != [] {
      SortIsSorted(s[1..], leq);
      InsertKeepsSorted(s[0], Sort(s[1..], leq), leq);
    }
  }

  lemma FirstIsLeast<T(!new)>(s: seq<T>, x: T, leq: (T, T) -> bool)
    requires TotalPreorder(leq) && Sorted(s, leq) && s != [] && x in multiset(s)
    ensures leq(s[0], x)
  {
    var i :| 0 <= i < |s| && s[i] == x;
    assert leq(s[0], s[0]);
    if i > 0 {
      assert leq(s[0], s[i]);
    }
  }

  lemma TailOf<T>(s: seq<T>)
    requires s != []
    ensures multiset(s[1..]) == multiset(s) - multiset{s[0]} && s == [s[0]] + s[1..]
  {
    assert s == [s[0]] + s[1..];
  }

  /** Sorting what is sorted changes nothing. */
  lemma {:induction false} SortOfSorted<T(!new)>(s: seq<T>, leq: (T, T) -> bool)
    requires Sorted(s, leq)
    ensures Sort(s, leq) == s
  {
    if s != [] {
      SortOfSorted(s[1..], leq);
      assert s[1..] != [] ==> s[1] == s[1..][0] && leq(s[0], s[1]);
    }
  }

  /** No two different elements compare equal both ways. */
  ghost predicate NoTies<T(!new)>(s: seq<T>, leq: (T, T) -> bool) {
    forall x, y :: x in s && y in s && leq(x, y) && leq(y, x) ==> x == y
  }

  lemma SameFirst<T(!new)>(s: seq<T>, t: seq<T>, leq: (T, T) -> bool)
    requires TotalPreorder(leq) && NoTies(s, leq) && Sorted(s, leq) && Sorted(t, leq) && multiset(s) == multiset(t)
    requires s != [] && t != []
    ensures s[0] == t[0]
  {
    hide TotalPreorder, Sorted;
    assert s[0] in multiset(s) && t[0] in multiset(t);
    assert s[0] in multiset(t) && t[0] in multiset(s);
    FirstIsLeast(s, t[0], leq);
    FirstIsLeast(t, s[0], leq);
    assert t[0] in s;
  }

  /** Without ties a sorted arrangement is unique. */
  lemma {:induction false} SortedIsUnique<T(!new)>(s: seq<T>, t: seq<T>, leq: (T, T) -> bool)
    requires TotalPreorder(leq) && NoTies(s, leq) && Sorted(s, leq) && Sorted(t, leq) && multiset(s) == multiset(t)
    ensures s == t
  {
    assert |s| == |multiset(s)| == |multiset(t)| == |t|;
    if s != [] {
      SameFirst(s, t, leq);
      TailOf(s);
      TailOf(t);
      assert Sorted(s[1..], leq) && Sorted(t[1..], leq) && NoTies(s[1..], leq);
      hide TotalPreorder, Sorted, NoTies;
      SortedIsUnique(s[1..], t[1..], leq);
    }
  }

  lemma SortIsCanonical<T(!new)>(s: seq<T>, t: seq<T>, leq: (T, T) -> bool)
    requires TotalPreorder(leq) && NoTies(s, leq)
    ensures Sort(s, leq) == Sort(t, leq) <==> multiset(s) == multiset(t)
  {
    SortIsPermutation(s, leq);
    SortIsPermutation(t, leq);
    SortIsSorted(s, leq);
    SortIsSorted(t, leq);
    if multiset(s) == multiset(t) {
      SortKeepsMembers(s, leq);
      SortedIsUnique(Sort(s, leq), Sort(t, leq), leq);
    }
  }

  // ---------------------------------------------------------------------------------------------
  // What holds of every two elements
  // ---------------------------------------------------------------------------------------------

  predicate NoDuplicates<T(==)>(s: seq<T>) {
    forall i, j :: 0 <= i < j < |s| ==> s[i] != s[j]
  }

  ghost predicate Pairwise<T(!new)>(s: seq<T>, related: (T, T) -> bool) {
    forall i, j :: 0 <= i < |s| && 0 <= j < |s| && i != j ==> related(s[i], s[j])
  }

  lemma SortKeepsMembers<T>(s: seq<T>, leq: (T, T) -> bool)
    ensures forall x :: x in Sort(s, leq) <==> x in s
  {
    SortIsPermutation(s, leq);
    forall x ensures x in Sort(s, leq) <==> x in s {
      assert x in Sort(s, leq) <==> x in multiset(Sort(s, leq));
      assert x in s <==> x in multiset(s);
    }
  }

  lemma {:induction false} InsertKeepsPairwise<T(!new)>(x: T, s: seq<T>, leq: (T, T) -> bool, related: (T, T) -> bool)
    requires Pairwise(s, related) && forall y :: y in s ==> related(x, y) && related(y, x)
    ensures Pairwise(Insert(x, s, leq), related)
  {
    if s != [] && !leq(x, s[0]) {
      InsertKeepsPairwise(x, s[1..], leq, related);
      InsertIsPermutation(x, s[1..], leq);
      var rest := Insert(x, s[1..], leq);
      forall j | 0 <= j < |rest| ensures related(s[0], rest[j]) && related(rest[j], s[0]) {
        assert rest[j] in multiset(rest);
        if rest[j] != x {
          assert rest[j] in multiset(s[1..]);
          var k :| 0 <= k < |s[1..]| && s[1..][k] == rest[j];
          assert s[k + 1] == rest[j];
        }
      }
    }
  }

  lemma {:induction false} SortKeepsPairwise<T(!new)>(s: seq<T>, leq: (T, T) -> bool, related: (T, T) -> bool)
    requires Pairwise(s, related)
    ensures Pairwise(Sort(s, leq), related)
  {
    if s != [] {
      SortKeepsPairwise(s[1..], leq, related);
      SortKeepsMembers(s[1..], leq);
      forall y | y in Sort(s[1..], leq) ensures related(s[0], y) && related(y, s[0]) {
        var k :| 0 <= k < |s[1..]| && s[1..][k] == y;
        assert s[k + 1] == y;
      }
      InsertKeepsPairwise(s[0], Sort(s[1..], leq), leq, related);
    }
  }

  lemma {:induction false} InsertRelates<T(!new)>(x: T, s: seq<T>, leq: (T, T) -> bool, related: (T, T) -> bool)
    requires Pairwise(Insert(x, s, leq), related)
    ensures Pairwise(s, related) && forall y :: y in s ==> related(x, y) && related(y, x)
  {
    var inserted := Insert(x, s, leq);
    if s != [] {
      var rest := if leq(x, s[0]) then s else Insert(x, s[1..], leq);
      assert inserted == [inserted[0]] + rest;
      PairwiseFirst(inserted, related);
      if leq(x, s[0]) {
        assert inserted[1..] == s;
      } else {
        InsertRelates(x, s[1..], leq, related);
        InsertIsPermutation(x, s[1..], leq);
        forall y | y in s[1..] || y == x ensures y in rest {
          assert y in multiset(rest);
        }
        forall i, j | 0 <= i < |s| && 0 <= j < |s| && i != j ensures related(s[i], s[j]) {
          assert i > 0 ==> s[i] == s[1..][i - 1];
          assert j > 0 ==> s[j] == s[1..][j - 1];
        }
      }
    }
  }

  lemma PairwiseFirst<T(!new)>(s: seq<T>, related: (T, T) -> bool)
    requires Pairwise(s, related) && s != []
    ensures Pairwise(s[1..], related) && forall y :: y in s[1..] ==> related(s[0], y) && related(y, s[0])
  {
    forall i, j | 0 <= i < |s| - 1 && 0 <= j < |s| - 1 && i != j ensures related(s[1..][i], s[1..][j]) {
      assert related(s[i + 1], s[j + 1]);
    }
    forall y | y in s[1..] ensures related(s[0], y) && related(y, s[0]) {
      var k :| 0 <= k < |s| - 1 && s[1..][k] == y;
      assert s[k + 1] == y;
    }
  }

  /** What holds of every two elements holds before sorting exactly if it holds after. */
  lemma {:induction false} SortKeepsPairwiseIff<T(!new)>(s: seq<T>, leq: (T, T) -> bool, related: (T, T) -> bool)
    ensures Pairwise(Sort(s, leq), related) <==> Pairwise(s, related)
  {
    if Pairwise(s, related) {
      SortKeepsPairwise(s, leq, related);
    }
    if Pairwise(Sort(s, leq), related) && s != [] {
      InsertRelates(s[0], Sort(s[1..], leq), leq, related);
      SortKeepsPairwiseIff(s[1..], leq, related);
      SortKeepsMembers(s[1..], leq);
      forall i, j | 0 <= i < |s| && 0 <= j < |s| && i != j ensures related(s[i], s[j]) {
        assert i > 0 ==> s[i] == s[1..][i - 1] && s[i] in s[1..];
        assert j > 0 ==> s[j] == s[1..][j - 1] && s[j] in s[1..];
      }
    }
  }

  // ---------------------------------------------------------------------------------------------
  // Stability
  // ---------------------------------------------------------------------------------------------

  function Filter<T>(s: seq<T>, keep: T -> bool): seq<T> {
    if s == [] then [] else (if keep(s[0]) then [s[0]] else []) + Filter(s[1..], keep)
  }

  lemma {:induction false} FilterAppend<T>(s: seq<T>, t: seq<T>, keep: T -> bool)
    ensures Filter(s + t, keep) == Filter(s, keep) + Filter(t, keep)
  {
    if s == [] {
      assert s + t == t;
    } else {
      FilterAppend(s[1..], t, keep);
      assert (s + t)[1..] == s[1..] + t;
      var head := if keep(s[0]) then [s[0]] else [];
      assert Filter(s, keep) == head + Filter(s[1..], keep);
      assert Filter(s + t, keep) == head + Filter(s[1..] + t, keep);
      hide Filter;
    }
  }

  lemma FilterCons<T>(x: T, s: seq<T>, keep: T -> bool)
    ensures Filter([x] + s, keep) == if keep(x) then [x] + Filter(s, keep) else Filter(s, keep)
  {
    assert ([x] + s)[1..] == s;
  }

  lemma FilterFirst<T>(s: seq<T>, keep: T -> bool)
    requires s != []
    ensures Filter(s, keep) == (if keep(s[0]) then [s[0]] else []) + Filter(s[1..], keep)
  {
  }

  lemma {:induction false} InsertKeepsOrder<T>(x: T, s: seq<T>, leq: (T, T) -> bool, keep: T -> bool)
    requires keep(x) ==> forall y :: y in s && keep(y) ==> leq(x, y)
    ensures Filter(Insert(x, s, leq), keep) == (if keep(x) then [x] else []) + Filter(s, keep)
  {
    hide Filter;
    FilterNone(keep);
    if s == [] {
      FilterCons(x, [], keep);
      assert [x] + [] == [x];
    } else if leq(x, s[0]) {
      FilterCons(x, s, keep);
    } else {
      assert Insert(x, s, leq) == [s[0]] + Insert(x, s[1..], leq);
      hide Insert;
      InsertKeepsOrder(x, s[1..], leq, keep);
      FilterCons(s[0], Insert(x, s[1..], leq), keep);
      FilterCons(s[0], s[1..], keep);
      assert [s[0]] + s[1..] == s;
      assert keep(x) ==> !keep(s[0]);
    }
  }

  lemma FilterNone<T>(keep: T -> bool)
    ensures Filter([], keep) == []
  {
  }

  /** Sorting never reorders elements that compare equal both ways. */
  lemma {:induction false} SortIsStable<T>(s: seq<T>, leq: (T, T) -> bool, keep: T -> bool)
    requires forall x, y :: x in s && y in s && keep(x) && keep(y) ==> leq(x, y)
    ensures Filter(Sort(s, leq), keep) == Filter(s, keep)
  {
    if s != [] {
      SortIsStable(s[1..], leq, keep);
      SortIsPermutation(s[1..], leq);
      forall y | y in Sort(s[1..], leq) ensures y in s {
        assert y in multiset(Sort(s[1..], leq));
        assert y in s[1..];
      }
      InsertKeepsOrder(s[0], Sort(s[1..], leq), leq, keep);
    }
  }

  /** Compares equal both ways. */
  function TiesWith<T>(x: T, leq: (T, T) -> bool): T -> bool {
    (y: T) => leq(x, y) && leq(y, x)
  }

  /** In both lists each element's ties, itself among them, are the same and come in the same order. */
  ghost predicate SameTies<T(!new)>(s: seq<T>, t: seq<T>, leq: (T, T) -> bool) {
    forall x :: Filter(s, TiesWith(x, leq)) == Filter(t, TiesWith(x, leq))
  }

  /** What sorting remembers of two lists: they are sorted the same way exactly if they agree on ties. */
  lemma SortsAlikeIff<T(!new)>(s: seq<T>, t: seq<T>, leq: (T, T) -> bool)
    requires TotalPreorder(leq)
    ensures Sort(s, leq) == Sort(t, leq) <==> SameTies(s, t, leq)
  {
    forall x
      ensures Filter(Sort(s, leq), TiesWith(x, leq)) == Filter(s, TiesWith(x, leq))
      ensures Filter(Sort(t, leq), TiesWith(x, leq)) == Filter(t, TiesWith(x, leq))
    {
      TiesStay(s, x, leq);
      TiesStay(t, x, leq);
    }
    if SameTies(s, t, leq) {
      SortIsSorted(s, leq);
      SortIsSorted(t, leq);
      SortedByTies(Sort(s, leq), Sort(t, leq), leq);
    }
  }

  lemma TiesStay<T(!new)>(s: seq<T>, x: T, leq: (T, T) -> bool)
    requires TotalPreorder(leq)
    ensures Filter(Sort(s, leq), TiesWith(x, leq)) == Filter(s, TiesWith(x, leq))
  {
    forall y, z | y in s && z in s && TiesWith(x, leq)(y) && TiesWith(x, leq)(z) ensures leq(y, z) {
      assert leq(y, x) && leq(x, z);
    }
    SortIsStable(s, leq, TiesWith(x, leq));
  }

  lemma SortKeepsTies<T(!new)>(s: seq<T>, t: seq<T>, leq: (T, T) -> bool)
    requires TotalPreorder(leq)
    ensures SameTies(Sort(s, leq), Sort(t, leq), leq) <==> SameTies(s, t, leq)
  {
    forall x
      ensures Filter(Sort(s, leq), TiesWith(x, leq)) == Filter(s, TiesWith(x, leq))
      ensures Filter(Sort(t, leq), TiesWith(x, leq)) == Filter(t, TiesWith(x, leq))
    {
      TiesStay(s, x, leq);
      TiesStay(t, x, leq);
    }
  }

  lemma {:induction false} SortedByTies<T(!new)>(s: seq<T>, t: seq<T>, leq: (T, T) -> bool)
    requires TotalPreorder(leq) && Sorted(s, leq) && Sorted(t, leq) && SameTies(s, t, leq)
    ensures s == t
  {
    hide Filter;
    if s != [] {
      TieOfFirst(s, t, leq);
    }
    if t != [] {
      TieOfFirst(t, s, leq);
      assert s[0] == t[0] by { FirstTie(s, t, leq); }
      forall x ensures Filter(s[1..], TiesWith(x, leq)) == Filter(t[1..], TiesWith(x, leq)) {
        RestAlike(s, t, TiesWith(x, leq));
      }
      SortedByTies(s[1..], t[1..], leq);
    }
  }

  lemma RestAlike<T(!new)>(s: seq<T>, t: seq<T>, keep: T -> bool)
    requires s != [] && t != [] && s[0] == t[0] && Filter(s, keep) == Filter(t, keep)
    ensures Filter(s[1..], keep) == Filter(t[1..], keep)
  {
    hide Filter;
    var head := if keep(s[0]) then [s[0]] else [];
    FilterFirst(s, keep);
    FilterFirst(t, keep);
    assert Filter(s, keep)[|head|..] == Filter(s[1..], keep);
    assert Filter(t, keep)[|head|..] == Filter(t[1..], keep);
  }

  /** The first of one list ties with some element of the other, and is no greater than the other's first. */
  lemma TieOfFirst<T(!new)>(s: seq<T>, t: seq<T>, leq: (T, T) -> bool)
    requires TotalPreorder(leq) && Sorted(t, leq) && SameTies(s, t, leq) && s != []
    ensures t != [] && leq(t[0], s[0])
  {
    var keep := TiesWith(s[0], leq);
    assert leq(s[0], s[0]) && keep(s[0]);
    FilterFirst(s, keep);
    hide Filter;
    assert Filter(t, keep) == Filter(s, keep) && Filter(s, keep)[0] == s[0];
    FilterNone(keep);
    FilteredIsMember(t, keep);
    assert s[0] in Filter(t, keep);
    FirstIsLeast(t, s[0], leq);
  }

  lemma {:induction false} FilteredIsMember<T(!new)>(s: seq<T>, keep: T -> bool)
    ensures forall x :: x in Filter(s, keep) ==> x in s
  {
    if s != [] {
      FilteredIsMember(s[1..], keep);
    }
  }

  lemma FirstTie<T(!new)>(s: seq<T>, t: seq<T>, leq: (T, T) -> bool)
    requires SameTies(s, t, leq) && s != [] && t != [] && TotalPreorder(leq) && leq(s[0], t[0]) && leq(t[0], s[0])
    ensures s[0] == t[0]
  {
    var keep := TiesWith(s[0], leq);
    assert leq(s[0], s[0]);
    FilterFirst(s, keep);
    FilterFirst(t, keep);
    hide Filter;
    assert Filter(s, keep)[0] == s[0] && Filter(t, keep)[0] == t[0];
  }

  /** Every arrangement of these elements is sorted the same way. */
  ghost predicate OrderIsForgotten<T(!new)>(s: seq<T>, leq: (T, T) -> bool) {
    forall t :: multiset(t) == multiset(s) ==> Sort(t, leq) == Sort(s, leq)
  }

  /** Sorting forgets the order of a list exactly if it has no ties: tied elements stay in the order they came in. */
  lemma SortForgetsOrderIff<T(!new)>(s: seq<T>, leq: (T, T) -> bool)
    requires TotalPreorder(leq)
    ensures NoTies(s, leq) <==> OrderIsForgotten(s, leq)
  {
    if NoTies(s, leq) {
      forall t | multiset(t) == multiset(s) ensures Sort(t, leq) == Sort(s, leq) {
        SortIsCanonical(s, t, leq);
      }
    } else {
      var t := TiesAreRemembered(s, leq);
    }
  }

  lemma TiesAreRemembered<T(!new)>(s: seq<T>, leq: (T, T) -> bool) returns (t: seq<T>)
    requires TotalPreorder(leq) && !NoTies(s, leq)
    ensures multiset(t) == multiset(s) && Sort(t, leq) != Sort(s, leq)
  {
    var x, y :| x in s && y in s && leq(x, y) && leq(y, x) && x != y;
    hide Sort, NoTies;
    var rest := WithoutBoth(s, x, y);
    TiesKeepOrder(x, y, rest, leq);
    hide TotalPreorder;
    var first, second := [x, y] + rest, [y, x] + rest;
    assert multiset(first) == multiset(s) && multiset(second) == multiset(s);
    t := if Sort(first, leq) != Sort(s, leq) then first else second;
  }

  lemma WithoutBoth<T>(s: seq<T>, x: T, y: T) returns (rest: seq<T>)
    requires x in s && y in s && x != y
    ensures multiset(s) == multiset{x, y} + multiset(rest)
  {
    var i :| 0 <= i < |s| && s[i] == x;
    var one := s[..i] + s[i + 1..];
    assert s == s[..i] + [x] + s[i + 1..];
    assert multiset(s) == multiset{x} + multiset(one);
    assert y in multiset(one);
    var j :| 0 <= j < |one| && one[j] == y;
    rest := one[..j] + one[j + 1..];
    assert one == one[..j] + [y] + one[j + 1..];
  }

  lemma TiesKeepOrder<T(!new)>(x: T, y: T, rest: seq<T>, leq: (T, T) -> bool)
    requires TotalPreorder(leq) && leq(x, y) && leq(y, x) && x != y
    ensures Sort([x, y] + rest, leq) != Sort([y, x] + rest, leq)
  {
    ghost var keep := (z: T) => z == x || z == y;
    SortIsStable([x, y] + rest, leq, keep);
    SortIsStable([y, x] + rest, leq, keep);
    FilterPair(x, y, rest, keep);
    FilterPair(y, x, rest, keep);
    assert ([x, y] + Filter(rest, keep))[0] != ([y, x] + Filter(rest, keep))[0];
  }

  lemma FilterPair<T>(x: T, y: T, rest: seq<T>, keep: T -> bool)
    requires keep(x) && keep(y)
    ensures Filter([x, y] + rest, keep) == [x, y] + Filter(rest, keep)
  {
    hide Filter;
    assert [x, y] + rest == [x] + ([y] + rest);
    FilterCons(x, [y] + rest, keep);
    FilterCons(y, rest, keep);
  }

  // ---------------------------------------------------------------------------------------------
  // The greatest size
  // ---------------------------------------------------------------------------------------------

  function Greatest<T>(s: seq<T>, size: T -> nat): nat {
    if s == [] then 0
    else
      var rest := Greatest(s[1..], size);
      if size(s[0]) > rest then size(s[0]) else rest
  }

  lemma {:induction false} GreatestBounds<T(!new)>(s: seq<T>, size: T -> nat)
    ensures forall x :: x in s ==> size(x) <= Greatest(s, size)
  {
    if s != [] {
      GreatestBounds(s[1..], size);
    }
  }

  // ---------------------------------------------------------------------------------------------
  // Strings
  // ---------------------------------------------------------------------------------------------

  predicate StringLeq(a: string, b: string) {
    a == [] || (b != [] && (a[0] < b[0] || (a[0] == b[0] && StringLeq(a[1..], b[1..]))))
  }

  lemma {:induction false} StringLeqTotal(a: string, b: string)
    ensures StringLeq(a, b) || StringLeq(b, a)
    ensures StringLeq(a, b) && StringLeq(b, a) ==> a == b
  {
    if a != [] && b != [] {
      StringLeqTotal(a[1..], b[1..]);
      assert a == [a[0]] + a[1..] && b == [b[0]] + b[1..];
    }
  }

  lemma {:induction false} StringLeqTransitive(a: string, b: string, c: string)
    requires StringLeq(a, b) && StringLeq(b, c)
    ensures StringLeq(a, c)
  {
    if a != [] && b != [] && c != [] && a[0] == b[0] == c[0] {
      StringLeqTransitive(a[1..], b[1..], c[1..]);
    }
  }

  lemma StringLeqIsTotalOrder()
    ensures TotalOrder(StringLeq)
  {
    forall a, b
      ensures StringLeq(a, b) || StringLeq(b, a)
      ensures StringLeq(a, b) && StringLeq(b, a) ==> a == b
    {
      StringLeqTotal(a, b);
    }
    forall a, b, c | StringLeq(a, b) && StringLeq(b, c) ensures StringLeq(a, c) {
      StringLeqTransitive(a, b, c);
    }
  }
}
