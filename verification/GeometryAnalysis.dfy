/**
 * The figure check for floating geometry: it links parts at most a threshold apart, finds the components, takes
 * the one of largest volume as the main one, and reports the others with their distance from it.
 *
 * The gap between two parts and the volume of a part are parameters.
 */
module GeometryAnalysis {
  import BoxGaps
  import opened Components
  import opened Outcomes
  import opened Sorting

  type Gap = (string, string) -> real

  datatype Issue = Issue(parts: seq<string>, nearestPart: string, gap: real, threshold: real)

  /** Parts `i` and `j` of the list are linked when the earlier one's gap to the later one is at most the threshold. */
  predicate Near(names: seq<string>, gap: Gap, threshold: real, i: nat, j: nat)
    requires i < |names| && j < |names|
  {
    if i < j then gap(names[i], names[j]) <= threshold else i > j && gap(names[j], names[i]) <= threshold
  }

  /** The links after comparing the pairs up to (left, right), in the program's order. */
  ghost predicate LinksUpTo(names: seq<string>, gap: Gap, threshold: real, links: Links, left: nat, right: nat) {
    && links.Keys == Elements(names)
    && (forall x :: x in links ==> links[x] <= links.Keys)
    && (forall i, j :: 0 <= i < |names| && 0 <= j < |names| && names[i] in links && names[j] in links ==>
          (names[j] in links[names[i]] <==> Near(names, gap, threshold, i, j) && Compared(i, j, left, right)))
  }

  predicate Compared(i: nat, j: nat, left: nat, right: nat) {
    var (lo, hi) := if i < j then (i, j) else (j, i);
    lo < left || (lo == left && hi < right)
  }

  /** adjacency.get(at).add(other) */
  function Entered(links: Links, at: string, other: string): (r: Links)
    requires at in links
    ensures r.Keys == links.Keys
  {
    links[at := links[at] + {other}]
  }

  /** Each pair once; a close pair is entered on both sides. */
  method LinkParts(names: seq<string>, gap: Gap, threshold: real) returns (links: Links)
    requires NoDuplicates(names)
    ensures LinksUpTo(names, gap, threshold, links, |names|, 0)
  {
    hide Near, Compared, Entered;
    links := map x | x in Elements(names) :: {};
    NothingCompared(names, gap, threshold, links);
    hide LinksUpTo, NoDuplicates, Elements;
    for leftIndex := 0 to |names|
      invariant LinksUpTo(names, gap, threshold, links, leftIndex, leftIndex + 1)
    {
      for rightIndex := leftIndex + 1 to |names|
        invariant LinksUpTo(names, gap, threshold, links, leftIndex, rightIndex)
      {
        var leftName, rightName := names[leftIndex], names[rightIndex];
        LinkKeys(names, gap, threshold, links, leftIndex, rightIndex);
        ghost var before := links;
        if gap(leftName, rightName) <= threshold {
          links := Entered(links, leftName, rightName);
          links := Entered(links, rightName, leftName);
        }
        PairLinked(names, gap, threshold, before, links, leftIndex, rightIndex);
      }
      RowDone(names, gap, threshold, links, leftIndex);
    }
    AllRowsDone(names, gap, threshold, links);
  }

  lemma NothingCompared(names: seq<string>, gap: Gap, threshold: real, links: Links)
    requires links == map x | x in Elements(names) :: {}
    ensures LinksUpTo(names, gap, threshold, links, 0, 1)
  {
  }

  lemma LinkKeys(names: seq<string>, gap: Gap, threshold: real, links: Links, left: nat, right: nat)
    requires LinksUpTo(names, gap, threshold, links, left, right)
    ensures forall i :: 0 <= i < |names| ==> names[i] in links
  {
    assert forall i :: 0 <= i < |names| ==> names[i] in Elements(names);
  }

  lemma PairLinked(names: seq<string>, gap: Gap, threshold: real, before: Links, after: Links, left: nat, right: nat)
    requires NoDuplicates(names) && left < right < |names| && LinksUpTo(names, gap, threshold, before, left, right)
    requires names[left] in before && names[right] in before
    requires after == if gap(names[left], names[right]) <= threshold
                      then Entered(Entered(before, names[left], names[right]), names[right], names[left])
                      else before
    ensures LinksUpTo(names, gap, threshold, after, left, right + 1)
  {
    assert names[left] != names[right];
    forall i, j | 0 <= i < |names| && 0 <= j < |names| && names[i] in after && names[j] in after
      ensures names[j] in after[names[i]] <==> Near(names, gap, threshold, i, j) && Compared(i, j, left, right + 1)
    {
      assert names[i] == names[left] <==> i == left;
      assert names[i] == names[right] <==> i == right;
      assert names[j] == names[left] <==> j == left;
      assert names[j] == names[right] <==> j == right;
    }
  }

  lemma RowDone(names: seq<string>, gap: Gap, threshold: real, links: Links, left: nat)
    requires left < |names| && LinksUpTo(names, gap, threshold, links, left, |names|)
    ensures LinksUpTo(names, gap, threshold, links, left + 1, left + 2)
  {
  }

  lemma AllRowsDone(names: seq<string>, gap: Gap, threshold: real, links: Links)
    requires LinksUpTo(names, gap, threshold, links, |names|, |names| + 1)
    ensures LinksUpTo(names, gap, threshold, links, |names|, 0)
  {
    hide Near;
  }

  /** Two different parts are linked exactly when they are near, in either order. */
  lemma LinksAre(names: seq<string>, gap: Gap, threshold: real, links: Links)
    requires NoDuplicates(names) && LinksUpTo(names, gap, threshold, links, |names|, 0)
    ensures Graph(links) && links.Keys == Elements(names)
    ensures forall i, j :: 0 <= i < |names| && 0 <= j < |names| && names[i] in links ==>
              (names[j] in links[names[i]] <==> Near(names, gap, threshold, i, j))
  {
    forall x, y | x in links && y in links && y in links[x] ensures x in links[y] {
      var i :| 0 <= i < |names| && names[i] == x;
      var j :| 0 <= j < |names| && names[j] == y;
      assert Near(names, gap, threshold, j, i);
    }
  }

  /** Whether the boxes of two parts meet once a margin is added between them. */
  type Meeting = (string, string) -> (real -> bool)

  /** The gaps are those the gap search finds for boxes that, once they meet, go on meeting. */
  ghost predicate GapsOfBoxes(names: seq<string>, meets: Meeting, gap: Gap) {
    forall x, y :: x in names && y in names ==>
      && BoxGaps.Monotone(meets(x, y))
      && if meets(x, y)(0.0) then gap(x, y) == 0.0 else BoxGaps.GapFound(meets(x, y), gap(x, y))
  }

  /**
   * What a link says of the boxes: linked parts meet at the threshold, and parts not linked are still apart a
   * resolution of the search below it.
   */
  lemma LinksDecideMeeting(
      names: seq<string>, meets: Meeting, gap: Gap, threshold: real, links: Links, i: nat, j: nat)
    requires NoDuplicates(names) && LinksUpTo(names, gap, threshold, links, |names|, 0) && i < j < |names|
    requires GapsOfBoxes(names, meets, gap) && 0.0 <= threshold < 20.48
    ensures names[i] in links
    ensures names[j] in links[names[i]] ==> meets(names[i], names[j])(threshold)
    ensures names[j] !in links[names[i]] ==>
              forall margin ::
                margin + gap(names[i], names[j]) / 131072.0 <= threshold && margin + 0.01 / 262144.0 <= threshold ==>
                  !meets(names[i], names[j])(margin)
  {
    LinksAre(names, gap, threshold, links);
    var x, y := names[i], names[j];
    assert x in Elements(names) && x in names && y in names;
    hide LinksUpTo, BoxGaps.GapFound;
    if !meets(x, y)(0.0) {
      BoxGaps.GapDecides(meets(x, y), gap(x, y), threshold);
    }
  }

  // ---------------------------------------------------------------------------------------------
  // The main component, and how far the others are from it
  // ---------------------------------------------------------------------------------------------

  function ComponentVolume(component: seq<string>, volume: string -> real): real {
    if component == [] then 0.0
    else ComponentVolume(component[..|component| - 1], volume) + volume(component[|component| - 1])
  }

  /** Before (i, j), going through the component and for each part of it through the main component. */
  predicate Earlier(x: nat, y: nat, i: nat, j: nat) {
    x < i || (x == i && y < j)
  }

  /** The gap of pair (i, j) is the least among the pairs before (upto, 0), and the first of that size. */
  ghost predicate FirstLeast(
      component: seq<string>, main: seq<string>, gap: Gap, i: nat, j: nat, upto: nat, further: nat)
    requires upto <= |component| && further <= |main| && (further > 0 ==> upto < |component|)
  {
    && i < |component| && j < |main| && Earlier(i, j, upto, further)
    && forall x, y :: 0 <= x < |component| && 0 <= y < |main| && Earlier(x, y, upto, further) ==>
         var (g, least) := (gap(component[x], main[y]), gap(component[i], main[j]));
         least <= g && (Earlier(x, y, i, j) ==> least < g)
  }

  /** The nearest gap is the least over all pairs, and the part is the one of the first pair that attains it. */
  ghost predicate Nearest(component: seq<string>, main: seq<string>, gap: Gap, nearestPart: string, nearestGap: real) {
    exists i: nat, j: nat :: NearestAt(component, main, gap, nearestPart, nearestGap, i, j)
  }

  ghost predicate NearestAt(
    component: seq<string>, main: seq<string>, gap: Gap, nearestPart: string, nearestGap: real, i: nat, j: nat)
  {
    && FirstLeast(component, main, gap, i, j, |component|, 0)
    && nearestPart == main[j] && nearestGap == gap(component[i], main[j])
  }

  lemma NearestIsAGap(component: seq<string>, main: seq<string>, gap: Gap, nearestPart: string, nearestGap: real)
    requires Nearest(component, main, gap, nearestPart, nearestGap)
    ensures nearestPart in main && exists p :: p in component && gap(p, nearestPart) == nearestGap
  {
    var i: nat, j: nat :| NearestAt(component, main, gap, nearestPart, nearestGap, i, j);
    assert component[i] in component;
  }

  /** One pair further: it takes over when it is nearer than all pairs before. */
  lemma FirstLeastStep(
      component: seq<string>, main: seq<string>, gap: Gap, p: nat, q: nat, i: nat, j: nat)
    requires i < |component| && j < |main|
    ensures i == j == 0 ==> FirstLeast(component, main, gap, i, j, i, j + 1)
    ensures FirstLeast(component, main, gap, p, q, i, j) ==>
              if gap(component[i], main[j]) < gap(component[p], main[q])
              then FirstLeast(component, main, gap, i, j, i, j + 1)
              else FirstLeast(component, main, gap, p, q, i, j + 1)
  {
    assert forall x, y :: Earlier(x, y, i, j + 1) ==> Earlier(x, y, i, j) || (x == i && y == j);
  }

  lemma FirstLeastRow(component: seq<string>, main: seq<string>, gap: Gap, p: nat, q: nat, i: nat)
    requires i < |component| && FirstLeast(component, main, gap, p, q, i, |main|)
    ensures FirstLeast(component, main, gap, p, q, i + 1, 0)
  {
  }

  method NearestGap(component: seq<string>, main: seq<string>, gap: Gap) returns (nearestPart: string, nearestGap: real)
    requires component != [] && main != []
    ensures Nearest(component, main, gap, nearestPart, nearestGap)
  {
    nearestPart := "";
    var nearest: Option<real> := None;
    ghost var p: nat, q: nat := 0, 0;
    hide FirstLeast;
    for i := 0 to |component|
      invariant nearest.None? <==> i == 0
      invariant p < |component| && q < |main|
      invariant nearest.Some? ==> FirstLeast(component, main, gap, p, q, i, 0)
      invariant nearest.Some? ==> nearestPart == main[q] && nearest.value == gap(component[p], main[q])
    {
      for j := 0 to |main|
        invariant nearest.None? <==> i == 0 && j == 0
        invariant p < |component| && q < |main|
        invariant nearest.Some? ==> FirstLeast(component, main, gap, p, q, i, j)
        invariant nearest.Some? ==> nearestPart == main[q] && nearest.value == gap(component[p], main[q])
      {
        var g := gap(component[i], main[j]);
        FirstLeastStep(component, main, gap, p, q, i, j);
        if nearest.None? || g < nearest.value {
          nearest := Some(g);
          nearestPart := main[j];
          p, q := i, j;
        }
      }
      FirstLeastRow(component, main, gap, p, q, i);
    }
    nearestGap := nearest.value;
    assert NearestAt(component, main, gap, nearestPart, nearestGap, p, q);
  }

  /**
   * What is reported, given the component taken as the main one: with it, the reported parts are exactly the
   * components; it has the largest volume, and the reports follow by volume; each names its parts in order, and its
   * distance from the main component is the least one, above the threshold.
   */
  ghost predicate Reports(
      links: Links, gap: Gap, volume: string -> real, threshold: real, main: seq<string>, issues: seq<Issue>)
  {
    && AreComponents(links, [main] + Parts(issues))
    && (forall k :: 0 <= k < |issues| ==>
          && ComponentVolume(issues[k].parts, volume) <= ComponentVolume(main, volume)
          && Sorted(issues[k].parts, StringLeq)
          && issues[k].threshold == threshold < issues[k].gap
          && Nearest(issues[k].parts, main, gap, issues[k].nearestPart, issues[k].gap))
    && (forall j, k :: 0 <= j < k < |issues| ==>
          ComponentVolume(issues[k].parts, volume) <= ComponentVolume(issues[j].parts, volume))
  }

  function Parts(issues: seq<Issue>): seq<seq<string>> {
    seq(|issues|, k requires 0 <= k < |issues| => issues[k].parts)
  }

  ghost predicate Connected(links: Links) {
    forall x, y :: x in links && y in links ==> Linked(links, x, y)
  }

  /** Reordering whole components keeps them the components. */
  lemma {:induction false} ReorderedComponents(links: Links, before: seq<seq<string>>, after: seq<seq<string>>)
    requires AreComponents(links, before) && multiset(before) == multiset(after)
    ensures AreComponents(links, after)
  {
    hide Linked;
    forall c | 0 <= c < |after| ensures after[c] in before {
      assert after[c] in multiset(after);
    }
    forall x | x in links ensures exists c :: 0 <= c < |after| && x in after[c] {
      var d :| 0 <= d < |before| && x in before[d];
      assert before[d] in multiset(before);
      var c :| 0 <= c < |after| && after[c] == before[d];
      assert x in after[c];
    }
    forall c, d, x, y | 0 <= c < |after| && 0 <= d < |after| && x in after[c] && y in after[d]
      ensures c == d <==> Linked(links, x, y)
    {
      assert after[c] in before && after[d] in before;
      var c' :| 0 <= c' < |before| && before[c'] == after[c];
      var d' :| 0 <= d' < |before| && before[d'] == after[d];
      ComponentsDiffer(links, before);
      OnlyOnce(before, after, c, d);
    }
  }

  /** No component is listed twice. */
  lemma ComponentsDiffer(links: Links, components: seq<seq<string>>)
    requires AreComponents(links, components)
    ensures forall c, d :: 0 <= c < |components| && 0 <= d < |components| && components[c] == components[d] ==> c == d
  {
    hide Linked;
    forall c, d | 0 <= c < |components| && 0 <= d < |components| && components[c] == components[d] ensures c == d {
      var x := components[c][0];
      assert x in components[c] && x in components[d];
      assert Linked(links, x, x);
    }
  }

  lemma OnlyOnce(before: seq<seq<string>>, after: seq<seq<string>>, c: nat, d: nat)
    requires multiset(before) == multiset(after) && c < |after| && d < |after|
    requires forall i, j :: 0 <= i < |before| && 0 <= j < |before| && before[i] == before[j] ==> i == j
    ensures after[c] == after[d] ==> c == d
  {
    DistinctCount(before, after[c]);
    CountTwice(after, c, d);
  }

  lemma {:induction false} DistinctCount(s: seq<seq<string>>, x: seq<string>)
    requires forall i, j :: 0 <= i < |s| && 0 <= j < |s| && s[i] == s[j] ==> i == j
    ensures multiset(s)[x] <= 1
    decreases |s|
  {
    if s != [] {
      var init, last := s[..|s| - 1], s[|s| - 1];
      assert s == init + [last];
      DistinctCount(init, x);
      forall i | 0 <= i < |init| ensures init[i] != last {
        assert s[i] == s[|s| - 1] ==> i == |s| - 1;
      }
      assert last !in multiset(init);
    }
  }

  lemma CountTwice(s: seq<seq<string>>, c: nat, d: nat)
    requires c < |s| && d < |s|
    ensures c != d && s[c] == s[d] ==> multiset(s)[s[c]] >= 2
  {
    if c < d {
      assert s == s[..d] + [s[d]] + s[d + 1..] && s[c] in s[..d];
    } else if d < c {
      assert s == s[..c] + [s[c]] + s[c + 1..] && s[d] in s[..c];
    }
  }

  /** Parts of different components are further apart than the threshold, in either order of a symmetric gap. */
  lemma ApartAcross(
      names: seq<string>, gap: Gap, threshold: real, links: Links, components: seq<seq<string>>, c: nat, d: nat,
      p: string, m: string)
    requires NoDuplicates(names) && LinksUpTo(names, gap, threshold, links, |names|, 0)
    requires AreComponents(links, components) && c < |components| && d < |components| && c != d
    requires p in components[c] && m in components[d]
    requires forall x, y :: gap(x, y) == gap(y, x)
    ensures gap(p, m) > threshold
  {
    LinksAre(names, gap, threshold, links);
    assert p in Elements(components[c]) && m in Elements(components[d]);
    var i :| 0 <= i < |names| && names[i] == p;
    var j :| 0 <= j < |names| && names[j] == m;
    assert !Linked(links, p, m) && Linked(links, p, p);
    if Near(names, gap, threshold, i, j) {
      LinkedStep(links, p, p, m);
    }
    assert !Near(names, gap, threshold, i, j) && (i == j ==> Linked(links, p, m));
  }

  /**
   * The outcome of the analysis: over the links that join exactly the parts at most the threshold apart, nothing is
   * reported just when a chain joins any two parts, and otherwise every component but the main one is.
   */
  ghost predicate Analysed(
    names: seq<string>, gap: Gap, volume: string -> real, threshold: real, links: Links, main: seq<string>,
    issues: seq<Issue>)
  {
    && LinksUpTo(names, gap, threshold, links, |names|, 0)
    && (issues == [] <==> Connected(links))
    && (names != [] ==> Reports(links, gap, volume, threshold, main, issues))
  }

  method AnalyzeFigureGeometry(
      names: seq<string>, gap: Gap, volume: string -> real, threshold: real)
    returns (issues: seq<Issue>)
    requires NoDuplicates(names)
    requires forall x, y :: gap(x, y) == gap(y, x)
    ensures exists links, main :: Analysed(names, gap, volume, threshold, links, main, issues)
  {
    var adjacency := LinkParts(names, gap, threshold);
    LinksAre(names, gap, threshold, adjacency);
    hide LinksUpTo, AreComponents, NoDuplicates, Linked, Nearest;
    if |names| <= 1 {
      if names != [] {
        SinglePart(names, adjacency);
        assert [names] + Parts([]) == [names];
      } else {
        assert adjacency.Keys == {};
      }
      assert Analysed(names, gap, volume, threshold, adjacency, names, []);
      return [];
    }
    var components := FindComponents(names, adjacency);
    assert names[0] in Elements(names);
    if |components| == 1 {
      assert [components[0]] + Parts([]) == components;
      OneComponentIff(adjacency, components);
      assert Analysed(names, gap, volume, threshold, adjacency, components[0], []);
      return [];
    }
    var sorted := LargestFirst(components, volume, adjacency);
    OneComponentIff(adjacency, sorted);
    issues := ReportOthers(names, gap, threshold, adjacency, sorted);
    AssembleReports(adjacency, gap, volume, threshold, sorted, issues);
    hide Reports, Connected;
    assert Analysed(names, gap, volume, threshold, adjacency, sorted[0], issues);
  }

  lemma AssembleReports(
      links: Links, gap: Gap, volume: string -> real, threshold: real, sorted: seq<seq<string>>, issues: seq<Issue>)
    requires AreComponents(links, sorted) && sorted != [] && |issues| == |sorted| - 1
    requires forall k :: 0 <= k < |issues| ==> ReportOf(issues[k], sorted[k + 1], sorted[0], gap, threshold)
    requires forall j, k :: 0 <= j < k < |sorted| ==>
               ComponentVolume(sorted[k], volume) <= ComponentVolume(sorted[j], volume)
    requires forall k :: 0 <= k < |sorted| ==> Sorted(sorted[k], StringLeq)
    ensures Reports(links, gap, volume, threshold, sorted[0], issues)
  {
    hide AreComponents, Nearest, ComponentVolume, Sorted;
    assert [sorted[0]] + Parts(issues) == sorted;
  }

  method LargestFirst(
      components: seq<seq<string>>, volume: string -> real, ghost links: Links)
    returns (sorted: seq<seq<string>>)
    requires AreComponents(links, components) && components != []
    requires forall k :: 0 <= k < |components| ==> Sorted(components[k], StringLeq)
    ensures AreComponents(links, sorted) && |sorted| == |components|
    ensures forall j, k :: 0 <= j < k < |sorted| ==>
              ComponentVolume(sorted[k], volume) <= ComponentVolume(sorted[j], volume)
    ensures forall k :: 0 <= k < |sorted| ==> Sorted(sorted[k], StringLeq)
  {
    hide AreComponents, ComponentVolume;
    var byVolume := (a: seq<string>, b: seq<string>) => ComponentVolume(a, volume) >= ComponentVolume(b, volume);
    sorted := Sort(components, byVolume);
    SortIsPermutation(components, byVolume);
    SortIsSorted(components, byVolume);
    ReorderedComponents(links, components, sorted);
    SortKeepsMembers(components, byVolume);
    forall k | 0 <= k < |sorted| ensures Sorted(sorted[k], StringLeq) {
      assert sorted[k] in sorted;
    }
    forall j, k | 0 <= j < k < |sorted|
      ensures ComponentVolume(sorted[k], volume) <= ComponentVolume(sorted[j], volume)
    {
      assert byVolume(sorted[j], sorted[k]);
    }
  }

  method ReportOthers(names: seq<string>, gap: Gap, threshold: real, ghost links: Links, components: seq<seq<string>>)
    returns (issues: seq<Issue>)
    requires NoDuplicates(names) && LinksUpTo(names, gap, threshold, links, |names|, 0)
    requires forall x, y :: gap(x, y) == gap(y, x)
    requires AreComponents(links, components) && components != []
    ensures |issues| == |components| - 1
    ensures forall k :: 0 <= k < |issues| ==> ReportOf(issues[k], components[k + 1], components[0], gap, threshold)
  {
    NonemptyComponents(links, components);
    hide AreComponents, LinksUpTo, NoDuplicates;
    issues := [];
    for k := 1 to |components|
      invariant |issues| == k - 1
      invariant forall n :: 0 <= n < k - 1 ==> ReportOf(issues[n], components[n + 1], components[0], gap, threshold)
    {
      var nearestPart, nearestGap := NearestGap(components[k], components[0], gap);
      NearestIsAGap(components[k], components[0], gap, nearestPart, nearestGap);
      ghost var p :| p in components[k] && gap(p, nearestPart) == nearestGap;
      ApartAcross(names, gap, threshold, links, components, k, 0, p, nearestPart);
      issues := issues + [Issue(components[k], nearestPart, nearestGap, threshold)];
    }
  }

  ghost predicate ReportOf(issue: Issue, component: seq<string>, main: seq<string>, gap: Gap, threshold: real) {
    && issue.parts == component && issue.threshold == threshold < issue.gap
    && Nearest(component, main, gap, issue.nearestPart, issue.gap)
  }

  lemma NonemptyComponents(links: Links, components: seq<seq<string>>)
    requires AreComponents(links, components)
    ensures forall c :: 0 <= c < |components| ==> components[c] != []
  {
  }

  lemma SinglePart(names: seq<string>, links: Links)
    requires |names| == 1 && Graph(links) && links.Keys == Elements(names)
    ensures AreComponents(links, [names]) && Connected(links)
  {
    LinkedReflexive(links, names[0]);
    assert names[0] in [names][0];
    assert Elements(names) == {names[0]};
  }

  lemma OneComponentIff(links: Links, components: seq<seq<string>>)
    requires AreComponents(links, components) && links.Keys != {}
    ensures |components| >= 1
    ensures Connected(links) <==> |components| == 1
  {
    var x :| x in links;
    assert exists c :: 0 <= c < |components| && x in components[c];
    if |components| > 1 {
      var y, z := components[0][0], components[1][0];
      assert y in components[0] && z in components[1];
      assert y in Elements(components[0]) && z in Elements(components[1]);
      assert !Linked(links, y, z);
    } else {
      forall x, y | x in links && y in links ensures Linked(links, x, y) {
        assert x in components[0] && y in components[0];
      }
    }
  }

  // ---------------------------------------------------------------------------------------------
  // Volumes
  // ---------------------------------------------------------------------------------------------

  /** The volume of a component is the sum of its parts', in any order. */
  lemma {:induction false} VolumeAdds(a: seq<string>, b: seq<string>, volume: string -> real)
    ensures ComponentVolume(a + b, volume) == ComponentVolume(a, volume) + ComponentVolume(b, volume)
    ensures forall part :: ComponentVolume([part], volume) == volume(part)
    ensures ComponentVolume([], volume) == 0.0
    decreases |b|
  {
    forall part ensures ComponentVolume([part], volume) == volume(part) {
      assert [part][..0] == [];
    }
    if b == [] {
      assert a + b == a;
    } else {
      assert (a + b)[..|a + b| - 1] == a + b[..|b| - 1];
      VolumeAdds(a, b[..|b| - 1], volume);
    }
  }
}
