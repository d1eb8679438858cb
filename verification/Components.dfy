/** Floating pieces of a figure: the connected components of its parts under "at most a threshold apart". */
module Components {
  import opened Outcomes
  import opened Sorting

  type Links = map<string, set<string>>

  function Elements(s: seq<string>): set<string> {
    set x | x in s
  }

  /** A symmetric graph over its own keys. */
  ghost predicate Graph(links: Links) {
    && (forall x :: x in links ==> links[x] <= links.Keys)
    && (forall x, y :: x in links && y in links && y in links[x] ==> x in links[y])
  }

  /** A chain of linked parts. */
  ghost predicate Chain(links: Links, p: seq<string>) {
    && p != []
    && (forall i :: 0 <= i < |p| ==> p[i] in links)
    && (forall i :: 0 <= i < |p| - 1 ==> p[i + 1] in links[p[i]])
  }

  ghost predicate ChainBetween(links: Links, p: seq<string>, x: string, y: string) {
    Chain(links, p) && p[0] == x && p[|p| - 1] == y
  }

  ghost predicate Linked(links: Links, x: string, y: string) {
    exists p :: ChainBetween(links, p, x, y)
  }

  lemma LinkedReflexive(links: Links, x: string)
    requires x in links
    ensures Linked(links, x, x)
  {
    assert ChainBetween(links, [x], x, x);
  }

  lemma LinkedStep(links: Links, x: string, y: string, z: string)
    requires Graph(links) && Linked(links, x, y) && y in links && z in links[y]
    ensures Linked(links, x, z)
  {
    var p :| ChainBetween(links, p, x, y);
    assert ChainBetween(links, p + [z], x, z);
  }

  lemma LinkedTransitive(links: Links, x: string, y: string, z: string)
    requires Linked(links, x, y) && Linked(links, y, z)
    ensures Linked(links, x, z)
  {
    var p :| ChainBetween(links, p, x, y);
    var q :| ChainBetween(links, q, y, z);
    var r := p + q[1..];
    assert forall i :: 0 <= i < |r| ==> r[i] == if i < |p| then p[i] else q[i - |p| + 1];
    assert ChainBetween(links, r, x, z);
  }

  function Reversed(p: seq<string>): seq<string> {
    seq(|p|, i requires 0 <= i < |p| => p[|p| - 1 - i])
  }

  lemma LinkedSymmetric(links: Links, x: string, y: string)
    requires Graph(links) && Linked(links, x, y)
    ensures Linked(links, y, x)
  {
    var p :| ChainBetween(links, p, x, y);
    var r := Reversed(p);
    forall i | 0 <= i < |r| - 1 ensures r[i + 1] in links[r[i]] {
      var j := |p| - 2 - i;
      assert p[j + 1] in links[p[j]];
    }
    assert ChainBetween(links, r, y, x);
  }

  /** A chain that begins in a set closed under links stays in it. */
  lemma {:induction false} ChainStaysInside(links: Links, p: seq<string>, inside: set<string>, k: nat)
    requires Chain(links, p) && p[0] in inside && k < |p|
    requires forall x :: x in inside && x in links ==> links[x] <= inside
    ensures p[k] in inside
    decreases k
  {
    if k > 0 {
      ChainStaysInside(links, p, inside, k - 1);
      assert p[k - 1 + 1] in links[p[k - 1]];
    }
  }

  // ---------------------------------------------------------------------------------------------
  // The worklist
  // ---------------------------------------------------------------------------------------------

  function Without(s: seq<string>, x: string): seq<string> {
    if s == [] then [] else if s[0] == x then Without(s[1..], x) else [s[0]] + Without(s[1..], x)
  }

  lemma {:induction false} WithoutElements(s: seq<string>, x: string)
    ensures Elements(Without(s, x)) == Elements(s) - {x}
    ensures NoDuplicates(s) ==> NoDuplicates(Without(s, x))
    ensures x in s ==> |Without(s, x)| < |s|
    ensures |Without(s, x)| <= |s|
  {
    if s != [] {
      WithoutElements(s[1..], x);
      assert s == [s[0]] + s[1..];
      assert forall y :: y in Without(s[1..], x) <==> y in Elements(Without(s[1..], x));
      assert forall y :: y in s[1..] <==> y in Elements(s[1..]);
      if NoDuplicates(s) {
        TailDistinct(s);
        if s[0] != x {
          assert s[0] !in Without(s[1..], x);
        }
      }
    }
  }

  lemma TailDistinct(s: seq<string>)
    requires NoDuplicates(s) && s != []
    ensures NoDuplicates(s[1..]) && s[0] !in s[1..] && Elements(s) == {s[0]} + Elements(s[1..])
  {
    assert s == [s[0]] + s[1..];
  }

  lemma AppendDistinct(s: seq<string>, x: string)
    requires NoDuplicates(s) && x !in s
    ensures NoDuplicates(s + [x]) && Elements(s + [x]) == Elements(s) + {x}
  {
  }

  lemma LastDistinct(s: seq<string>)
    requires NoDuplicates(s) && s != []
    ensures var last := s[|s| - 1];
            NoDuplicates(s[..|s| - 1]) && last !in s[..|s| - 1] && Elements(s) == Elements(s[..|s| - 1]) + {last}
  {
    assert s == s[..|s| - 1] + [s[|s| - 1]];
  }

  ghost predicate Closed(links: Links, inside: set<string>) {
    inside <= links.Keys && forall x :: x in inside ==> links[x] <= inside
  }

  ghost predicate AllLinked(links: Links, x: string, ys: set<string>) {
    forall y :: y in ys ==> Linked(links, x, y)
  }

  /**
   * The inner loop: everything reachable from `first`, moved out of `remaining`. What had been moved out before,
   * `done`, is closed under links.
   */
  method CollectComponent(links: Links, first: string, others: seq<string>, ghost done: set<string>)
    returns (component: seq<string>, remaining: seq<string>)
    requires Graph(links) && NoDuplicates(others)
    requires Closed(links, done) && first in links && first !in done && first !in others
    requires links.Keys == done + {first} + Elements(others) && done !! Elements(others)
    ensures NoDuplicates(component) && NoDuplicates(remaining) && |remaining| <= |others|
    ensures first in component && AllLinked(links, first, Elements(component))
    ensures Elements(component) !! Elements(remaining)
    ensures Elements(component) + Elements(remaining) == {first} + Elements(others)
    ensures Closed(links, done + Elements(component))
  {
    hide Linked;
    component, remaining := [], others;
    var pending := [first];
    LinkedReflexive(links, first);
    ghost var all := {first} + Elements(others);
    while pending != []
      invariant NoDuplicates(component) && NoDuplicates(pending) && NoDuplicates(remaining) && |remaining| <= |others|
      invariant Elements(component) !! Elements(pending) !! Elements(remaining)
      invariant Elements(component) + Elements(pending) + Elements(remaining) == all
      invariant first in Elements(component) + Elements(pending)
      invariant AllLinked(links, first, Elements(component) + Elements(pending))
      invariant forall x :: x in component ==> links[x] <= done + Elements(component) + Elements(pending)
      decreases |remaining|, |pending|
    {
      var name := pending[|pending| - 1];
      LastDistinct(pending);
      pending := pending[..|pending| - 1];
      AppendDistinct(component, name);
      assert name in Elements(component + [name]);
      component := component + [name];
      ghost var before, size := Elements(component) + Elements(pending), |pending|;
      pending, remaining := PushNeighbours(links, first, name, pending, remaining, Elements(component));
      NeighboursCovered(links, done, all, name, Elements(component) + Elements(pending), Elements(remaining));
    }
    CollectedIsClosed(links, done, component);
  }

  lemma NeighboursCovered(
      links: Links, done: set<string>, all: set<string>, name: string, taken: set<string>, left: set<string>)
    requires Graph(links) && Closed(links, done) && links.Keys == done + all && name in links && name !in done
    requires taken + left == all && links[name] !! left
    ensures links[name] <= done + taken
  {
  }

  lemma CollectedIsClosed(links: Links, done: set<string>, component: seq<string>)
    requires Graph(links) && Closed(links, done) && Elements(component) <= links.Keys
    requires forall x :: x in component ==> links[x] <= done + Elements(component)
    ensures Closed(links, done + Elements(component))
  {
  }

  /** The loop over one part's neighbours: each one still remaining is moved to the pending parts. */
  method PushNeighbours(
      links: Links, ghost first: string, name: string, stack: seq<string>, others: seq<string>,
      ghost component: set<string>)
    returns (pending: seq<string>, remaining: seq<string>)
    requires Graph(links) && name in links && NoDuplicates(stack) && NoDuplicates(others) && name in component
    requires component !! Elements(stack) !! Elements(others)
    requires AllLinked(links, first, component + Elements(stack))
    ensures NoDuplicates(pending) && NoDuplicates(remaining)
    ensures component !! Elements(pending) !! Elements(remaining)
    ensures Elements(pending) + Elements(remaining) == Elements(stack) + Elements(others)
    ensures Elements(stack) <= Elements(pending)
    ensures AllLinked(links, first, component + Elements(pending))
    ensures links[name] !! Elements(remaining)
    ensures |remaining| < |others| || (remaining == others && pending == stack)
  {
    hide Linked;
    pending, remaining := stack, others;
    var todo := links[name];
    while todo != {}
      invariant todo <= links[name]
      invariant NoDuplicates(pending) && NoDuplicates(remaining)
      invariant component !! Elements(pending) !! Elements(remaining)
      invariant Elements(pending) + Elements(remaining) == Elements(stack) + Elements(others)
      invariant Elements(stack) <= Elements(pending)
      invariant AllLinked(links, first, component + Elements(pending))
      invariant links[name] - todo !! Elements(remaining)
      invariant |remaining| < |others| || (remaining == others && pending == stack)
      decreases todo
    {
      var neighbour :| neighbour in todo;
      todo := todo - {neighbour};
      if neighbour in remaining {
        WithoutElements(remaining, neighbour);
        assert neighbour in Elements(remaining) && neighbour !in pending by {
          assert forall y :: y in pending ==> y in Elements(pending);
        }
        AppendDistinct(pending, neighbour);
        LinkedStep(links, first, name, neighbour);
        remaining := Without(remaining, neighbour);
        pending := pending + [neighbour];
      }
    }
  }

  /** Two parts share a component exactly when a chain links them, and every part is in exactly one component. */
  ghost predicate AreComponents(links: Links, components: seq<seq<string>>) {
    && (forall c :: 0 <= c < |components| ==>
         components[c] != [] && NoDuplicates(components[c]) && Elements(components[c]) <= links.Keys)
    && (forall x :: x in links ==> exists c :: 0 <= c < |components| && x in components[c])
    && (forall c, d, x, y ::
         0 <= c < |components| && 0 <= d < |components| && x in components[c] && y in components[d] ==>
          (c == d <==> Linked(links, x, y)))
  }

  /** The same, for the components found so far, whose parts are `done`. */
  ghost predicate Found(links: Links, components: seq<seq<string>>, done: set<string>) {
    && (forall c :: 0 <= c < |components| ==>
         components[c] != [] && NoDuplicates(components[c]) && Elements(components[c]) <= done)
    && (forall x :: x in done ==> exists c :: 0 <= c < |components| && x in components[c])
    && (forall c, d, x, y ::
         0 <= c < |components| && 0 <= d < |components| && x in components[c] && y in components[d] ==>
          (c == d <==> Linked(links, x, y)))
  }

  lemma FoundGrows(links: Links, components: seq<seq<string>>, done: set<string>, component: seq<string>, first: string)
    requires Graph(links) && Found(links, components, done) && Closed(links, done)
    requires component != [] && NoDuplicates(component) && Elements(component) <= links.Keys
             && Elements(component) !! done
    requires first in component && AllLinked(links, first, Elements(component))
    ensures Found(links, components + [component], done + Elements(component))
  {
    hide Linked;
    var next := components + [component];
    forall x, y | x in component && y in component ensures Linked(links, x, y) {
      assert x in Elements(component) && y in Elements(component);
      LinkedSymmetric(links, first, x);
      LinkedTransitive(links, x, first, y);
    }
    forall c, x, y | 0 <= c < |components| && x in components[c] && y in component
      ensures !Linked(links, x, y) && !Linked(links, y, x)
    {
      assert x in Elements(components[c]) && y in Elements(component);
      Separated(links, done, x, y);
    }
    forall x | x in done + Elements(component) ensures exists c :: 0 <= c < |next| && x in next[c] {
      if x in done {
        var c :| 0 <= c < |components| && x in components[c];
        assert next[c] == components[c];
      } else {
        assert x in next[|components|];
      }
    }
  }

  /** No chain leaves, or enters, a closed set. */
  lemma Separated(links: Links, done: set<string>, x: string, y: string)
    requires Graph(links) && Closed(links, done) && x in done && y !in done
    ensures !Linked(links, x, y) && !Linked(links, y, x)
  {
    if Linked(links, y, x) {
      LinkedSymmetric(links, y, x);
    }
    if p :| ChainBetween(links, p, x, y) {
      ChainStaysInside(links, p, done, |p| - 1);
    }
  }

  method FindComponents(names: seq<string>, links: Links) returns (components: seq<seq<string>>)
    requires Graph(links) && NoDuplicates(names) && links.Keys == Elements(names)
    ensures AreComponents(links, components)
    ensures forall c :: 0 <= c < |components| ==> Sorted(components[c], StringLeq)
  {
    hide Linked, Found;
    StringLeqIsTotalOrder();
    components := [];
    var remaining := names;
    ghost var done: set<string> := {};
    NoneFound(links);
    while remaining != []
      invariant NoDuplicates(remaining) && done !! Elements(remaining) && done + Elements(remaining) == links.Keys
      invariant Closed(links, done) && Found(links, components, done)
      invariant forall c :: 0 <= c < |components| ==> Sorted(components[c], StringLeq)
      decreases |remaining|
    {
      var first := remaining[0];
      TailDistinct(remaining);
      var component, rest := CollectComponent(links, first, remaining[1..], done);
      var sorted := Sort(component, StringLeq);
      SortedComponent(component);
      FoundGrows(links, components, done, sorted, first);
      components := components + [sorted];
      done := done + Elements(sorted);
      remaining := rest;
    }
    assert Elements(remaining) == {} && done == links.Keys;
    AllFound(links, components);
  }

  lemma NoneFound(links: Links)
    ensures Found(links, [], {})
  {
  }

  lemma AllFound(links: Links, components: seq<seq<string>>)
    requires Found(links, components, links.Keys)
    ensures AreComponents(links, components)
  {
  }

  lemma SortedComponent(component: seq<string>)
    requires NoDuplicates(component)
    ensures var s := Sort(component, StringLeq);
            NoDuplicates(s) && Elements(s) == Elements(component) && |s| == |component| && Sorted(s, StringLeq)
  {
    StringLeqIsTotalOrder();
    SortIsPermutation(component, StringLeq);
    SortIsSorted(component, StringLeq);
    var s := Sort(component, StringLeq);
    forall x ensures x in s <==> x in component {
      assert x in s <==> x in multiset(s);
      assert x in component <==> x in multiset(component);
    }
    DistinctIffMultiset(component);
    DistinctIffMultiset(s);
  }

  lemma {:induction false} DistinctIffMultiset(s: seq<string>)
    ensures NoDuplicates(s) <==> forall x :: multiset(s)[x] <= 1
    decreases |s|
  {
    if s != [] {
      var init, last := s[..|s| - 1], s[|s| - 1];
      assert s == init + [last];
      DistinctIffMultiset(init);
      assert forall x :: multiset(s)[x] == multiset(init)[x] + if x == last then 1 else 0;
      assert last in init <==> multiset(init)[last] >= 1;
      if NoDuplicates(s) {
        LastDistinct(s);
      } else if NoDuplicates(init) && last !in init {
        AppendDistinct(init, last);
      }
      if forall x :: multiset(s)[x] <= 1 {
        forall x ensures multiset(init)[x] <= 1 {
          assert multiset(s)[x] <= 1;
        }
      }
    }
  }
}
