/**
 * The short codes printed on placeholder textures: each resource gets a prefix of its digest, lengthened round by
 * round while it collides with another resource's.
 */
module ShortCodes {
  import opened Outcomes
  import opened Sorting

  const MIN_LENGTH := 4

  datatype CodeError = Unresolved(ids: seq<string>) | FullCollision(group: seq<string>)

  // ---------------------------------------------------------------------------------------------
  // What the codes should be
  // ---------------------------------------------------------------------------------------------

  predicate SharesPrefix(digest: string -> string, x: string, y: string, k: nat) {
    k <= |digest(x)| && k <= |digest(y)| && digest(x)[..k] == digest(y)[..k]
  }

  /** `x`'s digest has a prefix of this length, and no other resource's digest begins with it. */
  ghost predicate UniqueAt(ids: set<string>, digest: string -> string, x: string, k: nat) {
    k <= |digest(x)| && forall y :: y in ids && y != x ==> !SharesPrefix(digest, x, y, k)
  }

  /** The least length, from the minimum up, at which `x`'s prefix is unique. */
  ghost predicate Shortest(ids: set<string>, digest: string -> string, x: string, k: nat) {
    && MIN_LENGTH <= k && UniqueAt(ids, digest, x, k)
    && forall j :: MIN_LENGTH <= j < k ==> !UniqueAt(ids, digest, x, j)
  }

  ghost predicate Resolvable(ids: set<string>, digest: string -> string, x: string) {
    exists k :: MIN_LENGTH <= k && UniqueAt(ids, digest, x, k)
  }

  ghost predicate ShortestCodes(ids: set<string>, digest: string -> string, codes: map<string, string>) {
    && codes.Keys == ids
    && forall x :: x in ids ==> Shortest(ids, digest, x, |codes[x]|) && codes[x] == digest(x)[..|codes[x]|]
  }

  // ---------------------------------------------------------------------------------------------
  // sorted(set(...))
  // ---------------------------------------------------------------------------------------------

  function Distinct(s: seq<string>): seq<string> {
    if s == [] then [] else if s[0] in s[1..] then Distinct(s[1..]) else [s[0]] + Distinct(s[1..])
  }

  lemma {:induction false} DistinctElements(s: seq<string>)
    ensures forall x :: x in Distinct(s) <==> x in s
    ensures NoDuplicates(Distinct(s))
  {
    hide NoDuplicates;
    if s != [] {
      DistinctElements(s[1..]);
      DistinctCons(s[0], Distinct(s[1..]));
      assert s == [s[0]] + s[1..];
    } else {
      NoneDistinct();
    }
  }

  lemma NoneDistinct()
    ensures NoDuplicates<string>([])
  {
  }

  lemma DistinctCons(x: string, s: seq<string>)
    ensures NoDuplicates([x] + s) <==> NoDuplicates(s) && x !in s
  {
    var t := [x] + s;
    if NoDuplicates(t) {
      forall i, j | 0 <= i < j < |s| ensures s[i] != s[j] {
        assert t[i + 1] != t[j + 1];
      }
      forall i | 0 <= i < |s| ensures s[i] != x {
        assert t[0] != t[i + 1];
      }
    }
  }

  lemma {:induction false} InsertKeepsDistinct(x: string, s: seq<string>)
    requires NoDuplicates(s) && x !in s
    ensures NoDuplicates(Insert(x, s, StringLeq))
    ensures forall y :: y in Insert(x, s, StringLeq) <==> y == x || y in s
  {
    hide StringLeq, NoDuplicates;
    DistinctCons(x, s);
    assert [x] + [] == [x];
    if s != [] {
      DistinctCons(s[0], s[1..]);
      assert s == [s[0]] + s[1..];
      if !StringLeq(x, s[0]) {
        InsertKeepsDistinct(x, s[1..]);
        DistinctCons(s[0], Insert(x, s[1..], StringLeq));
      }
    }
  }

  lemma {:induction false} SortKeepsDistinct(s: seq<string>)
    requires NoDuplicates(s)
    ensures NoDuplicates(Sort(s, StringLeq))
    ensures forall y :: y in Sort(s, StringLeq) <==> y in s
  {
    hide StringLeq, NoDuplicates;
    if s != [] {
      DistinctCons(s[0], s[1..]);
      assert s == [s[0]] + s[1..];
      SortKeepsDistinct(s[1..]);
      InsertKeepsDistinct(s[0], Sort(s[1..], StringLeq));
    }
  }

  function SortedSet(s: seq<string>): (r: seq<string>)
    ensures NoDuplicates(r) && forall x :: x in r <==> x in s
  {
    DistinctElements(s);
    SortKeepsDistinct(Distinct(s));
    Sort(Distinct(s), StringLeq)
  }

  // ---------------------------------------------------------------------------------------------
  // One round: grouping by the current prefixes, and raising the colliding groups
  // ---------------------------------------------------------------------------------------------

  type Lengths = map<string, nat>

  /** full_code[:length], which is the whole code when it is no longer than that. */
  function Prefix(digest: string -> string, lengths: Lengths, x: string): string
    requires x in lengths
  {
    if lengths[x] <= |digest(x)| then digest(x)[..lengths[x]] else digest(x)
  }

  /** Every id has a length its digest reaches. */
  predicate Within(digest: string -> string, lengths: Lengths) {
    forall x :: x in lengths ==> lengths[x] <= |digest(x)|
  }

  /** The dictionary of groups: its keys in insertion order, and the ids under each. */
  datatype Groups = Groups(order: seq<string>, members: map<string, seq<string>>)

  ghost predicate Grouped(seen: seq<string>, digest: string -> string, lengths: Lengths, groups: Groups)
    requires forall x :: x in seen ==> x in lengths
  {
    && NoDuplicates(groups.order)
    && (forall key :: key in groups.order <==> key in groups.members)
    && (forall x :: x in seen ==> Prefix(digest, lengths, x) in groups.members)
    && (forall key :: key in groups.members ==> GroupOf(seen, digest, lengths, key, groups.members[key]))
  }

  ghost predicate GroupOf(
      seen: seq<string>, digest: string -> string, lengths: Lengths, key: string, group: seq<string>)
    requires forall x :: x in seen ==> x in lengths
  {
    NoDuplicates(group) && forall x :: x in group <==> x in seen && Prefix(digest, lengths, x) == key
  }

  lemma GroupGrows(seen: seq<string>, digest: string -> string, lengths: Lengths, groups: Groups, id: string)
    requires forall x :: x in seen + [id] ==> x in lengths
    requires Grouped(seen, digest, lengths, groups) && id !in seen
    ensures var key := Prefix(digest, lengths, id);
            var order := if key in groups.members then groups.order else groups.order + [key];
            var group := (if key in groups.members then groups.members[key] else []) + [id];
            Grouped(seen + [id], digest, lengths, Groups(order, groups.members[key := group]))
  {
    hide Prefix;
    var key := Prefix(digest, lengths, id);
    var group := (if key in groups.members then groups.members[key] else []) + [id];
    forall k | k in groups.members && k != key ensures GroupOf(seen + [id], digest, lengths, k, groups.members[k]) {
      assert GroupOf(seen, digest, lengths, k, groups.members[k]);
    }
    if key in groups.members {
      assert GroupOf(seen, digest, lengths, key, groups.members[key]);
    }
    assert GroupOf(seen + [id], digest, lengths, key, group);
  }

  /** The grouping loop, which first checks that each digest is long enough. */
  method GroupByPrefix(
      orderedIds: seq<string>, digest: string -> string, lengths: Lengths)
    returns (groups: Option<Groups>)
    requires NoDuplicates(orderedIds) && forall x :: x in orderedIds <==> x in lengths
    ensures groups.Some? <==> Within(digest, lengths)
    ensures groups.Some? ==> Grouped(orderedIds, digest, lengths, groups.value)
  {
    hide Grouped, NoDuplicates;
    var order, members: map<string, seq<string>> := [], map[];
    EmptyGroups(digest, lengths);
    for i := 0 to |orderedIds|
      invariant forall x :: x in orderedIds[..i] ==> x in lengths && lengths[x] <= |digest(x)|
      invariant Grouped(orderedIds[..i], digest, lengths, Groups(order, members))
    {
      var id := orderedIds[i];
      if lengths[id] > |digest(id)| {
        return None;
      }
      assert orderedIds[..i + 1] == orderedIds[..i] + [id];
      assert id !in orderedIds[..i] by {
        FirstSeen(orderedIds, i);
      }
      GroupGrows(orderedIds[..i], digest, lengths, Groups(order, members), id);
      var key := digest(id)[..lengths[id]];
      ghost var before := members;
      if key !in members {
        order := order + [key];
        members := members[key := []];
      }
      members := members[key := members[key] + [id]];
      assert members == before[key := (if key in before then before[key] else []) + [id]];
    }
    assert orderedIds[..|orderedIds|] == orderedIds;
    groups := Some(Groups(order, members));
  }

  lemma EmptyGroups(digest: string -> string, lengths: Lengths)
    ensures Grouped([], digest, lengths, Groups([], map[]))
  {
  }

  lemma FirstSeen(s: seq<string>, i: nat)
    requires NoDuplicates(s) && i < |s|
    ensures s[i] !in s[..i]
  {
  }

  /** Another id has the same current prefix. */
  ghost predicate Collides(digest: string -> string, lengths: Lengths, x: string)
    requires x in lengths
  {
    exists y :: y in lengths && y != x && Prefix(digest, lengths, y) == Prefix(digest, lengths, x)
  }

  /** The keys of the groups with more than one member, in insertion order. */
  function Collisions(groups: Groups): seq<string>
    requires forall key :: key in groups.order ==> key in groups.members
  {
    Filter(groups.order, key => key in groups.members && |groups.members[key]| > 1)
  }

  lemma {:induction false} FilterElements(s: seq<string>, keep: string -> bool)
    ensures forall x :: x in Filter(s, keep) <==> x in s && keep(x)
    ensures NoDuplicates(s) ==> NoDuplicates(Filter(s, keep))
  {
    hide NoDuplicates;
    NoneDistinct();
    if s != [] {
      FilterElements(s[1..], keep);
      assert s == [s[0]] + s[1..];
      DistinctCons(s[0], s[1..]);
      DistinctCons(s[0], Filter(s[1..], keep));
      assert [] + Filter(s[1..], keep) == Filter(s[1..], keep);
    }
  }

  /** An id collides exactly when its group is one of the collisions. */
  lemma CollidesIff(orderedIds: seq<string>, digest: string -> string, lengths: Lengths, groups: Groups)
    requires forall x :: x in orderedIds <==> x in lengths
    requires Grouped(orderedIds, digest, lengths, groups)
    ensures NoDuplicates(Collisions(groups))
    ensures forall key :: key in Collisions(groups) ==>
              key in groups.members && |groups.members[key]| > 1
              && GroupOf(orderedIds, digest, lengths, key, groups.members[key])
    ensures forall x :: x in lengths ==>
            (Collides(digest, lengths, x) <==> Prefix(digest, lengths, x) in Collisions(groups))
  {
    hide Prefix;
    FilterElements(groups.order, key => key in groups.members && |groups.members[key]| > 1);
    forall x | x in lengths ensures Collides(digest, lengths, x) <==> Prefix(digest, lengths, x) in Collisions(groups) {
      var key := Prefix(digest, lengths, x);
      var group := groups.members[key];
      assert GroupOf(orderedIds, digest, lengths, key, group) && x in group;
      if |group| > 1 {
        var y := if group[0] == x then group[1] else group[0];
        assert y in group && y != x;
      }
    }
  }

  /** `lengths[resource_id] += 1` for every member of a group. */
  function RaisedBy(lengths: Lengths, group: seq<string>): Lengths {
    map x | x in lengths :: if x in group then lengths[x] + 1 else lengths[x]
  }

  method RaiseGroup(lengths: Lengths, group: seq<string>) returns (raised: Lengths)
    requires NoDuplicates(group) && forall x :: x in group ==> x in lengths
    ensures raised == RaisedBy(lengths, group)
  {
    raised := lengths;
    for i := 0 to |group|
      invariant raised == RaisedBy(lengths, group[..i])
    {
      assert group[..i + 1] == group[..i] + [group[i]];
      FirstSeen(group, i);
      raised := raised[group[i] := raised[group[i]] + 1];
    }
    assert group[..|group|] == group;
  }

  predicate SameDigest(digest: string -> string, group: seq<string>) {
    forall i, j :: 0 <= i < |group| && 0 <= j < |group| ==> digest(group[i]) == digest(group[j])
  }

  /** The loop over the colliding groups: it stops at one whose digests are all equal, else raises each member once. */
  method RaiseCollisions(orderedIds: seq<string>, digest: string -> string, lengths: Lengths, groups: Groups)
    returns (r: Result<Lengths, seq<string>>)
    requires forall x :: x in orderedIds <==> x in lengths
    requires Grouped(orderedIds, digest, lengths, groups)
    ensures r.Success? ==> r.value.Keys == lengths.Keys
    ensures r.Success? ==> forall x :: x in lengths ==>
            r.value[x] == lengths[x] + if Collides(digest, lengths, x) then 1 else 0
    ensures r.Failure? ==>
            |r.error| > 1 && NoDuplicates(r.error) && SameDigest(digest, r.error)
            && forall x :: x in r.error ==> x in lengths
  {
    hide *;
    GroupKeys(orderedIds, digest, lengths, groups);
    CollidingGroups(orderedIds, digest, lengths, groups);
    var collisions := Collisions(groups);
    var raised := lengths;
    NothingRaised(digest, lengths);
    for g := 0 to |collisions|
      invariant Raised(digest, lengths, collisions[..g], raised)
    {
      assert collisions[g] in collisions;
      var group := groups.members[collisions[g]];
      CollidingGroupMeans(digest, lengths, collisions[g], group);
      if SameDigest(digest, group) {
        return Failure(group);
      }
      FirstSeen(collisions, g);
      RaisedKeys(digest, lengths, collisions[..g], raised);
      ghost var before := raised;
      raised := RaiseGroup(raised, group);
      RaisedStep(digest, lengths, collisions[..g], collisions[g], before, raised, group);
      assert collisions[..g + 1] == collisions[..g] + [collisions[g]];
    }
    assert collisions[..|collisions|] == collisions;
    RaisedMeans(digest, lengths, collisions, raised);
    r := Success(raised);
  }

  lemma CollidingGroups(orderedIds: seq<string>, digest: string -> string, lengths: Lengths, groups: Groups)
    requires forall x :: x in orderedIds <==> x in lengths
    requires Grouped(orderedIds, digest, lengths, groups) && forall key :: key in groups.order ==> key in groups.members
    ensures NoDuplicates(Collisions(groups))
    ensures forall key :: key in Collisions(groups) ==>
              key in groups.members && CollidingGroup(digest, lengths, key, groups.members[key])
    ensures forall x :: x in lengths ==>
            (Collides(digest, lengths, x) <==> Prefix(digest, lengths, x) in Collisions(groups))
  {
    hide Grouped, Collisions, Collides, Prefix, NoDuplicates;
    CollidesIff(orderedIds, digest, lengths, groups);
  }

  /** A group of more than one: all ids with the prefix, each once. */
  ghost predicate CollidingGroup(digest: string -> string, lengths: Lengths, key: string, group: seq<string>) {
    |group| > 1 && NoDuplicates(group) && forall x :: x in group <==> x in lengths && Prefix(digest, lengths, x) == key
  }

  lemma CollidingGroupMeans(digest: string -> string, lengths: Lengths, key: string, group: seq<string>)
    requires CollidingGroup(digest, lengths, key, group)
    ensures |group| > 1 && NoDuplicates(group) && forall x :: x in group ==> x in lengths
  {
    hide NoDuplicates, Prefix;
  }

  /** The lengths after raising the groups under some of the keys. */
  ghost predicate Raised(digest: string -> string, lengths: Lengths, keys: seq<string>, raised: Lengths) {
    && raised.Keys == lengths.Keys
    && forall x :: x in lengths ==> raised[x] == lengths[x] + if Prefix(digest, lengths, x) in keys then 1 else 0
  }

  lemma NothingRaised(digest: string -> string, lengths: Lengths)
    ensures Raised(digest, lengths, [], lengths)
  {
  }

  lemma RaisedKeys(digest: string -> string, lengths: Lengths, keys: seq<string>, raised: Lengths)
    requires Raised(digest, lengths, keys, raised)
    ensures raised.Keys == lengths.Keys
  {
  }

  lemma RaisedMeans(digest: string -> string, lengths: Lengths, keys: seq<string>, raised: Lengths)
    requires Raised(digest, lengths, keys, raised)
    requires forall x :: x in lengths ==> (Collides(digest, lengths, x) <==> Prefix(digest, lengths, x) in keys)
    ensures raised.Keys == lengths.Keys
    ensures forall x :: x in lengths ==>
            raised[x] == lengths[x] + if Collides(digest, lengths, x) then 1 else 0
  {
    hide Prefix, Collides;
  }

  lemma RaisedStep(
      digest: string -> string, lengths: Lengths, keys: seq<string>, key: string, before: Lengths, after: Lengths,
      group: seq<string>)
    requires Raised(digest, lengths, keys, before) && key !in keys
    requires CollidingGroup(digest, lengths, key, group)
    requires after == RaisedBy(before, group)
    ensures Raised(digest, lengths, keys + [key], after)
  {
    hide Prefix, NoDuplicates;
  }

  // ---------------------------------------------------------------------------------------------
  // The rounds
  // ---------------------------------------------------------------------------------------------

  /**
   * After `round` rounds: no length above the round's own; whatever is shorter is already unique; and every
   * length passed on the way was shared.
   */
  ghost predicate RoundInvariant(digest: string -> string, lengths: Lengths, round: nat) {
    && (forall x :: x in lengths ==> MIN_LENGTH <= lengths[x] <= MIN_LENGTH + round)
    && (forall x :: x in lengths && lengths[x] < MIN_LENGTH + round ==> UniqueAt(lengths.Keys, digest, x, lengths[x]))
    && (forall x, j :: x in lengths && MIN_LENGTH <= j < lengths[x] ==> !UniqueAt(lengths.Keys, digest, x, j))
  }

  lemma ShareShorter(digest: string -> string, x: string, y: string, k: nat, j: nat)
    requires j <= k
    ensures SharesPrefix(digest, x, y, k) ==> SharesPrefix(digest, y, x, j)
  {
    if SharesPrefix(digest, x, y, k) {
      assert digest(x)[..j] == digest(x)[..k][..j] && digest(y)[..j] == digest(y)[..k][..j];
    }
  }

  /** An id that collides is shared at its length. */
  lemma CollidingIsShared(digest: string -> string, lengths: Lengths, x: string)
    requires Within(digest, lengths) && x in lengths && Collides(digest, lengths, x)
    ensures !UniqueAt(lengths.Keys, digest, x, lengths[x])
  {
    var y :| y in lengths && y != x && Prefix(digest, lengths, y) == Prefix(digest, lengths, x);
    assert |Prefix(digest, lengths, y)| == |Prefix(digest, lengths, x)|;
    assert SharesPrefix(digest, x, y, lengths[x]);
  }

  /** An id that collides with nobody is unique at its length, among all ids, whatever their lengths. */
  lemma AloneIsUnique(digest: string -> string, lengths: Lengths, round: nat, x: string)
    requires RoundInvariant(digest, lengths, round) && Within(digest, lengths) && x in lengths
    requires !Collides(digest, lengths, x)
    ensures UniqueAt(lengths.Keys, digest, x, lengths[x])
  {
    if lengths[x] == MIN_LENGTH + round {
      forall y | y in lengths && y != x ensures !SharesPrefix(digest, x, y, lengths[x]) {
        assert Prefix(digest, lengths, y) != Prefix(digest, lengths, x);
        ShareShorter(digest, x, y, lengths[x], lengths[y]);
        assert lengths[y] < lengths[x] ==> UniqueAt(lengths.Keys, digest, y, lengths[y]);
      }
    }
  }

  /** The lengths after a round in which exactly the colliding ids were raised meet the next round's invariant. */
  lemma RoundAdvances(digest: string -> string, lengths: Lengths, next: Lengths, round: nat)
    requires RoundInvariant(digest, lengths, round) && Within(digest, lengths)
    requires next.Keys == lengths.Keys
    requires forall x :: x in lengths ==> next[x] == lengths[x] + if Collides(digest, lengths, x) then 1 else 0
    ensures RoundInvariant(digest, next, round + 1)
  {
    hide UniqueAt, Collides;
    forall x | x in lengths
      ensures MIN_LENGTH <= next[x] <= MIN_LENGTH + round + 1
      ensures next[x] < MIN_LENGTH + round + 1 ==> UniqueAt(lengths.Keys, digest, x, next[x])
      ensures forall j :: MIN_LENGTH <= j < next[x] ==> !UniqueAt(lengths.Keys, digest, x, j)
    {
      if Collides(digest, lengths, x) {
        CollidingIsShared(digest, lengths, x);
      } else {
        AloneIsUnique(digest, lengths, round, x);
      }
    }
  }

  /** In a round with a collision some id stands at the round's length, so rounds end at the longest digest. */
  lemma CollidingStandsAtRound(digest: string -> string, lengths: Lengths, round: nat, x: string)
    requires RoundInvariant(digest, lengths, round) && Within(digest, lengths) && x in lengths
             && Collides(digest, lengths, x)
    ensures MIN_LENGTH + round <= |digest(x)|
  {
    hide UniqueAt;
    CollidingIsShared(digest, lengths, x);
  }

  /** Once nothing collides, each id stands at the least length at which it is unique. */
  lemma RoundsEnd(digest: string -> string, lengths: Lengths, round: nat)
    requires RoundInvariant(digest, lengths, round) && Within(digest, lengths)
    requires forall x :: x in lengths ==> !Collides(digest, lengths, x)
    ensures forall x :: x in lengths ==>
            Shortest(lengths.Keys, digest, x, lengths[x]) && Resolvable(lengths.Keys, digest, x)
  {
    hide UniqueAt, Collides;
    forall x | x in lengths
      ensures Shortest(lengths.Keys, digest, x, lengths[x]) && Resolvable(lengths.Keys, digest, x)
    {
      AloneIsUnique(digest, lengths, round, x);
    }
  }

  /** A digest that is too short for the length reached never had a unique prefix. */
  lemma TooShort(digest: string -> string, lengths: Lengths, round: nat, x: string)
    requires RoundInvariant(digest, lengths, round) && x in lengths && lengths[x] > |digest(x)|
    ensures !Resolvable(lengths.Keys, digest, x)
  {
    forall k | MIN_LENGTH <= k ensures !UniqueAt(lengths.Keys, digest, x, k) {
    }
  }

  lemma EqualDigests(ids: set<string>, digest: string -> string, x: string, y: string)
    requires x in ids && y in ids && x != y && digest(x) == digest(y)
    ensures !Resolvable(ids, digest, x)
  {
    forall k | MIN_LENGTH <= k ensures !UniqueAt(ids, digest, x, k) {
      if k <= |digest(x)| {
        assert SharesPrefix(digest, x, y, k);
      }
    }
  }

  ghost function IdSet(s: seq<string>): set<string> {
    set x | x in s
  }

  lemma FirstRound(digest: string -> string, lengths: Lengths)
    requires forall x :: x in lengths ==> lengths[x] == MIN_LENGTH
    ensures RoundInvariant(digest, lengths, 0)
  {
  }

  /**
   * Succeeds exactly when every id has a unique prefix of its own of at least the minimum length, and then gives
   * each id the shortest such prefix.
   */
  method AssignShortCodes(
      resourceIds: seq<string>, digest: string -> string)
    returns (r: Result<map<string, string>, CodeError>)
    ensures r.Success? <==> forall x :: x in IdSet(resourceIds) ==> Resolvable(IdSet(resourceIds), digest, x)
    ensures r.Success? ==> ShortestCodes(IdSet(resourceIds), digest, r.value)
  {
    hide UniqueAt, Collides, Grouped, RoundInvariant, Resolvable, Greatest;
    var orderedIds := SortedSet(resourceIds);
    ghost var ids := IdSet(resourceIds);
    var lengths: Lengths := map x | x in orderedIds :: MIN_LENGTH;
    ghost var round := 0;
    ghost var length := (x: string) => |digest(x)|;
    GreatestBounds(orderedIds, length);
    FirstRound(digest, lengths);
    while true
      invariant lengths.Keys == ids && RoundInvariant(digest, lengths, round)
      decreases Greatest(orderedIds, length) + 1 - round
    {
      var groups := GroupByPrefix(orderedIds, digest, lengths);
      if groups.None? {
        ghost var x :| x in lengths && lengths[x] > |digest(x)|;
        TooShort(digest, lengths, round, x);
        return Failure(Unresolved(orderedIds));
      }
      CollidesIff(orderedIds, digest, lengths, groups.value);
      GroupKeys(orderedIds, digest, lengths, groups.value);
      var collisions := Collisions(groups.value);
      if |collisions| == 0 {
        RoundsEnd(digest, lengths, round);
        return Success(map x | x in orderedIds :: digest(x)[..lengths[x]]);
      }
      var next := RaiseCollisions(orderedIds, digest, lengths, groups.value);
      if next.Failure? {
        assert next.error[0] in next.error && next.error[1] in next.error;
        EqualDigests(ids, digest, next.error[0], next.error[1]);
        return Failure(FullCollision(Sort(next.error, StringLeq)));
      }
      RoundAdvances(digest, lengths, next.value, round);
      assert collisions[0] in collisions;
      ghost var x := groups.value.members[collisions[0]][0];
      assert x in groups.value.members[collisions[0]];
      CollidingStandsAtRound(digest, lengths, round, x);
      lengths := next.value;
      round := round + 1;
    }
  }

  lemma GroupKeys(orderedIds: seq<string>, digest: string -> string, lengths: Lengths, groups: Groups)
    requires forall x :: x in orderedIds ==> x in lengths
    requires Grouped(orderedIds, digest, lengths, groups)
    ensures forall key :: key in groups.order ==> key in groups.members
  {
  }

  // ---------------------------------------------------------------------------------------------
  // Consequences
  // ---------------------------------------------------------------------------------------------

  /** No code is a prefix of another. */
  lemma CodesArePrefixFree(ids: set<string>, digest: string -> string, codes: map<string, string>, x: string, y: string)
    requires ShortestCodes(ids, digest, codes) && x in ids && y in ids && x != y
    ensures !(codes[x] <= codes[y])
  {
    var k := |codes[x]|;
    assert UniqueAt(ids, digest, x, k) && !SharesPrefix(digest, x, y, k);
    assert k <= |codes[y]| ==> codes[y][..k] == digest(y)[..k];
  }

  /** The codes depend only on the set of ids: there is one assignment of shortest codes. */
  lemma CodesAreDetermined(
      ids: set<string>, digest: string -> string, codes: map<string, string>, others: map<string, string>)
    requires ShortestCodes(ids, digest, codes) && ShortestCodes(ids, digest, others)
    ensures codes == others
  {
    hide UniqueAt;
    forall x | x in ids ensures codes[x] == others[x] {
      var j, k := |codes[x]|, |others[x]|;
      assert UniqueAt(ids, digest, x, j) && UniqueAt(ids, digest, x, k);
      assert !(j < k) && !(k < j);
    }
  }

  /** Distinct digests of one length, no shorter than the minimum, can always be told apart. */
  lemma DistinctDigestsResolve(ids: set<string>, digest: string -> string, length: nat, x: string)
    requires MIN_LENGTH <= length && x in ids
    requires forall y :: y in ids ==> |digest(y)| == length
    requires forall y, z :: y in ids && z in ids && y != z ==> digest(y) != digest(z)
    ensures Resolvable(ids, digest, x)
  {
    forall y | y in ids && y != x ensures !SharesPrefix(digest, x, y, length) {
      assert digest(x)[..length] == digest(x) && digest(y)[..length] == digest(y);
    }
    assert UniqueAt(ids, digest, x, length);
  }

  /**
   * In plain terms: a code is the beginning of its digest, at least four characters long; no other id's digest begins
   * with it, and a shorter beginning of at least four characters would be that of another's digest too.
   */
  lemma CodesInPlainTerms(ids: set<string>, digest: string -> string, codes: map<string, string>, x: string)
    requires ShortestCodes(ids, digest, codes) && x in ids
    ensures var code := codes[x];
            && 4 <= |code| && code <= digest(x) && (forall y :: y in ids && y != x ==> !(code <= digest(y)))
            && (|code| > 4 ==> exists y :: y in ids && y != x && code[..|code| - 1] <= digest(y))
  {
    var code := codes[x];
    assert Shortest(ids, digest, x, |code|) && code == digest(x)[..|code|];
    forall y | y in ids && y != x && code <= digest(y) ensures SharesPrefix(digest, x, y, |code|) {
    }
    if |code| > 4 {
      var k := |code| - 1;
      assert !UniqueAt(ids, digest, x, k);
      var y :| y in ids && y != x && SharesPrefix(digest, x, y, k);
      assert code[..k] == digest(x)[..k];
    }
  }

  /** An id has such a code exactly if some beginning of its digest of four characters or more is no other's. */
  lemma ResolvableInPlainTerms(ids: set<string>, digest: string -> string, x: string)
    ensures Resolvable(ids, digest, x) <==>
              exists k: nat :: 4 <= k <= |digest(x)| && forall y :: y in ids && y != x ==>
                !(digest(x)[..k] <= digest(y))
  {
    forall k: nat, y | k <= |digest(x)| ensures SharesPrefix(digest, x, y, k) <==> digest(x)[..k] <= digest(y) {
    }
    if Resolvable(ids, digest, x) {
      var k :| MIN_LENGTH <= k && UniqueAt(ids, digest, x, k);
      assert 4 <= k <= |digest(x)| && forall y :: y in ids && y != x ==> !(digest(x)[..k] <= digest(y));
    }
    if k: nat :| 4 <= k <= |digest(x)| && forall y :: y in ids && y != x ==> !(digest(x)[..k] <= digest(y)) {
      assert UniqueAt(ids, digest, x, k);
    }
  }
}
