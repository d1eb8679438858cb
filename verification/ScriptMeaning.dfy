/**
 * What a script does, call by call: the leaf calls it plays in order, each with the components around it, the
 * positions a leaf touches, and the blocks, markers and sockets the leaves leave.
 */
module ScriptMeaning {
  import opened Outcomes
  import opened Sorting
  import opened StructureModel
  import opened StructureScripts

  datatype Step = Step(leaf: Call, around: seq<string>)

  // ---------------------------------------------------------------------------------------------
  // Leaves
  // ---------------------------------------------------------------------------------------------

  /** The leaf calls of a script in order, each with the components that enclose it. */
  function Leaves(calls: seq<Call>, around: seq<string>): seq<Step>
    decreases calls
  {
    if calls == [] then [] else LeavesOf(calls[0], around) + Leaves(calls[1..], around)
  }

  function LeavesOf(call: Call, around: seq<string>): seq<Step>
    decreases call
  {
    match call
    case Component(id, body) => Leaves(body, around + [id])
    case Attempt(body) => Leaves(body, around)
    case _ => [Step(call, around)]
  }

  predicate NoAttempt(calls: seq<Call>)
    decreases calls
  {
    calls == [] || (NoAttemptIn(calls[0]) && NoAttempt(calls[1..]))
  }

  predicate NoAttemptIn(call: Call)
    decreases call
  {
    match call
    case Component(id, body) => NoAttempt(body)
    case Attempt(body) => false
    case _ => true
  }

  /** Every component is declared, and none is nested in itself, however deep. */
  predicate Nests(s: Spec, calls: seq<Call>, around: seq<string>)
    decreases calls
  {
    calls == [] || (NestsIn(s, calls[0], around) && Nests(s, calls[1..], around))
  }

  predicate NestsIn(s: Spec, call: Call, around: seq<string>)
    decreases call
  {
    match call
    case Component(id, body) => id in ComponentIds(s.components) && id !in around && Nests(s, body, around + [id])
    case Attempt(body) => Nests(s, body, around)
    case _ => true
  }

  /** A cell, a half-open box, or a row along one axis. */
  predicate Touches(leaf: Call, p: Int3) {
    match leaf
    case SetBlock(pos, _) => p == pos
    case FillBox(min, max, _) => min.x <= p.x < max.x && min.y <= p.y < max.y && min.z <= p.z < max.z
    case LineX(minX, maxX, y, z, _) => minX <= p.x < maxX && p.y == y && p.z == z
    case LineY(x, minY, maxY, z, _) => p.x == x && minY <= p.y < maxY && p.z == z
    case LineZ(x, y, minZ, maxZ, _) => p.x == x && p.y == y && minZ <= p.z < maxZ
    case _ => false
  }

  function KeyOf(leaf: Call): Option<string> {
    match leaf
    case SetBlock(_, palette) => Some(palette)
    case FillBox(_, _, palette) => Some(palette)
    case LineX(_, _, _, _, palette) => Some(palette)
    case LineY(_, _, _, _, palette) => Some(palette)
    case LineZ(_, _, _, _, palette) => Some(palette)
    case _ => None
  }

  function MarkersOf(steps: seq<Step>): seq<Marker> {
    if steps == [] then []
    else
      (match steps[0].leaf
       case PlaceMarker(kind, pos) => [Marker(kind, pos)]
       case _ => [])
      + MarkersOf(steps[1..])
  }

  function SocketsOf(steps: seq<Step>): seq<Socket> {
    if steps == [] then []
    else
      (match steps[0].leaf
       case PlaceSocket(id, kind, pos, facing) => [Socket(id, kind, pos, facing)]
       case _ => [])
      + SocketsOf(steps[1..])
  }

  // ---------------------------------------------------------------------------------------------
  // Playing a script
  // ---------------------------------------------------------------------------------------------

  function LeafError(s: Spec, leaf: Call, ids: set<string>): Option<StructureError> {
    match leaf
    case SetBlock(pos, palette) =>
      if PositionError(pos, s.size).Some? then PositionError(pos, s.size)
      else if palette !in PaletteKeys(s.palette) then Some(UnknownPalette)
      else None
    case FillBox(min, max, palette) => BoxError(s, min, max, palette)
    case LineX(minX, maxX, y, z, palette) => BoxError(s, Int3(minX, y, z), Int3(maxX, y + 1, z + 1), palette)
    case LineY(x, minY, maxY, z, palette) => BoxError(s, Int3(x, minY, z), Int3(x + 1, maxY, z + 1), palette)
    case LineZ(x, y, minZ, maxZ, palette) => BoxError(s, Int3(x, y, minZ), Int3(x + 1, y + 1, maxZ), palette)
    case PlaceMarker(kind, pos) => if !MarkerKind(kind) then Some(InvalidKind) else PositionError(pos, s.size)
    case PlaceSocket(id, kind, pos, facing) =>
      if !SafeId(id) then Some(InvalidId)
      else if !MarkerKind(kind) then Some(InvalidKind)
      else if PositionError(pos, s.size).Some? then PositionError(pos, s.size)
      else if id in ids then Some(DuplicateSocket)
      else None
    case _ => None
  }

  /** The leaves played until something throws, and what it throws. A caught error ends its attempt only. */
  function Played(s: Spec, calls: seq<Call>, around: seq<string>, ids: set<string>): (seq<Step>, Option<StructureError>)
    decreases calls
  {
    if calls == [] then ([], None)
    else
      var (first, error) := PlayedOf(s, calls[0], around, ids);
      if error.Some? then (first, error)
      else
        var (rest, later) := Played(s, calls[1..], around, ids + SocketIds(SocketsOf(first)));
        (first + rest, later)
  }

  function PlayedOf(s: Spec, call: Call, around: seq<string>, ids: set<string>): (seq<Step>, Option<StructureError>)
    decreases call
  {
    match call
    case Component(id, body) =>
      if id !in ComponentIds(s.components) then ([], Some(UndeclaredComponent))
      else if id in around then ([], Some(NestedComponent))
      else Played(s, body, around + [id], ids)
    case Attempt(body) => (Played(s, body, around, ids).0, None)
    case _ =>
      var error := LeafError(s, call, ids);
      if error.Some? then ([], error) else ([Step(call, around)], None)
  }

  lemma {:induction false} PlayedAppend(s: Spec, a: seq<Call>, b: seq<Call>, around: seq<string>, ids: set<string>)
    ensures var (first, error) := Played(s, a, around, ids);
            var (second, later) := Played(s, b, around, ids + SocketIds(SocketsOf(first)));
            Played(s, a + b, around, ids) == if error.Some? then (first, error) else (first + second, later)
    decreases |a|
  {
    hide PlayedOf, SocketsOf;
    NothingPlaced();
    if a == [] {
      assert a + b == b && ids + {} == ids && SocketIds(SocketsOf([])) == {};
      var second := Played(s, b, around, ids).0;
      assert [] + second == second;
    } else {
      assert (a + b)[1..] == a[1..] + b && (a + b)[0] == a[0];
      var (first, error) := PlayedOf(s, a[0], around, ids);
      if error.None? {
        var next := ids + SocketIds(SocketsOf(first));
        PlayedAppend(s, a[1..], b, around, next);
        var rest := Played(s, a[1..], around, next).0;
        SocketsAppend(first, rest);
        assert next + SocketIds(SocketsOf(rest)) == ids + SocketIds(SocketsOf(first + rest));
        var second := Played(s, b, around, next + SocketIds(SocketsOf(rest))).0;
        assert first + (rest + second) == first + rest + second;
      }
    }
  }

  /** A component inside one of the same id, at any depth, throws, and nothing behind it is played. */
  lemma NestedThrows(
      s: Spec, before: seq<Call>, id: string, body: seq<Call>, behind: seq<Call>, around: seq<string>, ids: set<string>)
    requires id in around && id in ComponentIds(s.components) && Played(s, before, around, ids).1.None?
    ensures Played(s, before + [Component(id, body)] + behind, around, ids)
            == (Played(s, before, around, ids).0, Some(NestedComponent))
  {
    var steps := Played(s, before, around, ids).0;
    var nested := [Component(id, body)];
    PlayedAppend(s, before, nested + behind, around, ids);
    assert before + nested + behind == before + (nested + behind);
    assert (nested + behind)[0] == Component(id, body);
    assert Played(s, nested + behind, around, ids + SocketIds(SocketsOf(steps))) == ([], Some(NestedComponent));
    assert steps + [] == steps;
  }

  lemma {:induction false} SocketsAppend(a: seq<Step>, b: seq<Step>)
    ensures SocketsOf(a + b) == SocketsOf(a) + SocketsOf(b)
    ensures MarkersOf(a + b) == MarkersOf(a) + MarkersOf(b)
  {
    hide SocketsOf, MarkersOf;
    NothingPlaced();
    if a == [] {
      assert a + b == b;
    } else {
      PlacedFirst(a);
      PlacedFirst(a + b);
      assert (a + b)[1..] == a[1..] + b;
      SocketsAppend(a[1..], b);
    }
  }

  lemma NothingPlaced()
    ensures SocketsOf([]) == [] && MarkersOf([]) == []
  {
  }

  lemma PlacedFirst(steps: seq<Step>)
    requires steps != []
    ensures var leaf := steps[0].leaf;
            && SocketsOf(steps)
               == (if leaf.PlaceSocket? then [Socket(leaf.id, leaf.kind, leaf.pos, leaf.facing)] else [])
                  + SocketsOf(steps[1..])
            && MarkersOf(steps)
               == (if leaf.PlaceMarker? then [Marker(leaf.kind, leaf.pos)] else []) + MarkersOf(steps[1..])
  {
  }

  /** Leaves that are accepted in turn, with sockets of new ids. */
  predicate AllAccepted(s: Spec, steps: seq<Step>, ids: set<string>) {
    steps == []
    || (LeafError(s, steps[0].leaf, ids).None? && AllAccepted(s, steps[1..], ids + SocketIds(SocketsOf(steps[..1]))))
  }

  lemma {:induction false} AcceptedAppend(s: Spec, a: seq<Step>, b: seq<Step>, ids: set<string>)
    ensures AllAccepted(s, a + b, ids) <==> AllAccepted(s, a, ids) && AllAccepted(s, b, ids + SocketIds(SocketsOf(a)))
    decreases |a|
  {
    hide LeafError;
    if a == [] {
      assert a + b == b && ids + SocketIds(SocketsOf(a)) == ids;
    } else {
      var more := ids + SocketIds(SocketsOf(a[..1]));
      assert (a + b)[1..] == a[1..] + b && (a + b)[..1] == a[..1] && a == a[..1] + a[1..];
      SocketsAppend(a[..1], a[1..]);
      assert more + SocketIds(SocketsOf(a[1..])) == ids + SocketIds(SocketsOf(a));
      AcceptedAppend(s, a[1..], b, more);
    }
  }

  /**
   * A script without attempts throws nothing exactly if its components nest properly and its leaves are accepted; then
   * it plays just its leaves.
   */
  lemma {:induction false} PlaysItsLeaves(s: Spec, calls: seq<Call>, around: seq<string>, ids: set<string>)
    requires NoAttempt(calls)
    ensures var (steps, error) := Played(s, calls, around, ids);
            && (error.None? <==> Nests(s, calls, around) && AllAccepted(s, Leaves(calls, around), ids))
            && (error.None? ==> steps == Leaves(calls, around))
    decreases calls
  {
    if calls != [] {
      var first, rest := LeavesOf(calls[0], around), Leaves(calls[1..], around);
      LeafPlaysItself(s, calls[0], around, ids);
      hide LeafError;
      AcceptedAppend(s, first, rest, ids);
      PlaysItsLeaves(s, calls[1..], around, ids + SocketIds(SocketsOf(first)));
    }
  }

  lemma {:induction false} LeafPlaysItself(s: Spec, call: Call, around: seq<string>, ids: set<string>)
    requires NoAttemptIn(call)
    ensures var (steps, error) := PlayedOf(s, call, around, ids);
            && (error.None? <==> NestsIn(s, call, around) && AllAccepted(s, LeavesOf(call, around), ids))
            && (error.None? ==> steps == LeavesOf(call, around))
    decreases call
  {
    hide LeafError;
    match call
    case Component(id, body) => PlaysItsLeaves(s, body, around + [id], ids);
    case _ => OneAccepted(s, Step(call, around), ids);
  }

  lemma OneAccepted(s: Spec, step: Step, ids: set<string>)
    ensures AllAccepted(s, [step], ids) <==> LeafError(s, step.leaf, ids).None?
  {
    hide LeafError;
    assert [step][1..] == [];
  }

  /** A call is accepted exactly if it touches cells, all of them inside the size, with a key of the palette. */
  lemma WriteAcceptedIff(s: Spec, leaf: Call, ids: set<string>)
    requires KeyOf(leaf).Some? && s.size.x <= 512 && s.size.y <= 512 && s.size.z <= 512
    ensures LeafError(s, leaf, ids).None? <==>
              && (exists p :: Touches(leaf, p)) && (forall p :: Touches(leaf, p) ==> Inside(p, s.size))
              && KeyOf(leaf).value in PaletteKeys(s.palette)
  {
    if leaf.SetBlock? {
      assert Touches(leaf, leaf.pos);
    } else {
      var (min, max) := Box(leaf);
      assert forall p :: Touches(leaf, p) <==> InBox(min, max, p) by { BoxIsTouched(leaf); }
      assert LeafError(s, leaf, ids) == BoxError(s, min, max, KeyOf(leaf).value);
      hide Touches, BoxError, Box, LeafError, Inside;
      BoxAcceptedIff(s, min, max, KeyOf(leaf).value);
    }
  }

  function Box(leaf: Call): (Int3, Int3) {
    match leaf
    case FillBox(min, max, _) => (min, max)
    case LineX(minX, maxX, y, z, _) => (Int3(minX, y, z), Int3(maxX, y + 1, z + 1))
    case LineY(x, minY, maxY, z, _) => (Int3(x, minY, z), Int3(x + 1, maxY, z + 1))
    case LineZ(x, y, minZ, maxZ, _) => (Int3(x, y, minZ), Int3(x + 1, y + 1, maxZ))
    case SetBlock(pos, _) => (pos, After(pos))
    case _ => (Int3(0, 0, 0), Int3(0, 0, 0))
  }

  lemma BoxIsTouched(leaf: Call)
    requires KeyOf(leaf).Some?
    ensures forall p :: Touches(leaf, p) <==>
              && Box(leaf).0.x <= p.x < Box(leaf).1.x && Box(leaf).0.y <= p.y < Box(leaf).1.y
              && Box(leaf).0.z <= p.z < Box(leaf).1.z
  {
  }

  predicate InBox(min: Int3, max: Int3, p: Int3) {
    min.x <= p.x < max.x && min.y <= p.y < max.y && min.z <= p.z < max.z
  }

  lemma BoxAcceptedIff(s: Spec, min: Int3, max: Int3, key: string)
    requires s.size.x <= 512 && s.size.y <= 512 && s.size.z <= 512
    ensures BoxError(s, min, max, key).None? <==>
              && (exists p :: InBox(min, max, p)) && (forall p :: InBox(min, max, p) ==> Inside(p, s.size))
              && key in PaletteKeys(s.palette)
  {
    if BoxError(s, min, max, key).None? {
      assert InBox(min, max, min);
    }
    if (exists p :: InBox(min, max, p)) && (forall p :: InBox(min, max, p) ==> Inside(p, s.size)) {
      assert InBox(min, max, min) && InBox(min, max, Corner(max));
    }
  }

  // ---------------------------------------------------------------------------------------------
  // The trace and the leaves
  // ---------------------------------------------------------------------------------------------

  /** These ids, sorted. */
  ghost predicate SortedIds(around: seq<string>, ids: seq<string>) {
    multiset(ids) == multiset(around) && Sorted(ids, StringLeq)
  }

  ghost predicate Writes(w: Write, step: Step) {
    && KeyOf(step.leaf) == Some(w.palette) && SortedIds(step.around, w.components)
    && forall p :: Covers(w, p) <==> Touches(step.leaf, p)
  }

  /** The leaves that write blocks. */
  function Writing(steps: seq<Step>): seq<Step> {
    if steps == [] then []
    else (if KeyOf(steps[0].leaf).Some? then [steps[0]] else []) + Writing(steps[1..])
  }

  ghost predicate AllWrite(writes: seq<Write>, steps: seq<Step>) {
    |writes| == |steps| && forall k :: 0 <= k < |writes| ==> Writes(writes[k], steps[k])
  }

  ghost predicate Traces(t: Trace, steps: seq<Step>) {
    && AllWrite(t.writes, Writing(steps))
    && t.markers == MarkersOf(steps) && t.sockets == SocketsOf(steps)
  }

  lemma {:induction false} WritingAppend(a: seq<Step>, b: seq<Step>)
    ensures Writing(a + b) == Writing(a) + Writing(b)
  {
    if a == [] {
      assert a + b == b;
    } else {
      assert (a + b)[1..] == a[1..] + b;
      WritingAppend(a[1..], b);
    }
  }

  lemma TracesThen(first: Trace, second: Trace, a: seq<Step>, b: seq<Step>)
    requires Traces(first, a) && Traces(second, b)
    ensures Traces(Then(first, second), a + b)
  {
    WritingAppend(a, b);
    SocketsAppend(a, b);
    hide Writes, Writing, SocketsOf, MarkersOf;
  }

  lemma ActiveAreSorted(active: seq<string>)
    ensures SortedIds(active, Sort(active, StringLeq))
  {
    StringLeqIsTotalOrder();
    SortIsSorted(active, StringLeq);
    SortIsPermutation(active, StringLeq);
  }

  lemma LeafTraces(s: Spec, leaf: Call, active: seq<string>, ids: set<string>)
    requires !leaf.Component? && !leaf.Attempt?
    ensures var (steps, error) := PlayedOf(s, leaf, active, ids);
            TraceOf(s, leaf, active, ids).error == error && Traces(TraceOf(s, leaf, active, ids), steps)
  {
    ActiveAreSorted(active);
    hide Sort, SortedIds, PositionError, MarkerKind, SafeId, BoxError;
    var t, step := TraceOf(s, leaf, active, ids), Step(leaf, active);
    assert [step][1..] == [];
    NothingPlayed();
    assert KeyOf(leaf).Some? && LeafError(s, leaf, ids).None? ==>
             t.writes == [Write(Box(leaf).0, Box(leaf).1, KeyOf(leaf).value, Sort(active, StringLeq))];
    if KeyOf(leaf).Some? && LeafError(s, leaf, ids).None? {
      BoxIsTouched(leaf);
      assert Writes(t.writes[0], step);
    }
    hide Writes, BoxTrace;
  }

  lemma NothingPlayed()
    ensures Writing([]) == [] && MarkersOf([]) == [] && SocketsOf([]) == []
  {
  }

  lemma {:induction false} CallTraces(s: Spec, call: Call, active: seq<string>, ids: set<string>)
    ensures var (steps, error) := PlayedOf(s, call, active, ids);
            TraceOf(s, call, active, ids).error == error && Traces(TraceOf(s, call, active, ids), steps)
    decreases call
  {
    match call
    case Component(id, body) =>
      NothingPlayed();
      hide Writes, Writing, MarkersOf, SocketsOf;
      ScriptTraces(s, body, active + [id], ids);
    case Attempt(body) =>
      hide Writes, Writing, MarkersOf, SocketsOf;
      ScriptTraces(s, body, active, ids);
    case _ =>
      LeafTraces(s, call, active, ids);
  }

  /** The reference trace of any script, one that throws included, is that of the leaves played. */
  lemma {:induction false} ScriptTraces(s: Spec, calls: seq<Call>, active: seq<string>, ids: set<string>)
    ensures var (steps, error) := Played(s, calls, active, ids);
            TraceAll(s, calls, active, ids).error == error && Traces(TraceAll(s, calls, active, ids), steps)
    decreases calls
  {
    if calls == [] {
      NothingPlayed();
    } else {
      CallTraces(s, calls[0], active, ids);
      var first := TraceOf(s, calls[0], active, ids);
      var (steps, error) := PlayedOf(s, calls[0], active, ids);
      if first.error.None? {
        var after := ids + SocketIds(first.sockets);
        ScriptTraces(s, calls[1..], active, after);
        TracesThen(first, TraceAll(s, calls[1..], active, after), steps, Played(s, calls[1..], active, after).0);
      }
      hide Writes, Writing, TraceOf, PlayedOf, MarkersOf, SocketsOf;
    }
  }

  // ---------------------------------------------------------------------------------------------
  // The blocks the leaves leave
  // ---------------------------------------------------------------------------------------------

  ghost predicate Touched(steps: seq<Step>, p: Int3) {
    exists k :: 0 <= k < |steps| && Touches(steps[k].leaf, p)
  }

  /** The last leaf that touches the position. */
  ghost predicate LastTouch(steps: seq<Step>, k: int, p: Int3) {
    && 0 <= k < |steps| && Touches(steps[k].leaf, p)
    && forall j :: k < j < |steps| ==> !Touches(steps[j].leaf, p)
  }

  ghost predicate WrittenBy(step: Step, key: string, components: seq<string>) {
    KeyOf(step.leaf) == Some(key) && SortedIds(step.around, components)
  }

  lemma WritingLast(steps: seq<Step>)
    requires steps != []
    ensures var last := steps[|steps| - 1];
            Writing(steps) == Writing(steps[..|steps| - 1]) + if KeyOf(last.leaf).Some? then [last] else []
  {
    var n := |steps| - 1;
    WritingAppend(steps[..n], [steps[n]]);
    assert steps[..n] + [steps[n]] == steps;
    assert [steps[n]][1..] == [];
  }

  /** The last write at a position is that of the last leaf that touches it. */
  ghost predicate LastMatches(last: Option<Write>, steps: seq<Step>, p: Int3) {
    && (last.Some? <==> Touched(steps, p))
    && forall k :: 0 <= k < |steps| && LastTouch(steps, k, p) ==>
         last.Some? && WrittenBy(steps[k], last.value.palette, last.value.components)
  }

  lemma {:induction false} LastWriteIsLast(writes: seq<Write>, steps: seq<Step>, p: Int3)
    requires AllWrite(writes, Writing(steps))
    ensures LastMatches(LastWrite(writes, p), steps, p)
    decreases |steps|
  {
    if steps == [] {
      NothingPlayed();
    } else {
      var n := |steps| - 1;
      var last, before := steps[n], steps[..n];
      WritingLast(steps);
      hide Writing, Touches, Writes, SortedIds, LastMatches;
      if KeyOf(last.leaf).Some? {
        var m := |writes| - 1;
        assert Writing(steps)[..m] == Writing(before);
        assert Writes(writes[m], Writing(steps)[m]);
        WriteMeans(writes[m], last, p);
        LastWriteIsLast(writes[..m], before, p);
        LastOfWrites(writes, p);
        hide LastWrite;
        OneMoreLeaf(steps, LastWrite(writes[..m], p), Some(writes[m]), p);
      } else {
        assert Writing(steps) == Writing(before);
        LastWriteIsLast(writes, before, p);
        hide LastWrite;
        OneMoreLeaf(steps, LastWrite(writes, p), None, p);
      }
    }
  }

  lemma OneMoreLeaf(steps: seq<Step>, before: Option<Write>, w: Option<Write>, p: Int3)
    requires steps != [] && LastMatches(before, steps[..|steps| - 1], p)
    requires var last := steps[|steps| - 1];
             && (w.None? ==> KeyOf(last.leaf).None?)
             && (w.Some? ==> (Covers(w.value, p) <==> Touches(last.leaf, p))
                             && WrittenBy(last, w.value.palette, w.value.components))
    ensures LastMatches(if w.Some? && Covers(w.value, p) then w else before, steps, p)
  {
    TouchedLast(steps, p);
    hide Touches, Touched, WrittenBy, Covers;
    var n := |steps| - 1;
    var last := if w.Some? && Covers(w.value, p) then w else before;
    forall k | 0 <= k < |steps| && LastTouch(steps, k, p)
      ensures last.Some? && WrittenBy(steps[k], last.value.palette, last.value.components)
    {
      if k < n {
        assert LastTouch(steps[..n], k, p) && steps[..n][k] == steps[k];
      }
      hide LastTouch;
    }
    hide LastTouch;
  }

  lemma LastOfWrites(writes: seq<Write>, p: Int3)
    requires writes != []
    ensures var m := |writes| - 1;
            LastWrite(writes, p) == if Covers(writes[m], p) then Some(writes[m]) else LastWrite(writes[..m], p)
  {
  }

  lemma WriteMeans(w: Write, step: Step, p: Int3)
    requires Writes(w, step)
    ensures Covers(w, p) <==> Touches(step.leaf, p)
    ensures WrittenBy(step, w.palette, w.components)
  {
  }

  lemma TouchedLast(steps: seq<Step>, p: Int3)
    requires steps != []
    ensures var n := |steps| - 1;
            && (Touched(steps, p) <==> Touched(steps[..n], p) || Touches(steps[n].leaf, p))
            && (KeyOf(steps[n].leaf).None? ==> !Touches(steps[n].leaf, p))
            && forall k :: LastTouch(steps, k, p) <==>
                 if Touches(steps[n].leaf, p) then k == n else LastTouch(steps[..n], k, p)
  {
    var n := |steps| - 1;
    assert KeyOf(steps[n].leaf).None? ==> !Touches(steps[n].leaf, p);
    hide Touches;
    if Touched(steps[..n], p) {
      var k :| 0 <= k < n && Touches(steps[..n][k].leaf, p);
      assert Touches(steps[k].leaf, p);
    }
    if Touched(steps, p) && !Touches(steps[n].leaf, p) {
      var k :| 0 <= k < |steps| && Touches(steps[k].leaf, p);
      assert Touches(steps[..n][k].leaf, p);
    }
  }

  lemma {:induction false} OverwrittenShows(was: map<Int3, Block>, index: map<string, nat>, writes: seq<Write>, p: Int3)
    ensures var now, last := Overwritten(was, index, writes), LastWrite(writes, p);
            && (p in now <==> p in was || last.Some?)
            && (p in now ==> now[p] == if last.Some? then BlockAt(index, last.value, p) else was[p])
    decreases |writes|
  {
    if writes != [] {
      OverwrittenShows(was, index, writes[..|writes| - 1], p);
      PositionsAreCovered(writes[|writes| - 1], p);
    }
  }

  /** Where no leaf touches everything is as it was, and elsewhere as the last leaf that touches left it. */
  ghost predicate LaidDown(was: map<Int3, Block>, now: map<Int3, Block>, index: map<string, nat>, steps: seq<Step>) {
    && (forall p :: !Touched(steps, p) ==> (p in now <==> p in was) && (p in was ==> now[p] == was[p]))
    && (forall p, k :: 0 <= k < |steps| && LastTouch(steps, k, p) ==> LaidAt(now, index, steps[k], p))
  }

  ghost predicate LaidAt(now: map<Int3, Block>, index: map<string, nat>, step: Step, p: Int3) {
    && p in now && now[p].pos == p && SortedIds(step.around, now[p].components)
    && KeyOf(step.leaf).Some? && now[p].palette == Index(index, KeyOf(step.leaf).value)
  }

  lemma OverwrittenIsLaidDown(was: map<Int3, Block>, index: map<string, nat>, writes: seq<Write>, steps: seq<Step>)
    requires AllWrite(writes, Writing(steps))
    ensures LaidDown(was, Overwritten(was, index, writes), index, steps)
  {
    hide Overwritten, Touches, Writing, LastWrite, SortedIds, LastTouch, Touched, Covers;
    var now := Overwritten(was, index, writes);
    forall p
      ensures !Touched(steps, p) ==> (p in now <==> p in was) && (p in was ==> now[p] == was[p])
      ensures forall k :: 0 <= k < |steps| && LastTouch(steps, k, p) ==> LaidAt(now, index, steps[k], p)
    {
      LastWriteIsLast(writes, steps, p);
      OverwrittenShows(was, index, writes, p);
    }
  }

  /** What a call, or a script, does by its trace it does by its leaves. */
  lemma CallLaysDown(
      s: Spec, call: Call, active: seq<string>, ids: set<string>, was: map<Int3, Block>, index: map<string, nat>)
    ensures var (steps, error) := PlayedOf(s, call, active, ids);
            var t := TraceOf(s, call, active, ids);
            && t.error == error && LaidDown(was, Overwritten(was, index, t.writes), index, steps)
            && t.markers == MarkersOf(steps) && t.sockets == SocketsOf(steps)
  {
    CallTraces(s, call, active, ids);
    hide TraceOf, PlayedOf, LaidDown, AllWrite;
    OverwrittenIsLaidDown(was, index, TraceOf(s, call, active, ids).writes, PlayedOf(s, call, active, ids).0);
  }

  lemma ScriptLaysDown(
      s: Spec, calls: seq<Call>, active: seq<string>, ids: set<string>, was: map<Int3, Block>, index: map<string, nat>)
    ensures var (steps, error) := Played(s, calls, active, ids);
            var t := TraceAll(s, calls, active, ids);
            && t.error == error && LaidDown(was, Overwritten(was, index, t.writes), index, steps)
            && t.markers == MarkersOf(steps) && t.sockets == SocketsOf(steps)
  {
    ScriptTraces(s, calls, active, ids);
    hide TraceAll, Played, LaidDown, AllWrite;
    OverwrittenIsLaidDown(was, index, TraceAll(s, calls, active, ids).writes, Played(s, calls, active, ids).0);
  }
}
