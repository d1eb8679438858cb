/**
 * The preview scene: part groups whose transforms are overwritten by every update. It is proved to forget its
 * history, and to show, composed from root to part, the matrices of the pure pose evaluator.
 */
module FigureScenes {
  import opened Outcomes
  import opened FigureAnimation
  import opened FigureMeaning
  import opened FigurePose

  // The scene's own conversions; in exact arithmetic they agree with the library's.

  function Radians<M, Q>(m: Maths<M, Q>, degrees: real): real {
    degrees * m.pi / 180.0
  }

  function Euler<M, Q>(m: Maths<M, Q>, degrees: Vec3): Vec3 {
    Vec3(Radians(m, degrees.x), Radians(m, degrees.y), Radians(m, degrees.z))
  }

  /** A part's group as it is built. */
  function RestLocal<M, Q>(m: Maths<M, Q>, part: Part): Local<Q> {
    Local(Add(OrZero(part.at), Pivot(part)), m.euler(Euler(m, OrZero(part.rot))), ONES)
  }

  /** A part's group with a clip's channels applied over what it holds. */
  function Applied<M, Q>(m: Maths<M, Q>, part: Part, group: Local<Q>, keys: seq<Key>, time: real): Local<Q> {
    var base := RestLocal(m, part);
    var rotation := Euler(m, OrZero(part.rot));
    var translation := SampleKeyed(KeyedOf(keys, AtChannel), time);
    var scale := SampleKeyed(KeyedOf(keys, ScaleChannel), time);
    Local(
      if translation.Some? then Add(base.position, translation.value) else group.position,
      match SpanOf(KeyedOf(keys, RotChannel), time)
      case None => group.rotation
      case Some(span) =>
        m.slerp(m.euler(Add(rotation, Euler(m, span.left))), m.euler(Add(rotation, Euler(m, span.right))), span.alpha),
      if scale.Some? then scale.value else group.scale)
  }

  /** What a part's group holds after an update with this clip at this time. */
  function ShownLocal<M, Q>(m: Maths<M, Q>, part: Part, clip: Option<Clip>, time: real): Local<Q> {
    if clip.None? then RestLocal(m, part)
    else Applied(m, part, RestLocal(m, part), PartKeys(clip.value.keys, part.name), LocalTime(clip.value, time))
  }

  /** Every part's group shows that transform. */
  ghost predicate Shows<M, Q>(
      m: Maths<M, Q>, parts: seq<Part>, groups: map<string, Local<Q>>, clip: Option<Clip>, time: real)
  {
    forall p :: p in parts ==> p.name in groups && groups[p.name] == ShownLocal(m, p, clip, time)
  }

  /** Every part's group holds what the clip's keys give the part. */
  ghost predicate ShowsPose<M, Q>(
      m: Maths<M, Q>, parts: seq<Part>, groups: map<string, Local<Q>>, clip: Option<Clip>, time: real)
  {
    forall p :: p in parts ==> p.name in groups && InPose(m, p, clip, time, groups[p.name])
  }

  lemma ShownIsPose<M, Q>(
      m: Maths<M, Q>, parts: seq<Part>, groups: map<string, Local<Q>>, clip: Option<Clip>, time: real)
    requires Shows(m, parts, groups, clip, time)
    ensures ShowsPose(m, parts, groups, clip, time)
  {
    hide ShownLocal, InPose, PoseLocals;
    forall p | p in parts ensures InPose(m, p, clip, time, groups[p.name]) {
      LocalsAgree(m, p, clip, time);
      SampledInPose(m, p, clip, time);
    }
  }

  /** The clip a name stands for. */
  function Named(asset: Asset, name: Option<string>): Option<Clip>
    requires name.Some? ==> name.value in asset.clips
  {
    if name.None? then None else Some(asset.clips[name.value])
  }

  // ---------------------------------------------------------------------------------------------
  // The scene object
  // ---------------------------------------------------------------------------------------------

  class FigureScene<!M, !Q> {
    const m: Maths<M, Q>
    const asset: Asset
    const prepared: map<string, map<string, seq<Key>>>
    var activeClip: Option<string>
    var groups: map<string, Local<Q>>

    ghost predicate Valid()
      reads this
    {
      && (forall i, j :: 0 <= i < j < |asset.parts| ==> asset.parts[i].name != asset.parts[j].name)
      && prepared.Keys == asset.clips.Keys
      && (forall c :: c in prepared ==> Prepared(asset.clips[c].keys, prepared[c]))
      && (activeClip.Some? ==> activeClip.value in asset.clips)
      && (forall p :: p in asset.parts ==> p.name in groups)
    }

    /** The scene shows the clip at the time. */
    ghost predicate Showing(clip: Option<Clip>, time: real)
      reads this
    {
      Shows(m, asset.parts, groups, clip, time)
    }

    /** A new scene shows the rest pose, whatever clip it starts with: it has not been updated yet. */
    constructor (m: Maths<M, Q>, asset: Asset, prepared: map<string, map<string, seq<Key>>>, clipName: Option<string>)
      requires forall i, j :: 0 <= i < j < |asset.parts| ==> asset.parts[i].name != asset.parts[j].name
      requires prepared.Keys == asset.clips.Keys
               && forall c :: c in prepared ==> Prepared(asset.clips[c].keys, prepared[c])
      requires clipName.Some? ==> clipName.value in asset.clips
      ensures Valid() && this.m == m && this.asset == asset && activeClip == clipName && Showing(None, 0.0)
    {
      this.m, this.asset, this.prepared, this.activeClip := m, asset, prepared, clipName;
      this.groups := map[];
      new;
      ResetGroups();
    }

    method SetClip(nextClipName: Option<string>) returns (r: Result<(), AnimationError>)
      requires Valid()
      modifies this`activeClip
      ensures Valid()
      ensures r == if nextClipName.Some? && nextClipName.value !in asset.clips
              then Failure(NoSuchClip(nextClipName.value)) else Success(())
      ensures activeClip == if r.Success? then nextClipName else old(activeClip)
    {
      if nextClipName.Some? && nextClipName.value !in prepared {
        return Failure(NoSuchClip(nextClipName.value));
      }
      activeClip := nextClipName;
      r := Success(());
    }

    /** Every group back to its base. */
    method ResetGroups()
      requires forall i, j :: 0 <= i < j < |asset.parts| ==> asset.parts[i].name != asset.parts[j].name
      modifies this`groups
      ensures Showing(None, 0.0)
    {
      hide RestLocal;
      for i := 0 to |asset.parts|
        invariant forall j :: 0 <= j < i ==>
                  asset.parts[j].name in groups && groups[asset.parts[j].name] == RestLocal(m, asset.parts[j])
      {
        var part := asset.parts[i];
        groups := groups[part.name := RestLocal(m, part)];
      }
    }

    /**
     * A time that is not finite is noticed only when a clip is active, and then only after the groups have been
     * reset: the update fails and the scene shows the rest pose.
     */
    method Update(time: Time) returns (r: Result<(), AnimationError>)
      requires Valid()
      modifies this`groups
      ensures Valid()
      ensures r == if activeClip.Some? && time.NonFinite? then Failure(TimeNotFinite) else Success(())
      ensures r.Success? ==> Showing(Named(asset, activeClip), if time.Finite? then time.t else 0.0)
      ensures r.Success? ==>
        ShowsPose(m, asset.parts, groups, Named(asset, activeClip), if time.Finite? then time.t else 0.0)
      ensures r.Failure? ==> Showing(None, 0.0) && ShowsPose(m, asset.parts, groups, None, 0.0)
    {
      hide ShownLocal, ShowsPose;
      ResetGroups();
      ShownIsPose(m, asset.parts, groups, None, 0.0);
      if activeClip.Some? {
        if time.NonFinite? {
          return Failure(TimeNotFinite);
        }
        ApplyClip(asset.clips[activeClip.value], prepared[activeClip.value], time.t);
      } else {
        RestAtAnyTime(m, asset.parts, groups, 0.0, if time.Finite? then time.t else 0.0);
      }
      r := Success(());
    }

    /** Applies the keyed channels of every part that has keys, on groups that are at rest. */
    method ApplyClip(clip: Clip, keysByPart: map<string, seq<Key>>, time: real)
      requires Valid() && Showing(None, 0.0) && Prepared(clip.keys, keysByPart)
      modifies this`groups
      ensures Valid() && Showing(Some(clip), time)
      ensures ShowsPose(m, asset.parts, groups, Some(clip), time)
    {
      hide RestLocal, Applied, Shows, PartlyApplied, Prepared, LocalTime, ShowsPose, PartsByName;
      var localTime := LocalTime(clip, time);
      var byName := PartsByName(asset.parts);
      PartsByNameFinds(asset.parts);
      var todo := keysByPart.Keys;
      NothingApplied(m, asset.parts, groups, keysByPart, localTime);
      ghost var done: set<string> := {};
      while todo != {}
        invariant done !! todo && done + todo == keysByPart.Keys
        invariant PartlyApplied(m, asset.parts, groups, keysByPart, localTime, done)
      {
        var partName :| partName in todo;
        ApplyOne(m, asset.parts, groups, keysByPart, localTime, done, partName);
        if partName in byName {
          var part := byName[partName];
          groups := groups[partName := Applied(m, part, groups[partName], keysByPart[partName], localTime)];
        }
        todo := todo - {partName};
        done := done + {partName};
      }
      assert done == keysByPart.Keys;
      AllApplied(m, asset.parts, groups, clip, keysByPart, time);
      ShownIsPose(m, asset.parts, groups, Some(clip), time);
    }
  }

  lemma RestAtAnyTime<M, Q>(m: Maths<M, Q>, parts: seq<Part>, groups: map<string, Local<Q>>, s: real, t: real)
    requires Shows(m, parts, groups, None, s)
    ensures Shows(m, parts, groups, None, t) && ShowsPose(m, parts, groups, None, t)
  {
    hide RestLocal;
    ShownIsPose(m, parts, groups, None, t);
  }

  /** The groups of the parts in `done` have their channels applied, the others are at rest. */
  ghost predicate PartlyApplied<M, Q>(
    m: Maths<M, Q>, parts: seq<Part>, groups: map<string, Local<Q>>, keysByPart: map<string, seq<Key>>, time: real,
    done: set<string>)
  {
    forall p :: p in parts ==>
      && p.name in groups
      && (p.name in keysByPart && p.name in done ==>
           groups[p.name] == Applied(m, p, RestLocal(m, p), keysByPart[p.name], time))
      && (!(p.name in keysByPart && p.name in done) ==> groups[p.name] == RestLocal(m, p))
  }

  lemma ApplyOne<M, Q>(
    m: Maths<M, Q>, parts: seq<Part>, groups: map<string, Local<Q>>, keysByPart: map<string, seq<Key>>, time: real,
    done: set<string>, name: string)
    requires forall i, j :: 0 <= i < j < |parts| ==> parts[i].name != parts[j].name
    requires PartlyApplied(m, parts, groups, keysByPart, time, done) && name in keysByPart && name !in done
    ensures name in PartsByName(parts) ==> name in groups
    ensures var next := if name in PartsByName(parts) && name in groups
                        then groups[name := Applied(m, PartsByName(parts)[name], groups[name], keysByPart[name], time)]
                        else groups;
            PartlyApplied(m, parts, next, keysByPart, time, done + {name})
  {
    hide RestLocal, Applied;
    PartsByNameFinds(parts);
  }

  lemma NothingApplied<M, Q>(
      m: Maths<M, Q>, parts: seq<Part>, groups: map<string, Local<Q>>, keysByPart: map<string, seq<Key>>, time: real)
    requires Shows(m, parts, groups, None, 0.0)
    ensures PartlyApplied(m, parts, groups, keysByPart, time, {})
  {
    hide RestLocal, Applied;
  }

  lemma AllApplied<M, Q>(
      m: Maths<M, Q>, parts: seq<Part>, groups: map<string, Local<Q>>, clip: Clip, keysByPart: map<string, seq<Key>>,
      time: real)
    requires Prepared(clip.keys, keysByPart)
    requires PartlyApplied(m, parts, groups, keysByPart, LocalTime(clip, time), keysByPart.Keys)
    ensures Shows(m, parts, groups, Some(clip), time)
    ensures forall p :: p in parts ==> p.name in groups
  {
    hide RestLocal, Applied, LocalTime;
    forall p | p in parts ensures p.name in groups && groups[p.name] == ShownLocal(m, p, Some(clip), time) {
      if p.name !in keysByPart {
        NoKeysOf(clip.keys, p.name);
        AppliedNothing(m, p, LocalTime(clip, time));
      }
    }
  }

  lemma AppliedNothing<M, Q>(m: Maths<M, Q>, part: Part, time: real)
    ensures Applied(m, part, RestLocal(m, part), [], time) == RestLocal(m, part)
  {
  }

  /** createFigureScene: prepares every clip, then builds the groups. */
  method CreateFigureScene<M, Q>(
      m: Maths<M, Q>, asset: Asset, clipName: Option<string>)
    returns (r: Result<FigureScene<M, Q>, AnimationError>)
    requires forall i, j :: 0 <= i < j < |asset.parts| ==> asset.parts[i].name != asset.parts[j].name
    ensures r.Success? <==> clipName.None? || clipName.value in asset.clips
    ensures r.Success? ==> fresh(r.value) && r.value.Valid() && r.value.asset == asset && r.value.m == m
                           && r.value.activeClip == clipName && r.value.Showing(None, 0.0)
  {
    var prepared: map<string, map<string, seq<Key>>> := map[];
    var todo := asset.clips.Keys;
    while todo != {}
      invariant todo <= asset.clips.Keys && prepared.Keys == asset.clips.Keys - todo
      invariant forall c :: c in prepared ==> Prepared(asset.clips[c].keys, prepared[c])
    {
      var name :| name in todo;
      var keysByPart := PrepareKeys(asset.clips[name].keys);
      prepared := prepared[name := keysByPart];
      todo := todo - {name};
    }
    if clipName.Some? && clipName.value !in prepared {
      return Failure(NoSuchClip(clipName.value));
    }
    var scene := new FigureScene(m, asset, prepared, clipName);
    r := Success(scene);
  }

  // ---------------------------------------------------------------------------------------------
  // Runs: the scene forgets its history
  // ---------------------------------------------------------------------------------------------

  datatype Call = SetClipCall(name: Option<string>) | UpdateCall(time: Time)

  /** What a scene holds between calls: the active clip, and the clip and time its groups show. */
  datatype SceneState = SceneState(activeClip: Option<string>, shownClip: Option<string>, shownTime: real)

  /** One call, as the methods above specify it; a call that throws may still have changed the scene. */
  function After(asset: Asset, state: SceneState, call: Call): SceneState {
    match call
    case SetClipCall(name) =>
      if name.Some? && name.value !in asset.clips then state else state.(activeClip := name)
    case UpdateCall(time) =>
      if state.activeClip.Some? && time.NonFinite? then state.(shownClip := None, shownTime := 0.0)
      else state.(shownClip := state.activeClip, shownTime := if time.Finite? then time.t else 0.0)
  }

  function AfterAll(asset: Asset, state: SceneState, calls: seq<Call>): SceneState {
    if calls == [] then state else After(asset, AfterAll(asset, state, calls[..|calls| - 1]), calls[|calls| - 1])
  }

  /** The scene object is in that state. */
  ghost predicate InState<M, Q>(scene: FigureScene<M, Q>, state: SceneState)
    reads scene
  {
    && scene.Valid() && scene.activeClip == state.activeClip
    && (state.shownClip.Some? ==> state.shownClip.value in scene.asset.clips)
    && scene.Showing(
         if state.shownClip.Some? && state.shownClip.value in scene.asset.clips
         then Some(scene.asset.clips[state.shownClip.value]) else None,
                     state.shownTime)
  }

  /** Any run of the object follows the state machine. */
  method Run<M, Q>(scene: FigureScene<M, Q>, calls: seq<Call>, ghost start: SceneState)
    requires InState(scene, start)
    modifies scene
    ensures InState(scene, AfterAll(scene.asset, start, calls))
  {
    for i := 0 to |calls|
      invariant InState(scene, AfterAll(scene.asset, start, calls[..i]))
    {
      hide Shows;
      assert calls[..i + 1][..i] == calls[..i];
      match calls[i]
      case SetClipCall(name) =>
        var _ := scene.SetClip(name);
      case UpdateCall(time) =>
        var _ := scene.Update(time);
        RestHasNoTime(scene.m, scene.asset.parts, scene.groups, 0.0, if time.Finite? then time.t else 0.0);
    }
    assert calls[..|calls|] == calls;
  }

  lemma RestHasNoTime<M, Q>(m: Maths<M, Q>, parts: seq<Part>, groups: map<string, Local<Q>>, t: real, u: real)
    ensures Shows(m, parts, groups, None, t) <==> Shows(m, parts, groups, None, u)
  {
  }

  /** The last clip that was set by a call that did not throw, or the one at the start. */
  function LastClip(asset: Asset, start: Option<string>, calls: seq<Call>): Option<string> {
    if calls == [] then start
    else
      var last := calls[|calls| - 1];
      if last.SetClipCall? && (last.name.None? || last.name.value in asset.clips) then last.name
      else LastClip(asset, start, calls[..|calls| - 1])
  }

  /** The call sets a clip without throwing. */
  predicate Sets(asset: Asset, call: Call) {
    call.SetClipCall? && (call.name.None? || call.name.value in asset.clips)
  }

  predicate SetsLast(asset: Asset, calls: seq<Call>, i: int) {
    0 <= i < |calls| && Sets(asset, calls[i]) && forall j :: i < j < |calls| ==> !Sets(asset, calls[j])
  }

  lemma {:induction false} NoClipSet(asset: Asset, start: Option<string>, calls: seq<Call>)
    requires forall i :: 0 <= i < |calls| ==> !Sets(asset, calls[i])
    ensures LastClip(asset, start, calls) == start
    decreases |calls|
  {
    if calls != [] {
      NoClipSet(asset, start, calls[..|calls| - 1]);
    }
  }

  /** The last clip is that of the last call that sets one. */
  lemma {:induction false} LastClipIs(asset: Asset, start: Option<string>, calls: seq<Call>, i: nat)
    requires SetsLast(asset, calls, i)
    ensures calls[i].SetClipCall? && LastClip(asset, start, calls) == calls[i].name
    decreases |calls|
  {
    var n := |calls| - 1;
    if i < n {
      var before := calls[..n];
      LastClipIs(asset, start, before, i);
      assert before[i] == calls[i];
    }
  }

  lemma {:induction false} ActiveIsLastSet(asset: Asset, state: SceneState, calls: seq<Call>)
    ensures AfterAll(asset, state, calls).activeClip == LastClip(asset, state.activeClip, calls)
    decreases |calls|
  {
    if calls != [] {
      ActiveIsLastSet(asset, state, calls[..|calls| - 1]);
    }
  }

  /**
   * After any run, what is shown depends only on the last update's time and the clip that was active at it: not on
   * the updates before, nor on the clips set since.
   */
  lemma {:induction false} HistoryIsForgotten(
      asset: Asset, state: SceneState, before: seq<Call>, time: Time, since: seq<Call>)
    requires forall c :: c in since ==> c.SetClipCall?
    ensures var shown := AfterAll(asset, state, before + [UpdateCall(time)] + since);
            var clip := LastClip(asset, state.activeClip, before);
            if clip.Some? && time.NonFinite? then shown.shownClip == None
            else shown.shownClip == clip && shown.shownTime == if time.Finite? then time.t else 0.0
    decreases |since|
  {
    var calls := before + [UpdateCall(time)] + since;
    if since == [] {
      assert calls[..|calls| - 1] == before;
      ActiveIsLastSet(asset, state, before);
    } else {
      var init := since[..|since| - 1];
      assert calls[..|calls| - 1] == before + [UpdateCall(time)] + init;
      assert since[|since| - 1] in since;
      HistoryIsForgotten(asset, state, before, time, init);
    }
  }

  // ---------------------------------------------------------------------------------------------
  // The scene refines the evaluator
  // ---------------------------------------------------------------------------------------------

  /** A part's matrix in the scene graph: the parent's content, the part's group, and the content's offset, in turn. */
  ghost function SceneMatrix<M, Q>(
      m: Maths<M, Q>, parts: seq<Part>, groups: map<string, Local<Q>>, rank: string -> nat, part: Part): M
    requires Figure(parts, rank) && part in parts && forall p :: p in parts ==> p.name in groups
    decreases rank(part.name)
  {
    var parent := SceneParent(PartsByName(parts), part);
    var above :=
      if parent.None? then m.identity
      else (
        SceneParentIsParent(parts, rank, part);
        ParentIsPart(parts, rank, part);
        SceneMatrix(m, parts, groups, rank, parent.value)
      );
    var group := groups[part.name];
    m.mul(m.mul(above, m.compose(group.position, group.rotation, group.scale)), m.translation(Negated(Pivot(part))))
  }

  /** The scene takes an empty parent name for none. */
  function SceneParent(parts: map<string, Part>, part: Part): Option<Part> {
    if part.parent.Some? && part.parent.value != "" && part.parent.value in parts
    then Some(parts[part.parent.value]) else None
  }

  lemma SceneParentIsParent(parts: seq<Part>, rank: string -> nat, part: Part)
    requires Figure(parts, rank) && part in parts
    ensures SceneParent(PartsByName(parts), part) == Parent(PartsByName(parts), part)
  {
    PartsByNameFinds(parts);
    forall name | name in PartsByName(parts) ensures name != "" {
      assert PartsByName(parts)[name] in parts;
    }
  }

  ghost predicate Associative<M(!new)>(mul: (M, M) -> M) {
    forall a, b, c :: mul(mul(a, b), c) == mul(a, mul(b, c))
  }

  lemma RadiansAgree<M, Q>(m: Maths<M, Q>, degrees: real)
    ensures Radians(m, degrees) == LibraryRadians(m, degrees)
  {
  }

  lemma LerpsAgree(x: real, y: real, t: real)
    ensures Mix(x, y, t) == LibraryLerp(x, y, t)
  {
  }

  lemma EulersAgree<M, Q>(m: Maths<M, Q>, degrees: Vec3)
    ensures Euler(m, degrees) == LibraryEuler(m, degrees)
  {
    RadiansAgree(m, degrees.x);
    RadiansAgree(m, degrees.y);
    RadiansAgree(m, degrees.z);
  }

  lemma SamplesAgree(keyed: seq<Keyed>, time: real)
    ensures SampleKeyed(keyed, time) == SampleChannel(keyed, time)
  {
    var span := SpanOf(keyed, time);
    hide SpanOf, Mix, LibraryLerp;
    if span.Some? {
      var s := span.value;
      LerpsAgree(s.left.x, s.right.x, s.alpha);
      LerpsAgree(s.left.y, s.right.y, s.alpha);
      LerpsAgree(s.left.z, s.right.z, s.alpha);
    }
  }

  /** Overwriting a group at rest gives the transform the evaluator samples. */
  lemma LocalsAgree<M, Q>(m: Maths<M, Q>, part: Part, clip: Option<Clip>, time: real)
    ensures ShownLocal(m, part, clip, time) == PoseLocals(m, clip, time)(part)
  {
    hide Euler, LibraryEuler, SampleKeyed, SampleChannel, SpanOf, Sorting.Sort, LocalTime;
    var keys, t := if clip.None? then [] else PartKeys(clip.value.keys, part.name),
      if clip.None? then 0.0 else LocalTime(clip.value, time);
    AppliedNothing(m, part, 0.0);
    AppliedIsPose(m, part, keys, t);
  }

  lemma AppliedIsPose<M, Q>(m: Maths<M, Q>, part: Part, keys: seq<Key>, time: real)
    ensures Applied(m, part, RestLocal(m, part), keys, time) == PoseLocal(m, part, keys, time)
  {
    hide Euler, LibraryEuler, SampleKeyed, SampleChannel, SpanOf, KeyedOf;
    SamplesAgree(KeyedOf(keys, AtChannel), time);
    SamplesAgree(KeyedOf(keys, ScaleChannel), time);
    EulersAgree(m, OrZero(part.rot));
    var span := SpanOf(KeyedOf(keys, RotChannel), time);
    if span.Some? {
      EulersAgree(m, span.value.left);
      EulersAgree(m, span.value.right);
    }
  }

  /** In the scene graph every part stands where the evaluator puts it, for any figure without cycles. */
  lemma {:induction false} SceneRefinesEvaluator<M(!new), Q>(
    m: Maths<M, Q>, parts: seq<Part>, groups: map<string, Local<Q>>, clip: Option<Clip>, time: real,
    rank: string -> nat, part: Part)
    requires Figure(parts, rank) && part in parts && Associative(m.mul) && Shows(m, parts, groups, clip, time)
    ensures SceneMatrix(m, parts, groups, rank, part) == PoseMatrix(m, parts, PoseLocals(m, clip, time), rank, part)
    decreases rank(part.name)
  {
    LocalsAgree(m, part, clip, time);
    SceneParentIsParent(parts, rank, part);
    hide ShownLocal, PoseLocals, Pivot, SceneParent;
    var parent := Parent(PartsByName(parts), part);
    if parent.Some? {
      ParentIsPart(parts, rank, part);
      SceneRefinesEvaluator(m, parts, groups, clip, time, rank, parent.value);
    }
  }

  /** What was shown by the last update of a run, when it did not throw: the clip active at it, at its time. */
  lemma ShownAfter(asset: Asset, start: SceneState, before: seq<Call>, time: Time, since: seq<Call>)
    requires forall c :: c in since ==> c.SetClipCall?
    ensures var shown := AfterAll(asset, start, before + [UpdateCall(time)] + since);
            var clip := LastClip(asset, start.activeClip, before);
            clip.None? || time.Finite? ==>
              shown.shownClip == clip && shown.shownTime == if time.Finite? then time.t else 0.0
  {
    hide AfterAll;
    HistoryIsForgotten(asset, start, before, time, since);
  }

  /**
   * The object and the evaluator: after any run whose last update did not throw, every part stands in the scene graph
   * where the evaluator's pose, for the clip active at that update and its time, puts it.
   */
  lemma SceneShowsThePose<M(!new), Q>(
      scene: FigureScene<M, Q>, start: SceneState, before: seq<Call>, time: Time, since: seq<Call>,
      rank: string -> nat, pose: map<string, M>, part: Part)
    requires Figure(scene.asset.parts, rank) && part in scene.asset.parts && Associative(scene.m.mul)
    requires forall c :: c in since ==> c.SetClipCall?
    requires InState(scene, AfterAll(scene.asset, start, before + [UpdateCall(time)] + since))
    requires var clip := LastClip(scene.asset, start.activeClip, before);
             && (clip.Some? ==> clip.value in scene.asset.clips && time.Finite?)
             && IsPose(scene.m, scene.asset, clip, if time.Finite? then time.t else 0.0, rank, pose)
    ensures part.name in pose
    ensures SceneMatrix(scene.m, scene.asset.parts, scene.groups, rank, part) == pose[part.name]
  {
    hide AfterAll, LastClip, Figure, PoseMatrix, SceneMatrix, Shows;
    ShownAfter(scene.asset, start, before, time, since);
    var name := LastClip(scene.asset, start.activeClip, before);
    var clip := if name.None? then None else Some(scene.asset.clips[name.value]);
    SceneRefinesEvaluator(
      scene.m, scene.asset.parts, scene.groups, clip, if time.Finite? then time.t else 0.0, rank, part);
  }
}
