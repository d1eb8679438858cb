/** The pure pose evaluator: one content matrix per part, children inside their parent's, resolved with a cache. */
module FigurePose {
  import opened Outcomes
  import opened FigureAnimation
  import opened FigureMeaning

  // The library's own conversions, as the evaluator uses them.

  function LibraryRadians<M, Q>(m: Maths<M, Q>, degrees: real): real {
    degrees * (m.pi / 180.0)
  }

  function LibraryEuler<M, Q>(m: Maths<M, Q>, degrees: Vec3): Vec3 {
    Vec3(LibraryRadians(m, degrees.x), LibraryRadians(m, degrees.y), LibraryRadians(m, degrees.z))
  }

  function LibraryLerp(x: real, y: real, t: real): real {
    (1.0 - t) * x + t * y
  }

  function SampleChannel(keyed: seq<Keyed>, time: real): Option<Vec3> {
    match SpanOf(keyed, time)
    case None => None
    case Some(span) =>
      Some(Vec3(LibraryLerp(span.left.x, span.right.x, span.alpha),
                LibraryLerp(span.left.y, span.right.y, span.alpha),
                LibraryLerp(span.left.z, span.right.z, span.alpha)))
  }

  function PoseLocal<M, Q>(m: Maths<M, Q>, part: Part, keys: seq<Key>, time: real): Local<Q> {
    var base := LibraryEuler(m, OrZero(part.rot));
    var translation := SampleChannel(KeyedOf(keys, AtChannel), time);
    var rest := Add(OrZero(part.at), Pivot(part));
    var scale := SampleChannel(KeyedOf(keys, ScaleChannel), time);
    Local(
      if translation.Some? then Add(rest, translation.value) else rest,
      match SpanOf(KeyedOf(keys, RotChannel), time)
      case None => m.euler(base)
      case Some(span) =>
        m.slerp(m.euler(Add(base, LibraryEuler(m, span.left))), m.euler(Add(base, LibraryEuler(m, span.right))),
            span.alpha),
      if scale.Some? then scale.value else ONES)
  }

  /** The sampled transform is what the part's keys give it. */
  lemma PoseLocalFollows<M, Q>(m: Maths<M, Q>, part: Part, keys: seq<Key>, time: real)
    ensures LocalFollows(m, part, keys, time, PoseLocal(m, part, PartKeys(keys, part.name), time))
  {
    var own := PartKeys(keys, part.name);
    var at, rot, scale := KeyedOf(own, AtChannel), KeyedOf(own, RotChannel), KeyedOf(own, ScaleChannel);
    var local := PoseLocal(m, part, own, time);
    PartKeysAreChannelKeys(keys, part.name, AtChannel, KeyAt);
    PartKeysAreChannelKeys(keys, part.name, RotChannel, KeyRot);
    PartKeysAreChannelKeys(keys, part.name, ScaleChannel, KeyScale);
    PositionIsFollowed(m, part, own, time);
    RotationIsFollowed(m, part, own, time);
    ScaleIsFollowed(m, part, own, time);
    hide *;
    assert ChannelKeys(keys, part.name, KeyAt, at) && PositionFollows(part, at, time, local.position);
    assert ChannelKeys(keys, part.name, KeyRot, rot) && RotationFollows(m, part, rot, time, local.rotation);
    assert ChannelKeys(keys, part.name, KeyScale, scale) && ScaleFollows(scale, time, local.scale);
    LocalIsFollowed(m, part, keys, time, local, at, rot, scale);
  }

  lemma LocalIsFollowed<M, Q>(
      m: Maths<M, Q>, part: Part, keys: seq<Key>, time: real, local: Local<Q>,
      at: seq<Keyed>, rot: seq<Keyed>, scale: seq<Keyed>)
    requires ChannelKeys(keys, part.name, KeyAt, at) && PositionFollows(part, at, time, local.position)
    requires ChannelKeys(keys, part.name, KeyRot, rot) && RotationFollows(m, part, rot, time, local.rotation)
    requires ChannelKeys(keys, part.name, KeyScale, scale) && ScaleFollows(scale, time, local.scale)
    ensures LocalFollows(m, part, keys, time, local)
  {
    hide ChannelKeys, PositionFollows, RotationFollows, ScaleFollows;
  }

  lemma SampleIsToward(keyed: seq<Keyed>, time: real)
    requires InTimeOrder(keyed) && keyed != []
    ensures SampleChannel(keyed, time).Some? && ShiftFollows(keyed, time, SampleChannel(keyed, time).value)
  {
    SpanIsBetween(keyed, time);
    var span := SpanOf(keyed, time).value;
    LerpsAreToward(span.left, span.right, span.alpha);
    hide SpanOf, Between, Toward, LibraryLerp;
    assert SampleChannel(keyed, time) == Some(Toward(span.left, span.right, span.alpha));
    assert Between(keyed, time, span.left, span.right, span.alpha);
  }

  lemma LerpsAreToward(left: Vec3, right: Vec3, t: real)
    ensures Vec3(LibraryLerp(left.x, right.x, t), LibraryLerp(left.y, right.y, t), LibraryLerp(left.z, right.z, t))
         == Toward(left, right, t)
  {
    LerpIsToward(left.x, right.x, t);
    LerpIsToward(left.y, right.y, t);
    LerpIsToward(left.z, right.z, t);
    hide LibraryLerp;
  }

  lemma LerpIsToward(x: real, y: real, t: real)
    ensures LibraryLerp(x, y, t) == x + (y - x) * t
  {
  }

  lemma PositionIsFollowed<M, Q>(m: Maths<M, Q>, part: Part, own: seq<Key>, time: real)
    requires InTimeOrder(KeyedOf(own, AtChannel))
    ensures PositionFollows(part, KeyedOf(own, AtChannel), time, PoseLocal(m, part, own, time).position)
  {
    var keyed := KeyedOf(own, AtChannel);
    if keyed != [] {
      SampleIsToward(keyed, time);
    }
    hide KeyedOf, SpanOf, ShiftFollows, LibraryEuler, LibraryLerp;
    var shift := if keyed == [] then ZERO else SampleChannel(keyed, time).value;
    assert IsPivot(part, Pivot(part));
    assert keyed == [] ==> SampleChannel(keyed, time).None? by { NothingSampled(time); }
  }

  lemma NothingSampled(time: real)
    ensures SampleChannel([], time).None? && SpanOf([], time).None?
  {
  }

  lemma ScaleIsFollowed<M, Q>(m: Maths<M, Q>, part: Part, own: seq<Key>, time: real)
    requires InTimeOrder(KeyedOf(own, ScaleChannel))
    ensures ScaleFollows(KeyedOf(own, ScaleChannel), time, PoseLocal(m, part, own, time).scale)
  {
    var keyed := KeyedOf(own, ScaleChannel);
    if keyed != [] {
      SampleIsToward(keyed, time);
    }
    NothingSampled(time);
    hide KeyedOf, SpanOf, ShiftFollows, SampleChannel, LibraryEuler;
  }

  lemma RotationIsFollowed<M, Q>(m: Maths<M, Q>, part: Part, own: seq<Key>, time: real)
    requires InTimeOrder(KeyedOf(own, RotChannel))
    ensures RotationFollows(m, part, KeyedOf(own, RotChannel), time, PoseLocal(m, part, own, time).rotation)
  {
    var keyed := KeyedOf(own, RotChannel);
    var base := LibraryEuler(m, OrZero(part.rot));
    SpanIsBetween(keyed, time);
    NothingSampled(time);
    hide KeyedOf, SpanOf, Between, SampleChannel, Turned, Add;
    if keyed == [] {
      AnglesAdd(m, part, ZERO);
      NothingAdded(m, base);
    } else {
      var span := SpanOf(keyed, time).value;
      AnglesAdd(m, part, span.left);
      AnglesAdd(m, part, span.right);
      hide LibraryEuler;
      assert Between(keyed, time, span.left, span.right, span.alpha);
    }
  }

  lemma NothingAdded<M, Q>(m: Maths<M, Q>, base: Vec3)
    ensures Add(base, LibraryEuler(m, ZERO)) == base
  {
  }

  lemma AnglesAdd<M, Q>(m: Maths<M, Q>, part: Part, degrees: Vec3)
    ensures m.euler(Add(LibraryEuler(m, OrZero(part.rot)), LibraryEuler(m, degrees))) == Turned(m, part, degrees)
  {
    RadiansAdd(m, OrZero(part.rot), degrees);
    hide LibraryEuler, InRadians;
  }

  lemma RadiansAdd<M, Q>(m: Maths<M, Q>, a: Vec3, b: Vec3)
    ensures Add(LibraryEuler(m, a), LibraryEuler(m, b)) == InRadians(m, Add(a, b))
  {
    AngleSum(a.x, b.x, m.pi / 180.0);
    AngleSum(a.y, b.y, m.pi / 180.0);
    AngleSum(a.z, b.z, m.pi / 180.0);
  }

  lemma AngleSum(x: real, y: real, f: real)
    ensures x * f + y * f == (x + y) * f
  {
  }

  // ---------------------------------------------------------------------------------------------
  // Figures and their part tree
  // ---------------------------------------------------------------------------------------------

  function PartsByName(parts: seq<Part>): map<string, Part> {
    if parts == [] then map[]
    else PartsByName(parts[..|parts| - 1])[parts[|parts| - 1].name := parts[|parts| - 1]]
  }

  lemma {:induction false} PartsByNameFinds(parts: seq<Part>)
    requires forall i, j :: 0 <= i < j < |parts| ==> parts[i].name != parts[j].name
    ensures forall p :: p in parts ==> p.name in PartsByName(parts) && PartsByName(parts)[p.name] == p
    ensures forall name :: name in PartsByName(parts) ==>
            PartsByName(parts)[name] in parts && PartsByName(parts)[name].name == name
    decreases |parts|
  {
    if parts != [] {
      var n := |parts| - 1;
      PartsByNameFinds(parts[..n]);
      assert parts == parts[..n] + [parts[n]];
    }
  }

  /** The part's parent, when it names one of the figure's parts. */
  function Parent(parts: map<string, Part>, part: Part): Option<Part> {
    if part.parent.Some? && part.parent.value in parts then Some(parts[part.parent.value]) else None
  }

  /** Names are distinct and not empty, and every parent ranks below its children: there is no cycle. */
  ghost predicate Figure(parts: seq<Part>, rank: string -> nat) {
    && (forall i, j :: 0 <= i < j < |parts| ==> parts[i].name != parts[j].name)
    && (forall p :: p in parts ==> p.name != "")
    && (forall p :: p in parts && Parent(PartsByName(parts), p).Some? ==>
         rank(Parent(PartsByName(parts), p).value.name) < rank(p.name))
  }

  lemma ParentIsPart(parts: seq<Part>, rank: string -> nat, part: Part)
    requires Figure(parts, rank) && part in parts && Parent(PartsByName(parts), part).Some?
    ensures Parent(PartsByName(parts), part).value in parts
    ensures rank(Parent(PartsByName(parts), part).value.name) < rank(part.name)
  {
    PartsByNameFinds(parts);
  }

  /** The matrix of a part: its parent's, times its own with the pivot taken back out. */
  ghost function PoseMatrix<M, Q>(
      m: Maths<M, Q>, parts: seq<Part>, locals: Part -> Local<Q>, rank: string -> nat, part: Part): M
    requires Figure(parts, rank) && part in parts
    decreases rank(part.name)
  {
    var parent := Parent(PartsByName(parts), part);
    var above :=
      if parent.None? then m.identity
      else (ParentIsPart(parts, rank, part); PoseMatrix(m, parts, locals, rank, parent.value));
    var local := locals(part);
    m.mul(above, m.mul(m.compose(local.position, local.rotation, local.scale), m.translation(Negated(Pivot(part)))))
  }

  /** Each part's local transform in a pose: sampled from the clip's keys, or at rest. */
  function PoseLocals<M, Q>(m: Maths<M, Q>, clip: Option<Clip>, time: real): Part -> Local<Q> {
    (part: Part) =>
      if clip.None? then PoseLocal(m, part, [], 0.0)
      else PoseLocal(m, part, PartKeys(clip.value.keys, part.name), LocalTime(clip.value, time))
  }

  lemma SampledInPose<M, Q>(m: Maths<M, Q>, part: Part, clip: Option<Clip>, time: real)
    ensures InPose(m, part, clip, time, PoseLocals(m, clip, time)(part))
  {
    hide PoseLocal, LocalFollows, LocalTime, SampledAt;
    if clip.None? {
      PoseLocalFollows(m, part, [], 0.0);
      NoPartKeys(part.name);
      hide PartKeys;
    } else {
      hide PartKeys;
      var t := LocalTime(clip.value, time);
      LocalTimeIs(clip.value, time, t);
      PoseLocalFollows(m, part, clip.value.keys, t);
    }
  }

  lemma NoPartKeys(part: string)
    ensures PartKeys([], part) == []
  {
  }

  /** The matrix of the part that the parent names, or the identity if it names none. */
  ghost predicate IsAbove<M, Q>(m: Maths<M, Q>, parts: seq<Part>, matrices: map<string, M>, part: Part, above: M) {
    if exists q :: q in parts && part.parent == Some(q.name)
    then part.parent.value in matrices && above == matrices[part.parent.value]
    else above == m.identity
  }

  /** The part stands in its parent, at its position in the pose, with its pivot taken back out. */
  ghost predicate Stands<M(!new), Q(!new)>(
    m: Maths<M, Q>, parts: seq<Part>, matrices: map<string, M>, clip: Option<Clip>, time: real, part: Part)
  {
    part.name in matrices &&
    exists local: Local<Q>, pivot: Vec3, above: M ::
      && InPose(m, part, clip, time, local) && IsPivot(part, pivot) && IsAbove(m, parts, matrices, part, above)
      && matrices[part.name] ==
           m.mul(above, m.mul(m.compose(local.position, local.rotation, local.scale),
                              m.translation(Vec3(-pivot.x, -pivot.y, -pivot.z))))
  }

  /** So does every part, by the recursive definition of the pose. */
  lemma PoseStands<M(!new), Q(!new)>(
      m: Maths<M, Q>, parts: seq<Part>, clip: Option<Clip>, time: real, rank: string -> nat, matrices: map<string, M>,
      part: Part)
    requires Figure(parts, rank) && part in parts
    requires forall p :: p in parts ==>
               p.name in matrices && matrices[p.name] == PoseMatrix(m, parts, PoseLocals(m, clip, time), rank, p)
    ensures Stands(m, parts, matrices, clip, time, part)
  {
    var locals, parent := PoseLocals(m, clip, time), Parent(PartsByName(parts), part);
    SampledInPose(m, part, clip, time);
    assert IsPivot(part, Pivot(part));
    hide InPose, PoseLocals, Pivot, PoseMatrix, IsPivot;
    var above := m.identity;
    ParentIsAbove(parts, rank, part);
    if parent.Some? {
      ParentIsPart(parts, rank, part);
      above := matrices[parent.value.name];
    }
    hide PartsByName, Parent, Figure;
    PoseMatrixOf(m, parts, locals, rank, part, above);
    assert IsAbove(m, parts, matrices, part, above);
    hide IsAbove;
    StandsWith(m, parts, matrices, clip, time, part, locals(part), Pivot(part), above);
  }

  lemma ParentIsAbove(parts: seq<Part>, rank: string -> nat, part: Part)
    requires Figure(parts, rank) && part in parts
    ensures var parent := Parent(PartsByName(parts), part);
            && (parent.Some? ==> parent.value in parts && part.parent == Some(parent.value.name))
            && (parent.None? ==> forall q :: q in parts ==> part.parent != Some(q.name))
  {
    PartsByNameFinds(parts);
  }

  lemma StandsWith<M(!new), Q(!new)>(
      m: Maths<M, Q>, parts: seq<Part>, matrices: map<string, M>, clip: Option<Clip>, time: real, part: Part,
      local: Local<Q>, pivot: Vec3, above: M)
    requires InPose(m, part, clip, time, local) && IsPivot(part, pivot) && IsAbove(m, parts, matrices, part, above)
    requires part.name in matrices
    requires matrices[part.name] ==
               m.mul(above, m.mul(m.compose(local.position, local.rotation, local.scale),
                   m.translation(Negated(pivot))))
    ensures Stands(m, parts, matrices, clip, time, part)
  {
    hide InPose, IsPivot, IsAbove;
    assert Negated(pivot) == Vec3(-pivot.x, -pivot.y, -pivot.z);
  }

  // ---------------------------------------------------------------------------------------------
  // The evaluator
  // ---------------------------------------------------------------------------------------------

  class PoseEvaluator<!M(0), !Q> {
    const m: Maths<M, Q>
    const parts: seq<Part>
    const byName: map<string, Part>
    const keysByPart: map<string, seq<Key>>
    const localTime: real
    ghost const rank: string -> nat
    ghost const locals: Part -> Local<Q>
    var matrices: map<string, M>
    var visiting: set<string>

    constructor (m: Maths<M, Q>, parts: seq<Part>, keysByPart: map<string, seq<Key>>, localTime: real,
                 ghost rank: string -> nat, ghost locals: Part -> Local<Q>)
      requires Figure(parts, rank)
      requires forall p :: p in parts ==>
               locals(p) == PoseLocal(m, p, if p.name in keysByPart then keysByPart[p.name] else [], localTime)
      ensures Valid() && visiting == {} && matrices == map[]
      ensures this.m == m && this.parts == parts && this.rank == rank && this.locals == locals
    {
      this.m, this.parts, this.byName := m, parts, PartsByName(parts);
      this.keysByPart, this.localTime := keysByPart, localTime;
      this.rank, this.locals := rank, locals;
      this.matrices, this.visiting := map[], {};
    }

    /** Every cached matrix is the right one. */
    ghost predicate Valid()
      reads this
    {
      && Figure(parts, rank) && byName == PartsByName(parts)
      && (forall p :: p in parts ==>
           locals(p) == PoseLocal(m, p, if p.name in keysByPart then keysByPart[p.name] else [], localTime))
      && RightMatrices(m, parts, locals, rank, matrices)
    }

    /** `resolve`: on a figure without cycles no part being visited is met again. */
    method Resolve(part: Part) returns (matrix: M)
      requires Valid() && part in parts
      requires forall name :: name in visiting ==> rank(name) > rank(part.name)
      modifies this
      ensures Valid() && visiting == old(visiting)
      ensures matrix == PoseMatrix(m, parts, locals, rank, part)
      ensures part.name in matrices && forall name :: name in old(matrices) ==> name in matrices
      decreases rank(part.name)
    {
      hide PoseLocal, Pivot, PoseMatrix, Figure, RightMatrices, Parent, PartsByName;
      if part.name in matrices {
        CachedIsRight(m, parts, locals, rank, matrices, part);
        return matrices[part.name];
      }
      if part.name in visiting {
        return m.identity;
      }
      visiting := visiting + {part.name};
      var parent := Parent(byName, part);
      var parentMatrix := m.identity;
      if parent.Some? {
        ParentIsPart(parts, rank, part);
        parentMatrix := Resolve(parent.value);
      }
      var local := PoseLocal(m, part, if part.name in keysByPart then keysByPart[part.name] else [], localTime);
      var localMatrix := m.mul(m.compose(local.position, local.rotation, local.scale),
          m.translation(Negated(Pivot(part))));
      matrix := m.mul(parentMatrix, localMatrix);
      PoseMatrixOf(m, parts, locals, rank, part, parentMatrix);
      CacheGrows(m, parts, locals, rank, matrices, part, matrix);
      matrices := matrices[part.name := matrix];
      visiting := visiting - {part.name};
    }
  }

  /** The matrix of a part from that of its parent. */
  lemma PoseMatrixOf<M, Q>(
      m: Maths<M, Q>, parts: seq<Part>, locals: Part -> Local<Q>, rank: string -> nat, part: Part, above: M)
    requires Figure(parts, rank) && part in parts
    requires var parent := Parent(PartsByName(parts), part);
             if parent.None? then above == m.identity
             else (ParentIsPart(parts, rank, part); above == PoseMatrix(m, parts, locals, rank, parent.value))
    ensures var local := locals(part);
            PoseMatrix(m, parts, locals, rank, part)
            == m.mul(above,
                m.mul(m.compose(local.position, local.rotation, local.scale), m.translation(Negated(Pivot(part)))))
  {
    hide Figure, Pivot;
  }

  ghost predicate RightMatrices<M, Q>(
    m: Maths<M, Q>, parts: seq<Part>, locals: Part -> Local<Q>, rank: string -> nat, matrices: map<string, M>)
    requires Figure(parts, rank)
  {
    forall p :: p in parts && p.name in matrices ==> matrices[p.name] == PoseMatrix(m, parts, locals, rank, p)
  }

  lemma CachedIsRight<M, Q>(
      m: Maths<M, Q>, parts: seq<Part>, locals: Part -> Local<Q>, rank: string -> nat, matrices: map<string, M>,
      part: Part)
    requires Figure(parts, rank) && part in parts && RightMatrices(m, parts, locals, rank, matrices)
             && part.name in matrices
    ensures matrices[part.name] == PoseMatrix(m, parts, locals, rank, part)
  {
    hide PoseMatrix, Figure;
  }

  lemma CacheGrows<M, Q>(
      m: Maths<M, Q>, parts: seq<Part>, locals: Part -> Local<Q>, rank: string -> nat,
      matrices: map<string, M>, part: Part, matrix: M)
    requires Figure(parts, rank) && part in parts && RightMatrices(m, parts, locals, rank, matrices)
    requires matrix == PoseMatrix(m, parts, locals, rank, part)
    ensures RightMatrices(m, parts, locals, rank, matrices[part.name := matrix])
  {
    PartsByNameFinds(parts);
    hide PoseMatrix;
  }

  /** The matrix of every part in the pose of a clip at a time, or at rest. */
  ghost predicate IsPose<M, Q>(
    m: Maths<M, Q>, asset: Asset, clipName: Option<string>, time: real, rank: string -> nat, matrices: map<string, M>)
    requires Figure(asset.parts, rank) && (clipName.Some? ==> clipName.value in asset.clips)
  {
    var locals := PoseLocals(m, if clipName.None? then None else Some(asset.clips[clipName.value]), time);
    forall p :: p in asset.parts ==>
      p.name in matrices && matrices[p.name] == PoseMatrix(m, asset.parts, locals, rank, p)
  }

  lemma PoseIsStanding<M(!new), Q(!new)>(
      m: Maths<M, Q>, asset: Asset, clipName: Option<string>, time: real, rank: string -> nat, matrices: map<string, M>)
    requires Figure(asset.parts, rank) && (clipName.Some? ==> clipName.value in asset.clips)
    requires IsPose(m, asset, clipName, time, rank, matrices)
    ensures var clip := if clipName.None? then None else Some(asset.clips[clipName.value]);
            forall p :: p in asset.parts ==> Stands(m, asset.parts, matrices, clip, time, p)
  {
    hide Figure, PoseMatrix, PoseLocals, Stands;
    var clip := if clipName.None? then None else Some(asset.clips[clipName.value]);
    forall p | p in asset.parts ensures Stands(m, asset.parts, matrices, clip, time, p) {
      PoseStands(m, asset.parts, clip, time, rank, matrices, p);
    }
  }

  /** Sampling each part's own keys at the looped time is the pose of the clip. */
  lemma ClipLocals<M, Q>(m: Maths<M, Q>, clip: Clip, time: real, keysByPart: map<string, seq<Key>>, part: Part)
    requires Prepared(clip.keys, keysByPart)
    ensures var keys := if part.name in keysByPart then keysByPart[part.name] else [];
            PoseLocals(m, Some(clip), time)(part) == PoseLocal(m, part, keys, LocalTime(clip, time))
  {
    hide PoseLocal, LocalTime;
    if part.name !in keysByPart {
      NoKeysOf(clip.keys, part.name);
    }
  }

  /** With every part in a right cache, the cache is the pose. */
  lemma CacheIsPose<M, Q>(
      m: Maths<M, Q>, asset: Asset, clipName: Option<string>, time: real, rank: string -> nat, matrices: map<string, M>)
    requires Figure(asset.parts, rank) && (clipName.Some? ==> clipName.value in asset.clips)
    requires var clip := if clipName.None? then None else Some(asset.clips[clipName.value]);
             RightMatrices(m, asset.parts, PoseLocals(m, clip, time), rank, matrices)
    requires forall i :: 0 <= i < |asset.parts| ==> asset.parts[i].name in matrices
    ensures IsPose(m, asset, clipName, time, rank, matrices)
  {
    hide Figure, PoseMatrix, PoseLocals;
    assert forall p :: p in asset.parts ==> p.name in matrices;
  }

  /** evaluateFigurePose: every part's matrix, or the error for an unknown clip or a time that is not finite. */
  method EvaluateFigurePose<M(0,!new), Q(!new)>(
      m: Maths<M, Q>, asset: Asset, clipName: Option<string>, time: Time, ghost rank: string -> nat)
    returns (r: Result<map<string, M>, AnimationError>)
    requires Figure(asset.parts, rank)
    ensures clipName.Some? && clipName.value !in asset.clips ==> r == Failure(NoSuchClip(clipName.value))
    ensures clipName.Some? && clipName.value in asset.clips && time.NonFinite? ==> r == Failure(TimeNotFinite)
    ensures r.Success? <==> clipName.None? || (clipName.value in asset.clips && time.Finite?)
    ensures r.Success? ==> IsPose(m, asset, clipName, if time.Finite? then time.t else 0.0, rank, r.value)
    ensures r.Success? ==>
              forall p :: p in asset.parts ==>
                Stands(m, asset.parts, r.value, if clipName.None? then None else Some(asset.clips[clipName.value]),
                  if time.Finite? then time.t else 0.0, p)
  {
    var keysByPart: map<string, seq<Key>> := map[];
    var localTime := 0.0;
    ghost var t := if time.Finite? then time.t else 0.0;
    ghost var clip: Option<Clip> := None;
    if clipName.Some? {
      if clipName.value !in asset.clips {
        return Failure(NoSuchClip(clipName.value));
      }
      var active := asset.clips[clipName.value];
      if time.NonFinite? {
        return Failure(TimeNotFinite);
      }
      localTime := LocalTime(active, time.t);
      keysByPart := PrepareKeys(active.keys);
      clip := Some(active);
    }
    ghost var locals := PoseLocals(m, clip, t);
    forall p | p in asset.parts
      ensures locals(p) == PoseLocal(m, p, if p.name in keysByPart then keysByPart[p.name] else [], localTime)
    {
      if clip.Some? {
        ClipLocals(m, clip.value, t, keysByPart, p);
      }
    }
    hide Figure, RightMatrices, PoseMatrix, PoseLocal, PoseLocals, IsPose, LocalTime, Prepared, Stands;
    var evaluator := new PoseEvaluator(m, asset.parts, keysByPart, localTime, rank, locals);
    for i := 0 to |asset.parts|
      invariant evaluator.Valid() && evaluator.visiting == {}
      invariant evaluator.m == m && evaluator.parts == asset.parts && evaluator.rank == rank
                && evaluator.locals == locals
      invariant forall j :: 0 <= j < i ==> asset.parts[j].name in evaluator.matrices
    {
      var _ := evaluator.Resolve(asset.parts[i]);
    }
    CacheIsPose(m, asset, clipName, t, rank, evaluator.matrices);
    PoseIsStanding(m, asset, clipName, t, rank, evaluator.matrices);
    r := Success(evaluator.matrices);
  }
}
