/**
 * What a clip shows at a time, in the terms of its keys: the time it is sampled at, the keys of a channel, and the
 * position, rotation and scale they give a part.
 */
module FigureMeaning {
  import opened Outcomes
  import opened Sorting
  import opened FigureAnimation

  /**
   * The matrix library, as parameters: matrices M and rotations Q, with their product, the matrix of a position,
   * a rotation and a scale, that of a translation, the rotation of three Euler angles in radians, and the
   * normalised spherical interpolation of two rotations.
   */
  datatype Maths<!M, !Q> = Maths(
    identity: M, mul: (M, M) -> M, compose: (Vec3, Q, Vec3) -> M, translation: Vec3 -> M,
    euler: Vec3 -> Q, slerp: (Q, Q, real) -> Q, pi: real)

  /** A part's own position, rotation and scale. */
  datatype Local<Q> = Local(position: Vec3, rotation: Q, scale: Vec3)

  // ---------------------------------------------------------------------------------------------
  // The time
  // ---------------------------------------------------------------------------------------------

  /** The greatest key time, or zero if none is positive. */
  ghost predicate IsDuration(keys: seq<Key>, d: real) {
    && d >= 0.0 && (forall k :: k in keys ==> k.time <= d)
    && (d > 0.0 ==> exists k :: k in keys && k.time == d)
  }

  /** A looping clip is sampled whole periods away, any other at the nearest time it has. */
  ghost predicate SampledAt(clip: Clip, time: real, t: real) {
    exists d :: IsDuration(clip.keys, d) &&
      if clip.loop && d > 0.0 then 0.0 <= t < d && exists n :: PeriodsApart(t, time, d, n)
      else t == if time < 0.0 then 0.0 else if time <= d then time else d
  }

  lemma {:induction false} ClipDurationIs(keys: seq<Key>)
    ensures IsDuration(keys, ClipDuration(keys))
  {
    if keys != [] {
      ClipDurationIs(keys[1..]);
      var d := ClipDuration(keys[1..]);
      if d > 0.0 {
        var k :| k in keys[1..] && k.time == d;
        assert k in keys;
      }
      assert keys[0] in keys;
    }
  }

  lemma DurationIsUnique(keys: seq<Key>, d: real, e: real)
    requires IsDuration(keys, d) && IsDuration(keys, e)
    ensures d == e
  {
  }

  /** No two times less than a period apart are whole periods from the same time. */
  lemma OncePerPeriod(s: real, t: real, time: real, d: real, m: int, n: int)
    requires 0.0 <= s < d && 0.0 <= t < d && PeriodsApart(s, time, d, m) && PeriodsApart(t, time, d, n)
    ensures s == t
  {
    var x, y := n as real, m as real;
    var k := x - y;
    var a, b := d * x, d * y;
    assert s == time - b && t == time - a;
    hide PeriodsApart;
    TimesDifference(k, x, y, d);
    TimesCommutes(x, d);
    var apart := k * d;
    assert apart == a - b == s - t;
    if n > m {
      assert k >= 1.0;
      PeriodOrMore(k, d, apart);
    } else if n < m {
      assert k <= -1.0;
      PeriodOrMore(k, d, apart);
    }
  }

  lemma TimesCommutes(x: real, d: real)
    ensures x * d == d * x
  {
  }

  lemma PeriodOrMore(k: real, d: real, apart: real)
    requires (k >= 1.0 || k <= -1.0) && d > 0.0 && apart == k * d
    ensures apart >= d || apart <= -d
  {
    if k >= 1.0 {
      NotNegative(k - 1.0, d);
      assert (k - 1.0) * d == apart - d;
    } else {
      NotNegative(-k - 1.0, d);
      assert (-k - 1.0) * d == -apart - d;
    }
  }

  lemma NotNegative(a: real, b: real)
    requires a >= 0.0 && b >= 0.0
    ensures a * b >= 0.0
  {
  }

  /** The local time of the program is the time a clip is sampled at, and no other is. */
  lemma LocalTimeIs(clip: Clip, time: real, t: real)
    ensures SampledAt(clip, time, t) <==> t == LocalTime(clip, time)
  {
    var d := ClipDuration(clip.keys);
    ClipDurationIs(clip.keys);
    forall e | IsDuration(clip.keys, e) ensures e == d {
      DurationIsUnique(clip.keys, d, e);
    }
    if clip.loop && d > 0.0 {
      LoopedTime(clip, time);
      var m :| PeriodsApart(LocalTime(clip, time), time, d, m);
      hide LocalTime, IsDuration, PeriodsApart;
      if SampledAt(clip, time, t) {
        var n :| PeriodsApart(t, time, d, n);
        OncePerPeriod(t, LocalTime(clip, time), time, d, n, m);
      }
    } else {
      hide ClipDuration, IsDuration, PeriodsApart;
    }
  }

  // ---------------------------------------------------------------------------------------------
  // The keys of a channel
  // ---------------------------------------------------------------------------------------------

  function KeyAt(k: Key): Option<Vec3> { k.at }
  function KeyRot(k: Key): Option<Vec3> { k.rot }
  function KeyScale(k: Key): Option<Vec3> { k.scale }

  /** The values a part's keys give at one time, in the order they were written. */
  function Written(keys: seq<Key>, part: string, value: Key -> Option<Vec3>, time: real): seq<Vec3> {
    if keys == [] then []
    else
      (if keys[0].part == part && keys[0].time == time && value(keys[0]).Some? then [value(keys[0]).value] else [])
      + Written(keys[1..], part, value, time)
  }

  function Held(keyed: seq<Keyed>, time: real): seq<Vec3> {
    if keyed == [] then [] else (if keyed[0].time == time then [keyed[0].value] else []) + Held(keyed[1..], time)
  }

  /** A part's values for a channel by time, those of one time in the order written. */
  ghost predicate ChannelKeys(keys: seq<Key>, part: string, value: Key -> Option<Vec3>, keyed: seq<Keyed>) {
    && (forall i, j :: 0 <= i < j < |keyed| ==> keyed[i].time <= keyed[j].time)
    && forall time :: Held(keyed, time) == Written(keys, part, value, time)
  }

  ghost predicate IsChannel(channel: Channel, value: Key -> Option<Vec3>) {
    forall k :: ChannelOf(k, channel) == value(k)
  }

  lemma {:induction false} KeyedHolds(
      keys: seq<Key>, part: string, channel: Channel, value: Key -> Option<Vec3>, time: real)
    requires IsChannel(channel, value) && forall k :: k in keys ==> k.part == part
    ensures Held(KeyedOf(keys, channel), time) == Written(keys, part, value, time)
  {
    if keys != [] {
      KeyedHolds(keys[1..], part, channel, value, time);
      KeyedFirst(keys, channel, time);
      assert ChannelOf(keys[0], channel) == value(keys[0]);
      hide Held, KeyedOf, ChannelOf;
    }
  }

  lemma KeyedFirst(keys: seq<Key>, channel: Channel, time: real)
    requires keys != []
    ensures Held(KeyedOf(keys, channel), time)
            == (if ChannelOf(keys[0], channel).Some? && keys[0].time == time
                then [ChannelOf(keys[0], channel).value] else [])
               + Held(KeyedOf(keys[1..], channel), time)
  {
    var rest := KeyedOf(keys[1..], channel);
    if ChannelOf(keys[0], channel).Some? {
      var first := Keyed(keys[0].time, ChannelOf(keys[0], channel).value);
      assert ([first] + rest)[1..] == rest;
    }
  }

  function AtTime(time: real): Key -> bool {
    (k: Key) => k.time == time
  }

  lemma {:induction false} WrittenFiltered(
      keys: seq<Key>, part: string, value: Key -> Option<Vec3>, time: real, keep: Key -> bool)
    requires forall k :: k in keys && k.part == part && k.time == time ==> keep(k)
    ensures Written(Filter(keys, keep), part, value, time) == Written(keys, part, value, time)
  {
    if keys != [] {
      WrittenFiltered(keys[1..], part, value, time, keep);
      var rest := Filter(keys[1..], keep);
      assert ([keys[0]] + rest)[1..] == rest;
      assert Filter(keys, keep) == if keep(keys[0]) then [keys[0]] + rest else rest;
      hide Filter;
    }
  }

  /** The program's prepared and selected keys are the channel's. */
  lemma PartKeysAreChannelKeys(keys: seq<Key>, part: string, channel: Channel, value: Key -> Option<Vec3>)
    requires IsChannel(channel, value)
    ensures ChannelKeys(keys, part, value, KeyedOf(PartKeys(keys, part), channel))
  {
    var own := Filter(keys, OfPart(part));
    var sorted := PartKeys(keys, part);
    PartKeysInTimeOrder(keys, part, channel);
    FilteredIsMember(keys, OfPart(part));
    FilteredKeeps(keys, OfPart(part));
    SortKeepsMembers(own, Earlier);
    forall time ensures Held(KeyedOf(sorted, channel), time) == Written(keys, part, value, time) {
      KeyedHolds(sorted, part, channel, value, time);
      WrittenFiltered(sorted, part, value, time, AtTime(time));
      SortIsStable(own, Earlier, AtTime(time));
      WrittenFiltered(own, part, value, time, AtTime(time));
      WrittenFiltered(keys, part, value, time, OfPart(part));
    }
  }

  lemma {:induction false} FilteredKeeps<T(!new)>(s: seq<T>, keep: T -> bool)
    ensures forall x :: x in Filter(s, keep) ==> keep(x)
  {
    if s != [] {
      FilteredKeeps(s[1..], keep);
    }
  }

  // ---------------------------------------------------------------------------------------------
  // What the keys give a part
  // ---------------------------------------------------------------------------------------------

  /**
   * The values on both sides of a time, and how far it is from one to the other: none of the way before the first key
   * and from the last one on.
   */
  ghost predicate Between(keyed: seq<Keyed>, time: real, left: Vec3, right: Vec3, alpha: real) {
    && keyed != []
    && (time < keyed[0].time ==>
          left == keyed[0].value && right == keyed[if |keyed| > 1 then 1 else 0].value && alpha == 0.0)
    && (time >= keyed[|keyed| - 1].time ==> left == right == keyed[|keyed| - 1].value && alpha == 0.0)
    && (forall i, j :: 0 <= i < j < |keyed| && j == i + 1 && keyed[i].time <= time < keyed[j].time ==>
          && left == keyed[i].value && right == keyed[j].value && 0.0 <= alpha < 1.0
          && keyed[i].time + (keyed[j].time - keyed[i].time) * alpha == time)
  }

  lemma SpanIsBetween(keyed: seq<Keyed>, time: real)
    requires InTimeOrder(keyed)
    ensures keyed == [] <==> SpanOf(keyed, time).None?
    ensures keyed != [] ==>
              var span := SpanOf(keyed, time).value; Between(keyed, time, span.left, span.right, span.alpha)
  {
    if keyed != [] {
      var k := FirstAfter(keyed, time, 1);
      forall i, j | 0 <= i < j < |keyed| && j == i + 1 && keyed[i].time <= time < keyed[j].time ensures k == j {
      }
      FractionRange(time, keyed[k - 1].time, keyed[if k < |keyed| then k else k - 1].time);
      FractionOfOne(time, keyed[k - 1].time);
      hide Fraction, Written, Held;
      assert keyed[|keyed| - 1].time <= time ==> k == |keyed|;
      assert time < keyed[0].time && |keyed| > 1 ==> time < keyed[1].time && k == 1;
    }
  }

  lemma FractionOfOne(time: real, key: real)
    ensures Fraction(time, key, key) == 0.0
  {
  }

  /** From the parts of the way to the value. */
  function Toward(left: Vec3, right: Vec3, alpha: real): Vec3 {
    Vec3(left.x + (right.x - left.x) * alpha, left.y + (right.y - left.y) * alpha, left.z + (right.z - left.z) * alpha)
  }

  /** A joint's pivot comes before the part's own. */
  predicate IsPivot(part: Part, pivot: Vec3) {
    if part.jointPivot.Some? then part.jointPivot == Some(pivot)
    else if part.pivot.Some? then part.pivot == Some(pivot)
    else pivot == Vec3(0.0, 0.0, 0.0)
  }

  ghost predicate PositionFollows(part: Part, keyed: seq<Keyed>, time: real, position: Vec3) {
    exists pivot, shift ::
      && IsPivot(part, pivot)
      && (if keyed == [] then shift == Vec3(0.0, 0.0, 0.0) else ShiftFollows(keyed, time, shift))
      && position == Vec3(
           (if part.at.Some? then part.at.value.x else 0.0) + pivot.x + shift.x,
           (if part.at.Some? then part.at.value.y else 0.0) + pivot.y + shift.y,
           (if part.at.Some? then part.at.value.z else 0.0) + pivot.z + shift.z)
  }

  ghost predicate ShiftFollows(keyed: seq<Keyed>, time: real, shift: Vec3) {
    exists left, right, alpha :: Between(keyed, time, left, right, alpha) && shift == Toward(left, right, alpha)
  }

  ghost predicate ScaleFollows(keyed: seq<Keyed>, time: real, scale: Vec3) {
    if keyed == [] then scale == Vec3(1.0, 1.0, 1.0) else ShiftFollows(keyed, time, scale)
  }

  function InRadians<M, Q>(m: Maths<M, Q>, degrees: Vec3): Vec3 {
    Vec3(degrees.x * (m.pi / 180.0), degrees.y * (m.pi / 180.0), degrees.z * (m.pi / 180.0))
  }

  /** The part's own angles turned further. */
  function Turned<M, Q>(m: Maths<M, Q>, part: Part, degrees: Vec3): Q {
    var own := if part.rot.Some? then part.rot.value else Vec3(0.0, 0.0, 0.0);
    m.euler(InRadians(m, Vec3(own.x + degrees.x, own.y + degrees.y, own.z + degrees.z)))
  }

  ghost predicate RotationFollows<M, Q>(m: Maths<M, Q>, part: Part, keyed: seq<Keyed>, time: real, rotation: Q) {
    if keyed == [] then rotation == Turned(m, part, Vec3(0.0, 0.0, 0.0))
    else
      exists left, right, alpha ::
        Between(keyed, time, left, right, alpha)
        && rotation == m.slerp(Turned(m, part, left), Turned(m, part, right), alpha)
  }

  /** A part's position, rotation and scale when its keys are sampled at a time; at rest without keys. */
  ghost predicate LocalFollows<M, Q>(m: Maths<M, Q>, part: Part, keys: seq<Key>, time: real, local: Local<Q>) {
    exists at, rot, scale ::
      && ChannelKeys(keys, part.name, KeyAt, at) && PositionFollows(part, at, time, local.position)
      && ChannelKeys(keys, part.name, KeyRot, rot) && RotationFollows(m, part, rot, time, local.rotation)
      && ChannelKeys(keys, part.name, KeyScale, scale) && ScaleFollows(scale, time, local.scale)
  }

  /** A part as a clip shows it at a time, or at rest. */
  ghost predicate InPose<M, Q>(m: Maths<M, Q>, part: Part, clip: Option<Clip>, time: real, local: Local<Q>) {
    if clip.None? then LocalFollows(m, part, [], 0.0, local)
    else exists t :: SampledAt(clip.value, time, t) && LocalFollows(m, part, clip.value.keys, t, local)
  }
}
