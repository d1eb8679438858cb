/**
 * Figures, their clips, and how a clip is sampled at a time: the code that the preview scene and the pose evaluator
 * each have a copy of. Numbers are exact reals; times may also be infinite or not a number.
 */
module FigureAnimation {
  import opened Outcomes
  import opened Sorting

  datatype Vec3 = Vec3(x: real, y: real, z: real)

  function Add(a: Vec3, b: Vec3): Vec3 {
    Vec3(a.x + b.x, a.y + b.y, a.z + b.z)
  }

  function Negated(a: Vec3): Vec3 {
    Vec3(-a.x, -a.y, -a.z)
  }

  const ZERO := Vec3(0.0, 0.0, 0.0)
  const ONES := Vec3(1.0, 1.0, 1.0)

  datatype Part = Part(
    name: string, parent: Option<string>, at: Option<Vec3>, rot: Option<Vec3>, pivot: Option<Vec3>,
    jointPivot: Option<Vec3>)
  datatype Key = Key(part: string, time: real, at: Option<Vec3>, rot: Option<Vec3>, scale: Option<Vec3>)
  datatype Clip = Clip(loop: bool, keys: seq<Key>)
  datatype Asset = Asset(parts: seq<Part>, clips: map<string, Clip>)

  datatype Time = Finite(t: real) | NonFinite

  datatype AnimationError = NoSuchClip(name: string) | TimeNotFinite

  function OrZero(v: Option<Vec3>): Vec3 {
    if v.Some? then v.value else ZERO
  }

  function Pivot(part: Part): Vec3 {
    if part.jointPivot.Some? then part.jointPivot.value else OrZero(part.pivot)
  }

  // ---------------------------------------------------------------------------------------------
  // The clip's own time
  // ---------------------------------------------------------------------------------------------

  function Max(a: real, b: real): real {
    if a > b then a else b
  }

  function Clamp(t: real, lo: real, hi: real): real {
    Max(lo, if t < hi then t else hi)
  }

  function ClipDuration(keys: seq<Key>): (d: real)
    ensures d >= 0.0
  {
    if keys == [] then 0.0 else Max(keys[0].time, ClipDuration(keys[1..]))
  }

  function Truncated(q: real): int {
    if q >= 0.0 then q.Floor else -(-q).Floor
  }

  /** JavaScript's `%`: the remainder has the sign of the dividend. */
  function Remainder(a: real, b: real): real
    requires b > 0.0
  {
    a - b * (Truncated(a / b) as real)
  }

  function LocalTime(clip: Clip, time: real): real {
    var duration := ClipDuration(clip.keys);
    if clip.loop && duration > 0.0 then Remainder(Remainder(time, duration) + duration, duration)
    else Clamp(time, 0.0, duration)
  }

  lemma ProductSign(x: real, y: real)
    requires y > 0.0
    ensures (x > 0.0 <==> x * y > 0.0) && (x < 0.0 <==> x * y < 0.0)
  {
    if x > 0.0 {
      PositiveProduct(x, y);
    } else if x < 0.0 {
      PositiveProduct(-x, y);
      assert (-x) * y == -(x * y);
    }
  }

  lemma PositiveProduct(x: real, y: real)
    requires x > 0.0 && y > 0.0
    ensures x * y > 0.0
  {
  }

  lemma TruncatedNear(q: real)
    ensures -1.0 < q - (Truncated(q) as real) < 1.0
    ensures q >= 0.0 ==> q - (Truncated(q) as real) >= 0.0
  {
  }

  lemma DividedBack(a: real, b: real)
    requires b > 0.0
    ensures (a / b) * b == a
  {
  }

  lemma TimesDifference(f: real, x: real, y: real, b: real)
    requires f == x - y
    ensures f * b == x * b - b * y
  {
  }

  lemma RemainderRange(a: real, b: real)
    requires b > 0.0
    ensures -b < Remainder(a, b) < b && (a >= 0.0 ==> Remainder(a, b) >= 0.0)
  {
    var q := a / b;
    var n := Truncated(q) as real;
    TruncatedNear(q);
    DividedBack(a, b);
    RemainderWithin(Remainder(a, b), a, b, q, n);
  }

  lemma RemainderWithin(r: real, a: real, b: real, q: real, n: real)
    requires b > 0.0 && q * b == a && r == a - b * n
    requires -1.0 < q - n < 1.0 && (q >= 0.0 ==> q - n >= 0.0)
    ensures -b < r < b && (a >= 0.0 ==> r >= 0.0)
  {
    var f := q - n;
    TimesDifference(f, q, n, b);
    assert r == f * b;
    Scaled(r, f, b);
    assert a >= 0.0 ==> q >= 0.0 by { ProductSign(q, b); }
  }

  lemma Scaled(r: real, f: real, b: real)
    requires b > 0.0 && -1.0 < f < 1.0 && r == f * b
    ensures -b < r < b && (f >= 0.0 ==> r >= 0.0)
  {
    PositiveProduct(1.0 - f, b);
    PositiveProduct(1.0 + f, b);
    assert (1.0 - f) * b == b - f * b && (1.0 + f) * b == b + f * b;
  }

  ghost predicate PeriodsApart(t: real, time: real, period: real, n: int) {
    t == time - period * (n as real)
  }

  /**
   * A looping clip's time lies in its period and differs from the given time by whole periods, for negative times too.
   */
  lemma LoopedTime(clip: Clip, time: real)
    requires clip.loop && ClipDuration(clip.keys) > 0.0
    ensures 0.0 <= LocalTime(clip, time) < ClipDuration(clip.keys)
    ensures exists n :: PeriodsApart(LocalTime(clip, time), time, ClipDuration(clip.keys), n)
  {
    var d := ClipDuration(clip.keys);
    var r := Remainder(time, d);
    RemainderRange(time, d);
    RemainderRange(r + d, d);
    hide ClipDuration;
    var m, n := Truncated(time / d), Truncated((r + d) / d);
    PeriodsAdd(LocalTime(clip, time), time, r, d, m, n);
  }

  lemma PeriodsAdd(t: real, time: real, r: real, d: real, m: int, n: int)
    requires r == time - d * (m as real) && t == r + d - d * (n as real)
    ensures PeriodsApart(t, time, d, m + n - 1)
  {
    assert (m + n - 1) as real == (m as real) + (n as real) - 1.0;
    assert d * ((m as real) + (n as real) - 1.0) == d * (m as real) + d * (n as real) - d;
  }

  // ---------------------------------------------------------------------------------------------
  // The keys of each part, by time
  // ---------------------------------------------------------------------------------------------

  predicate Earlier(a: Key, b: Key) {
    a.time <= b.time
  }

  function OfPart(part: string): Key -> bool {
    (k: Key) => k.part == part
  }

  /** A part's keys in the order of their times; keys of the same time in the order they were written. */
  function PartKeys(keys: seq<Key>, part: string): seq<Key> {
    Sort(Filter(keys, OfPart(part)), Earlier)
  }

  /** Every part with keys has exactly its own, in the order written. */
  ghost predicate GroupedByPart(keys: seq<Key>, grouped: map<string, seq<Key>>) {
    && (forall p :: p in grouped ==> grouped[p] == Filter(keys, OfPart(p)) != [])
    && (forall k :: k in keys ==> k.part in grouped)
  }

  lemma GroupGrows(keys: seq<Key>, grouped: map<string, seq<Key>>, key: Key)
    requires GroupedByPart(keys, grouped)
    ensures GroupedByPart(keys + [key],
              grouped[key.part := (if key.part in grouped then grouped[key.part] else []) + [key]])
  {
    if key.part !in grouped {
      NoKeysOf(keys, key.part);
    }
    forall p ensures Filter(keys + [key], OfPart(p)) == Filter(keys, OfPart(p)) + if key.part == p then [key] else [] {
      FilterAppend(keys, [key], OfPart(p));
      FilterCons(key, [], OfPart(p));
      assert [key] + [] == [key];
    }
    hide Filter;
  }

  /** The keys of each part, as a clip is prepared. */
  ghost predicate Prepared(keys: seq<Key>, keysByPart: map<string, seq<Key>>) {
    && (forall p :: p in keysByPart <==> exists k :: k in keys && k.part == p)
    && (forall p :: p in keysByPart ==> keysByPart[p] == PartKeys(keys, p))
  }

  method PrepareKeys(keys: seq<Key>) returns (keysByPart: map<string, seq<Key>>)
    ensures Prepared(keys, keysByPart)
  {
    hide Filter;
    var grouped: map<string, seq<Key>> := map[];
    for i := 0 to |keys|
      invariant GroupedByPart(keys[..i], grouped)
    {
      var key := keys[i];
      GroupGrows(keys[..i], grouped, key);
      assert keys[..i + 1] == keys[..i] + [key];
      var list := if key.part in grouped then grouped[key.part] else [];
      grouped := grouped[key.part := list + [key]];
    }
    assert keys[..|keys|] == keys;
    forall p | p in grouped ensures exists k :: k in keys && k.part == p {
      FilteredIsPresent(keys, p);
    }
    keysByPart := map p | p in grouped :: Sort(grouped[p], Earlier);
  }

  lemma {:induction false} FilteredIsPresent(keys: seq<Key>, p: string)
    requires Filter(keys, OfPart(p)) != []
    ensures exists k :: k in keys && k.part == p
  {
    if keys[0].part == p {
      assert keys[0] in keys;
    } else {
      FilteredIsPresent(keys[1..], p);
      var k :| k in keys[1..] && k.part == p;
      assert k in keys;
    }
  }

  lemma {:induction false} NoKeysOf(keys: seq<Key>, part: string)
    requires forall k :: k in keys ==> k.part != part
    ensures Filter(keys, OfPart(part)) == []
  {
    if keys != [] {
      NoKeysOf(keys[1..], part);
      assert keys[0] in keys;
    }
  }

  // ---------------------------------------------------------------------------------------------
  // One channel
  // ---------------------------------------------------------------------------------------------

  datatype Channel = AtChannel | RotChannel | ScaleChannel
  datatype Keyed = Keyed(time: real, value: Vec3)
  datatype Span = Span(left: Vec3, right: Vec3, alpha: real)

  function ChannelOf(key: Key, channel: Channel): Option<Vec3> {
    match channel
    case AtChannel => key.at
    case RotChannel => key.rot
    case ScaleChannel => key.scale
  }

  function KeyedOf(keys: seq<Key>, channel: Channel): seq<Keyed> {
    if keys == [] then []
    else
      var rest := KeyedOf(keys[1..], channel);
      match ChannelOf(keys[0], channel)
      case None => rest
      case Some(value) => [Keyed(keys[0].time, value)] + rest
  }

  /** The first key after `time` from index `j` on, or the number of keys. */
  function FirstAfter(keyed: seq<Keyed>, time: real, j: nat): (k: nat)
    requires j <= |keyed|
    ensures j <= k <= |keyed| && (k < |keyed| ==> time < keyed[k].time)
    ensures forall i :: j <= i < k ==> keyed[i].time <= time
    decreases |keyed| - j
  {
    if j == |keyed| || time < keyed[j].time then j else FirstAfter(keyed, time, j + 1)
  }

  function Fraction(time: real, left: real, right: real): real {
    if right == left then 0.0 else Clamp((time - left) / (right - left), 0.0, 1.0)
  }

  function SpanOf(keyed: seq<Keyed>, time: real): Option<Span> {
    if keyed == [] then None
    else
      var k := FirstAfter(keyed, time, 1);
      var left, right := keyed[k - 1], keyed[if k < |keyed| then k else k - 1];
      Some(Span(left.value, right.value, Fraction(time, left.time, right.time)))
  }

  method ChannelSpan(keys: seq<Key>, time: real, channel: Channel) returns (span: Option<Span>)
    ensures span == SpanOf(KeyedOf(keys, channel), time)
  {
    var keyed := KeyedOf(keys, channel);
    if keyed == [] {
      return None;
    }
    var left, right := keyed[0], keyed[0];
    var i := 1;
    while i < |keyed|
      invariant 1 <= i <= |keyed| && left == right == keyed[i - 1]
      invariant FirstAfter(keyed, time, i) == FirstAfter(keyed, time, 1)
    {
      var current := keyed[i];
      if time < current.time {
        right := current;
        break;
      }
      left := current;
      right := current;
      i := i + 1;
    }
    span := Some(Span(left.value, right.value, Fraction(time, left.time, right.time)));
  }

  function Mix(left: real, right: real, alpha: real): real {
    left + (right - left) * alpha
  }

  function MixVec(left: Vec3, right: Vec3, alpha: real): Vec3 {
    Vec3(Mix(left.x, right.x, alpha), Mix(left.y, right.y, alpha), Mix(left.z, right.z, alpha))
  }

  function SampleKeyed(keyed: seq<Keyed>, time: real): Option<Vec3> {
    match SpanOf(keyed, time)
    case None => None
    case Some(span) => Some(MixVec(span.left, span.right, span.alpha))
  }

  // ---------------------------------------------------------------------------------------------
  // What sampling means
  // ---------------------------------------------------------------------------------------------

  ghost predicate InTimeOrder(keyed: seq<Keyed>) {
    forall i, j :: 0 <= i < j < |keyed| ==> keyed[i].time <= keyed[j].time
  }

  lemma {:induction false} KeyedInTimeOrder(keys: seq<Key>, channel: Channel)
    requires Sorted(keys, Earlier)
    ensures InTimeOrder(KeyedOf(keys, channel))
    ensures forall k :: k in KeyedOf(keys, channel) ==> keys != [] && keys[0].time <= k.time
  {
    if keys != [] {
      forall i, j | 0 <= i < j < |keys[1..]| ensures Earlier(keys[1..][i], keys[1..][j]) {
        assert Earlier(keys[i + 1], keys[j + 1]);
      }
      KeyedInTimeOrder(keys[1..], channel);
      if |keys| > 1 {
        assert Earlier(keys[0], keys[1]);
      }
    }
  }

  lemma FractionRange(time: real, left: real, right: real)
    ensures 0.0 <= Fraction(time, left, right) <= 1.0
    ensures left < right && time <= left ==> Fraction(time, left, right) == 0.0
    ensures left < right && time >= right ==> Fraction(time, left, right) == 1.0
    ensures left < right && left <= time <= right ==> left + (right - left) * Fraction(time, left, right) == time
  {
    if left < right {
      var d := right - left;
      var q := (time - left) / d;
      DividedBack(time - left, d);
      FractionWithin(q, time - left, d);
    }
  }

  /** A quotient and its two ends. */
  lemma FractionWithin(q: real, part: real, whole: real)
    requires whole > 0.0 && q * whole == part
    ensures (part <= 0.0 <==> q <= 0.0) && (part >= whole <==> q >= 1.0) && whole * q == part
  {
    var f := q - 1.0;
    assert f * whole == part - whole by { TimesDifference(f, q, 1.0, whole); }
    assert part <= 0.0 <==> q <= 0.0 by { ProductSign(q, whole); }
    assert part >= whole <==> q >= 1.0 by { ProductSign(f, whole); }
  }

  /** At a key's time the sample is the value of the last key with that time. */
  lemma SampleHitsKeys(keyed: seq<Keyed>, i: nat)
    requires InTimeOrder(keyed) && i < |keyed| && (i + 1 < |keyed| ==> keyed[i].time < keyed[i + 1].time)
    ensures SampleKeyed(keyed, keyed[i].time) == Some(keyed[i].value)
  {
    var time := keyed[i].time;
    var k := FirstAfter(keyed, time, 1);
    assert k == i + 1;
    FractionRange(time, time, keyed[if k < |keyed| then k else i].time);
  }

  /** Before the first key and after the last the end values are held. */
  lemma SampleHoldsEnds(keyed: seq<Keyed>, time: real)
    requires InTimeOrder(keyed) && keyed != []
    ensures time < keyed[0].time ==> SampleKeyed(keyed, time) == Some(keyed[0].value)
    ensures time >= keyed[|keyed| - 1].time ==> SampleKeyed(keyed, time) == Some(keyed[|keyed| - 1].value)
  {
    var k := FirstAfter(keyed, time, 1);
    if time < keyed[0].time {
      assert k == 1;
      if k < |keyed| {
        FractionRange(time, keyed[0].time, keyed[1].time);
      }
    }
  }

  /** Between two neighbouring keys the sample lies on the line through their values at the proportion of the time. */
  lemma SampleInterpolates(keyed: seq<Keyed>, i: nat, time: real)
    requires InTimeOrder(keyed) && i + 1 < |keyed| && keyed[i].time <= time < keyed[i + 1].time
    ensures Interpolates(keyed[i], keyed[i + 1], time, Fraction(time, keyed[i].time, keyed[i + 1].time),
              SampleKeyed(keyed, time))
  {
    var k := FirstAfter(keyed, time, 1);
    assert k == i + 1;
    FractionRange(time, keyed[i].time, keyed[i + 1].time);
  }

  /**
   * `alpha` is how far `time` is on the way from one key to the next, and the sample is as far between their values.
   */
  ghost predicate Interpolates(left: Keyed, right: Keyed, time: real, alpha: real, sample: Option<Vec3>) {
    && 0.0 <= alpha < 1.0 && left.time + (right.time - left.time) * alpha == time
    && sample == Some(MixVec(left.value, right.value, alpha))
  }

  /** What a part's channel shows at a time: nothing without keys, else an end value, or a point between two keys. */
  ghost predicate FollowsKeys(keyed: seq<Keyed>, time: real, sample: Option<Vec3>) {
    && (keyed == [] ==> sample == None)
    && (keyed != [] && time < keyed[0].time ==> sample == Some(keyed[0].value))
    && (keyed != [] && time >= keyed[|keyed| - 1].time ==> sample == Some(keyed[|keyed| - 1].value))
    && (forall i, j :: 0 <= i < j < |keyed| && j == i + 1 && keyed[i].time <= time < keyed[j].time ==>
          Interpolates(keyed[i], keyed[j], time, Fraction(time, keyed[i].time, keyed[j].time), sample))
    && (forall i :: 0 <= i < |keyed| && keyed[i].time == time && LastOfItsTime(keyed, i) ==>
         sample == Some(keyed[i].value))
  }

  predicate LastOfItsTime(keyed: seq<Keyed>, i: nat)
    requires i < |keyed|
  {
    i + 1 < |keyed| ==> keyed[i].time < keyed[i + 1].time
  }

  lemma PartKeysInTimeOrder(keys: seq<Key>, part: string, channel: Channel)
    ensures InTimeOrder(KeyedOf(PartKeys(keys, part), channel))
  {
    SortIsSorted(Filter(keys, OfPart(part)), Earlier);
    KeyedInTimeOrder(PartKeys(keys, part), channel);
  }

  /** So does each channel of each part of a clip, whatever order its keys were written in. */
  lemma PartSamplesFollowTheirKeys(keys: seq<Key>, part: string, channel: Channel, time: real)
    ensures var keyed := KeyedOf(PartKeys(keys, part), channel); FollowsKeys(keyed, time, SampleKeyed(keyed, time))
  {
    var keyed := KeyedOf(PartKeys(keys, part), channel);
    PartKeysInTimeOrder(keys, part, channel);
    hide KeyedOf, SampleKeyed, Interpolates, Fraction;
    if keyed == [] {
      NothingKeyed(time);
    } else {
      SampleHoldsEnds(keyed, time);
    }
    forall i, j | 0 <= i < j < |keyed| && j == i + 1 && keyed[i].time <= time < keyed[j].time
      ensures Interpolates(keyed[i], keyed[j], time, Fraction(time, keyed[i].time, keyed[j].time),
                SampleKeyed(keyed, time))
    {
      SampleInterpolates(keyed, i, time);
    }
    forall i | 0 <= i < |keyed| && keyed[i].time == time && LastOfItsTime(keyed, i)
      ensures SampleKeyed(keyed, time) == Some(keyed[i].value)
    {
      SampleHitsKeys(keyed, i);
    }
  }

  lemma NothingKeyed(time: real)
    ensures SampleKeyed([], time) == None
  {
  }
}
