/**
 * Ground contact: where a sampled frame sinks a contact box below the ground, a joint above it is turned by the
 * smallest correction that lifts it out, found by a one-degree scan in each direction and a bisection.
 *
 * The bottom of the contact box is an arbitrary function of the whole frame.
 */
module GroundContact {
  import opened Halving
  import opened Numbers
  import opened Outcomes
  import opened FigureAnimation

  datatype Axis = X | Y | Z

  datatype TransformKey = TransformKey(at: Option<Vec3>, rot: Option<Vec3>, scale: Option<Vec3>)
  type Keys = map<string, TransformKey>

  datatype Constraint = Constraint(
    contactPart: string, solvePart: string, axis: Option<Axis>, groundY: Option<real>,
    minCorrectionDegrees: Option<real>, maxCorrectionDegrees: Option<real>, preserveContactRotation: Option<bool>)

  datatype GroundError =
    | MissingContactPart | ContactNotABox | MissingSolvePart | SolveNotAnAncestor | BoundsExcludeZero
    | CannotReachGround(contactPart: string, solvePart: string)

  function Or<T>(value: Option<T>, default: T): T {
    if value.Some? then value.value else default
  }

  function AxisOf(c: Constraint): Axis { Or(c.axis, X) }
  function GroundY(c: Constraint): real { Or(c.groundY, 0.0) }
  function MinCorrection(c: Constraint): real { Or(c.minCorrectionDegrees, -75.0) }
  function MaxCorrection(c: Constraint): real { Or(c.maxCorrectionDegrees, 75.0) }
  function Preserves(c: Constraint): bool { Or(c.preserveContactRotation, true) }

  /** What constraint validation establishes before any frame is projected. */
  predicate Validated(c: Constraint) {
    c.solvePart != c.contactPart && MinCorrection(c) <= 0.0 <= MaxCorrection(c)
  }

  /** Parts by name; every parent ranks below its children, so there is no cycle. */
  ghost predicate PartTree(parts: map<string, Part>, rank: string -> nat) {
    forall name :: name in parts ==>
      parts[name].name == name
        && (parts[name].parent.Some? && parts[name].parent.value in parts ==>
             rank(parts[name].parent.value) < rank(name))
  }

  /** The names met on the way up from a parent, the last of them possibly no part's. */
  ghost function Ancestors(parts: map<string, Part>, rank: string -> nat, parent: Option<string>): seq<string>
    requires PartTree(parts, rank)
    decreases if parent.Some? then (if parent.value in parts then 2 + rank(parent.value) else 1) else 0
  {
    if parent.None? then []
    else [parent.value] + if parent.value in parts then Ancestors(parts, rank, parts[parent.value].parent) else []
  }

  method IsAncestorPart(
      ancestor: string, part: Part, parts: map<string, Part>, ghost rank: string -> nat)
    returns (r: bool)
    requires PartTree(parts, rank)
    ensures r <==> ancestor in Ancestors(parts, rank, part.parent)
  {
    var parent := part.parent;
    while parent.Some?
      invariant ancestor in Ancestors(parts, rank, part.parent) <==> ancestor in Ancestors(parts, rank, parent)
      decreases if parent.Some? then (if parent.value in parts then 2 + rank(parent.value) else 1) else 0
    {
      if parent.value == ancestor {
        return true;
      }
      parent := if parent.value in parts then parts[parent.value].parent else None;
    }
    return false;
  }

  lemma {:induction false} AncestorsRankBelow(
      parts: map<string, Part>, rank: string -> nat, parent: Option<string>, name: string)
    requires PartTree(parts, rank)
    requires name in Ancestors(parts, rank, parent) && name in parts
    ensures parent.value in parts && rank(name) <= rank(parent.value)
    decreases if parent.Some? then (if parent.value in parts then 2 + rank(parent.value) else 1) else 0
  {
    if name != parent.value {
      AncestorsRankBelow(parts, rank, parts[parent.value].parent, name);
    }
  }

  /** Accepts exactly a box part, a proper ancestor of it and bounds around zero; what it accepts can be projected. */
  method ValidateGroundContactConstraint(
      c: Constraint, parts: map<string, Part>, boxes: set<string>, ghost rank: string -> nat)
    returns (r: Result<(), GroundError>)
    requires PartTree(parts, rank)
    ensures r.Success? <==>
              && c.contactPart in parts && c.contactPart in boxes && c.solvePart in parts
              && c.solvePart in Ancestors(parts, rank, parts[c.contactPart].parent)
              && MinCorrection(c) <= 0.0 <= MaxCorrection(c)
    ensures r.Success? ==> Validated(c)
  {
    if c.contactPart !in parts {
      return Failure(MissingContactPart);
    }
    if c.contactPart !in boxes {
      return Failure(ContactNotABox);
    }
    if c.solvePart !in parts {
      return Failure(MissingSolvePart);
    }
    var ancestor := IsAncestorPart(c.solvePart, parts[c.contactPart], parts, rank);
    if !ancestor {
      return Failure(SolveNotAnAncestor);
    }
    AncestorsRankBelow(parts, rank, parts[c.contactPart].parent, c.solvePart);
    if MinCorrection(c) > 0.0 || MaxCorrection(c) < 0.0 || MinCorrection(c) > MaxCorrection(c) {
      return Failure(BoundsExcludeZero);
    }
    return Success(());
  }

  function Angle(v: Vec3, axis: Axis): real {
    match axis case X => v.x case Y => v.y case Z => v.z
  }

  function WithAngle(v: Vec3, axis: Axis, angle: real): Vec3 {
    match axis case X => v.(x := angle) case Y => v.(y := angle) case Z => v.(z := angle)
  }

  function Transform(keys: Keys, part: string): TransformKey {
    if part in keys then keys[part] else TransformKey(None, None, None)
  }

  function Rotation(keys: Keys, part: string): Vec3 {
    OrZero(Transform(keys, part).rot)
  }

  function WithRotation(keys: Keys, part: string, rot: Vec3): Keys {
    keys[part := Transform(keys, part).(rot := Some(rot))]
  }

  /** The frame with the joint turned by a correction and, where it is preserved, the contact part turned back by it. */
  function Corrected(keys: Keys, c: Constraint, correction: real): Keys {
    var axis := AxisOf(c);
    var solve, contact := Rotation(keys, c.solvePart), Rotation(keys, c.contactPart);
    var turned := WithRotation(keys, c.solvePart, WithAngle(solve, axis, Angle(solve, axis) + correction));
    if Preserves(c)
    then WithRotation(turned, c.contactPart, WithAngle(contact, axis, Angle(contact, axis) - correction))
    else turned
  }

  /** How far above the ground the contact box is at a correction; negative while it penetrates. */
  function Clearance(bottom: Keys -> real, keys: Keys, c: Constraint): real -> real {
    (correction: real) => bottom(Corrected(keys, c, correction)) - GroundY(c)
  }

  // ---------------------------------------------------------------------------------------------
  // The nearest root in one direction
  // ---------------------------------------------------------------------------------------------

  function Ceiling(r: real): int {
    -(-r).Floor
  }

  /** The `step`-th sample towards the limit: whole degrees, and the limit itself. */
  function Sample(limit: real, step: int): real {
    var distance := if (step as real) < Abs(limit) then step as real else Abs(limit);
    if limit < 0.0 then -distance else distance
  }

  /** The first sample from `step` on that is clear, or zero when none up to the limit is. */
  function FirstClear(f: real -> real, limit: real, step: nat): nat
    requires step >= 1
    decreases Ceiling(Abs(limit)) - step
  {
    if step > Ceiling(Abs(limit)) then 0
    else if f(Sample(limit, step)) >= 0.0 then step
    else FirstClear(f, limit, step + 1)
  }

  /** The clear end of the bracket after `n` halvings. */
  function Bisected(f: real -> real, penetrating: real, clear: real, n: nat): real
    decreases n
  {
    if n == 0 then clear
    else
      var middle := (penetrating + clear) / 2.0;
      if f(middle) >= 0.0 then Bisected(f, penetrating, middle, n - 1) else Bisected(f, middle, clear, n - 1)
  }

  function NearestRoot(f: real -> real, limit: real): Option<real> {
    var step := if limit == 0.0 then 0 else FirstClear(f, limit, 1);
    if step == 0 then None else Some(Bisected(f, Sample(limit, step - 1), Sample(limit, step), 18))
  }

  lemma {:induction false} FirstClearMeans(f: real -> real, limit: real, step: nat)
    requires step >= 1
    ensures var k := FirstClear(f, limit, step);
            if k == 0 then forall j: int :: step <= j <= Ceiling(Abs(limit)) ==> f(Sample(limit, j)) < 0.0
            else step <= k <= Ceiling(Abs(limit)) && f(Sample(limit, k)) >= 0.0
                 && forall j: int :: step <= j < k ==> f(Sample(limit, j)) < 0.0
    decreases Ceiling(Abs(limit)) - step
  {
    if step <= Ceiling(Abs(limit)) && f(Sample(limit, step)) < 0.0 {
      FirstClearMeans(f, limit, step + 1);
    }
  }

  /**
   * `r` is clear, lies in the bracket, and a penetrating correction is exactly `width` before it, on the side of
   * `from`.
   */
  ghost predicate Brackets(f: real -> real, from: real, to: real, r: real, width: real) {
    && f(r) >= 0.0
    && (if from <= to then from < r <= to && f(r - width) < 0.0 else to <= r < from && f(r + width) < 0.0)
  }

  lemma {:induction false} BisectedMeans(f: real -> real, penetrating: real, clear: real, n: nat)
    requires f(penetrating) < 0.0 && f(clear) >= 0.0
    ensures Brackets(f, penetrating, clear, Bisected(f, penetrating, clear, n), Halved(Abs(clear - penetrating), n))
    decreases n
  {
    if n > 0 {
      var middle := (penetrating + clear) / 2.0;
      HalfHalved(Abs(clear - penetrating), n - 1);
      assert Abs(middle - penetrating) == Abs(clear - middle) == Abs(clear - penetrating) / 2.0;
      if f(middle) >= 0.0 {
        BisectedMeans(f, penetrating, middle, n - 1);
      } else {
        BisectedMeans(f, middle, clear, n - 1);
      }
    }
  }

  lemma SampleZero(limit: real)
    ensures Sample(limit, 0) == 0.0
  {
  }

  lemma SampleSteps(limit: real, step: int)
    requires limit != 0.0 && 1 <= step <= Ceiling(Abs(limit))
    ensures 0.0 < Abs(Sample(limit, step) - Sample(limit, step - 1)) <= 1.0
    ensures Abs(Sample(limit, step - 1)) < Abs(Sample(limit, step)) <= Abs(limit)
    ensures limit < 0.0 ==> limit <= Sample(limit, step) < Sample(limit, step - 1) <= 0.0
    ensures limit > 0.0 ==> 0.0 <= Sample(limit, step - 1) < Sample(limit, step) <= limit
  {
    assert ((step - 1) as real) < Abs(limit);
  }

  /** `r` is a root between two samples next to each other, the first clear one and its predecessor. */
  ghost predicate RootAfter(f: real -> real, limit: real, r: real, step: int) {
    && limit != 0.0 && 1 <= step <= Ceiling(Abs(limit))
    && (forall j: int :: 1 <= j < step ==> f(Sample(limit, j)) < 0.0) && f(Sample(limit, step)) >= 0.0
    && (if limit < 0.0 then limit <= r < 0.0 else 0.0 < r <= limit)
    && Abs(Sample(limit, step - 1)) < Abs(r) <= Abs(Sample(limit, step))
    && f(r) >= 0.0
    && exists width :: PenetratesCloser(f, limit, r, width)
  }

  /** The correction `width` closer to zero than `r` penetrates, for a width of at most a 2^18th of a degree. */
  ghost predicate PenetratesCloser(f: real -> real, limit: real, r: real, width: real) {
    0.0 < width <= 1.0 / 262144.0 && f(if limit < 0.0 then r + width else r - width) < 0.0
  }

  lemma RootAfterClear(f: real -> real, limit: real, step: int)
    requires limit != 0.0 && 1 <= step <= Ceiling(Abs(limit))
    requires f(0.0) < 0.0 && f(Sample(limit, step)) >= 0.0
    requires forall j: int :: 1 <= j < step ==> f(Sample(limit, j)) < 0.0
    ensures RootAfter(f, limit, Bisected(f, Sample(limit, step - 1), Sample(limit, step), 18), step)
  {
    hide Ceiling, Bisected;
    SampleZero(limit);
    SampleSteps(limit, step);
    hide Sample;
    var from, to := Sample(limit, step - 1), Sample(limit, step);
    BisectedMeans(f, from, to, 18);
    HalvedEighteen(Abs(to - from));
    var width := Halved(Abs(to - from), 18);
    hide Halved;
    assert PenetratesCloser(f, limit, Bisected(f, from, to, 18), width);
  }

  /**
   * From a penetrating start: there is no root exactly when every sample up to the limit penetrates. Otherwise the
   * root is clear and within the limit, a correction at most a 2^18th of a degree closer to zero penetrates, and so
   * does every sample before it.
   */
  lemma NearestRootMeans(f: real -> real, limit: real)
    requires f(0.0) < 0.0
    ensures NearestRoot(f, limit).None? <==>
              limit == 0.0 || forall j: int :: 1 <= j <= Ceiling(Abs(limit)) ==> f(Sample(limit, j)) < 0.0
    ensures NearestRoot(f, limit).Some? ==> exists step: int :: RootAfter(f, limit, NearestRoot(f, limit).value, step)
  {
    hide Ceiling, Bisected, FirstClear, Sample, Abs, RootAfter;
    if limit != 0.0 {
      FirstClearMeans(f, limit, 1);
      var step := FirstClear(f, limit, 1);
      if step != 0 {
        RootAfterClear(f, limit, step);
      }
    }
  }

  // ---------------------------------------------------------------------------------------------
  // The projection
  // ---------------------------------------------------------------------------------------------

  /** The root nearer to zero; the one towards the minimum when both are as near. */
  function Nearer(a: Option<real>, b: Option<real>): Option<real> {
    if a.None? then b
    else if b.None? then a
    else if Abs(b.value) < Abs(a.value) then b else a
  }

  /** The frame after projection, or none where the ground cannot be reached. */
  function Projected(bottom: Keys -> real, keys: Keys, c: Constraint): Option<Keys> {
    var sampled := Corrected(keys, c, 0.0);
    if bottom(sampled) >= GroundY(c) - 0.000001 then Some(sampled)
    else
      var f := Clearance(bottom, keys, c);
      var correction := Nearer(NearestRoot(f, MinCorrection(c)), NearestRoot(f, MaxCorrection(c)));
      if correction.None? then None else Some(Corrected(keys, c, correction.value))
  }

  class Frame {
    var keys: Keys

    constructor (keys: Keys)
      ensures this.keys == keys
    {
      this.keys := keys;
    }
  }

  /** A frame some correction leads to from the start. */
  ghost predicate Reached(keys: Keys, start: Keys, c: Constraint) {
    exists x :: keys == Corrected(start, c, x)
  }

  /** Turns the joint, and reads the bottom off the turned frame. */
  method Evaluate(
      frame: Frame, ghost start: Keys, c: Constraint, solve: Vec3, contact: Vec3, bottom: Keys -> real,
      correction: real)
    returns (value: real)
    requires Validated(c) && solve == Rotation(start, c.solvePart) && contact == Rotation(start, c.contactPart)
    requires Reached(frame.keys, start, c)
    modifies frame
    ensures frame.keys == Corrected(start, c, correction) && Reached(frame.keys, start, c)
    ensures value == Clearance(bottom, start, c)(correction)
  {
    hide Corrected, WithRotation, WithAngle, Rotation, Angle, AxisOf, GroundY, Preserves;
    ghost var x :| frame.keys == Corrected(start, c, x);
    TurnedAgain(start, c, x, correction);
    var axis := AxisOf(c);
    frame.keys := WithRotation(frame.keys, c.solvePart, WithAngle(solve, axis, Angle(solve, axis) + correction));
    if Preserves(c) {
      frame.keys := WithRotation(frame.keys, c.contactPart,
          WithAngle(contact, axis, Angle(contact, axis) - correction));
    }
    value := bottom(frame.keys) - GroundY(c);
  }

  /** Turning a frame that is turned already forgets the first correction. */
  lemma TurnedAgain(start: Keys, c: Constraint, x: real, y: real)
    requires Validated(c)
    ensures var axis := AxisOf(c);
            var solve, contact := Rotation(start, c.solvePart), Rotation(start, c.contactPart);
            var turned := WithRotation(Corrected(start, c, x), c.solvePart,
                WithAngle(solve, axis, Angle(solve, axis) + y));
            Corrected(start, c, y)
            == if Preserves(c)
               then WithRotation(turned, c.contactPart, WithAngle(contact, axis, Angle(contact, axis) - y))
               else turned
  {
  }

  method Bisect(
      frame: Frame, ghost start: Keys, c: Constraint, solve: Vec3, contact: Vec3, bottom: Keys -> real,
      from: real, to: real, halvings: nat)
    returns (clear: real)
    requires Validated(c) && solve == Rotation(start, c.solvePart) && contact == Rotation(start, c.contactPart)
    requires Reached(frame.keys, start, c)
    modifies frame
    ensures Reached(frame.keys, start, c)
    ensures clear == Bisected(Clearance(bottom, start, c), from, to, halvings)
  {
    hide Corrected, Clearance, Rotation;
    ghost var f := Clearance(bottom, start, c);
    var penetrating := from;
    clear := to;
    for iteration := 0 to halvings
      invariant Bisected(f, penetrating, clear, halvings - iteration) == Bisected(f, from, to, halvings)
      invariant Reached(frame.keys, start, c)
    {
      var middle := (penetrating + clear) / 2.0;
      var height := Evaluate(frame, start, c, solve, contact, bottom, middle);
      if height >= 0.0 {
        clear := middle;
      } else {
        penetrating := middle;
      }
    }
  }

  method FindNearestGroundRoot(
      frame: Frame, ghost start: Keys, c: Constraint, solve: Vec3, contact: Vec3, bottom: Keys -> real, limit: real)
    returns (root: Option<real>)
    requires Validated(c) && solve == Rotation(start, c.solvePart) && contact == Rotation(start, c.contactPart)
    requires Reached(frame.keys, start, c)
    requires Clearance(bottom, start, c)(0.0) < 0.0
    modifies frame
    ensures Reached(frame.keys, start, c)
    ensures root == NearestRoot(Clearance(bottom, start, c), limit)
  {
    hide Corrected, Clearance, Rotation, Sample, Abs, Ceiling, Bisected;
    ghost var f := Clearance(bottom, start, c);
    SampleZero(limit);
    if limit == 0.0 {
      return None;
    }
    var previousCorrection := 0.0;
    var previousValue := Evaluate(frame, start, c, solve, contact, bottom, 0.0);
    var step := 1;
    while step <= Ceiling(Abs(limit))
      invariant 1 <= step
      invariant previousCorrection == Sample(limit, step - 1) && previousValue < 0.0
      invariant FirstClear(f, limit, step) == FirstClear(f, limit, 1)
      invariant Reached(frame.keys, start, c)
      decreases Ceiling(Abs(limit)) - step
    {
      var correction := Sample(limit, step);
      var value := Evaluate(frame, start, c, solve, contact, bottom, correction);
      if value >= 0.0 && previousValue < 0.0 {
        var clear := Bisect(frame, start, c, solve, contact, bottom, previousCorrection, correction, 18);
        return Some(clear);
      }
      previousCorrection := correction;
      previousValue := value;
      step := step + 1;
    }
    root := None;
  }

  /**
   * The frame in place. When the ground cannot be reached the call throws, with the frame back at its sampled
   * angles, which it now holds explicitly.
   */
  method ProjectGroundContact(frame: Frame, c: Constraint, bottom: Keys -> real) returns (r: Result<(), GroundError>)
    requires Validated(c)
    modifies frame
    ensures var projected := Projected(bottom, old(frame.keys), c);
            && r == (if projected.Some? then Success(()) else Failure(CannotReachGround(c.contactPart, c.solvePart)))
            && frame.keys == if projected.Some? then projected.value else Corrected(old(frame.keys), c, 0.0)
  {
    ghost var start := frame.keys;
    var rotation := Rotation(frame.keys, c.solvePart);
    var contactRotation := Rotation(frame.keys, c.contactPart);
    SampledExplicitly(start, c);
    frame.keys := WithRotation(frame.keys, c.solvePart, rotation);
    if Preserves(c) {
      frame.keys := WithRotation(frame.keys, c.contactPart, contactRotation);
    }
    hide Corrected, NearestRoot;
    if bottom(frame.keys) >= GroundY(c) - 0.000001 {
      return Success(());
    }
    var below := FindNearestGroundRoot(frame, start, c, rotation, contactRotation, bottom, MinCorrection(c));
    var above := FindNearestGroundRoot(frame, start, c, rotation, contactRotation, bottom, MaxCorrection(c));
    var correction := Nearer(below, above);
    if correction.None? {
      var _ := Evaluate(frame, start, c, rotation, contactRotation, bottom, 0.0);
      return Failure(CannotReachGround(c.contactPart, c.solvePart));
    }
    var _ := Evaluate(frame, start, c, rotation, contactRotation, bottom, correction.value);
    r := Success(());
  }

  lemma SampledExplicitly(keys: Keys, c: Constraint)
    requires Validated(c)
    ensures var turned := WithRotation(keys, c.solvePart, Rotation(keys, c.solvePart));
            Corrected(keys, c, 0.0)
            == if Preserves(c) then WithRotation(turned, c.contactPart, Rotation(keys, c.contactPart)) else turned
  {
  }

  // ---------------------------------------------------------------------------------------------
  // What a projection guarantees
  // ---------------------------------------------------------------------------------------------

  /**
   * A correction turns the two parts about one axis, in opposite directions if the contact is preserved, and nothing
   * else.
   */
  lemma CorrectionIsLocal(keys: Keys, c: Constraint, correction: real)
    requires Validated(c)
    ensures var next := Corrected(keys, c, correction);
            && (forall p :: p != c.solvePart && p != c.contactPart ==>
                 (p in next <==> p in keys) && (p in keys ==> next[p] == keys[p]))
            && (!Preserves(c) ==> Transform(next, c.contactPart) == Transform(keys, c.contactPart))
            && (forall p ::
                 Transform(next, p).at == Transform(keys, p).at
                 && Transform(next, p).scale == Transform(keys, p).scale)
            && (forall p, axis: Axis :: axis != AxisOf(c) ==>
                 Angle(Rotation(next, p), axis) == Angle(Rotation(keys, p), axis))
            && Angle(Rotation(next, c.solvePart), AxisOf(c))
               == Angle(Rotation(keys, c.solvePart), AxisOf(c)) + correction
            && (Preserves(c) ==>
                  Angle(Rotation(next, c.solvePart), AxisOf(c)) + Angle(Rotation(next, c.contactPart), AxisOf(c))
                  == Angle(Rotation(keys, c.solvePart), AxisOf(c)) + Angle(Rotation(keys, c.contactPart), AxisOf(c)))
  {
  }

  /** No sampled correction, in either direction, lifts the box to the ground. */
  ghost predicate Unreachable(bottom: Keys -> real, keys: Keys, c: Constraint) {
    && (forall j: int :: 1 <= j <= Ceiling(Abs(MinCorrection(c))) ==>
         Clearance(bottom, keys, c)(Sample(MinCorrection(c), j)) < 0.0)
    && (forall j: int :: 1 <= j <= Ceiling(Abs(MaxCorrection(c))) ==>
         Clearance(bottom, keys, c)(Sample(MaxCorrection(c), j)) < 0.0)
  }

  /**
   * A root of one direction: clear, within that bound, and at most a 2^18th of a degree past a penetrating correction.
   */
  ghost predicate Root(f: real -> real, limit: real, r: real) {
    exists step: int :: RootAfter(f, limit, r, step)
  }

  /**
   * A correction within its bounds and at a root puts the box at or above the ground; neither direction's root is
   * nearer.
   */
  ghost predicate Lifted(bottom: Keys -> real, keys: Keys, c: Constraint, projected: Keys, x: real) {
    var f := Clearance(bottom, keys, c);
    && projected == Corrected(keys, c, x)
    && bottom(projected) >= GroundY(c)
    && MinCorrection(c) <= x <= MaxCorrection(c)
    && (Root(f, MinCorrection(c), x) || Root(f, MaxCorrection(c), x))
    && (forall r :: Root(f, MinCorrection(c), r) && NearestRoot(f, MinCorrection(c)) == Some(r) ==>
          Abs(x) <= Abs(r) && (x > 0.0 ==> Abs(x) < Abs(r)))
    && (forall r :: Root(f, MaxCorrection(c), r) && NearestRoot(f, MaxCorrection(c)) == Some(r) ==> Abs(x) <= Abs(r))
  }

  /**
   * A frame within a millionth of the ground keeps its sampled angles. Otherwise projection fails exactly when no
   * sample of either direction is clear; and when it succeeds the box is at or above the ground, by the correction
   * that is the smaller of the two directions' roots, the negative one of two as small, and lies within its bounds.
   */
  lemma ProjectionMeans(bottom: Keys -> real, keys: Keys, c: Constraint)
    requires Validated(c)
    ensures var sampled := Corrected(keys, c, 0.0);
            var f := Clearance(bottom, keys, c);
            var projected := Projected(bottom, keys, c);
            if bottom(sampled) >= GroundY(c) - 0.000001 then projected == Some(sampled)
            else
              && (projected.None? <==> Unreachable(bottom, keys, c))
              && (projected.Some? ==> exists x :: Lifted(bottom, keys, c, projected.value, x))
  {
    hide Corrected, NearestRoot, RootAfter;
    var f := Clearance(bottom, keys, c);
    if bottom(Corrected(keys, c, 0.0)) < GroundY(c) - 0.000001 {
      assert f(0.0) < 0.0;
      NearestRootMeans(f, MinCorrection(c));
      NearestRootMeans(f, MaxCorrection(c));
      NoSamples(c);
      var below, above := NearestRoot(f, MinCorrection(c)), NearestRoot(f, MaxCorrection(c));
      if below.Some? {
        RootInRange(f, MinCorrection(c), below.value);
      }
      if above.Some? {
        RootInRange(f, MaxCorrection(c), above.value);
      }
      var correction := Nearer(below, above);
      if correction.Some? {
        assert Lifted(bottom, keys, c, Corrected(keys, c, correction.value), correction.value);
      }
    }
  }

  lemma NoSamples(c: Constraint)
    ensures Ceiling(Abs(0.0)) == 0
  {
  }

  lemma RootInRange(f: real -> real, limit: real, r: real)
    requires Root(f, limit, r)
    ensures f(r) >= 0.0 && (if limit < 0.0 then limit <= r < 0.0 else 0.0 < r <= limit)
  {
  }

  // ---------------------------------------------------------------------------------------------
  // The samples and the defaults in plain terms
  // ---------------------------------------------------------------------------------------------

  /** A whole number of degrees from one on, short of the limit and on its side of zero; or the limit. */
  ghost predicate IsSample(limit: real, x: real) {
    limit != 0.0 && (x == limit || exists n: int :: n >= 1 && WholeDegrees(limit, x, n))
  }

  predicate WholeDegrees(limit: real, x: real, n: int) {
    if limit < 0.0 then x == -(n as real) && limit < x else x == n as real && x < limit
  }

  lemma SampleIsSample(limit: real, j: int)
    requires 1 <= j <= Ceiling(Abs(limit))
    ensures IsSample(limit, Sample(limit, j))
  {
    if (j as real) < Abs(limit) {
      assert WholeDegrees(limit, Sample(limit, j), j);
    }
  }

  lemma SampleAt(limit: real, x: real) returns (j: int)
    requires IsSample(limit, x)
    ensures 1 <= j <= Ceiling(Abs(limit)) && Sample(limit, j) == x
  {
    if x == limit {
      j := Ceiling(Abs(limit));
    } else {
      j :| j >= 1 && WholeDegrees(limit, x, j);
    }
  }

  /** The nearest clear sample to zero, if any is clear, bounds the root found. */
  ghost predicate FirstClearSample(f: real -> real, limit: real, x: real) {
    IsSample(limit, x) && f(x) >= 0.0 && forall y :: IsSample(limit, y) && Abs(y) < Abs(x) ==> f(y) < 0.0
  }

  /** Clear, at most a degree short of the first clear sample, and next to a penetrating correction. */
  ghost predicate IsRoot(f: real -> real, limit: real, r: real) {
    && f(r) >= 0.0
    && (exists x :: FirstClearSample(f, limit, x) && Abs(r) <= Abs(x) < Abs(r) + 1.0)
    && (if limit < 0.0 then limit <= r < 0.0 else 0.0 < r <= limit)
    && exists width :: PenetratesCloser(f, limit, r, width)
  }

  /** No root exactly if every sample penetrates, and otherwise such a root. */
  lemma NearestRootInPlainTerms(f: real -> real, limit: real)
    requires f(0.0) < 0.0
    ensures NearestRoot(f, limit).None? <==> forall x :: IsSample(limit, x) ==> f(x) < 0.0
    ensures NearestRoot(f, limit).Some? ==> IsRoot(f, limit, NearestRoot(f, limit).value)
  {
    NearestRootMeans(f, limit);
    hide NearestRoot;
    if NearestRoot(f, limit).None? {
      forall x | IsSample(limit, x) ensures f(x) < 0.0 {
        var j := SampleAt(limit, x);
      }
    } else {
      var r := NearestRoot(f, limit).value;
      var step: int :| RootAfter(f, limit, r, step);
      SampleIsSample(limit, step);
      RootIsPlain(f, limit, r, step);
    }
  }

  lemma RootIsPlain(f: real -> real, limit: real, r: real, step: int)
    requires RootAfter(f, limit, r, step)
    ensures IsRoot(f, limit, r)
  {
    var x := Sample(limit, step);
    SampleIsSample(limit, step);
    SampleSteps(limit, step);
    forall y | IsSample(limit, y) && Abs(y) < Abs(x) ensures f(y) < 0.0 {
      var j := SampleAt(limit, y);
      SamplesInOrder(limit, j, step);
    }
    assert FirstClearSample(f, limit, x);
    var width :| PenetratesCloser(f, limit, r, width);
    StepWidth(limit, step);
  }

  lemma StepWidth(limit: real, step: int)
    requires limit != 0.0 && 1 <= step <= Ceiling(Abs(limit))
    ensures Abs(Sample(limit, step)) <= Abs(Sample(limit, step - 1)) + 1.0
  {
  }

  lemma SamplesInOrder(limit: real, j: int, k: int)
    requires 1 <= j <= Ceiling(Abs(limit)) && 1 <= k <= Ceiling(Abs(limit)) && limit != 0.0
    requires Abs(Sample(limit, j)) < Abs(Sample(limit, k))
    ensures j < k
  {
  }

  /**
   * What a constraint leaves out: the X axis, ground at zero, 75 degrees either way, the contact's rotation preserved.
   */
  lemma Defaults(c: Constraint)
    ensures c.axis.None? ==> AxisOf(c) == X
    ensures c.groundY.None? ==> GroundY(c) == 0.0
    ensures c.minCorrectionDegrees.None? ==> MinCorrection(c) == -75.0
    ensures c.maxCorrectionDegrees.None? ==> MaxCorrection(c) == 75.0
    ensures c.preserveContactRotation.None? ==> Preserves(c)
  {
  }
}
