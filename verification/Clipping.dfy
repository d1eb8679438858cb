/**
 * Sutherland-Hodgman clipping of one face polygon against another, as the surface analysis uses it
 * to measure how much of two coplanar faces overlap.
 *
 * Coordinates are exact reals. The two tolerances of the program are a parameter, so that statements
 * can be made about exact clipping (`EXACT`) and about the values the program uses (`AUTHORED`).
 */
module Clipping {
  import opened Numbers

  datatype Vec2 = Vec2(x: real, y: real)

  /** How far outside an edge still counts as inside, and how small a denominator counts as parallel. */
  datatype Tolerance = Tolerance(inside: real, parallel: real)

  const EXACT := Tolerance(0.0, 0.0)
  const AUTHORED := Tolerance(0.0000000001, 0.000000000001)

  function Cross2(leftX: real, leftY: real, rightX: real, rightY: real): real {
    leftX * rightY - leftY * rightX
  }

  /** Positive to the left of the directed edge, negative to its right, zero on its line. */
  function Side(point: Vec2, edgeStart: Vec2, edgeEnd: Vec2): real {
    Cross2(edgeEnd.x - edgeStart.x, edgeEnd.y - edgeStart.y, point.x - edgeStart.x, point.y - edgeStart.y)
  }

  predicate Inside(point: Vec2, edgeStart: Vec2, edgeEnd: Vec2, tol: Tolerance) {
    Side(point, edgeStart, edgeEnd) >= -tol.inside
  }

  function LineIntersection(lineStart: Vec2, lineEnd: Vec2, edgeStart: Vec2, edgeEnd: Vec2, tol: Tolerance): Vec2
    requires tol.parallel >= 0.0
  {
    var lineX, lineY := lineEnd.x - lineStart.x, lineEnd.y - lineStart.y;
    var edgeX, edgeY := edgeEnd.x - edgeStart.x, edgeEnd.y - edgeStart.y;
    var denominator := Cross2(lineX, lineY, edgeX, edgeY);
    if Abs(denominator) <= tol.parallel then lineEnd
    else
      var amount := Cross2(edgeStart.x - lineStart.x, edgeStart.y - lineStart.y, edgeX, edgeY) / denominator;
      Vec2(lineStart.x + amount * lineX, lineStart.y + amount * lineY)
  }

  // ---------------------------------------------------------------------------------------------
  // One pass over one clip edge, and the passes of the whole loop
  // ---------------------------------------------------------------------------------------------

  /** What one step along the polygon, from `previous` to `current`, emits. */
  function Emitted(previous: Vec2, current: Vec2, a: Vec2, b: Vec2, tol: Tolerance): seq<Vec2>
    requires tol.parallel >= 0.0
  {
    (if Inside(current, a, b, tol) != Inside(previous, a, b, tol)
     then [LineIntersection(previous, current, a, b, tol)] else [])
    + (if Inside(current, a, b, tol) then [current] else [])
  }

  function Pass(previous: Vec2, points: seq<Vec2>, a: Vec2, b: Vec2, tol: Tolerance): seq<Vec2>
    requires tol.parallel >= 0.0
    decreases |points|
  {
    if points == [] then []
    else Emitted(previous, points[0], a, b, tol) + Pass(points[0], points[1..], a, b, tol)
  }

  /** The polygon clipped by one edge. */
  function ClippedByEdge(polygon: seq<Vec2>, a: Vec2, b: Vec2, tol: Tolerance): seq<Vec2>
    requires tol.parallel >= 0.0
  {
    if polygon == [] then [] else Pass(polygon[|polygon| - 1], polygon, a, b, tol)
  }

  function EdgeEnd(clip: seq<Vec2>, i: nat): Vec2
    requires i < |clip|
  {
    clip[(i + 1) % |clip|]
  }

  /** The polygon clipped by the edges from number `i` on. */
  function ClippedFrom(polygon: seq<Vec2>, clip: seq<Vec2>, i: nat, tol: Tolerance): seq<Vec2>
    requires tol.parallel >= 0.0 && i <= |clip|
    decreases |clip| - i
  {
    if i == |clip| then polygon
    else ClippedFrom(ClippedByEdge(polygon, clip[i], EdgeEnd(clip, i), tol), clip, i + 1, tol)
  }

  lemma EmptyStaysEmpty(clip: seq<Vec2>, i: nat, tol: Tolerance)
    requires tol.parallel >= 0.0 && i <= |clip|
    ensures ClippedFrom([], clip, i, tol) == []
    decreases |clip| - i
  {
    if i < |clip| {
      EmptyStaysEmpty(clip, i + 1, tol);
    }
  }

  /** Pass distributes over a split of the walk; used to follow the inner loop. */
  lemma {:induction false} PassAppend(
      previous: Vec2, points: seq<Vec2>, current: Vec2, a: Vec2, b: Vec2, tol: Tolerance)
    requires tol.parallel >= 0.0
    ensures Pass(previous, points + [current], a, b, tol)
         == Pass(previous, points, a, b, tol)
            + Emitted(if points == [] then previous else points[|points| - 1], current, a, b, tol)
    decreases |points|
  {
    hide Emitted;
    if points == [] {
      assert [current][1..] == [];
      assert Pass(previous, [current], a, b, tol)
             == Emitted(previous, current, a, b, tol) + Pass(current, [], a, b, tol);
      assert points + [current] == [current];
    } else {
      PassAppend(points[0], points[1..], current, a, b, tol);
      assert (points + [current])[1..] == points[1..] + [current];
    }
  }

  lemma EmittedBySteps(was: seq<Vec2>, previous: Vec2, current: Vec2, a: Vec2, b: Vec2, tol: Tolerance)
    requires tol.parallel >= 0.0
    ensures was + Emitted(previous, current, a, b, tol)
         == (was + (if Inside(current, a, b, tol) != Inside(previous, a, b, tol)
                    then [LineIntersection(previous, current, a, b, tol)] else []))
            + (if Inside(current, a, b, tol) then [current] else [])
  {
    hide Inside, LineIntersection;
  }

  method ClipConvexPolygon(subject: seq<Vec2>, clip: seq<Vec2>, tol: Tolerance) returns (output: seq<Vec2>)
    requires tol.parallel >= 0.0
    ensures output == ClippedFrom(subject, clip, 0, tol)
  {
    hide Emitted, Inside, LineIntersection;
    output := subject;
    for index := 0 to |clip|
      invariant ClippedFrom(output, clip, index, tol) == ClippedFrom(subject, clip, 0, tol)
    {
      var edgeStart := clip[index];
      var edgeEnd := clip[(index + 1) % |clip|];
      var input := output;
      output := [];
      if |input| == 0 {
        EmptyStaysEmpty(clip, index, tol);
        return;
      }
      var previous := input[|input| - 1];
      for i := 0 to |input|
        invariant previous == if i == 0 then input[|input| - 1] else input[i - 1]
        invariant output == Pass(input[|input| - 1], input[..i], edgeStart, edgeEnd, tol)
      {
        var current := input[i];
        PassAppend(input[|input| - 1], input[..i], current, edgeStart, edgeEnd, tol);
        assert input[..i + 1] == input[..i] + [current];
        ghost var was := output;
        var currentInside := Inside(current, edgeStart, edgeEnd, tol);
        var previousInside := Inside(previous, edgeStart, edgeEnd, tol);
        if currentInside != previousInside {
          output := output + [LineIntersection(previous, current, edgeStart, edgeEnd, tol)];
        }
        if currentInside {
          output := output + [current];
        }
        EmittedBySteps(was, previous, current, edgeStart, edgeEnd, tol);
        previous := current;
      }
      assert input[..|input|] == input;
    }
  }

  // ---------------------------------------------------------------------------------------------
  // Where a crossing lands
  // ---------------------------------------------------------------------------------------------

  function Lerp(p: Vec2, q: Vec2, t: real): Vec2 {
    Vec2(p.x + t * (q.x - p.x), p.y + t * (q.y - p.y))
  }

  lemma SideOfLerp(p: Vec2, q: Vec2, t: real, a: Vec2, b: Vec2)
    ensures Side(Lerp(p, q, t), a, b) == Side(p, a, b) + t * (Side(q, a, b) - Side(p, a, b))
  {
    var dx, dy := b.x - a.x, b.y - a.y;
    calc {
      Side(Lerp(p, q, t), a, b);
      dx * (p.y + t * (q.y - p.y) - a.y) - dy * (p.x + t * (q.x - p.x) - a.x);
      dx * (p.y - a.y) - dy * (p.x - a.x) + (dx * (t * (q.y - p.y)) - dy * (t * (q.x - p.x)));
      {
        assert dx * (t * (q.y - p.y)) == t * (dx * (q.y - p.y));
        assert dy * (t * (q.x - p.x)) == t * (dy * (q.x - p.x));
      }
      Side(p, a, b) + t * (dx * (q.y - p.y) - dy * (q.x - p.x));
      Side(p, a, b) + t * (Side(q, a, b) - Side(p, a, b));
    }
  }

  /** The denominator the program divides by is the difference of the two signed sides. */
  lemma DenominatorIsSideDifference(p: Vec2, q: Vec2, a: Vec2, b: Vec2)
    ensures Cross2(q.x - p.x, q.y - p.y, b.x - a.x, b.y - a.y) == Side(p, a, b) - Side(q, a, b)
    ensures Cross2(a.x - p.x, a.y - p.y, b.x - a.x, b.y - a.y) == Side(p, a, b)
  {
  }

  /** Unless the step is parallel, the emitted crossing is the point of the step's line at which the side vanishes. */
  lemma CrossingAt(p: Vec2, q: Vec2, a: Vec2, b: Vec2, tol: Tolerance)
    requires tol.parallel >= 0.0
    requires Abs(Side(p, a, b) - Side(q, a, b)) > tol.parallel
    ensures LineIntersection(p, q, a, b, tol) == Lerp(p, q, Side(p, a, b) / (Side(p, a, b) - Side(q, a, b)))
    ensures Side(LineIntersection(p, q, a, b, tol), a, b) == 0.0
  {
    DenominatorIsSideDifference(p, q, a, b);
    var t := Side(p, a, b) / (Side(p, a, b) - Side(q, a, b));
    SideOfLerp(p, q, t, a, b);
    assert t * (Side(p, a, b) - Side(q, a, b)) == Side(p, a, b);
  }

  lemma EmittedWithinTolerance(p: Vec2, q: Vec2, a: Vec2, b: Vec2, tol: Tolerance)
    requires tol.inside >= 0.0 && tol.parallel >= 0.0
    ensures forall v :: v in Emitted(p, q, a, b, tol) ==> Side(v, a, b) >= -(tol.inside + tol.parallel)
  {
    DenominatorIsSideDifference(p, q, a, b);
    if Inside(q, a, b, tol) != Inside(p, a, b, tol) && Abs(Side(p, a, b) - Side(q, a, b)) > tol.parallel {
      CrossingAt(p, q, a, b, tol);
    }
  }

  lemma {:induction false} PassWithinTolerance(previous: Vec2, points: seq<Vec2>, a: Vec2, b: Vec2, tol: Tolerance)
    requires tol.inside >= 0.0 && tol.parallel >= 0.0
    ensures forall v :: v in Pass(previous, points, a, b, tol) ==> Side(v, a, b) >= -(tol.inside + tol.parallel)
    decreases |points|
  {
    if points != [] {
      EmittedWithinTolerance(previous, points[0], a, b, tol);
      PassWithinTolerance(points[0], points[1..], a, b, tol);
    }
  }

  /** With the program's tolerances, one pass leaves nothing further outside its edge than the two together. */
  lemma AuthoredPassIsWithinTolerance(polygon: seq<Vec2>, a: Vec2, b: Vec2)
    ensures forall v :: v in ClippedByEdge(polygon, a, b, AUTHORED) ==>
            Side(v, a, b) >= -(0.0000000001 + 0.000000000001)
  {
    if polygon != [] {
      PassWithinTolerance(polygon[|polygon| - 1], polygon, a, b, AUTHORED);
    }
  }

  // ---------------------------------------------------------------------------------------------
  // Convex combinations
  // ---------------------------------------------------------------------------------------------

  function Dot(weights: seq<real>, values: seq<real>): real
    requires |weights| == |values|
  {
    if weights == [] then 0.0 else weights[0] * values[0] + Dot(weights[1..], values[1..])
  }

  function Xs(points: seq<Vec2>): (r: seq<real>)
    ensures |r| == |points|
  {
    seq(|points|, i requires 0 <= i < |points| => points[i].x)
  }

  function Ys(points: seq<Vec2>): (r: seq<real>)
    ensures |r| == |points|
  {
    seq(|points|, i requires 0 <= i < |points| => points[i].y)
  }

  function Ones(n: nat): (r: seq<real>)
    ensures |r| == n
  {
    seq(n, _ => 1.0)
  }

  /** `q` is the mixture of the points with these weights: none negative, and one in total. */
  ghost predicate Combines(weights: seq<real>, points: seq<Vec2>, q: Vec2) {
    && |weights| == |points|
    && (forall i :: 0 <= i < |weights| ==> weights[i] >= 0.0)
    && Dot(weights, Ones(|weights|)) == 1.0
    && Dot(weights, Xs(points)) == q.x
    && Dot(weights, Ys(points)) == q.y
  }

  ghost predicate ConvexCombination(points: seq<Vec2>, q: Vec2) {
    exists weights :: Combines(weights, points, q)
  }

  function Mixed(v: seq<real>, w: seq<real>, t: real): seq<real>
    requires |v| == |w|
  {
    seq(|v|, i requires 0 <= i < |v| => v[i] + t * (w[i] - v[i]))
  }

  lemma {:induction false} MixedDot(v: seq<real>, w: seq<real>, t: real, values: seq<real>)
    requires |v| == |w| == |values|
    ensures Dot(Mixed(v, w, t), values) == Dot(v, values) + t * (Dot(w, values) - Dot(v, values))
  {
    hide Mixed, Dot;
    var mixed := Mixed(v, w, t);
    MixedHead(v, w, t);
    DotFirst(v, values);
    DotFirst(w, values);
    DotFirst(mixed, values);
    if v != [] {
      MixedDot(v[1..], w[1..], t, values[1..]);
      MixedTail(v, w, t);
      MixedAxis(v[0], w[0], t, values[0], Dot(v[1..], values[1..]), Dot(w[1..], values[1..]));
    }
  }

  lemma DotFirst(v: seq<real>, values: seq<real>)
    requires |v| == |values|
    ensures Dot(v, values) == if v == [] then 0.0 else v[0] * values[0] + Dot(v[1..], values[1..])
  {
  }

  lemma MixedHead(v: seq<real>, w: seq<real>, t: real)
    requires |v| == |w|
    ensures |Mixed(v, w, t)| == |v| && (v != [] ==> Mixed(v, w, t)[0] == v[0] + t * (w[0] - v[0]))
  {
  }

  lemma MixedTail(v: seq<real>, w: seq<real>, t: real)
    requires |v| == |w| > 0
    ensures Mixed(v, w, t)[1..] == Mixed(v[1..], w[1..], t)
  {
    forall i | 0 <= i < |v| - 1 ensures Mixed(v, w, t)[1..][i] == Mixed(v[1..], w[1..], t)[i] {
    }
  }

  lemma MixedAxis(v: real, w: real, t: real, p: real, x: real, y: real)
    ensures (v + t * (w - v)) * p + (x + t * (y - x)) == (v * p + x) + t * ((w * p + y) - (v * p + x))
  {
    assert (v + t * (w - v)) * p == v * p + t * (w * p - v * p);
  }

  lemma MixedNonnegative(v: seq<real>, w: seq<real>, t: real)
    requires |v| == |w| && 0.0 <= t <= 1.0
    requires forall i :: 0 <= i < |v| ==> v[i] >= 0.0 && w[i] >= 0.0
    ensures forall i :: 0 <= i < |v| ==> Mixed(v, w, t)[i] >= 0.0
  {
    forall i | 0 <= i < |v| ensures Mixed(v, w, t)[i] >= 0.0 {
      Between(v[i], w[i], t);
      assert Mixed(v, w, t)[i] == v[i] + t * (w[i] - v[i]);
    }
  }

  lemma LerpIsCombination(points: seq<Vec2>, p: Vec2, q: Vec2, t: real)
    requires ConvexCombination(points, p) && ConvexCombination(points, q) && 0.0 <= t <= 1.0
    ensures ConvexCombination(points, Lerp(p, q, t))
  {
    hide Dot, Xs, Ys, Ones;
    var v :| Combines(v, points, p);
    var w :| Combines(w, points, q);
    var u, ones := Mixed(v, w, t), Ones(|points|);
    MixedDot(v, w, t, ones);
    MixedDot(v, w, t, Xs(points));
    MixedDot(v, w, t, Ys(points));
    MixedNonnegative(v, w, t);
    assert Dot(w, ones) - Dot(v, ones) == 0.0;
    assert |u| == |points| && Dot(u, ones) == 1.0 + t * 0.0 == 1.0;
    assert Dot(u, Xs(points)) == p.x + t * (q.x - p.x) == Lerp(p, q, t).x;
    assert Dot(u, Ys(points)) == p.y + t * (q.y - p.y) == Lerp(p, q, t).y;
    assert Combines(u, points, Lerp(p, q, t));
  }

  function Zeros(n: nat): seq<real> {
    seq(n, _ => 0.0)
  }

  lemma {:induction false} ZerosVanish(values: seq<real>)
    ensures Dot(Zeros(|values|), values) == 0.0
  {
    if values != [] {
      assert Zeros(|values|)[1..] == Zeros(|values| - 1);
      ZerosVanish(values[1..]);
    }
  }

  function Unit(n: nat, k: nat): seq<real>
    requires k < n
  {
    seq(n, i => if i == k then 1.0 else 0.0)
  }

  lemma {:induction false} UnitSelects(k: nat, values: seq<real>)
    requires k < |values|
    ensures Dot(Unit(|values|, k), values) == values[k]
  {
    if k == 0 {
      assert Unit(|values|, 0)[1..] == Zeros(|values| - 1);
      ZerosVanish(values[1..]);
    } else {
      assert Unit(|values|, k)[1..] == Unit(|values| - 1, k - 1);
      UnitSelects(k - 1, values[1..]);
    }
  }

  lemma VertexIsCombination(points: seq<Vec2>, k: nat)
    requires k < |points|
    ensures ConvexCombination(points, points[k])
  {
    UnitSelects(k, Ones(|points|));
    UnitSelects(k, Xs(points));
    UnitSelects(k, Ys(points));
    assert Combines(Unit(|points|, k), points, points[k]);
  }

  // ---------------------------------------------------------------------------------------------
  // Crossings that leave their step
  // ---------------------------------------------------------------------------------------------

  ghost predicate OnStep(v: Vec2, p: Vec2, q: Vec2) {
    exists t :: 0.0 <= t <= 1.0 && v == Lerp(p, q, t)
  }

  /** The guard that fails: both ends are outside the edge, one of them by less than the tolerance, and not parallel. */
  predicate StepEscapes(p: Vec2, q: Vec2, a: Vec2, b: Vec2, tol: Tolerance) {
    && Inside(p, a, b, tol) != Inside(q, a, b, tol)
    && Side(p, a, b) < 0.0 && Side(q, a, b) < 0.0 && Abs(Side(p, a, b) - Side(q, a, b)) > tol.parallel
  }

  predicate PassEscapes(previous: Vec2, points: seq<Vec2>, a: Vec2, b: Vec2, tol: Tolerance)
    decreases |points|
  {
    points != [] && (StepEscapes(previous, points[0], a, b, tol) || PassEscapes(points[0], points[1..], a, b, tol))
  }

  /** Some step of some pass, from edge number `i` on, escapes. */
  predicate ClippingEscapes(polygon: seq<Vec2>, clip: seq<Vec2>, i: nat, tol: Tolerance)
    requires tol.parallel >= 0.0 && i <= |clip|
    decreases |clip| - i
  {
    i < |clip| &&
    ((polygon != [] && PassEscapes(polygon[|polygon| - 1], polygon, clip[i], EdgeEnd(clip, i), tol))
     || ClippingEscapes(ClippedByEdge(polygon, clip[i], EdgeEnd(clip, i), tol), clip, i + 1, tol))
  }

  /** The crossing the step emits, if any, lies on the step. */
  ghost predicate StepStays(p: Vec2, q: Vec2, a: Vec2, b: Vec2, tol: Tolerance)
    requires tol.parallel >= 0.0
  {
    Inside(p, a, b, tol) != Inside(q, a, b, tol) ==> OnStep(LineIntersection(p, q, a, b, tol), p, q)
  }

  ghost predicate PassStays(previous: Vec2, points: seq<Vec2>, a: Vec2, b: Vec2, tol: Tolerance)
    requires tol.parallel >= 0.0
    decreases |points|
  {
    points != [] ==> StepStays(previous, points[0], a, b, tol) && PassStays(points[0], points[1..], a, b, tol)
  }

  /** Every crossing of every pass, from edge number `i` on, lies on its step. */
  ghost predicate ClippingStays(polygon: seq<Vec2>, clip: seq<Vec2>, i: nat, tol: Tolerance)
    requires tol.parallel >= 0.0 && i <= |clip|
    decreases |clip| - i
  {
    i < |clip| ==>
      && (polygon != [] ==> PassStays(polygon[|polygon| - 1], polygon, clip[i], EdgeEnd(clip, i), tol))
      && ClippingStays(ClippedByEdge(polygon, clip[i], EdgeEnd(clip, i), tol), clip, i + 1, tol)
  }

  /** A crossing leaves its step exactly if the guard fails: then it is extrapolated beyond the end nearer the edge. */
  lemma StepStaysIff(p: Vec2, q: Vec2, a: Vec2, b: Vec2, tol: Tolerance)
    requires tol.inside >= 0.0 && tol.parallel >= 0.0
    ensures StepStays(p, q, a, b, tol) <==> !StepEscapes(p, q, a, b, tol)
  {
    if Inside(p, a, b, tol) != Inside(q, a, b, tol) {
      if Abs(Side(p, a, b) - Side(q, a, b)) <= tol.parallel {
        DenominatorIsSideDifference(p, q, a, b);
        assert LineIntersection(p, q, a, b, tol) == Lerp(p, q, 1.0);
      } else {
        CrossingAt(p, q, a, b, tol);
        var s, r := Side(p, a, b), Side(q, a, b);
        if s >= 0.0 || r >= 0.0 {
          Fraction(s, r);
          assert LineIntersection(p, q, a, b, tol) == Lerp(p, q, s / (s - r));
        } else {
          StepStaysOutside(p, q, a, b, LineIntersection(p, q, a, b, tol));
        }
      }
    }
  }

  lemma StepStaysOutside(p: Vec2, q: Vec2, a: Vec2, b: Vec2, v: Vec2)
    requires Side(p, a, b) < 0.0 && Side(q, a, b) < 0.0
    ensures OnStep(v, p, q) ==> Side(v, a, b) < 0.0
  {
    if t :| 0.0 <= t <= 1.0 && v == Lerp(p, q, t) {
      SideOfLerp(p, q, t, a, b);
      hide Side;
      MixedPositive(-Side(p, a, b), -Side(q, a, b), t);
    }
  }

  /** A mixture of two positive numbers is positive. */
  lemma MixedPositive(x: real, y: real, t: real)
    requires x > 0.0 && y > 0.0 && 0.0 <= t <= 1.0
    ensures x + t * (y - x) > 0.0
  {
    var least := if x < y then x else y;
    Between(x - least, y - least, t);
    assert y - least - (x - least) == y - x;
  }

  lemma {:induction false} PassStaysIff(previous: Vec2, points: seq<Vec2>, a: Vec2, b: Vec2, tol: Tolerance)
    requires tol.inside >= 0.0 && tol.parallel >= 0.0
    ensures PassStays(previous, points, a, b, tol) <==> !PassEscapes(previous, points, a, b, tol)
    decreases |points|
  {
    hide StepStays, StepEscapes;
    if points != [] {
      StepStaysIff(previous, points[0], a, b, tol);
      PassStaysIff(points[0], points[1..], a, b, tol);
    }
  }

  /** With any tolerances, no crossing of the whole loop leaves its step exactly if no step of any pass escapes. */
  lemma {:induction false} ClippingStaysIff(polygon: seq<Vec2>, clip: seq<Vec2>, i: nat, tol: Tolerance)
    requires tol.inside >= 0.0 && tol.parallel >= 0.0 && i <= |clip|
    ensures ClippingStays(polygon, clip, i, tol) <==> !ClippingEscapes(polygon, clip, i, tol)
    decreases |clip| - i
  {
    hide PassStays, PassEscapes, ClippedByEdge;
    if i < |clip| {
      if polygon != [] {
        PassStaysIff(polygon[|polygon| - 1], polygon, clip[i], EdgeEnd(clip, i), tol);
      }
      ClippingStaysIff(ClippedByEdge(polygon, clip[i], EdgeEnd(clip, i), tol), clip, i + 1, tol);
    }
  }

  // ---------------------------------------------------------------------------------------------
  // Clipping is sound unless a step escapes
  // ---------------------------------------------------------------------------------------------

  function Slack(tol: Tolerance): real {
    tol.inside + tol.parallel
  }

  /** A mixture of the subject's vertices that is outside none of the first `n` clip edges by more than the slack. */
  ghost predicate Sound(v: Vec2, subject: seq<Vec2>, clip: seq<Vec2>, n: nat, slack: real)
    requires n <= |clip|
  {
    && ConvexCombination(subject, v)
    && forall k :: 0 <= k < n ==> Side(v, clip[k], EdgeEnd(clip, k)) >= -slack
  }

  /** Every half-plane and every hull is convex, so a point on a step between two sound points is sound. */
  lemma StepIsSound(v: Vec2, p: Vec2, q: Vec2, subject: seq<Vec2>, clip: seq<Vec2>, n: nat, slack: real)
    requires n <= |clip| && OnStep(v, p, q)
    requires Sound(p, subject, clip, n, slack) && Sound(q, subject, clip, n, slack)
    ensures Sound(v, subject, clip, n, slack)
  {
    hide Side, Lerp, ConvexCombination;
    var t :| 0.0 <= t <= 1.0 && v == Lerp(p, q, t);
    LerpIsCombination(subject, p, q, t);
    forall k | 0 <= k < n ensures Side(Lerp(p, q, t), clip[k], EdgeEnd(clip, k)) >= -slack {
      HalfPlaneIsConvex(p, q, t, clip[k], EdgeEnd(clip, k), slack);
    }
  }

  lemma HalfPlaneIsConvex(p: Vec2, q: Vec2, t: real, a: Vec2, b: Vec2, slack: real)
    requires Side(p, a, b) >= -slack && Side(q, a, b) >= -slack && 0.0 <= t <= 1.0
    ensures Side(Lerp(p, q, t), a, b) >= -slack
  {
    hide *;
    SideOfLerp(p, q, t, a, b);
    Between(Side(p, a, b) + slack, Side(q, a, b) + slack, t);
  }

  lemma Between(x: real, y: real, t: real)
    requires x >= 0.0 && y >= 0.0 && 0.0 <= t <= 1.0
    ensures x + t * (y - x) >= 0.0
  {
    NonnegativeProduct(1.0 - t, x);
    NonnegativeProduct(t, y);
    assert x + t * (y - x) == (1.0 - t) * x + t * y;
  }

  lemma NonnegativeProduct(x: real, y: real)
    requires x >= 0.0 && y >= 0.0
    ensures x * y >= 0.0
  {
  }

  lemma Fraction(s: real, r: real)
    requires (s < 0.0 <= r) || (r < 0.0 <= s)
    ensures s - r != 0.0 && 0.0 <= s / (s - r) <= 1.0
  {
    if s < 0.0 {
      Quotient(-s, r - s);
      assert s / (s - r) == (-s) / (r - s);
    } else {
      Quotient(s, s - r);
    }
  }

  lemma Quotient(x: real, y: real)
    requires 0.0 <= x <= y && 0.0 < y
    ensures 0.0 <= x / y <= 1.0
  {
    var t := x / y;
    assert t * y == x && (1.0 - t) * y == y - x;
    if t < 0.0 {
      NegativeProduct(t, y);
    } else if t > 1.0 {
      NegativeProduct(1.0 - t, y);
    }
  }

  lemma NegativeProduct(x: real, y: real)
    requires x < 0.0 < y
    ensures x * y < 0.0
  {
  }

  lemma {:induction false} PassIsSound(
      previous: Vec2, points: seq<Vec2>, subject: seq<Vec2>, clip: seq<Vec2>, n: nat, tol: Tolerance)
    requires n < |clip| && tol.inside >= 0.0 && tol.parallel >= 0.0
    requires Sound(previous, subject, clip, n, Slack(tol))
    requires forall v :: v in points ==> Sound(v, subject, clip, n, Slack(tol))
    requires !PassEscapes(previous, points, clip[n], EdgeEnd(clip, n), tol)
    ensures forall v :: v in Pass(previous, points, clip[n], EdgeEnd(clip, n), tol) ==>
            Sound(v, subject, clip, n + 1, Slack(tol))
    decreases |points|
  {
    hide Emitted, Sound, StepEscapes, Slack;
    if points != [] {
      EmittedIsSound(previous, points[0], subject, clip, n, tol);
      PassIsSound(points[0], points[1..], subject, clip, n, tol);
    }
  }

  lemma EmittedIsSound(p: Vec2, q: Vec2, subject: seq<Vec2>, clip: seq<Vec2>, n: nat, tol: Tolerance)
    requires n < |clip| && tol.inside >= 0.0 && tol.parallel >= 0.0
    requires Sound(p, subject, clip, n, Slack(tol)) && Sound(q, subject, clip, n, Slack(tol))
    requires !StepEscapes(p, q, clip[n], EdgeEnd(clip, n), tol)
    ensures forall v :: v in Emitted(p, q, clip[n], EdgeEnd(clip, n), tol) ==>
            Sound(v, subject, clip, n + 1, Slack(tol))
  {
    hide LineIntersection, Side, ConvexCombination, StepEscapes, OnStep, EdgeEnd;
    var a, b := clip[n], EdgeEnd(clip, n);
    EmittedWithinTolerance(p, q, a, b, tol);
    if Inside(q, a, b, tol) != Inside(p, a, b, tol) {
      StepStaysIff(p, q, a, b, tol);
      StepIsSound(LineIntersection(p, q, a, b, tol), p, q, subject, clip, n, Slack(tol));
    }
  }

  lemma {:induction false} ClippedFromIsSound(
      polygon: seq<Vec2>, subject: seq<Vec2>, clip: seq<Vec2>, i: nat, tol: Tolerance)
    requires i <= |clip| && tol.inside >= 0.0 && tol.parallel >= 0.0
    requires forall v :: v in polygon ==> Sound(v, subject, clip, i, Slack(tol))
    requires !ClippingEscapes(polygon, clip, i, tol)
    ensures forall v :: v in ClippedFrom(polygon, clip, i, tol) ==> Sound(v, subject, clip, |clip|, Slack(tol))
    decreases |clip| - i
  {
    hide Sound, PassEscapes, Slack;
    if i < |clip| {
      if polygon != [] {
        PassIsSound(polygon[|polygon| - 1], polygon, subject, clip, i, tol);
      }
      ClippedFromIsSound(ClippedByEdge(polygon, clip[i], EdgeEnd(clip, i), tol), subject, clip, i + 1, tol);
    }
  }

  /**
   * Unless a step escapes, every vertex of the result is a convex combination of vertices of the subject, and none is
   * outside any clip edge by more than the two tolerances together. Neither polygon need be convex.
   */
  lemma ClippingIsSound(subject: seq<Vec2>, clip: seq<Vec2>, tol: Tolerance)
    requires tol.inside >= 0.0 && tol.parallel >= 0.0
    requires !ClippingEscapes(subject, clip, 0, tol)
    ensures forall v :: v in ClippedFrom(subject, clip, 0, tol) ==>
      && ConvexCombination(subject, v)
      && forall k :: 0 <= k < |clip| ==> Side(v, clip[k], EdgeEnd(clip, k)) >= -(tol.inside + tol.parallel)
  {
    forall v | v in subject ensures Sound(v, subject, clip, 0, Slack(tol)) {
      var k :| 0 <= k < |subject| && subject[k] == v;
      VertexIsCombination(subject, k);
    }
    ClippedFromIsSound(subject, subject, clip, 0, tol);
    forall v | v in ClippedFrom(subject, clip, 0, tol)
      ensures ConvexCombination(subject, v)
      ensures forall k :: 0 <= k < |clip| ==> Side(v, clip[k], EdgeEnd(clip, k)) >= -(tol.inside + tol.parallel)
    {
      assert Sound(v, subject, clip, |clip|, Slack(tol));
    }
  }

  lemma {:induction false} ExactPassStays(previous: Vec2, points: seq<Vec2>, a: Vec2, b: Vec2)
    ensures !PassEscapes(previous, points, a, b, EXACT)
    decreases |points|
  {
    if points != [] {
      ExactPassStays(points[0], points[1..], a, b);
    }
  }

  /** Without tolerances no step escapes. */
  lemma {:induction false} ExactClippingStays(polygon: seq<Vec2>, clip: seq<Vec2>, i: nat)
    requires i <= |clip|
    ensures !ClippingEscapes(polygon, clip, i, EXACT)
    decreases |clip| - i
  {
    hide PassEscapes, ClippedByEdge;
    if i < |clip| {
      if polygon != [] {
        ExactPassStays(polygon[|polygon| - 1], polygon, clip[i], EdgeEnd(clip, i));
      }
      ExactClippingStays(ClippedByEdge(polygon, clip[i], EdgeEnd(clip, i), EXACT), clip, i + 1);
    }
  }

  /**
   * Exact clipping is sound: every vertex of the result lies in every half-plane of the clip polygon and is a
   * convex combination of vertices of the subject.
   */
  lemma ExactClippingIsSound(subject: seq<Vec2>, clip: seq<Vec2>)
    ensures forall v :: v in ClippedFrom(subject, clip, 0, EXACT) ==>
      && ConvexCombination(subject, v)
      && forall k :: 0 <= k < |clip| ==> Side(v, clip[k], EdgeEnd(clip, k)) >= 0.0
  {
    hide ClippingEscapes, ClippedFrom, ConvexCombination;
    ExactClippingStays(subject, clip, 0);
    ClippingIsSound(subject, clip, EXACT);
  }
}
