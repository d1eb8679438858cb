/**
 * What exact clipping computes: for a convex subject, of either orientation, the hull of the result is the part of the
 * subject's hull inside all clip edges.
 */
module ClipIntersection {
  import opened Clipping
  import opened ClipArea

  // ---------------------------------------------------------------------------------------------
  // Induction over a hull
  // ---------------------------------------------------------------------------------------------

  function Scaled(w: seq<real>, c: real): (r: seq<real>)
    ensures |r| == |w|
  {
    seq(|w|, i requires 0 <= i < |w| => c * w[i])
  }

  lemma {:induction false} ScaledDot(w: seq<real>, c: real, values: seq<real>)
    requires |w| == |values|
    ensures Dot(Scaled(w, c), values) == c * Dot(w, values)
  {
    hide Dot, Scaled;
    DotFirst(w, values);
    DotFirst(Scaled(w, c), values);
    if w != [] {
      ScaledFirst(w, c);
      ScaledDot(w[1..], c, values[1..]);
      Distributes(c, w[0], values[0], Dot(w[1..], values[1..]));
    }
  }

  lemma ScaledFirst(w: seq<real>, c: real)
    requires w != []
    ensures Scaled(w, c)[0] == c * w[0] && Scaled(w, c)[1..] == Scaled(w[1..], c)
  {
    forall i | 0 <= i < |w| - 1 ensures Scaled(w, c)[1..][i] == Scaled(w[1..], c)[i] {
    }
  }

  lemma Distributes(c: real, w: real, v: real, rest: real)
    ensures c * w * v + c * rest == c * (w * v + rest)
  {
    assert c * w * v == c * (w * v);
  }

  ghost predicate Nonnegative(w: seq<real>) {
    forall i :: 0 <= i < |w| ==> w[i] >= 0.0
  }

  /** Weights that are not negative have a total that is not, and count for nothing if it is zero. */
  lemma {:induction false} TotalOf(w: seq<real>, values: seq<real>)
    requires Nonnegative(w) && |w| == |values|
    ensures Dot(w, Ones(|w|)) >= 0.0
    ensures Dot(w, Ones(|w|)) == 0.0 ==> Dot(w, values) == 0.0
  {
    hide Dot, Ones;
    DotFirst(w, Ones(|w|));
    DotFirst(w, values);
    if w != [] {
      TotalOf(w[1..], values[1..]);
      OnesFirst(|w|);
      assert w[0] == 0.0 ==> w[0] * values[0] == 0.0;
    }
  }

  lemma OnesFirst(n: nat)
    requires n > 0
    ensures Ones(n)[0] == 1.0 && Ones(n)[1..] == Ones(n - 1)
  {
  }

  lemma CoordinatesFirst(points: seq<Vec2>)
    requires points != []
    ensures Xs(points)[0] == points[0].x && Xs(points)[1..] == Xs(points[1..])
    ensures Ys(points)[0] == points[0].y && Ys(points)[1..] == Ys(points[1..])
  {
  }

  /** A mixture is its first point, or lies between that and a mixture of the others. */
  lemma FirstAndRest(w: seq<real>, points: seq<Vec2>, x: Vec2) returns (y: Vec2, t: real)
    requires Combines(w, points, x)
    ensures points != [] && 0.0 <= t <= 1.0 && x == Lerp(points[0], y, t)
    ensures t == 0.0 || ConvexCombination(points[1..], y)
  {
    var n := |w|;
    hide Dot, Xs, Ys, Ones;
    DotFirst(w, Ones(n));
    assert points != [];
    DotFirst(w, Xs(points));
    DotFirst(w, Ys(points));
    CoordinatesFirst(points);
    OnesFirst(n);
    var rest, others := w[1..], points[1..];
    t := Dot(rest, Ones(n - 1));
    TotalOf(rest, Xs(others));
    TotalOf(rest, Ys(others));
    var dx, dy := Dot(rest, Xs(others)), Dot(rest, Ys(others));
    assert w[0] + t == 1.0 && x.x == w[0] * points[0].x + dx && x.y == w[0] * points[0].y + dy;
    if t == 0.0 {
      y := points[0];
    } else {
      y := Vec2(dx / t, dy / t);
      ScaledDot(rest, 1.0 / t, Ones(n - 1));
      ScaledDot(rest, 1.0 / t, Xs(others));
      ScaledDot(rest, 1.0 / t, Ys(others));
      ScaledNonnegative(rest, 1.0 / t);
      hide Scaled;
      assert 1.0 / t * t == 1.0 && 1.0 / t * dx == dx / t && 1.0 / t * dy == dy / t;
      assert Combines(Scaled(rest, 1.0 / t), others, y);
      assert t * y.x == dx && t * y.y == dy;
      FirstShare(w[0], t, points[0].x, y.x);
      FirstShare(w[0], t, points[0].y, y.y);
    }
  }

  lemma FirstShare(w: real, t: real, p: real, y: real)
    requires w + t == 1.0
    ensures w * p + t * y == p + t * (y - p)
  {
    assert w == 1.0 - t;
  }

  lemma ScaledNonnegative(w: seq<real>, c: real)
    requires Nonnegative(w) && c >= 0.0
    ensures Nonnegative(Scaled(w, c))
  {
    forall i | 0 <= i < |w| ensures Scaled(w, c)[i] >= 0.0 {
      NonnegativeProduct(c, w[i]);
    }
  }

  ghost predicate ClosedUnderSteps(holds: Vec2 -> bool) {
    forall p, q, t :: holds(p) && holds(q) && 0.0 <= t <= 1.0 ==> holds(Lerp(p, q, t))
  }

  /** What holds of some points, and with two points of all between them, holds throughout their hull. */
  lemma {:induction false} HullIsLeast(points: seq<Vec2>, holds: Vec2 -> bool, x: Vec2)
    requires ConvexCombination(points, x) && ClosedUnderSteps(holds) && forall v :: v in points ==> holds(v)
    ensures holds(x)
    decreases |points|
  {
    hide Combines, Lerp;
    var w :| Combines(w, points, x);
    var y, t := FirstAndRest(w, points, x);
    if t == 0.0 {
      FirstEnd(points[0], y);
    } else {
      HullIsLeast(points[1..], holds, y);
    }
  }

  lemma FirstEnd(p: Vec2, q: Vec2)
    ensures Lerp(p, q, 0.0) == p
  {
  }

  // ---------------------------------------------------------------------------------------------
  // Convex polygons
  // ---------------------------------------------------------------------------------------------

  /** The sign of a turn, as seen from a polygon walked counter-clockwise or clockwise. */
  function Turned(ccw: bool, r: real): real {
    if ccw then r else -r
  }

  /** No point lies on the outer side of the step. */
  ghost predicate Supports(points: seq<Vec2>, p: Vec2, q: Vec2, ccw: bool) {
    forall v :: v in points ==> Turned(ccw, Side(v, p, q)) >= 0.0
  }

  ghost predicate WalkSupports(points: seq<Vec2>, previous: Vec2, walk: seq<Vec2>, ccw: bool)
    decreases |walk|
  {
    walk != [] ==> Supports(points, previous, walk[0], ccw) && WalkSupports(points, walk[0], walk[1..], ccw)
  }

  /** A polygon to one side of each of its edges. Edges may have length zero, and neighbours may share a line. */
  ghost predicate Convex(polygon: seq<Vec2>, ccw: bool) {
    polygon != [] ==> WalkSupports(polygon, polygon[|polygon| - 1], polygon, ccw)
  }

  predicate In(v: Vec2, a: Vec2, b: Vec2) {
    Side(v, a, b) >= 0.0
  }

  lemma HalfPlanesAreClosed(a: Vec2, b: Vec2)
    ensures ClosedUnderSteps((v: Vec2) => Side(v, a, b) >= 0.0)
    ensures ClosedUnderSteps((v: Vec2) => Side(v, a, b) <= 0.0)
    ensures ClosedUnderSteps((v: Vec2) => Side(v, a, b) < 0.0)
  {
    hide Side, Lerp;
    forall p, q, t | 0.0 <= t <= 1.0
      ensures Side(p, a, b) >= 0.0 && Side(q, a, b) >= 0.0 ==> Side(Lerp(p, q, t), a, b) >= 0.0
      ensures Side(p, a, b) <= 0.0 && Side(q, a, b) <= 0.0 ==> Side(Lerp(p, q, t), a, b) <= 0.0
      ensures Side(p, a, b) < 0.0 && Side(q, a, b) < 0.0 ==> Side(Lerp(p, q, t), a, b) < 0.0
    {
      SideOfLerp(p, q, t, a, b);
      SignsOfMixture(Side(p, a, b), Side(q, a, b), t);
    }
  }

  lemma SignsOfMixture(x: real, y: real, t: real)
    requires 0.0 <= t <= 1.0
    ensures x >= 0.0 && y >= 0.0 ==> x + t * (y - x) >= 0.0
    ensures x <= 0.0 && y <= 0.0 ==> x + t * (y - x) <= 0.0
    ensures x < 0.0 && y < 0.0 ==> x + t * (y - x) < 0.0
  {
    assert x + t * (y - x) == -(-x + t * (-y + x)) by { assert t * (-y + x) == -(t * (y - x)); }
    if x >= 0.0 && y >= 0.0 {
      Between(x, y, t);
    }
    if x <= 0.0 && y <= 0.0 {
      Between(-x, -y, t);
    }
    if x < 0.0 && y < 0.0 {
      MixedPositive(-x, -y, t);
    }
  }

  /** The hull lies to one side of a step if the points do. */
  lemma HullIsSupported(points: seq<Vec2>, p: Vec2, q: Vec2, x: Vec2, ccw: bool)
    requires Supports(points, p, q, ccw) && ConvexCombination(points, x)
    ensures Turned(ccw, Side(x, p, q)) >= 0.0
  {
    hide Side, ConvexCombination, ClosedUnderSteps;
    HalfPlanesAreClosed(p, q);
    if ccw {
      HullIsLeast(points, (v: Vec2) => Side(v, p, q) >= 0.0, x);
    } else {
      HullIsLeast(points, (v: Vec2) => Side(v, p, q) <= 0.0, x);
    }
  }

  /** A hull that reaches inside an edge has a vertex there, and one that reaches outside has one there. */
  lemma HullHasVertex(points: seq<Vec2>, a: Vec2, b: Vec2, x: Vec2)
    requires ConvexCombination(points, x)
    ensures exists v :: v in points && (In(v, a, b) <==> In(x, a, b))
  {
    hide Side, ConvexCombination, ClosedUnderSteps;
    HalfPlanesAreClosed(a, b);
    if forall v :: v in points ==> !(In(v, a, b) <==> In(x, a, b)) {
      if In(x, a, b) {
        HullIsLeast(points, (v: Vec2) => Side(v, a, b) < 0.0, x);
      } else {
        HullIsLeast(points, (v: Vec2) => Side(v, a, b) >= 0.0, x);
      }
    }
  }

  // ---------------------------------------------------------------------------------------------
  // Points on the line of the edge
  // ---------------------------------------------------------------------------------------------

  function Direction(a: Vec2, b: Vec2): Vec2 {
    Vec2(b.x - a.x, b.y - a.y)
  }

  function Along(c: Vec2, t: real, d: Vec2): Vec2 {
    Vec2(c.x + t * d.x, c.y + t * d.y)
  }

  /** Further along the direction of the edge, or further back for a clockwise polygon. */
  ghost predicate Ahead(c: Vec2, e: Vec2, a: Vec2, b: Vec2, ccw: bool) {
    exists t :: Turned(ccw, t) >= 0.0 && e == Along(c, t, Direction(a, b))
  }

  lemma OnEdgeLine(c: Vec2, e: Vec2, a: Vec2, b: Vec2) returns (t: real)
    requires a != b && Side(c, a, b) == 0.0 && Side(e, a, b) == 0.0
    ensures e == Along(c, t, Direction(a, b))
  {
    var d := Direction(a, b);
    SidesAlong(c, e, a, b);
    assert d.x != 0.0 || d.y != 0.0;
    hide Side, Direction;
    if d.x != 0.0 {
      t := (e.x - c.x) / d.x;
      SlopeIs(t, d.x, d.y, e.x - c.x, e.y - c.y);
    } else {
      t := (e.y - c.y) / d.y;
      SlopeIs(t, d.y, d.x, e.y - c.y, e.x - c.x);
    }
  }

  lemma SidesAlong(c: Vec2, e: Vec2, a: Vec2, b: Vec2)
    requires Side(c, a, b) == 0.0 && Side(e, a, b) == 0.0
    ensures Direction(a, b).x * (e.y - c.y) == Direction(a, b).y * (e.x - c.x)
  {
    var d := Direction(a, b);
    assert d.x * (e.y - a.y) - d.y * (e.x - a.x) == 0.0 && d.x * (c.y - a.y) - d.y * (c.x - a.x) == 0.0;
    hide Side, Direction;
    SameSlope(d.x, d.y, e.x - a.x, e.y - a.y, c.x - a.x, c.y - a.y);
    assert e.x - c.x == (e.x - a.x) - (c.x - a.x) && e.y - c.y == (e.y - a.y) - (c.y - a.y);
  }

  lemma SameSlope(dx: real, dy: real, ex: real, ey: real, cx: real, cy: real)
    requires dx * ey - dy * ex == 0.0 && dx * cy - dy * cx == 0.0
    ensures dx * (ey - cy) == dy * (ex - cx)
  {
    TimesSum(dx, ey, -cy);
    TimesSum(dy, ex, -cx);
  }

  lemma SlopeIs(t: real, dx: real, dy: real, ex: real, ey: real)
    requires dx != 0.0 && dx * ey == dy * ex && t == ex / dx
    ensures t * dx == ex && t * dy == ey
  {
    assert t * dx == ex;
    assert dx * (t * dy) == (t * dx) * dy == dx * ey;
    assert dx * (t * dy - ey) == 0.0;
  }

  lemma SideOfAlong(c: Vec2, t: real, a: Vec2, b: Vec2, p: Vec2, q: Vec2)
    ensures Side(Along(c, t, Direction(a, b)), p, q) == Side(c, p, q) + t * (Side(p, a, b) - Side(q, a, b))
  {
    DenominatorIsSideDifference(p, q, a, b);
    var u, d := Direction(p, q), Direction(a, b);
    assert Cross2(u.x, u.y, d.x, d.y) == Side(p, a, b) - Side(q, a, b);
    hide Direction, Side, Cross2;
    SideMoved(c, t * d.x, t * d.y, p, q);
    CrossScaled(u.x, u.y, t, d.x, d.y);
  }

  lemma SideMoved(c: Vec2, x: real, y: real, p: Vec2, q: Vec2)
    ensures Side(Vec2(c.x + x, c.y + y), p, q)
            == Side(c, p, q) + Cross2(Direction(p, q).x, Direction(p, q).y, x, y)
  {
    var ux, uy := q.x - p.x, q.y - p.y;
    TimesSum(ux, c.y - p.y, y);
    TimesSum(uy, c.x - p.x, x);
    assert c.x + x - p.x == c.x - p.x + x && c.y + y - p.y == c.y - p.y + y;
  }

  lemma CrossScaled(ux: real, uy: real, t: real, dx: real, dy: real)
    ensures Cross2(ux, uy, t * dx, t * dy) == t * Cross2(ux, uy, dx, dy)
  {
    assert ux * (t * dy) == t * (ux * dy) && uy * (t * dx) == t * (uy * dx);
    TimesSum(t, ux * dy, -(uy * dx));
  }

  lemma TimesSum(t: real, x: real, y: real)
    ensures t * (x + y) == t * x + t * y
  {
  }

  /** A point on the step's own line. */
  lemma StepLine(p: Vec2, q: Vec2, t: real)
    ensures Side(Lerp(p, q, t), p, q) == 0.0
  {
    SideOfLerp(p, q, t, p, q);
    assert Side(p, p, q) == 0.0 && Side(q, p, q) == 0.0;
    hide Side;
    assert t * 0.0 == 0.0;
  }

  predicate Crosses(p: Vec2, q: Vec2, a: Vec2, b: Vec2) {
    In(p, a, b) != In(q, a, b)
  }

  function Crossing(p: Vec2, q: Vec2, a: Vec2, b: Vec2): Vec2 {
    LineIntersection(p, q, a, b, EXACT)
  }

  /** The crossing of a step: on the step, on the edge's line, and with a direction of the edge to measure by. */
  lemma CrossingIs(p: Vec2, q: Vec2, a: Vec2, b: Vec2) returns (t: real)
    requires Crosses(p, q, a, b)
    ensures 0.0 <= t <= 1.0 && Crossing(p, q, a, b) == Lerp(p, q, t)
    ensures t * (Side(p, a, b) - Side(q, a, b)) == Side(p, a, b)
    ensures Side(Crossing(p, q, a, b), a, b) == 0.0 && Side(Crossing(p, q, a, b), p, q) == 0.0
    ensures a != b
  {
    var s, r := Side(p, a, b), Side(q, a, b);
    assert a == b ==> s == 0.0 && r == 0.0;
    CrossingAt(p, q, a, b, EXACT);
    Fraction(s, r);
    t := s / (s - r);
    StepLine(p, q, t);
  }

  /**
   * Whatever lies on the edge's line and inside the step lies ahead of where the step goes out, or short of where it
   * comes in.
   */
  lemma AheadOfCrossing(p: Vec2, q: Vec2, e: Vec2, a: Vec2, b: Vec2, ccw: bool)
    requires Crosses(p, q, a, b) && Side(e, a, b) == 0.0 && Turned(ccw, Side(e, p, q)) >= 0.0
    ensures In(p, a, b) ==> Ahead(Crossing(p, q, a, b), e, a, b, ccw)
    ensures In(q, a, b) ==> Ahead(e, Crossing(p, q, a, b), a, b, ccw)
  {
    var _ := CrossingIs(p, q, a, b);
    hide Side, Crossing, Along, Direction;
    var c, d := Crossing(p, q, a, b), Side(p, a, b) - Side(q, a, b);
    var t := OnEdgeLine(c, e, a, b);
    SideOfAlong(c, t, a, b, p, q);
    hide Ahead;
    AheadBySign(c, t, d, a, b, ccw);
  }

  lemma AheadBySign(c: Vec2, t: real, d: real, a: Vec2, b: Vec2, ccw: bool)
    requires Turned(ccw, t * d) >= 0.0
    ensures d > 0.0 ==> Ahead(c, Along(c, t, Direction(a, b)), a, b, ccw)
    ensures d < 0.0 ==> Ahead(Along(c, t, Direction(a, b)), c, a, b, ccw)
  {
    BackAlong(c, t, Direction(a, b));
    hide Along, Direction;
    if d > 0.0 {
      SignOfFactor(t, d);
    } else if d < 0.0 {
      assert (-t) * (-d) == t * d;
      SignOfFactor(-t, -d);
      assert Turned(ccw, -t) >= 0.0;
    }
  }

  lemma SignOfFactor(t: real, d: real)
    requires d > 0.0
    ensures t * d >= 0.0 <==> t >= 0.0
    ensures t * d <= 0.0 <==> t <= 0.0
  {
  }

  lemma BackAlong(c: Vec2, t: real, d: Vec2)
    ensures Along(Along(c, t, d), -t, d) == c
  {
  }

  lemma AheadIsBetween(c: Vec2, e: Vec2, d: Vec2, a: Vec2, b: Vec2, ccw: bool)
    requires Ahead(c, e, a, b, ccw) && Ahead(e, d, a, b, ccw)
    ensures OnStep(e, c, d)
  {
    hide OnStep, Along, Direction;
    var t :| Turned(ccw, t) >= 0.0 && e == Along(c, t, Direction(a, b));
    var u :| Turned(ccw, u) >= 0.0 && d == Along(e, u, Direction(a, b));
    var f := ShareOf(t, u);
    AlongTwice(c, f, t, u, Direction(a, b));
    StepPoint(e, c, d, f);
  }

  lemma AlongTwice(c: Vec2, f: real, t: real, u: real, d: Vec2)
    requires f * (t + u) == t
    ensures Along(c, t, d) == Lerp(c, Along(Along(c, t, d), u, d), f)
  {
    ShareAlong(c.x, f, t, u, d.x);
    ShareAlong(c.y, f, t, u, d.y);
  }

  lemma ShareOf(t: real, u: real) returns (f: real)
    requires (t >= 0.0 && u >= 0.0) || (t <= 0.0 && u <= 0.0)
    ensures 0.0 <= f <= 1.0 && f * (t + u) == t
  {
    if t + u == 0.0 {
      f := 0.0;
    } else if t + u > 0.0 {
      f := t / (t + u);
      Quotient(t, t + u);
    } else {
      f := (-t) / (-(t + u));
      Quotient(-t, -(t + u));
      assert f * (t + u) == -(f * -(t + u));
    }
  }

  lemma StepPoint(e: Vec2, c: Vec2, d: Vec2, f: real)
    requires 0.0 <= f <= 1.0 && e == Lerp(c, d, f)
    ensures OnStep(e, c, d)
  {
    hide Lerp;
  }

  lemma ShareAlong(x: real, f: real, t: real, u: real, d: real)
    requires f * (t + u) == t
    ensures x + f * ((x + t * d) + u * d - x) == x + t * d
  {
    assert t * d + u * d == (t + u) * d;
    assert f * ((t + u) * d) == (f * (t + u)) * d;
  }

  // ---------------------------------------------------------------------------------------------
  // What one pass keeps of the hull
  // ---------------------------------------------------------------------------------------------

  function Clipped(polygon: seq<Vec2>, a: Vec2, b: Vec2): seq<Vec2> {
    ClippedByEdge(polygon, a, b, EXACT)
  }

  function Walked(previous: Vec2, walk: seq<Vec2>, a: Vec2, b: Vec2): seq<Vec2> {
    Pass(previous, walk, a, b, EXACT)
  }

  function StepEmits(p: Vec2, q: Vec2, a: Vec2, b: Vec2): seq<Vec2> {
    Emitted(p, q, a, b, EXACT)
  }

  lemma StepEmitsIs(p: Vec2, q: Vec2, a: Vec2, b: Vec2)
    ensures StepEmits(p, q, a, b)
            == (if Crosses(p, q, a, b) then [Crossing(p, q, a, b)] else []) + (if In(q, a, b) then [q] else [])
  {
    hide Side, LineIntersection;
  }

  lemma WalkedFirst(previous: Vec2, walk: seq<Vec2>, a: Vec2, b: Vec2)
    requires walk != []
    ensures Walked(previous, walk, a, b) == StepEmits(previous, walk[0], a, b) + Walked(walk[0], walk[1..], a, b)
  {
    hide Emitted;
  }

  lemma {:induction false} InsideIsEmitted(previous: Vec2, walk: seq<Vec2>, a: Vec2, b: Vec2)
    ensures forall v :: v in walk && In(v, a, b) ==> v in Walked(previous, walk, a, b)
    decreases |walk|
  {
    hide Walked, StepEmits, In;
    if walk != [] {
      WalkedFirst(previous, walk, a, b);
      StepEmitsIs(previous, walk[0], a, b);
      InsideIsEmitted(walk[0], walk[1..], a, b);
    }
  }

  /** The rest of a walk emits no more than the walk does, and what supports it supports the rest. */
  lemma {:induction false} RestIsEmitted(
      points: seq<Vec2>, previous: Vec2, walk: seq<Vec2>, j: nat, a: Vec2, b: Vec2, ccw: bool)
    requires j < |walk| && WalkSupports(points, previous, walk, ccw)
    ensures forall v :: v in Walked(walk[j], walk[j + 1..], a, b) ==> v in Walked(previous, walk, a, b)
    ensures WalkSupports(points, walk[j], walk[j + 1..], ccw)
    decreases |walk|
  {
    hide Walked, StepEmits, Supports;
    WalkedFirst(previous, walk, a, b);
    if j > 0 {
      RestIsEmitted(points, walk[0], walk[1..], j - 1, a, b, ccw);
      assert walk[1..][j..] == walk[j + 1..];
    }
  }

  /** A walk that comes to the other side of the edge emits where it first crosses. */
  lemma {:induction false} CrossesFirst(
      points: seq<Vec2>, previous: Vec2, walk: seq<Vec2>, k: nat, a: Vec2, b: Vec2, ccw: bool)
    returns (p: Vec2, q: Vec2)
    requires k < |walk| && In(walk[k], a, b) != In(previous, a, b) && WalkSupports(points, previous, walk, ccw)
    ensures In(p, a, b) == In(previous, a, b) && Crosses(p, q, a, b) && Supports(points, p, q, ccw)
    ensures Crossing(p, q, a, b) in Walked(previous, walk, a, b)
    decreases |walk|
  {
    hide Walked, StepEmits, Supports, In, Crossing;
    WalkedFirst(previous, walk, a, b);
    StepEmitsIs(previous, walk[0], a, b);
    if In(walk[0], a, b) != In(previous, a, b) {
      p, q := previous, walk[0];
    } else {
      p, q := CrossesFirst(points, walk[0], walk[1..], k - 1, a, b, ccw);
    }
  }

  /** Where a convex polygon goes out of the edge and where it comes in again, whichever it does first. */
  lemma TwoCrossings(polygon: seq<Vec2>, j: nat, a: Vec2, b: Vec2, ccw: bool)
    returns (p: Vec2, q: Vec2, r: Vec2, s: Vec2)
    requires Convex(polygon, ccw) && j < |polygon| && In(polygon[j], a, b) != In(polygon[|polygon| - 1], a, b)
    ensures In(p, a, b) && Crosses(p, q, a, b) && Supports(polygon, p, q, ccw)
    ensures In(s, a, b) && Crosses(r, s, a, b) && Supports(polygon, r, s, ccw)
    ensures Crossing(p, q, a, b) in Clipped(polygon, a, b) && Crossing(r, s, a, b) in Clipped(polygon, a, b)
  {
    hide Walked, In, Crossing, Supports, WalkSupports;
    var last, rest := polygon[|polygon| - 1], polygon[j + 1..];
    ClippedIsWalked(polygon, a, b);
    RestIsEmitted(polygon, last, polygon, j, a, b, ccw);
    assert rest[|rest| - 1] == last;
    var v, w := CrossesFirst(polygon, last, polygon, j, a, b, ccw);
    var x, y := CrossesFirst(polygon, polygon[j], rest, |rest| - 1, a, b, ccw);
    if In(v, a, b) {
      p, q, r, s := v, w, x, y;
    } else {
      p, q, r, s := x, y, v, w;
    }
  }

  lemma ClippedIsWalked(polygon: seq<Vec2>, a: Vec2, b: Vec2)
    ensures polygon != [] ==> Clipped(polygon, a, b) == Walked(polygon[|polygon| - 1], polygon, a, b)
    ensures polygon == [] ==> Clipped(polygon, a, b) == []
  {
  }

  /** The part of the edge's line in the hull lies between the two crossings. */
  lemma EdgeLineIsKept(polygon: seq<Vec2>, e: Vec2, j: nat, a: Vec2, b: Vec2, ccw: bool)
    requires Convex(polygon, ccw) && j < |polygon| && In(polygon[j], a, b) != In(polygon[|polygon| - 1], a, b)
    requires ConvexCombination(polygon, e) && Side(e, a, b) == 0.0
    ensures ConvexCombination(Clipped(polygon, a, b), e)
  {
    var p, q, r, s := TwoCrossings(polygon, j, a, b, ccw);
    hide Convex, ConvexCombination, Side, Clipped, Crossing, Supports, In, Ahead;
    HullIsSupported(polygon, p, q, e, ccw);
    HullIsSupported(polygon, r, s, e, ccw);
    AheadOfCrossing(p, q, e, a, b, ccw);
    AheadOfCrossing(r, s, e, a, b, ccw);
    AheadIsBetween(Crossing(p, q, a, b), e, Crossing(r, s, a, b), a, b, ccw);
    StepIsInHull(Clipped(polygon, a, b), Crossing(p, q, a, b), Crossing(r, s, a, b), e);
  }

  lemma MemberIsCombination(points: seq<Vec2>, v: Vec2)
    requires v in points
    ensures ConvexCombination(points, v)
  {
    hide ConvexCombination;
    var k :| 0 <= k < |points| && points[k] == v;
    VertexIsCombination(points, k);
  }

  lemma StepIsInHull(points: seq<Vec2>, c: Vec2, d: Vec2, e: Vec2)
    requires c in points && d in points && OnStep(e, c, d)
    ensures ConvexCombination(points, e)
  {
    hide ConvexCombination, Lerp;
    MemberIsCombination(points, c);
    MemberIsCombination(points, d);
    var t :| 0.0 <= t <= 1.0 && e == Lerp(c, d, t);
    LerpIsCombination(points, c, d, t);
  }

  /** In the hull, and kept if inside the edge. */
  ghost predicate Kept(polygon: seq<Vec2>, a: Vec2, b: Vec2, v: Vec2) {
    ConvexCombination(polygon, v) && (In(v, a, b) ==> ConvexCombination(Clipped(polygon, a, b), v))
  }

  lemma KeptBetween(polygon: seq<Vec2>, a: Vec2, b: Vec2, y: Vec2, z: Vec2, t: real, ccw: bool)
    requires Convex(polygon, ccw) && Kept(polygon, a, b, y) && Kept(polygon, a, b, z) && 0.0 <= t <= 1.0
    ensures Kept(polygon, a, b, Lerp(y, z, t))
  {
    hide Convex, ConvexCombination, Clipped, In, Lerp;
    var x := Lerp(y, z, t);
    LerpIsCombination(polygon, y, z, t);
    if In(x, a, b) {
      if In(y, a, b) && In(z, a, b) {
        LerpIsCombination(Clipped(polygon, a, b), y, z, t);
      } else if In(y, a, b) {
        KeptFrom(polygon, a, b, y, z, t, ccw);
      } else if In(z, a, b) {
        LerpBack(y, z, t);
        KeptFrom(polygon, a, b, z, y, 1.0 - t, ccw);
      } else {
        OutsideIsConvex(y, z, t, a, b);
      }
    }
  }

  lemma OutsideIsConvex(y: Vec2, z: Vec2, t: real, a: Vec2, b: Vec2)
    requires !In(y, a, b) && !In(z, a, b) && 0.0 <= t <= 1.0
    ensures !In(Lerp(y, z, t), a, b)
  {
    hide Side, Lerp;
    SideOfLerp(y, z, t, a, b);
    SignsOfMixture(Side(y, a, b), Side(z, a, b), t);
  }

  lemma LerpBack(y: Vec2, z: Vec2, t: real)
    ensures Lerp(y, z, t) == Lerp(z, y, 1.0 - t)
  {
    BackShare(y.x, z.x, t);
    BackShare(y.y, z.y, t);
  }

  lemma BackShare(y: real, z: real, t: real)
    ensures y + t * (z - y) == z + (1.0 - t) * (y - z)
  {
    assert (1.0 - t) * (y - z) == (y - z) - t * (y - z);
    assert t * (y - z) == -(t * (z - y));
  }

  /** From a point inside towards one outside: what is inside lies short of the edge's line. */
  lemma KeptFrom(polygon: seq<Vec2>, a: Vec2, b: Vec2, y: Vec2, z: Vec2, t: real, ccw: bool)
    requires Convex(polygon, ccw) && Kept(polygon, a, b, y) && ConvexCombination(polygon, z) && 0.0 <= t <= 1.0
    requires In(y, a, b) && !In(z, a, b) && In(Lerp(y, z, t), a, b)
    ensures ConvexCombination(Clipped(polygon, a, b), Lerp(y, z, t))
  {
    hide Convex, ConvexCombination, Clipped, Lerp;
    var f := CrossingIs(y, z, a, b);
    var e := Lerp(y, z, f);
    LerpIsCombination(polygon, y, z, f);
    HullHasVertex(polygon, a, b, y);
    HullHasVertex(polygon, a, b, z);
    var v :| v in polygon && In(v, a, b);
    var w :| w in polygon && !In(w, a, b);
    var other := if In(polygon[|polygon| - 1], a, b) then w else v;
    var j :| 0 <= j < |polygon| && polygon[j] == other;
    EdgeLineIsKept(polygon, e, j, a, b, ccw);
    SideOfLerp(y, z, t, a, b);
    hide Side;
    var g := ShortOf(Side(y, a, b), Side(z, a, b), f, t);
    LerpTwice(y, z, f, g);
    LerpIsCombination(Clipped(polygon, a, b), y, e, g);
  }

  lemma ShortOf(s: real, r: real, f: real, t: real) returns (g: real)
    requires r < 0.0 <= s && f * (s - r) == s && s + t * (r - s) >= 0.0 && 0.0 <= t && f >= 0.0
    ensures 0.0 <= g <= 1.0 && g * f == t
  {
    var d := s - r;
    assert t * (r - s) == -(t * d);
    assert (f - t) * d >= 0.0 by { assert (f - t) * d == f * d - t * d; }
    SignOfFactor(f - t, d);
    if f == 0.0 {
      g := 0.0;
    } else {
      g := t / f;
      Quotient(t, f);
    }
  }

  lemma LerpTwice(y: Vec2, z: Vec2, f: real, g: real)
    ensures Lerp(y, Lerp(y, z, f), g) == Lerp(y, z, g * f)
  {
    ShareTwice(y.x, z.x - y.x, f, g);
    ShareTwice(y.y, z.y - y.y, f, g);
  }

  lemma ShareTwice(y: real, d: real, f: real, g: real)
    ensures y + g * (y + f * d - y) == y + g * f * d
  {
    assert g * (f * d) == g * f * d;
  }

  /** One pass keeps exactly the part of the hull that is inside the edge. */
  lemma OnePassIsIntersection(polygon: seq<Vec2>, a: Vec2, b: Vec2, x: Vec2, ccw: bool)
    requires Convex(polygon, ccw)
    ensures ConvexCombination(Clipped(polygon, a, b), x) <==> ConvexCombination(polygon, x) && In(x, a, b)
  {
    hide Convex, ConvexCombination, In, Lerp, Clipped, Kept;
    if ConvexCombination(polygon, x) {
      forall v | v in polygon ensures Kept(polygon, a, b, v) {
        VertexIsKept(polygon, a, b, v);
      }
      var kept := (v: Vec2) => Kept(polygon, a, b, v);
      forall p, q, t | kept(p) && kept(q) && 0.0 <= t <= 1.0 ensures kept(Lerp(p, q, t)) {
        KeptBetween(polygon, a, b, p, q, t, ccw);
      }
      HullIsLeast(polygon, kept, x);
      assert Kept(polygon, a, b, x);
      KeptMeans(polygon, a, b, x);
    }
    if ConvexCombination(Clipped(polygon, a, b), x) {
      ClippedIsPart(polygon, a, b);
      var part := (v: Vec2) => ConvexCombination(polygon, v) && In(v, a, b);
      forall p, q, t | part(p) && part(q) && 0.0 <= t <= 1.0 ensures part(Lerp(p, q, t)) {
        LerpIsCombination(polygon, p, q, t);
        InsideIsConvex(p, q, t, a, b);
      }
      HullIsLeast(Clipped(polygon, a, b), part, x);
    }
  }

  lemma KeptMeans(polygon: seq<Vec2>, a: Vec2, b: Vec2, v: Vec2)
    requires Kept(polygon, a, b, v)
    ensures In(v, a, b) ==> ConvexCombination(Clipped(polygon, a, b), v)
  {
  }

  lemma InsideIsConvex(p: Vec2, q: Vec2, t: real, a: Vec2, b: Vec2)
    requires In(p, a, b) && In(q, a, b) && 0.0 <= t <= 1.0
    ensures In(Lerp(p, q, t), a, b)
  {
    hide Side, Lerp;
    HalfPlaneIsConvex(p, q, t, a, b, 0.0);
  }

  lemma VertexIsKept(polygon: seq<Vec2>, a: Vec2, b: Vec2, v: Vec2)
    requires v in polygon
    ensures Kept(polygon, a, b, v)
  {
    hide ConvexCombination, In, Walked, Clipped;
    MemberIsCombination(polygon, v);
    ClippedIsWalked(polygon, a, b);
    InsideIsEmitted(polygon[|polygon| - 1], polygon, a, b);
    if In(v, a, b) {
      MemberIsCombination(Clipped(polygon, a, b), v);
    }
  }

  /** What a pass emits lies in the hull and inside the edge. */
  lemma ClippedIsPart(polygon: seq<Vec2>, a: Vec2, b: Vec2)
    ensures forall v :: v in Clipped(polygon, a, b) ==> ConvexCombination(polygon, v) && In(v, a, b)
  {
    hide Pass, ConvexCombination, Side;
    if polygon != [] {
      var previous, edge := polygon[|polygon| - 1], [a, b];
      PassWithinTolerance(previous, polygon, a, b, EXACT);
      forall v | v in polygon ensures Sound(v, polygon, edge, 0, Slack(EXACT)) {
        MemberIsCombination(polygon, v);
      }
      ExactPassStays(previous, polygon, a, b);
      assert EdgeEnd(edge, 0) == b;
      PassIsSound(previous, polygon, polygon, edge, 0, EXACT);
      forall v | v in Pass(previous, polygon, a, b, EXACT) ensures ConvexCombination(polygon, v) {
        assert Sound(v, polygon, edge, 1, Slack(EXACT));
      }
    }
  }

  // ---------------------------------------------------------------------------------------------
  // One pass keeps a polygon convex
  // ---------------------------------------------------------------------------------------------

  /** The step from `u` to `v` has the kept part of the hull to one side. */
  ghost predicate SupportsPart(polygon: seq<Vec2>, a: Vec2, b: Vec2, u: Vec2, v: Vec2, ccw: bool) {
    forall w :: ConvexCombination(polygon, w) && In(w, a, b) ==> Turned(ccw, Side(w, u, v)) >= 0.0
  }

  ghost predicate WalkSupportsPart(polygon: seq<Vec2>, a: Vec2, b: Vec2, previous: Vec2, walk: seq<Vec2>, ccw: bool)
    decreases |walk|
  {
    walk != [] ==>
      && SupportsPart(polygon, a, b, previous, walk[0], ccw)
      && WalkSupportsPart(polygon, a, b, walk[0], walk[1..], ccw)
  }

  lemma SideOfSubStep(w: Vec2, p: Vec2, q: Vec2, s: real, t: real)
    ensures Side(w, Lerp(p, q, s), Lerp(p, q, t)) == (t - s) * Side(w, p, q)
  {
    var ux, uy, x, y := q.x - p.x, q.y - p.y, w.x - p.x, w.y - p.y;
    var u := Lerp(p, q, s);
    assert Lerp(p, q, t).x - u.x == (t - s) * ux && Lerp(p, q, t).y - u.y == (t - s) * uy;
    assert w.x - u.x == x - s * ux && w.y - u.y == y - s * uy;
    SubStepCross(ux, uy, x, y, s, t - s);
    hide Lerp;
  }

  lemma SubStepCross(ux: real, uy: real, x: real, y: real, s: real, f: real)
    ensures (f * ux) * (y - s * uy) - (f * uy) * (x - s * ux) == f * (ux * y - uy * x)
  {
    var m, n := f * ux, f * uy;
    assert m * (s * uy) == n * (s * ux);
    TimesSum(m, y, -(s * uy));
    TimesSum(n, x, -(s * ux));
    assert m * y == f * (ux * y) && n * x == f * (uy * x);
    TimesSum(f, ux * y, -(uy * x));
  }

  /** A part of a step supports what the step does. */
  lemma SubStepSupports(
      polygon: seq<Vec2>, a: Vec2, b: Vec2, p: Vec2, q: Vec2, s: real, t: real, ccw: bool)
    requires Supports(polygon, p, q, ccw) && s <= t
    ensures SupportsPart(polygon, a, b, Lerp(p, q, s), Lerp(p, q, t), ccw)
  {
    hide Side, Lerp, ConvexCombination, Supports, In;
    forall w | ConvexCombination(polygon, w) && In(w, a, b)
      ensures Turned(ccw, Side(w, Lerp(p, q, s), Lerp(p, q, t))) >= 0.0
    {
      HullIsSupported(polygon, p, q, w, ccw);
      SideOfSubStep(w, p, q, s, t);
      TurnedProduct(ccw, t - s, Side(w, p, q));
    }
  }

  lemma TurnedProduct(ccw: bool, f: real, r: real)
    requires f >= 0.0 && Turned(ccw, r) >= 0.0
    ensures Turned(ccw, f * r) >= 0.0
  {
    NonnegativeProduct(f, Turned(ccw, r));
    assert f * -r == -(f * r);
  }

  /** Where some step of the polygon goes out of the edge. */
  ghost predicate IsExit(polygon: seq<Vec2>, a: Vec2, b: Vec2, c: Vec2, ccw: bool) {
    exists p, q :: In(p, a, b) && Crosses(p, q, a, b) && Supports(polygon, p, q, ccw) && c == Crossing(p, q, a, b)
  }

  /** From where the polygon goes out to where it comes in again, along the edge. */
  lemma EdgeSupports(polygon: seq<Vec2>, a: Vec2, b: Vec2, c: Vec2, e: Vec2, ccw: bool)
    requires IsExit(polygon, a, b, c, ccw) && ConvexCombination(polygon, e) && Side(e, a, b) == 0.0
    ensures SupportsPart(polygon, a, b, c, e, ccw)
  {
    hide Side, ConvexCombination, Supports, Crossing, Along;
    var p, q :| In(p, a, b) && Crosses(p, q, a, b) && Supports(polygon, p, q, ccw) && c == Crossing(p, q, a, b);
    HullIsSupported(polygon, p, q, e, ccw);
    var _ := CrossingIs(p, q, a, b);
    AheadOfCrossing(p, q, e, a, b, ccw);
    var t :| Turned(ccw, t) >= 0.0 && e == Along(c, t, Direction(a, b));
    forall w | ConvexCombination(polygon, w) && In(w, a, b) ensures Turned(ccw, Side(w, c, e)) >= 0.0 {
      SideOfEdgeStep(w, c, t, a, b);
      TurnedFactor(ccw, t, Side(w, a, b));
    }
  }

  lemma TurnedFactor(ccw: bool, t: real, r: real)
    requires Turned(ccw, t) >= 0.0 && r >= 0.0
    ensures Turned(ccw, t * r) >= 0.0
  {
    NonnegativeProduct(Turned(ccw, t), r);
    assert (-t) * r == -(t * r);
  }

  lemma SideOfEdgeStep(w: Vec2, c: Vec2, t: real, a: Vec2, b: Vec2)
    requires Side(c, a, b) == 0.0
    ensures Side(w, c, Along(c, t, Direction(a, b))) == t * Side(w, a, b)
  {
    var d := Direction(a, b);
    var x, y, u, v := w.x - a.x, w.y - a.y, c.x - a.x, c.y - a.y;
    assert d.x * v - d.y * u == 0.0 && Side(w, a, b) == d.x * y - d.y * x;
    assert w.x - c.x == x - u && w.y - c.y == y - v;
    hide Direction;
    var e := Along(c, t, d);
    assert e.x - c.x == t * d.x && e.y - c.y == t * d.y;
    hide Along;
    assert Side(w, c, e) == (t * d.x) * (y - v) - (t * d.y) * (x - u);
    EdgeStepCross(d.x, d.y, x, y, u, v, t);
  }

  lemma EdgeStepCross(dx: real, dy: real, x: real, y: real, u: real, v: real, t: real)
    requires dx * v - dy * u == 0.0
    ensures (t * dx) * (y - v) - (t * dy) * (x - u) == t * (dx * y - dy * x)
  {
    assert (t * dx) * (y - v) == t * (dx * y) - t * (dx * v);
    assert (t * dy) * (x - u) == t * (dy * x) - t * (dy * u);
    assert t * (dx * v) == t * (dy * u);
    TimesSum(t, dx * y, -(dy * x));
  }

  /** The vertex emitted last before a step: where the step begins, or else where the polygon went out. */
  ghost predicate LastEmitted(polygon: seq<Vec2>, a: Vec2, b: Vec2, previous: Vec2, last: Vec2, ccw: bool) {
    if In(previous, a, b) then last == previous else IsExit(polygon, a, b, last, ccw)
  }

  lemma StepWalks(polygon: seq<Vec2>, a: Vec2, b: Vec2, p: Vec2, q: Vec2, last: Vec2, ccw: bool) returns (next: Vec2)
    requires Supports(polygon, p, q, ccw) && p in polygon && q in polygon
    requires LastEmitted(polygon, a, b, p, last, ccw)
    ensures LastEmitted(polygon, a, b, q, next, ccw)
    ensures var emitted := StepEmits(p, q, a, b);
            && WalkSupportsPart(polygon, a, b, last, emitted, ccw)
            && next == if emitted == [] then last else emitted[|emitted| - 1]
  {
    hide In, Crossing, Supports, SupportsPart, StepEmits, IsExit, Lerp, ConvexCombination, Side;
    var c := Crossing(p, q, a, b);
    StepEmitsIs(p, q, a, b);
    LerpEnds(p, q);
    if Crosses(p, q, a, b) {
      var t := CrossingIs(p, q, a, b);
      SubStepSupports(polygon, a, b, p, q, 0.0, t, ccw);
      SubStepSupports(polygon, a, b, p, q, t, 1.0, ccw);
      if In(p, a, b) {
        next := c;
        assert IsExit(polygon, a, b, c, ccw) by { ExitOf(polygon, a, b, p, q, ccw); }
        assert StepEmits(p, q, a, b) == [c];
        WalkOne(polygon, a, b, last, c, ccw);
      } else {
        next := q;
        MemberIsCombination(polygon, p);
        MemberIsCombination(polygon, q);
        LerpIsCombination(polygon, p, q, t);
        EdgeSupports(polygon, a, b, last, c, ccw);
        assert StepEmits(p, q, a, b) == [c, q];
        WalkTwo(polygon, a, b, last, c, q, ccw);
      }
    } else if In(p, a, b) {
      next := q;
      SubStepSupports(polygon, a, b, p, q, 0.0, 1.0, ccw);
      assert StepEmits(p, q, a, b) == [q];
      WalkOne(polygon, a, b, last, q, ccw);
    } else {
      next := last;
      assert StepEmits(p, q, a, b) == [];
    }
  }

  lemma ExitOf(polygon: seq<Vec2>, a: Vec2, b: Vec2, p: Vec2, q: Vec2, ccw: bool)
    requires In(p, a, b) && Crosses(p, q, a, b) && Supports(polygon, p, q, ccw)
    ensures IsExit(polygon, a, b, Crossing(p, q, a, b), ccw)
  {
    hide In, Crossing, Supports;
  }

  lemma LerpEnds(p: Vec2, q: Vec2)
    ensures Lerp(p, q, 0.0) == p && Lerp(p, q, 1.0) == q
  {
  }

  lemma WalkOne(polygon: seq<Vec2>, a: Vec2, b: Vec2, u: Vec2, v: Vec2, ccw: bool)
    requires SupportsPart(polygon, a, b, u, v, ccw)
    ensures WalkSupportsPart(polygon, a, b, u, [v], ccw)
  {
    hide SupportsPart;
    assert [v][1..] == [];
  }

  lemma WalkTwo(polygon: seq<Vec2>, a: Vec2, b: Vec2, u: Vec2, v: Vec2, w: Vec2, ccw: bool)
    requires SupportsPart(polygon, a, b, u, v, ccw) && SupportsPart(polygon, a, b, v, w, ccw)
    ensures WalkSupportsPart(polygon, a, b, u, [v, w], ccw)
  {
    hide SupportsPart;
    assert [v, w][1..] == [w];
    WalkOne(polygon, a, b, v, w, ccw);
  }

  lemma {:induction false} WalkOn(
      polygon: seq<Vec2>, a: Vec2, b: Vec2, u: Vec2, walk: seq<Vec2>, rest: seq<Vec2>, ccw: bool)
    requires WalkSupportsPart(polygon, a, b, u, walk, ccw)
    requires WalkSupportsPart(polygon, a, b, if walk == [] then u else walk[|walk| - 1], rest, ccw)
    ensures WalkSupportsPart(polygon, a, b, u, walk + rest, ccw)
    decreases |walk|
  {
    hide SupportsPart;
    if walk == [] {
      assert walk + rest == rest;
    } else {
      WalkOn(polygon, a, b, walk[0], walk[1..], rest, ccw);
      assert (walk + rest)[1..] == walk[1..] + rest;
    }
  }

  /** All steps of what a walk emits, from the vertex emitted before, support the kept part; and the last vertex. */
  lemma {:induction false} WalkedSupports(
      polygon: seq<Vec2>, a: Vec2, b: Vec2, previous: Vec2, walk: seq<Vec2>, last: Vec2, ccw: bool)
    requires WalkSupports(polygon, previous, walk, ccw) && previous in polygon && forall v :: v in walk ==> v in polygon
    requires LastEmitted(polygon, a, b, previous, last, ccw)
    ensures WalkSupportsPart(polygon, a, b, last, Walked(previous, walk, a, b), ccw)
    decreases |walk|
  {
    hide Supports, SupportsPart, StepEmits, Walked, LastEmitted;
    if walk == [] {
      assert Walked(previous, walk, a, b) == [] by { NothingWalked(previous, a, b); }
    } else {
      WalkedFirst(previous, walk, a, b);
      var next := StepWalks(polygon, a, b, previous, walk[0], last, ccw);
      WalkedSupports(polygon, a, b, walk[0], walk[1..], next, ccw);
      WalkOn(polygon, a, b, last, StepEmits(previous, walk[0], a, b), Walked(walk[0], walk[1..], a, b), ccw);
    }
  }

  lemma NothingWalked(previous: Vec2, a: Vec2, b: Vec2)
    ensures Walked(previous, [], a, b) == []
  {
  }

  /** The vertex a walk emits last: where it ends, if inside, or else where it went out. */
  lemma {:induction false} WalkedEnd(
      polygon: seq<Vec2>, a: Vec2, b: Vec2, previous: Vec2, walk: seq<Vec2>, ccw: bool)
    requires WalkSupports(polygon, previous, walk, ccw) && walk != []
    ensures var emitted, end := Walked(previous, walk, a, b), walk[|walk| - 1];
            && (In(end, a, b) || In(previous, a, b) ==> emitted != [])
            && (emitted != [] ==> LastEmitted(polygon, a, b, end, emitted[|emitted| - 1], ccw))
    decreases |walk|
  {
    hide Supports, StepEmits, Walked, In, IsExit, Crossing;
    WalkedFirst(previous, walk, a, b);
    StepEmitsIs(previous, walk[0], a, b);
    if Crosses(previous, walk[0], a, b) && In(previous, a, b) {
      ExitOf(polygon, a, b, previous, walk[0], ccw);
    }
    if |walk| == 1 {
      NothingWalked(walk[0], a, b);
      assert walk[1..] == [];
    } else {
      WalkedEnd(polygon, a, b, walk[0], walk[1..], ccw);
      assert walk[1..][|walk| - 2] == walk[|walk| - 1];
    }
  }

  lemma {:induction false} PartSupportsClipped(
      polygon: seq<Vec2>, a: Vec2, b: Vec2, points: seq<Vec2>, previous: Vec2, walk: seq<Vec2>, ccw: bool)
    requires WalkSupportsPart(polygon, a, b, previous, walk, ccw)
    requires forall v :: v in points ==> ConvexCombination(polygon, v) && In(v, a, b)
    ensures WalkSupports(points, previous, walk, ccw)
    decreases |walk|
  {
    hide ConvexCombination, In, Side;
    if walk != [] {
      PartSupportsClipped(polygon, a, b, points, walk[0], walk[1..], ccw);
    }
  }

  lemma ClippedIsConvex(polygon: seq<Vec2>, a: Vec2, b: Vec2, ccw: bool)
    requires Convex(polygon, ccw)
    ensures Convex(Clipped(polygon, a, b), ccw)
  {
    hide ConvexCombination, In, Side, Walked, Clipped, LastEmitted, WalkSupports, WalkSupportsPart;
    var clipped := Clipped(polygon, a, b);
    ClippedIsWalked(polygon, a, b);
    if clipped != [] {
      var previous, last := polygon[|polygon| - 1], clipped[|clipped| - 1];
      WalkedEnd(polygon, a, b, previous, polygon, ccw);
      WalkedSupports(polygon, a, b, previous, polygon, last, ccw);
      ClippedIsPart(polygon, a, b);
      PartSupportsClipped(polygon, a, b, clipped, last, clipped, ccw);
    }
  }

  // ---------------------------------------------------------------------------------------------
  // The whole loop
  // ---------------------------------------------------------------------------------------------

  /** Inside every clip edge from number `i` on. */
  ghost predicate InAll(clip: seq<Vec2>, i: nat, x: Vec2) {
    forall k :: i <= k < |clip| ==> In(x, clip[k], EdgeEnd(clip, k))
  }

  lemma {:induction false} PassesAreIntersection(polygon: seq<Vec2>, clip: seq<Vec2>, i: nat, x: Vec2, ccw: bool)
    requires Convex(polygon, ccw) && i <= |clip|
    ensures Convex(ClippedFrom(polygon, clip, i, EXACT), ccw)
    ensures ConvexCombination(ClippedFrom(polygon, clip, i, EXACT), x) <==>
              ConvexCombination(polygon, x) && InAll(clip, i, x)
    decreases |clip| - i
  {
    hide Convex, ConvexCombination, In, Clipped, EdgeEnd;
    if i < |clip| {
      var a, b := clip[i], EdgeEnd(clip, i);
      var clipped := Clipped(polygon, a, b);
      ClippedIsConvex(polygon, a, b, ccw);
      OnePassIsIntersection(polygon, a, b, x, ccw);
      PassesAreIntersection(clipped, clip, i + 1, x, ccw);
      ClippedOnce(polygon, clip, i);
      assert InAll(clip, i, x) <==> In(x, a, b) && InAll(clip, i + 1, x);
    }
  }

  lemma ClippedOnce(polygon: seq<Vec2>, clip: seq<Vec2>, i: nat)
    requires i < |clip|
    ensures ClippedFrom(polygon, clip, i, EXACT)
         == ClippedFrom(Clipped(polygon, clip[i], EdgeEnd(clip, i)), clip, i + 1, EXACT)
  {
  }

  /**
   * For a convex subject, of either orientation, exact clipping gives a convex polygon whose hull is exactly the part
   * of
   * the subject's hull inside all clip edges.
   */
  lemma ExactClippingIsIntersection(subject: seq<Vec2>, clip: seq<Vec2>, x: Vec2, ccw: bool)
    requires Convex(subject, ccw)
    ensures Convex(ClippedFrom(subject, clip, 0, EXACT), ccw)
    ensures ConvexCombination(ClippedFrom(subject, clip, 0, EXACT), x) <==>
              ConvexCombination(subject, x) && forall k :: 0 <= k < |clip| ==> Side(x, clip[k], EdgeEnd(clip, k)) >= 0.0
  {
    hide Convex, ConvexCombination, Side, EdgeEnd, ClippedFrom;
    PassesAreIntersection(subject, clip, 0, x, ccw);
  }

  /** So does clipping with the program's tolerances, when nothing met lies in their band. */
  lemma AuthoredClippingIsIntersection(subject: seq<Vec2>, clip: seq<Vec2>, x: Vec2, ccw: bool)
    requires Convex(subject, ccw) && ClearOfTolerances(subject, clip, 0, AUTHORED)
    ensures ConvexCombination(ClippedFrom(subject, clip, 0, AUTHORED), x) <==>
              ConvexCombination(subject, x) && forall k :: 0 <= k < |clip| ==> Side(x, clip[k], EdgeEnd(clip, k)) >= 0.0
  {
    hide Convex, ConvexCombination, Side, EdgeEnd, ClippedFrom, ClearOfTolerances;
    ClearClippingIsExact(subject, clip, 0, AUTHORED);
    ExactClippingIsIntersection(subject, clip, x, ccw);
  }
}
