/**
 * The overlap of two faces as the program measures it. A face is a parallelogram given by its centre and two half
 * sides, and stays one in projection.
 */
module FaceOverlap {
  import opened Clipping
  import opened ClipArea
  import opened ClipIntersection

  datatype Face = Face(center: Vec2, u: Vec2, v: Vec2)

  function At(f: Face, s: real, t: real): Vec2 {
    Vec2(f.center.x + s * f.u.x + t * f.v.x, f.center.y + s * f.u.y + t * f.v.y)
  }

  /** The corners in the program's order. */
  function Corners(f: Face): seq<Vec2> {
    [At(f, -1.0, -1.0), At(f, 1.0, -1.0), At(f, 1.0, 1.0), At(f, -1.0, 1.0)]
  }

  /** A quarter of the signed area, positive for a face seen from the front. */
  function Spread(f: Face): real {
    Cross2(f.u.x, f.u.y, f.v.x, f.v.y)
  }

  lemma CrossInFrame(ux: real, uy: real, vx: real, vy: real, a: real, b: real, s: real, t: real)
    ensures Cross2(a * ux + b * vx, a * uy + b * vy, s * ux + t * vx, s * uy + t * vy)
            == (a * t - b * s) * Cross2(ux, uy, vx, vy)
  {
    var k := ux * vy - uy * vx;
    SumProduct(a * ux, b * vx, s * uy, t * vy);
    SumProduct(a * uy, b * vy, s * ux, t * vx);
    FourFactors(a, ux, s, uy);
    FourFactors(a, ux, t, vy);
    FourFactors(b, vx, s, uy);
    FourFactors(b, vx, t, vy);
    FourFactors(a, uy, s, ux);
    FourFactors(a, uy, t, vx);
    FourFactors(b, vy, s, ux);
    FourFactors(b, vy, t, vx);
    assert ux * uy == uy * ux && vx * vy == vy * vx && vx * uy == uy * vx && vy * ux == ux * vy;
    TimesSum(a * t, ux * vy, -(uy * vx));
    TimesSum(b * s, ux * vy, -(uy * vx));
    TimesSum(k, a * t, -(b * s));
  }

  lemma SumProduct(a: real, b: real, c: real, d: real)
    ensures (a + b) * (c + d) == a * c + a * d + b * c + b * d
  {
  }

  lemma FourFactors(a: real, x: real, b: real, y: real)
    ensures (a * x) * (b * y) == (a * b) * (x * y)
  {
  }

  /** The side of a point of the frame, seen from a step of the frame. */
  lemma SideInFrame(f: Face, s: real, t: real, a: real, b: real, c: real, d: real)
    ensures Side(At(f, s, t), At(f, a, b), At(f, c, d)) == ((c - a) * (t - b) - (d - b) * (s - a)) * Spread(f)
  {
    Difference(f, c, d, a, b);
    Difference(f, s, t, a, b);
    var p, q, w := At(f, a, b), At(f, c, d), At(f, s, t);
    hide At;
    SideIsCross(w, p, q, (c - a) * f.u.x + (d - b) * f.v.x, (c - a) * f.u.y + (d - b) * f.v.y,
        (s - a) * f.u.x + (t - b) * f.v.x, (s - a) * f.u.y + (t - b) * f.v.y);
    hide Side, Cross2;
    CrossInFrame(f.u.x, f.u.y, f.v.x, f.v.y, c - a, d - b, s - a, t - b);
  }

  lemma SideIsCross(w: Vec2, p: Vec2, q: Vec2, ux: real, uy: real, vx: real, vy: real)
    requires q.x - p.x == ux && q.y - p.y == uy && w.x - p.x == vx && w.y - p.y == vy
    ensures Side(w, p, q) == Cross2(ux, uy, vx, vy)
  {
  }

  lemma Difference(f: Face, s: real, t: real, a: real, b: real)
    ensures At(f, s, t).x - At(f, a, b).x == (s - a) * f.u.x + (t - b) * f.v.x
    ensures At(f, s, t).y - At(f, a, b).y == (s - a) * f.u.y + (t - b) * f.v.y
  {
    DifferenceOfProducts(s, a, f.u.x);
    DifferenceOfProducts(t, b, f.v.x);
    DifferenceOfProducts(s, a, f.u.y);
    DifferenceOfProducts(t, b, f.v.y);
  }

  lemma DifferenceOfProducts(s: real, a: real, x: real)
    ensures (s - a) * x == s * x - a * x
  {
  }

  /** How far a point of the frame is inside each of the four edges. */
  lemma SidesOfFrame(f: Face, s: real, t: real)
    ensures var p := Corners(f);
            && Side(At(f, s, t), p[0], p[1]) == 2.0 * (t + 1.0) * Spread(f)
            && Side(At(f, s, t), p[1], p[2]) == 2.0 * (1.0 - s) * Spread(f)
            && Side(At(f, s, t), p[2], p[3]) == 2.0 * (1.0 - t) * Spread(f)
            && Side(At(f, s, t), p[3], p[0]) == 2.0 * (s + 1.0) * Spread(f)
  {
    SideInFrame(f, s, t, -1.0, -1.0, 1.0, -1.0);
    SideInFrame(f, s, t, 1.0, -1.0, 1.0, 1.0);
    SideInFrame(f, s, t, 1.0, 1.0, -1.0, 1.0);
    SideInFrame(f, s, t, -1.0, 1.0, -1.0, -1.0);
    hide Side, At, Spread;
  }

  /** No point of a face is outside its edges, which turn the other way when it is seen from behind. */
  lemma PointIsSupported(f: Face, s: real, t: real)
    requires -1.0 <= s <= 1.0 && -1.0 <= t <= 1.0
    ensures var p, ccw := Corners(f), Spread(f) >= 0.0;
            && Turned(ccw, Side(At(f, s, t), p[0], p[1])) >= 0.0
            && Turned(ccw, Side(At(f, s, t), p[1], p[2])) >= 0.0
            && Turned(ccw, Side(At(f, s, t), p[2], p[3])) >= 0.0
            && Turned(ccw, Side(At(f, s, t), p[3], p[0])) >= 0.0
  {
    SidesOfFrame(f, s, t);
    hide Side, At, Spread;
    var ccw := Spread(f) >= 0.0;
    TurnedProduct(ccw, 2.0 * (t + 1.0), Spread(f));
    TurnedProduct(ccw, 2.0 * (1.0 - s), Spread(f));
    TurnedProduct(ccw, 2.0 * (1.0 - t), Spread(f));
    TurnedProduct(ccw, 2.0 * (s + 1.0), Spread(f));
  }

  lemma EdgesSupport(f: Face)
    ensures var p, ccw := Corners(f), Spread(f) >= 0.0;
            && Supports(p, p[0], p[1], ccw) && Supports(p, p[1], p[2], ccw)
            && Supports(p, p[2], p[3], ccw) && Supports(p, p[3], p[0], ccw)
  {
    PointIsSupported(f, -1.0, -1.0);
    PointIsSupported(f, 1.0, -1.0);
    PointIsSupported(f, 1.0, 1.0);
    PointIsSupported(f, -1.0, 1.0);
    hide Side, At, Spread, Turned;
  }

  lemma FaceIsConvex(f: Face)
    ensures Convex(Corners(f), Spread(f) >= 0.0)
  {
    EdgesSupport(f);
    hide Supports, At, Spread, Convex;
    WalkOfFour(Corners(f), Spread(f) >= 0.0);
  }

  lemma WalkOfFour(p: seq<Vec2>, ccw: bool)
    requires |p| == 4
    requires Supports(p, p[0], p[1], ccw) && Supports(p, p[1], p[2], ccw)
    requires Supports(p, p[2], p[3], ccw) && Supports(p, p[3], p[0], ccw)
    ensures Convex(p, ccw)
  {
    hide Supports;
    assert p[1..][1..] == p[2..] && p[2..][1..] == p[3..] && p[3..][1..] == [];
    assert WalkSupports(p, p[3], [], ccw);
    assert WalkSupports(p, p[2], p[3..], ccw);
    assert WalkSupports(p, p[1], p[2..], ccw);
    assert WalkSupports(p, p[0], p[1..], ccw);
  }

  /** Every point of the plane has a place in the frame of a face that is not seen edge-on. */
  lemma PlaceInFrame(f: Face, x: Vec2) returns (s: real, t: real)
    requires Spread(f) != 0.0
    ensures x == At(f, s, t)
  {
    var k, wx, wy := Spread(f), x.x - f.center.x, x.y - f.center.y;
    s, t := Cross2(wx, wy, f.v.x, f.v.y) / k, Cross2(f.u.x, f.u.y, wx, wy) / k;
    assert s * k == wx * f.v.y - wy * f.v.x && t * k == f.u.x * wy - f.u.y * wx;
    assert k == f.u.x * f.v.y - f.u.y * f.v.x;
    Cramer(k, s, t, f.u.x, f.u.y, f.v.x, f.v.y, wx, wy);
  }

  lemma Cramer(k: real, s: real, t: real, ux: real, uy: real, vx: real, vy: real, wx: real, wy: real)
    requires k != 0.0 && k == ux * vy - uy * vx && s * k == wx * vy - wy * vx && t * k == ux * wy - uy * wx
    ensures s * ux + t * vx == wx && s * uy + t * vy == wy
  {
    assert k * (s * ux + t * vx) == (s * k) * ux + (t * k) * vx;
    assert (wx * vy - wy * vx) * ux == wx * (ux * vy) - wy * (ux * vx);
    assert (ux * wy - uy * wx) * vx == wy * (ux * vx) - wx * (uy * vx);
    assert k * (s * ux + t * vx) == wx * (ux * vy) - wx * (uy * vx) == k * wx;
    SameQuotient(k, s * ux + t * vx, wx);
    assert k * (s * uy + t * vy) == (s * k) * uy + (t * k) * vy;
    assert (wx * vy - wy * vx) * uy == wx * (uy * vy) - wy * (uy * vx);
    assert (ux * wy - uy * wx) * vy == wy * (ux * vy) - wx * (uy * vy);
    assert k * (s * uy + t * vy) == wy * (ux * vy) - wy * (uy * vx) == k * wy;
    SameQuotient(k, s * uy + t * vy, wy);
  }

  lemma SameQuotient(k: real, x: real, y: real)
    requires k != 0.0 && k * x == k * y
    ensures x == y
  {
    assert k * (x - y) == 0.0;
  }

  lemma PlaceBetween(f: Face, s: real, t: real)
    requires -1.0 <= s <= 1.0 && -1.0 <= t <= 1.0
    ensures ConvexCombination(Corners(f), At(f, s, t))
  {
    var p, g, h := Corners(f), (s + 1.0) / 2.0, (t + 1.0) / 2.0;
    hide ConvexCombination, Lerp, At;
    forall k | 0 <= k < 4 ensures ConvexCombination(p, p[k]) {
      VertexIsCombination(p, k);
    }
    LerpIsCombination(p, p[0], p[1], g);
    LerpIsCombination(p, p[3], p[2], g);
    LerpIsCombination(p, Lerp(p[0], p[1], g), Lerp(p[3], p[2], g), h);
    LerpInFrame(f, -1.0, -1.0, 1.0, -1.0, g);
    LerpInFrame(f, -1.0, 1.0, 1.0, 1.0, g);
    LerpInFrame(f, s, -1.0, s, 1.0, h);
    assert -1.0 + g * (1.0 - -1.0) == s && -1.0 + h * (1.0 - -1.0) == t;
  }

  lemma LerpInFrame(f: Face, s: real, t: real, a: real, b: real, g: real)
    ensures Lerp(At(f, s, t), At(f, a, b), g) == At(f, s + g * (a - s), t + g * (b - t))
  {
    Difference(f, a, b, s, t);
    var p, q := At(f, s, t), At(f, a, b);
    LerpBy(p, q, g, (a - s) * f.u.x + (b - t) * f.v.x, (a - s) * f.u.y + (b - t) * f.v.y);
    hide Lerp;
    ShareInFrame(s, a, t, b, g, f.u.x, f.v.x);
    ShareInFrame(s, a, t, b, g, f.u.y, f.v.y);
  }

  lemma LerpBy(p: Vec2, q: Vec2, g: real, dx: real, dy: real)
    requires q.x - p.x == dx && q.y - p.y == dy
    ensures Lerp(p, q, g) == Vec2(p.x + g * dx, p.y + g * dy)
  {
  }

  lemma ShareInFrame(s: real, a: real, t: real, b: real, g: real, x: real, y: real)
    ensures s * x + t * y + g * ((a - s) * x + (b - t) * y) == (s + g * (a - s)) * x + (t + g * (b - t)) * y
  {
    TimesSum(g, (a - s) * x, (b - t) * y);
    assert g * ((a - s) * x) == (g * (a - s)) * x && g * ((b - t) * y) == (g * (b - t)) * y;
    TimesSum(x, s, g * (a - s));
    TimesSum(y, t, g * (b - t));
  }

  /** The points inside all edges of a face seen from the front are those of the face. */
  lemma FaceIsItsEdges(f: Face, x: Vec2)
    requires Spread(f) > 0.0
    ensures InAll(Corners(f), 0, x) <==> ConvexCombination(Corners(f), x)
  {
    var p := Corners(f);
    hide ConvexCombination, Side, Convex;
    var s, t := PlaceInFrame(f, x);
    SidesOfFrame(f, s, t);
    EdgesOfFour(p, x);
    if InAll(p, 0, x) {
      FactorIsInside(t + 1.0, Spread(f));
      FactorIsInside(1.0 - s, Spread(f));
      FactorIsInside(1.0 - t, Spread(f));
      FactorIsInside(s + 1.0, Spread(f));
      PlaceBetween(f, s, t);
    }
    if ConvexCombination(p, x) {
      SupportedByEdges(f, x);
    }
  }

  lemma FactorIsInside(m: real, k: real)
    requires k > 0.0 && 2.0 * m * k >= 0.0
    ensures m >= 0.0
  {
    SignOfFactor(2.0 * m, k);
  }

  lemma EdgesOfFour(p: seq<Vec2>, x: Vec2)
    requires |p| == 4
    ensures InAll(p, 0, x) <==> In(x, p[0], p[1]) && In(x, p[1], p[2]) && In(x, p[2], p[3]) && In(x, p[3], p[0])
  {
    hide In;
    assert EdgeEnd(p, 0) == p[1] && EdgeEnd(p, 1) == p[2] && EdgeEnd(p, 2) == p[3] && EdgeEnd(p, 3) == p[0];
    hide EdgeEnd;
    if In(x, p[0], p[1]) && In(x, p[1], p[2]) && In(x, p[2], p[3]) && In(x, p[3], p[0]) {
      forall k | 0 <= k < |p| ensures In(x, p[k], EdgeEnd(p, k)) {
        assert k == 0 || k == 1 || k == 2 || k == 3;
      }
    }
  }

  lemma SupportedByEdges(f: Face, x: Vec2)
    requires Spread(f) > 0.0 && ConvexCombination(Corners(f), x)
    ensures InAll(Corners(f), 0, x)
  {
    var p := Corners(f);
    EdgesSupport(f);
    hide ConvexCombination, Side, At, Spread, Supports;
    HullIsSupported(p, p[0], p[1], x, true);
    HullIsSupported(p, p[1], p[2], x, true);
    HullIsSupported(p, p[2], p[3], x, true);
    HullIsSupported(p, p[3], p[0], x, true);
    EdgesOfFour(p, x);
  }

  lemma {:induction false} ExactIsClear(polygon: seq<Vec2>, clip: seq<Vec2>, i: nat)
    requires i <= |clip|
    ensures ClearOfTolerances(polygon, clip, i, EXACT)
    decreases |clip| - i
  {
    hide Side, ClippedByEdge;
    if i < |clip| {
      ExactIsClear(ClippedByEdge(polygon, clip[i], EdgeEnd(clip, i), EXACT), clip, i + 1);
    }
  }

  /**
   * Clipping any face, even one seen from behind or edge-on, by a face seen from the front gives exactly what the two
   * have in common: without tolerances, or with any when no vertex met lies in their band.
   */
  lemma FaceOverlapIsIntersection(right: Face, left: Face, x: Vec2, tol: Tolerance)
    requires Spread(left) > 0.0 && tol.inside >= 0.0 && tol.parallel >= 0.0
    requires tol == EXACT || ClearOfTolerances(Corners(right), Corners(left), 0, tol)
    ensures ConvexCombination(ClippedFrom(Corners(right), Corners(left), 0, tol), x) <==>
              ConvexCombination(Corners(right), x) && ConvexCombination(Corners(left), x)
  {
    var ccw := Spread(right) >= 0.0;
    FaceIsConvex(right);
    FaceIsItsEdges(left, x);
    hide Convex, ConvexCombination, Corners, ClippedFrom, ClearOfTolerances, Side;
    ExactIsClear(Corners(right), Corners(left), 0);
    ClearClippingIsExact(Corners(right), Corners(left), 0, tol);
    ExactClippingIsIntersection(Corners(right), Corners(left), x, ccw);
    assert InAll(Corners(left), 0, x) <==>
        forall k :: 0 <= k < |Corners(left)| ==> Side(x, Corners(left)[k], EdgeEnd(Corners(left), k)) >= 0.0;
  }

  /** The area of a face is that of the parallelogram: the product of its sides, for a rectangle. */
  lemma FaceArea(f: Face)
    ensures DoubledArea(Corners(f)) / 2.0 == 4.0 * Spread(f)
    ensures f.u.y == 0.0 && f.v.x == 0.0 ==> DoubledArea(Corners(f)) / 2.0 == (2.0 * f.u.x) * (2.0 * f.v.y)
  {
    var p := Corners(f);
    assert p == [p[0], p[1], p[2]] + [p[3]] && [p[0], p[2]] + [p[3]] == [p[0], p[2], p[3]] + [];
    EarIsCut(p[0], p[1], p[2], [p[3]]);
    EarIsCut(p[0], p[2], p[3], []);
    NoAreaBelowThree([p[0], p[3]] + []);
    TriangleIsSide(p[0], p[1], p[2]);
    TriangleIsSide(p[0], p[2], p[3]);
    SideInFrame(f, 1.0, 1.0, -1.0, -1.0, 1.0, -1.0);
    SideInFrame(f, -1.0, 1.0, -1.0, -1.0, 1.0, 1.0);
    hide DoubledArea, At, Side;
  }

  lemma TriangleIsSide(a: Vec2, b: Vec2, c: Vec2)
    ensures (b.x - a.x) * (c.y - a.y) - (b.y - a.y) * (c.x - a.x) == Side(c, a, b)
  {
  }
}
