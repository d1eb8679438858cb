/**
 * Area and tolerance of the face clipper: no area is lost at a cut, clipping settles after one run,
 * and what the program's tolerances do and do not guarantee.
 */
module ClipArea {
  import opened Clipping
  import opened Numbers

  // ---------------------------------------------------------------------------------------------
  // The shoelace sum, from an arbitrary origin
  // ---------------------------------------------------------------------------------------------

  /** Twice the signed area of the triangle o, u, v. */
  function Wedge(o: Vec2, u: Vec2, v: Vec2): real {
    Cross2(u.x - o.x, u.y - o.y, v.x - o.x, v.y - o.y)
  }

  function Chain(o: Vec2, previous: Vec2, points: seq<Vec2>): real
    decreases |points|
  {
    if points == [] then 0.0 else Wedge(o, previous, points[0]) + Chain(o, points[0], points[1..])
  }

  function LastOr(default: Vec2, points: seq<Vec2>): Vec2 {
    if points == [] then default else points[|points| - 1]
  }

  const ORIGIN := Vec2(0.0, 0.0)

  /** Twice the signed area of a polygon, counter-clockwise positive. */
  function DoubledArea(polygon: seq<Vec2>): real {
    Chain(ORIGIN, LastOr(ORIGIN, polygon), polygon)
  }

  /** The program's loop: it adds the step from each vertex to the next one, cyclically. */
  method PolygonArea(polygon: seq<Vec2>) returns (area: real)
    ensures area == Abs(DoubledArea(polygon)) / 2.0
  {
    hide Cross2, Walk, DoubledArea;
    WalkStarts(polygon);
    var doubledArea := 0.0;
    ghost var n := |polygon|;
    for index := 0 to |polygon|
      invariant doubledArea == if index < n || n == 0 then Walk(polygon, index) else DoubledArea(polygon)
    {
      var current := polygon[index];
      var next := polygon[(index + 1) % |polygon|];
      if index + 1 < n {
        WalkStep(polygon, index);
      } else {
        WalkCloses(polygon);
      }
      doubledArea := doubledArea + Cross2(current.x, current.y, next.x, next.y);
    }
    area := Abs(doubledArea) / 2.0;
  }

  /** The sum over the first `k` steps from vertex zero. */
  function Walk(polygon: seq<Vec2>, k: nat): real
    requires k < |polygon| || k == 0
  {
    if k == 0 then 0.0 else Chain(ORIGIN, polygon[0], polygon[1..k + 1])
  }

  lemma WalkStarts(polygon: seq<Vec2>)
    ensures Walk(polygon, 0) == 0.0
    ensures polygon == [] ==> DoubledArea(polygon) == 0.0
  {
  }

  lemma WalkStep(polygon: seq<Vec2>, k: nat)
    requires k + 1 < |polygon|
    ensures Walk(polygon, k + 1)
            == Walk(polygon, k) + Cross2(polygon[k].x, polygon[k].y, polygon[k + 1].x, polygon[k + 1].y)
  {
    hide Cross2;
    assert polygon[1..k + 2] == polygon[1..k + 1] + [polygon[k + 1]];
    ChainAppend(ORIGIN, polygon[0], polygon[1..k + 1], [polygon[k + 1]]);
    ChainSingle(ORIGIN, polygon[k], polygon[k + 1]);
    if k == 0 {
      assert polygon[1..1] == [];
    }
  }

  lemma WalkCloses(polygon: seq<Vec2>)
    requires polygon != []
    ensures var n := |polygon| - 1;
            DoubledArea(polygon) == Walk(polygon, n) + Cross2(polygon[n].x, polygon[n].y, polygon[0].x, polygon[0].y)
  {
    hide Cross2;
    var n := |polygon| - 1;
    ChainSingle(ORIGIN, polygon[n], polygon[0]);
    hide Wedge;
    assert polygon[1..n + 1] == polygon[1..];
    if n == 0 {
      EmptyChain(ORIGIN, polygon[0]);
      assert polygon[1..] == [];
    }
  }

  lemma ChainSingle(o: Vec2, u: Vec2, v: Vec2)
    ensures Chain(o, u, [v]) == Wedge(o, u, v)
    ensures Wedge(ORIGIN, u, v) == Cross2(u.x, u.y, v.x, v.y)
  {
    assert [v][1..] == [];
  }

  lemma {:induction false} ChainAppend(o: Vec2, previous: Vec2, head: seq<Vec2>, tail: seq<Vec2>)
    ensures Chain(o, previous, head + tail) == Chain(o, previous, head) + Chain(o, LastOr(previous, head), tail)
    decreases |head|
  {
    hide Wedge;
    if head == [] {
      assert head + tail == tail;
    } else {
      ChainAppend(o, head[0], head[1..], tail);
      assert (head + tail)[1..] == head[1..] + tail;
    }
  }

  /** Moving the origin changes an open chain by its two ends only, so it does not change a closed one. */
  lemma {:induction false} ChainFromOrigin(o: Vec2, previous: Vec2, points: seq<Vec2>)
    ensures Chain(o, previous, points)
         == Chain(ORIGIN, previous, points) - Wedge(ORIGIN, o, LastOr(previous, points)) + Wedge(ORIGIN, o, previous)
    decreases |points|
  {
    if points != [] {
      WedgeFromOrigin(o, previous, points[0]);
      hide Wedge;
      ChainFromOrigin(o, points[0], points[1..]);
    }
  }

  lemma WedgeFromOrigin(o: Vec2, u: Vec2, v: Vec2)
    ensures Wedge(o, u, v) == Wedge(ORIGIN, u, v) - Wedge(ORIGIN, o, v) + Wedge(ORIGIN, o, u)
  {
  }

  lemma DoubledAreaFrom(o: Vec2, polygon: seq<Vec2>)
    ensures DoubledArea(polygon) == Chain(o, LastOr(o, polygon), polygon)
  {
    hide Wedge;
    if polygon != [] {
      ChainFromOrigin(o, LastOr(o, polygon), polygon);
    }
  }

  // ---------------------------------------------------------------------------------------------
  // A cut conserves area
  // ---------------------------------------------------------------------------------------------

  lemma ReversedSide(p: Vec2, a: Vec2, b: Vec2)
    ensures Side(p, b, a) == -Side(p, a, b)
  {
  }

  /** Two points on the cutting line span no area with a third one on it. */
  lemma CollinearWedge(a: Vec2, b: Vec2, u: Vec2, v: Vec2)
    requires a != b && Side(u, a, b) == 0.0 && Side(v, a, b) == 0.0
    ensures Wedge(a, u, v) == 0.0
  {
    var dx, dy, ux, uy, vx, vy := b.x - a.x, b.y - a.y, u.x - a.x, u.y - a.y, v.x - a.x, v.y - a.y;
    assert dx * uy == dy * ux && dx * vy == dy * vx;
    Proportional(dx, dy, ux, uy, vx, vy);
  }

  lemma Proportional(dx: real, dy: real, ux: real, uy: real, vx: real, vy: real)
    requires dx != 0.0 || dy != 0.0
    requires dx * uy == dy * ux && dx * vy == dy * vx
    ensures ux * vy - uy * vx == 0.0
  {
    if dx != 0.0 {
      assert dx * (ux * vy - uy * vx) == ux * (dx * vy) - (dx * uy) * vx == ux * (dy * vx) - (dy * ux) * vx == 0.0;
    } else {
      assert dy * (ux * vy - uy * vx) == (dy * ux) * vy - uy * (dy * vx) == 0.0;
    }
  }

  /** Splitting a step at a point of it splits its wedge. */
  lemma SplitWedge(o: Vec2, p: Vec2, q: Vec2, t: real)
    ensures Wedge(o, p, Lerp(p, q, t)) + Wedge(o, Lerp(p, q, t), q) == Wedge(o, p, q)
  {
    var px, py, dx, dy := p.x - o.x, p.y - o.y, q.x - p.x, q.y - p.y;
    assert Wedge(o, p, Lerp(p, q, t)) == px * (py + t * dy) - py * (px + t * dx) == t * (px * dy - py * dx);
    assert Wedge(o, Lerp(p, q, t), q) == (px + t * dx) * (py + dy) - (py + t * dy) * (px + dx);
    SplitTerm(px, py, dx, dy, t);
  }

  lemma SplitTerm(px: real, py: real, dx: real, dy: real, t: real)
    ensures (px + t * dx) * (py + dy) - (py + t * dy) * (px + dx) == (1.0 - t) * (px * dy - py * dx)
  {
    calc {
      (px + t * dx) * (py + dy) - (py + t * dy) * (px + dx);
      px * dy - py * dx + (t * dx) * py - (t * dy) * px;
      { assert (t * dx) * py == t * (py * dx) && (t * dy) * px == t * (px * dy); }
      (1.0 - t) * (px * dy - py * dx);
    }
  }

  /** Where each side's output stands: at the walk's own point while on that side, else somewhere on the line. */
  ghost predicate Stands(at: Vec2, walk: Vec2, a: Vec2, b: Vec2) {
    if Side(walk, a, b) >= 0.0 then at == walk else Side(at, a, b) == 0.0
  }

  /** One step: what the kept side and the discarded side gain together is the step's own wedge. */
  ghost predicate Conserves(left: Vec2, right: Vec2, p: Vec2, q: Vec2, a: Vec2, b: Vec2) {
    var l, r := Emitted(p, q, a, b, EXACT), Emitted(p, q, b, a, EXACT);
    && Chain(a, left, l) + Chain(a, right, r) == Wedge(a, p, q)
    && Stands(LastOr(left, l), q, a, b) && Stands(LastOr(right, r), q, b, a)
  }

  lemma StepConserves(left: Vec2, right: Vec2, p: Vec2, q: Vec2, a: Vec2, b: Vec2)
    requires a != b && Stands(left, p, a, b) && Stands(right, p, b, a)
    ensures Conserves(left, right, p, q, a, b)
  {
    hide LineIntersection, Side, Wedge, Chain, Lerp, Conserves;
    if (Side(p, a, b) > 0.0 && Side(q, a, b) > 0.0)
       || (Side(p, a, b) < 0.0 && Side(q, a, b) < 0.0)
       || (Side(p, a, b) == 0.0 && Side(q, a, b) == 0.0) {
      KeptStepConserves(left, right, p, q, a, b);
    } else {
      var x := CrossingOf(p, q, a, b);
      CrossingConserves(left, right, p, q, x, a, b);
    }
  }

  lemma KeptStepConserves(left: Vec2, right: Vec2, p: Vec2, q: Vec2, a: Vec2, b: Vec2)
    requires a != b && Stands(left, p, a, b) && Stands(right, p, b, a)
    requires (Side(p, a, b) > 0.0 && Side(q, a, b) > 0.0)
             || (Side(p, a, b) < 0.0 && Side(q, a, b) < 0.0)
             || (Side(p, a, b) == 0.0 && Side(q, a, b) == 0.0)
    ensures Conserves(left, right, p, q, a, b)
  {
    hide LineIntersection, Side, Wedge, Chain;
    ReversedSide(p, a, b);
    ReversedSide(q, a, b);
    ChainSingle(a, p, q);
    EmptyChain(a, left);
    EmptyChain(a, right);
    assert Emitted(p, q, a, b, EXACT) == if Side(q, a, b) >= 0.0 then [q] else [];
    assert Emitted(p, q, b, a, EXACT) == if Side(q, a, b) <= 0.0 then [q] else [];
    if Side(p, a, b) == 0.0 {
      CollinearWedge(a, b, p, q);
    }
  }

  lemma EmptyChain(o: Vec2, previous: Vec2)
    ensures Chain(o, previous, []) == 0.0
  {
  }

  /** The step's crossing, the same for both directions of the cutting edge. */
  lemma CrossingOf(p: Vec2, q: Vec2, a: Vec2, b: Vec2) returns (x: Vec2)
    requires Side(p, a, b) != Side(q, a, b)
    ensures x == LineIntersection(p, q, a, b, EXACT) == LineIntersection(p, q, b, a, EXACT)
    ensures Side(x, a, b) == 0.0
    ensures Side(p, a, b) == 0.0 ==> x == p
    ensures Side(q, a, b) == 0.0 ==> x == q
    ensures Wedge(a, p, x) + Wedge(a, x, q) == Wedge(a, p, q)
  {
    hide LineIntersection, Side, Wedge;
    var s, t := Side(p, a, b), Side(q, a, b);
    ReversedSide(p, a, b);
    ReversedSide(q, a, b);
    CrossingAt(p, q, a, b, EXACT);
    CrossingAt(p, q, b, a, EXACT);
    SameFraction(s, t);
    x := Lerp(p, q, s / (s - t));
    SplitWedge(a, p, q, s / (s - t));
  }

  lemma SameFraction(s: real, t: real)
    requires s != t
    ensures (-s) / ((-s) - (-t)) == s / (s - t)
  {
    var f := s / (s - t);
    assert f * (s - t) == s;
    assert f * ((-s) - (-t)) == -s;
  }

  lemma CrossingConserves(left: Vec2, right: Vec2, p: Vec2, q: Vec2, x: Vec2, a: Vec2, b: Vec2)
    requires a != b && Stands(left, p, a, b) && Stands(right, p, b, a)
    requires x == LineIntersection(p, q, a, b, EXACT) == LineIntersection(p, q, b, a, EXACT)
    requires Side(x, a, b) == 0.0 && Side(p, a, b) != Side(q, a, b)
    requires Side(p, a, b) == 0.0 ==> x == p
    requires Side(q, a, b) == 0.0 ==> x == q
    requires !(Side(p, a, b) > 0.0 && Side(q, a, b) > 0.0) && !(Side(p, a, b) < 0.0 && Side(q, a, b) < 0.0)
    requires Wedge(a, p, x) + Wedge(a, x, q) == Wedge(a, p, q)
    ensures Conserves(left, right, p, q, a, b)
  {
    hide LineIntersection, Side, Wedge, Chain;
    ReversedSide(p, a, b);
    ReversedSide(q, a, b);
    ReversedSide(x, a, b);
    ReversedSide(left, a, b);
    ReversedSide(right, a, b);
    CollinearWedge(a, b, x, x);
    if Side(left, a, b) == 0.0 {
      CollinearWedge(a, b, left, x);
    }
    if Side(right, a, b) == 0.0 {
      CollinearWedge(a, b, right, x);
    }
    forall u | u == left || u == right || u == p
      ensures Chain(a, u, [x]) == Wedge(a, u, x) && Chain(a, u, [q]) == Wedge(a, u, q)
      ensures Chain(a, u, [x, q]) == Wedge(a, u, x) + Wedge(a, x, q)
    {
      ChainSingle(a, u, x);
      ChainSingle(a, u, q);
      ChainSingle(a, x, q);
      assert [x] + [q] == [x, q];
      ChainAppend(a, u, [x], [q]);
    }
    var s, t := Side(p, a, b), Side(q, a, b);
    assert Emitted(p, q, a, b, EXACT) == if s >= 0.0 then if t >= 0.0 then [q] else [x] else [x, q];
    assert Emitted(p, q, b, a, EXACT) == if s <= 0.0 then if t <= 0.0 then [q] else [x] else [x, q];
  }

  lemma {:induction false} WalkConserves(left: Vec2, right: Vec2, previous: Vec2, points: seq<Vec2>, a: Vec2, b: Vec2)
    requires a != b && Stands(left, previous, a, b) && Stands(right, previous, b, a)
    ensures var l, r := Pass(previous, points, a, b, EXACT), Pass(previous, points, b, a, EXACT);
            && Chain(a, left, l) + Chain(a, right, r) == Chain(a, previous, points)
            && Stands(LastOr(left, l), LastOr(previous, points), a, b)
            && Stands(LastOr(right, r), LastOr(previous, points), b, a)
    decreases |points|
  {
    hide Emitted, Stands, Wedge, Chain;
    if points != [] {
      var q := points[0];
      var l, r := Emitted(previous, q, a, b, EXACT), Emitted(previous, q, b, a, EXACT);
      var l', r' := Pass(q, points[1..], a, b, EXACT), Pass(q, points[1..], b, a, EXACT);
      StepConserves(left, right, previous, q, a, b);
      WalkConserves(LastOr(left, l), LastOr(right, r), q, points[1..], a, b);
      ChainAppend(a, left, l, l');
      ChainAppend(a, right, r, r');
      LastOfAppend(left, l, l');
      LastOfAppend(right, r, r');
      assert [q] + points[1..] == points;
      ChainAppend(a, previous, [q], points[1..]);
      ChainSingle(a, previous, q);
      LastOfAppend(previous, [q], points[1..]);
    } else {
      EmptyChain(a, left);
      EmptyChain(a, right);
      EmptyChain(a, previous);
    }
  }

  lemma LastOfAppend(default: Vec2, head: seq<Vec2>, tail: seq<Vec2>)
    ensures LastOr(default, head + tail) == LastOr(LastOr(default, head), tail)
  {
  }

  /**
   * A cut conserves area: what clipping keeps on one side of a line and what it keeps on the other add up to
   * the polygon's own signed area, for every polygon and every line through two distinct points.
   */
  lemma CutConservesArea(polygon: seq<Vec2>, a: Vec2, b: Vec2)
    requires a != b
    ensures DoubledArea(ClippedByEdge(polygon, a, b, EXACT)) + DoubledArea(ClippedByEdge(polygon, b, a, EXACT))
         == DoubledArea(polygon)
  {
    hide Wedge, Pass, Emitted, Chain;
    if polygon != [] {
      var last := polygon[|polygon| - 1];
      var l, r := Pass(last, polygon, a, b, EXACT), Pass(last, polygon, b, a, EXACT);
      ReversedSide(last, a, b);
      EndpointsOnLine(a, b);
      var left := if Side(last, a, b) >= 0.0 then last else a;
      var right := if Side(last, b, a) >= 0.0 then last else a;
      WalkConserves(left, right, last, polygon, a, b);
      WalkConserves(LastOr(left, l), LastOr(right, r), last, polygon, a, b);
      forall u ensures Chain(a, u, []) == 0.0 {
        EmptyChain(a, u);
      }
      DoubledAreaFrom(a, l);
      DoubledAreaFrom(a, r);
      DoubledAreaFrom(a, polygon);
    } else {
      EmptyChain(ORIGIN, ORIGIN);
    }
  }

  lemma EndpointsOnLine(a: Vec2, b: Vec2)
    ensures Side(a, a, b) == 0.0 && Side(a, b, a) == 0.0
  {
  }

  /** The signed area the edges from number `i` on cut away. */
  function DiscardedFrom(polygon: seq<Vec2>, clip: seq<Vec2>, i: nat): real
    requires i <= |clip|
    decreases |clip| - i
  {
    if i == |clip| then 0.0
    else DoubledArea(ClippedByEdge(polygon, EdgeEnd(clip, i), clip[i], EXACT))
         + DiscardedFrom(ClippedByEdge(polygon, clip[i], EdgeEnd(clip, i), EXACT), clip, i + 1)
  }

  /** Over the whole loop: the subject's area is the area of the result plus the pieces cut away, edge by edge. */
  lemma {:induction false} ClippingConservesArea(polygon: seq<Vec2>, clip: seq<Vec2>, i: nat)
    requires i <= |clip|
    requires forall k :: 0 <= k < |clip| ==> clip[k] != EdgeEnd(clip, k)
    ensures DoubledArea(polygon) == DoubledArea(ClippedFrom(polygon, clip, i, EXACT)) + DiscardedFrom(polygon, clip, i)
    decreases |clip| - i
  {
    hide ClippedByEdge, DoubledArea;
    if i < |clip| {
      CutConservesArea(polygon, clip[i], EdgeEnd(clip, i));
      ClippingConservesArea(ClippedByEdge(polygon, clip[i], EdgeEnd(clip, i), EXACT), clip, i + 1);
    }
  }

  // ---------------------------------------------------------------------------------------------
  // What is inside is kept; clipping again changes nothing
  // ---------------------------------------------------------------------------------------------

  lemma {:induction false} PassKeepsInside(previous: Vec2, points: seq<Vec2>, a: Vec2, b: Vec2, tol: Tolerance)
    requires tol.parallel >= 0.0
    requires Inside(previous, a, b, tol) && forall v :: v in points ==> Inside(v, a, b, tol)
    ensures Pass(previous, points, a, b, tol) == points
    decreases |points|
  {
    hide LineIntersection, Inside;
    if points != [] {
      PassKeepsInside(points[0], points[1..], a, b, tol);
    }
  }

  /** With any tolerance, a polygon all of whose vertices count as inside every edge comes back as it was. */
  lemma {:induction false} ClippingKeepsInside(polygon: seq<Vec2>, clip: seq<Vec2>, i: nat, tol: Tolerance)
    requires tol.parallel >= 0.0 && i <= |clip|
    requires forall v, k :: v in polygon && i <= k < |clip| ==> Inside(v, clip[k], EdgeEnd(clip, k), tol)
    ensures ClippedFrom(polygon, clip, i, tol) == polygon
    decreases |clip| - i
  {
    hide Inside, Pass;
    if i < |clip| {
      if polygon != [] {
        assert polygon[|polygon| - 1] in polygon;
        PassKeepsInside(polygon[|polygon| - 1], polygon, clip[i], EdgeEnd(clip, i), tol);
      }
      ClippingKeepsInside(polygon, clip, i + 1, tol);
    }
  }

  /** Exact clipping is idempotent. */
  lemma ExactClippingIsIdempotent(subject: seq<Vec2>, clip: seq<Vec2>)
    ensures var once := ClippedFrom(subject, clip, 0, EXACT);
            ClippedFrom(once, clip, 0, EXACT) == once
  {
    ExactClippingIsSound(subject, clip);
    hide Side, ClippedFrom;
    ClippingKeepsInside(ClippedFrom(subject, clip, 0, EXACT), clip, 0, EXACT);
  }

  // ---------------------------------------------------------------------------------------------
  // The program's own tolerances
  // ---------------------------------------------------------------------------------------------

  /** Every pass meets only vertices clear of the band in which the tolerances change the program's decisions. */
  ghost predicate ClearOfTolerances(polygon: seq<Vec2>, clip: seq<Vec2>, i: nat, tol: Tolerance)
    requires tol.parallel >= 0.0 && i <= |clip|
    decreases |clip| - i
  {
    i < |clip| ==>
      && (forall v :: v in polygon ==> ClearOfEdge(v, clip[i], EdgeEnd(clip, i), tol))
      && ClearOfTolerances(ClippedByEdge(polygon, clip[i], EdgeEnd(clip, i), EXACT), clip, i + 1, tol)
  }

  predicate ClearOfEdge(v: Vec2, a: Vec2, b: Vec2, tol: Tolerance) {
    Side(v, a, b) >= 0.0 || (Side(v, a, b) < -tol.inside && Side(v, a, b) < -tol.parallel)
  }

  lemma ClearStepAgrees(p: Vec2, q: Vec2, a: Vec2, b: Vec2, tol: Tolerance)
    requires tol.inside >= 0.0 && tol.parallel >= 0.0
    requires ClearOfEdge(p, a, b, tol) && ClearOfEdge(q, a, b, tol)
    ensures Emitted(p, q, a, b, tol) == Emitted(p, q, a, b, EXACT)
  {
    if Inside(p, a, b, EXACT) != Inside(q, a, b, EXACT) {
      CrossingAt(p, q, a, b, tol);
      CrossingAt(p, q, a, b, EXACT);
    }
    hide LineIntersection, Side;
  }

  lemma {:induction false} ClearPassAgrees(previous: Vec2, points: seq<Vec2>, a: Vec2, b: Vec2, tol: Tolerance)
    requires tol.inside >= 0.0 && tol.parallel >= 0.0
    requires ClearOfEdge(previous, a, b, tol) && forall v :: v in points ==> ClearOfEdge(v, a, b, tol)
    ensures Pass(previous, points, a, b, tol) == Pass(previous, points, a, b, EXACT)
    decreases |points|
  {
    hide Emitted, ClearOfEdge;
    if points != [] {
      ClearStepAgrees(previous, points[0], a, b, tol);
      ClearPassAgrees(points[0], points[1..], a, b, tol);
    }
  }

  /** Away from that band the program computes the exact clip, and with it everything proved of the exact clip. */
  lemma {:induction false} ClearClippingIsExact(polygon: seq<Vec2>, clip: seq<Vec2>, i: nat, tol: Tolerance)
    requires tol.inside >= 0.0 && tol.parallel >= 0.0 && i <= |clip|
    requires ClearOfTolerances(polygon, clip, i, tol)
    ensures ClippedFrom(polygon, clip, i, tol) == ClippedFrom(polygon, clip, i, EXACT)
    decreases |clip| - i
  {
    hide ClearOfEdge, Pass;
    if i < |clip| {
      if polygon != [] {
        ClearPassAgrees(polygon[|polygon| - 1], polygon, clip[i], EdgeEnd(clip, i), tol);
      }
      ClearClippingIsExact(ClippedByEdge(polygon, clip[i], EdgeEnd(clip, i), EXACT), clip, i + 1, tol);
    }
  }

  /**
   * A unit face about the origin, and another face in the program's order of vertices: a rectangle turned by a
   * 7.5e-11th, whose right side stands a tenth of a billionth outside the first face's, its lower end within the
   * tolerance and its upper end not.
   */
  const FACE := [Vec2(-0.5, -0.5), Vec2(0.5, -0.5), Vec2(0.5, 0.5), Vec2(-0.5, 0.5)]
  const TURNED := [
    Vec2(0.20000000009, 0.0000000000225), Vec2(0.50000000009, 0.0),
    Vec2(0.50000000012, 0.4), Vec2(0.20000000012, 0.4000000000225)]

  /** Four vertices: opposite sides are equal, neighbouring ones at right angles. */
  predicate Rectangle(face: seq<Vec2>) {
    && |face| == 4
    && var (s, p, q, r) := (face[0], face[1], face[2], face[3]);
       && p.x - s.x == q.x - r.x && p.y - s.y == q.y - r.y
       && (p.x - s.x) * (q.x - p.x) + (p.y - s.y) * (q.y - p.y) == 0.0
  }

  const ESCAPED := Vec2(0.5, -1.2)

  /**
   * In the band the guarantee fails: the step up the right side escapes, and its crossing is extrapolated to 0.7
   * units below the lower edge, which was clipped before. The result leaves the clip face.
   */
  lemma AuthoredClippingMayEscape()
    ensures Rectangle(FACE) && Rectangle(TURNED)
    ensures ClippingEscapes(TURNED, FACE, 0, AUTHORED)
    ensures ESCAPED in ClippedFrom(TURNED, FACE, 0, AUTHORED) && Side(ESCAPED, FACE[0], EdgeEnd(FACE, 0)) == -0.7
  {
    hide ClippedFrom, ClippedByEdge, Side, EdgeEnd, ClippingEscapes;
    var cut := ClippedByEdge(TURNED, FACE[1], EdgeEnd(FACE, 1), AUTHORED);
    LowerEdgeKeepsTurned();
    RightEdgeCuts();
    LastEdgesKeep(cut);
    SidesOfFace(ESCAPED);
    FirstPass(TURNED, FACE, 0, AUTHORED);
    FirstPass(TURNED, FACE, 1, AUTHORED);
  }

  lemma FirstPass(polygon: seq<Vec2>, clip: seq<Vec2>, i: nat, tol: Tolerance)
    requires tol.parallel >= 0.0 && i < |clip|
    ensures ClippedFrom(polygon, clip, i, tol)
         == ClippedFrom(ClippedByEdge(polygon, clip[i], EdgeEnd(clip, i), tol), clip, i + 1, tol)
    ensures polygon != [] && PassEscapes(polygon[|polygon| - 1], polygon, clip[i], EdgeEnd(clip, i), tol) ==>
              ClippingEscapes(polygon, clip, i, tol)
    ensures ClippingEscapes(ClippedByEdge(polygon, clip[i], EdgeEnd(clip, i), tol), clip, i + 1, tol) ==>
              ClippingEscapes(polygon, clip, i, tol)
  {
    hide ClippedByEdge, PassEscapes;
  }

  lemma SidesOfFace(v: Vec2)
    ensures Side(v, FACE[0], EdgeEnd(FACE, 0)) == v.y + 0.5
    ensures Side(v, FACE[1], EdgeEnd(FACE, 1)) == 0.5 - v.x
    ensures Side(v, FACE[2], EdgeEnd(FACE, 2)) == 0.5 - v.y
    ensures Side(v, FACE[3], EdgeEnd(FACE, 3)) == v.x + 0.5
  {
  }

  lemma LowerEdgeKeepsTurned()
    ensures ClippedByEdge(TURNED, FACE[0], EdgeEnd(FACE, 0), AUTHORED) == TURNED
  {
    hide Side, Pass, EdgeEnd;
    forall v | v in TURNED ensures Inside(v, FACE[0], EdgeEnd(FACE, 0), AUTHORED) {
      SidesOfFace(v);
    }
    PassKeepsInside(TURNED[3], TURNED, FACE[0], EdgeEnd(FACE, 0), AUTHORED);
  }

  lemma LastEdgesKeep(cut: seq<Vec2>)
    requires forall v :: v in cut ==> InLastEdges(v)
    ensures ClippedFrom(cut, FACE, 2, AUTHORED) == cut
  {
    hide Side, ClippedByEdge, ClippedFrom, EdgeEnd;
    forall v, k | v in cut && 2 <= k < 4 ensures Inside(v, FACE[k], EdgeEnd(FACE, k), AUTHORED) {
      SidesOfFace(v);
      assert k == 2 || k == 3;
    }
    ClippingKeepsInside(cut, FACE, 2, AUTHORED);
  }

  /** What each step of a walk over four vertices emits. */
  lemma PassOfFour(s: Vec2, p: Vec2, q: Vec2, r: Vec2, a: Vec2, b: Vec2, tol: Tolerance)
    requires tol.parallel >= 0.0
    ensures Pass(r, [s, p, q, r], a, b, tol)
         == Emitted(r, s, a, b, tol)
           + (Emitted(s, p, a, b, tol) + (Emitted(p, q, a, b, tol) + Emitted(q, r, a, b, tol)))
    ensures StepEscapes(p, q, a, b, tol) ==> PassEscapes(r, [s, p, q, r], a, b, tol)
  {
    hide Emitted, StepEscapes;
    assert [s, p, q, r][1..] == [p, q, r] && [p, q, r][1..] == [q, r] && [q, r][1..] == [r] && [r][1..] == [];
    assert Pass(q, [r], a, b, tol) == Emitted(q, r, a, b, tol) + Pass(r, [], a, b, tol);
    assert Pass(p, [q, r], a, b, tol) == Emitted(p, q, a, b, tol) + Pass(q, [r], a, b, tol);
    assert Pass(s, [p, q, r], a, b, tol) == Emitted(s, p, a, b, tol) + Pass(p, [q, r], a, b, tol);
    assert PassEscapes(p, [q, r], a, b, tol) ==> PassEscapes(s, [p, q, r], a, b, tol);
  }

  predicate InLastEdges(v: Vec2) {
    v.y <= 0.5 && v.x >= -0.5
  }

  /** A step across the right edge, with `t` where it crosses. */
  lemma StepAcross(p: Vec2, q: Vec2, t: real)
    requires q.x - p.x > 0.000000000001 || p.x - q.x > 0.000000000001
    requires t * (q.x - p.x) == 0.5 - p.x
    requires (0.5 - p.x >= -0.0000000001) != (0.5 - q.x >= -0.0000000001)
    ensures Emitted(p, q, FACE[1], EdgeEnd(FACE, 1), AUTHORED)
         == [Lerp(p, q, t)] + if 0.5 - q.x >= -0.0000000001 then [q] else []
    ensures p.x > 0.5 && q.x > 0.5 ==> StepEscapes(p, q, FACE[1], EdgeEnd(FACE, 1), AUTHORED)
  {
    hide Side, LineIntersection, EdgeEnd, Lerp;
    var a, b := FACE[1], EdgeEnd(FACE, 1);
    SidesOfFace(p);
    SidesOfFace(q);
    hide FACE;
    var s, r := Side(p, a, b), Side(q, a, b);
    assert s - r == q.x - p.x && s == 0.5 - p.x && r == 0.5 - q.x;
    CrossingAt(p, q, a, b, AUTHORED);
    QuotientIs(s, s - r, t);
  }

  lemma QuotientIs(n: real, d: real, t: real)
    requires d != 0.0 && t * d == n
    ensures n / d == t
  {
  }

  lemma StepUp()
    ensures var a, b := FACE[1], EdgeEnd(FACE, 1);
            StepEscapes(TURNED[1], TURNED[2], a, b, AUTHORED)
              && Emitted(TURNED[1], TURNED[2], a, b, AUTHORED) == [ESCAPED]
  {
    hide Emitted, StepEscapes, EdgeEnd;
    StepAcross(TURNED[1], TURNED[2], -3.0);
    assert Lerp(TURNED[1], TURNED[2], -3.0) == ESCAPED;
  }

  lemma StepAcrossTheTop()
    ensures forall v :: v in Emitted(TURNED[2], TURNED[3], FACE[1], EdgeEnd(FACE, 1), AUTHORED) ==> InLastEdges(v)
  {
    hide Emitted, StepEscapes, EdgeEnd;
    var t := 0.0000000004;
    StepAcross(TURNED[2], TURNED[3], t);
    assert InLastEdges(Lerp(TURNED[2], TURNED[3], t));
  }

  lemma StepInside(p: Vec2, q: Vec2)
    requires p.x <= 0.5000000001 && q.x <= 0.5000000001
    ensures Emitted(p, q, FACE[1], EdgeEnd(FACE, 1), AUTHORED) == [q]
  {
    SidesOfFace(p);
    SidesOfFace(q);
    hide Side, LineIntersection, EdgeEnd;
  }

  lemma RightEdgeCuts()
    ensures var a, b := FACE[1], EdgeEnd(FACE, 1);
            var cut := ClippedByEdge(TURNED, a, b, AUTHORED);
            && PassEscapes(TURNED[3], TURNED, a, b, AUTHORED)
            && ESCAPED in cut && forall v :: v in cut ==> InLastEdges(v)
  {
    hide Emitted, StepEscapes, Pass, PassEscapes, EdgeEnd;
    PassOfFour(TURNED[0], TURNED[1], TURNED[2], TURNED[3], FACE[1], EdgeEnd(FACE, 1), AUTHORED);
    StepInside(TURNED[3], TURNED[0]);
    StepInside(TURNED[0], TURNED[1]);
    StepUp();
    StepAcrossTheTop();
    assert TURNED == [TURNED[0], TURNED[1], TURNED[2], TURNED[3]];
  }

  // ---------------------------------------------------------------------------------------------
  // What the area is
  // ---------------------------------------------------------------------------------------------

  /** The area of a polygon is that of an ear, the triangle of its first three vertices, and of what the cut leaves. */
  lemma EarIsCut(a: Vec2, b: Vec2, c: Vec2, rest: seq<Vec2>)
    ensures DoubledArea([a, b, c] + rest)
            == (b.x - a.x) * (c.y - a.y) - (b.y - a.y) * (c.x - a.x) + DoubledArea([a, c] + rest)
  {
    hide Wedge;
    var last := LastOr(c, rest);
    LastOfBoth([a, b, c], rest);
    LastOfBoth([a, c], rest);
    ChainFirst(last, a, [b, c] + rest);
    ChainFirst(a, b, [c] + rest);
    ChainFirst(b, c, rest);
    ChainFirst(last, a, [c] + rest);
    ChainFirst(a, c, rest);
    assert [a, b, c] + rest == [a] + ([b, c] + rest) && [b, c] + rest == [b] + ([c] + rest);
    assert [a, c] + rest == [a] + ([c] + rest);
    EarWedges(a, b, c);
  }

  lemma ChainFirst(previous: Vec2, p: Vec2, rest: seq<Vec2>)
    ensures Chain(ORIGIN, previous, [p] + rest) == Wedge(ORIGIN, previous, p) + Chain(ORIGIN, p, rest)
  {
    hide Wedge;
    assert ([p] + rest)[1..] == rest;
  }

  lemma LastOfBoth(points: seq<Vec2>, rest: seq<Vec2>)
    requires points != []
    ensures LastOr(ORIGIN, points + rest) == LastOr(points[|points| - 1], rest)
  {
  }

  lemma EarWedges(a: Vec2, b: Vec2, c: Vec2)
    ensures Wedge(ORIGIN, a, b) + Wedge(ORIGIN, b, c) - Wedge(ORIGIN, a, c)
            == (b.x - a.x) * (c.y - a.y) - (b.y - a.y) * (c.x - a.x)
  {
  }

  /** Fewer than three vertices have no area. */
  lemma NoAreaBelowThree(polygon: seq<Vec2>)
    requires |polygon| < 3
    ensures DoubledArea(polygon) == 0.0
  {
    if |polygon| == 1 {
      ChainFirst(polygon[0], polygon[0], []);
      assert polygon == [polygon[0]] + [];
    } else if |polygon| == 2 {
      ChainFirst(polygon[1], polygon[0], [polygon[1]]);
      ChainFirst(polygon[0], polygon[1], []);
      assert polygon == [polygon[0]] + [polygon[1]] && [polygon[1]] == [polygon[1]] + [];
    }
  }
}
