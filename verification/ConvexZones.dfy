// Convex zones: on any strictly convex polygon the even-odd rule of zone_catalog.cpp finds
// exactly the points on the inner side of every edge, slanted or not.
module ConvexZones {
  import opened Common
  import opened Zones

  // ---------------------------------------------------------------- sides of an edge

  /** Positive where `p` lies to the left of the way from `b` to `a`, negative to the right, 0 on the line. */
  function Left(b: Point, a: Point, p: Point): real {
    (a.x - b.x) * (p.y - b.y) - (a.y - b.y) * (p.x - b.x)
  }

  function LeftOf(e: Edge, p: Point): real {
    Left(e.b, e.a, p)
  }

  predicate Up(e: Edge, h: real) {
    e.b.y <= h < e.a.y
  }

  predicate Down(e: Edge, h: real) {
    e.a.y <= h < e.b.y
  }

  /** Where the line through an edge is at height `h`. */
  function FootX(e: Edge, h: real): real
    requires e.a.y != e.b.y
  {
    e.b.x + (e.a.x - e.b.x) * (h - e.b.y) / (e.a.y - e.b.y)
  }

  function Foot(e: Edge, h: real): Point
    requires e.a.y != e.b.y
  {
    Point(FootX(e, h), h)
  }

  lemma FootTimesRise(e: Edge, h: real)
    requires e.a.y != e.b.y
    ensures (e.a.y - e.b.y) * (FootX(e, h) - e.b.x) == (e.a.x - e.b.x) * (h - e.b.y)
  {
    var n, d := (e.a.x - e.b.x) * (h - e.b.y), e.a.y - e.b.y;
    assert n / d * d == n;
  }

  /** At the height of `p`, how far left of the edge it is: its distance from the foot, times the rise. */
  lemma LeftFromFoot(e: Edge, p: Point)
    requires e.a.y != e.b.y
    ensures LeftOf(e, p) == (e.a.y - e.b.y) * (FootX(e, p.y) - p.x)
  {
    FootTimesRise(e, p.y);
    var rise, f := e.a.y - e.b.y, FootX(e, p.y);
    assert rise * (f - p.x) == rise * (f - e.b.x) - rise * (p.x - e.b.x);
  }

  lemma SignOfProduct(k: real, v: real)
    ensures k > 0.0 ==> (k * v > 0.0 <==> v > 0.0) && (k * v < 0.0 <==> v < 0.0)
    ensures k < 0.0 ==> (k * v > 0.0 <==> v < 0.0) && (k * v < 0.0 <==> v > 0.0)
    ensures k != 0.0 ==> (k * v == 0.0 <==> v == 0.0)
  {
  }

  /** Being left of an edge, read off its foot. */
  lemma SideByFoot(e: Edge, p: Point)
    ensures Up(e, p.y) ==> (LeftOf(e, p) > 0.0 <==> p.x < FootX(e, p.y)) && (LeftOf(e, p) < 0.0 <==> p.x > FootX(e, p.y))
    ensures Down(e, p.y) ==> (LeftOf(e, p) > 0.0 <==> p.x > FootX(e, p.y)) && (LeftOf(e, p) < 0.0 <==> p.x < FootX(e, p.y))
  {
    if e.a.y != e.b.y {
      LeftFromFoot(e, p);
      hide FootX, LeftOf;
      SignOfProduct(e.a.y - e.b.y, FootX(e, p.y) - p.x);
    }
  }

  /** A ray to the right crosses the edges that pass its height with the point on their left on the way up, or right on the way down. */
  lemma CrossesBySide(e: Edge, p: Point)
    ensures Crosses(e, p) <==> (Up(e, p.y) && LeftOf(e, p) > 0.0) || (Down(e, p.y) && LeftOf(e, p) < 0.0)
  {
    SideByFoot(e, p);
    if e.a.y != e.b.y {
      SameIntercept(e.a.x, e.a.y, e.b.x, e.b.y, p.y);
      hide LeftOf;
    }
  }

  // ---------------------------------------------------------------- points between points

  /** The foot lies on the edge's line: seen from any other edge it is between the ends in the ratio of their heights. */
  lemma FootIsBetween(g: Edge, e: Edge, h: real)
    requires e.a.y != e.b.y
    ensures (e.a.y - e.b.y) * LeftOf(g, Foot(e, h)) == (h - e.b.y) * LeftOf(g, e.a) + (e.a.y - h) * LeftOf(g, e.b)
  {
    FootTimesRise(e, h);
    var f, rise := FootX(e, h), e.a.y - e.b.y;
    hide FootX;
    var gx, gy := g.a.x - g.b.x, g.a.y - g.b.y;
    assert rise * f == rise * e.b.x + (e.a.x - e.b.x) * (h - e.b.y);
    Combine(gx, gy, g.b.x, g.b.y, e.a.x, e.a.y, e.b.x, e.b.y, f, h, rise);
  }

  lemma Combine(gx: real, gy: real, x0: real, y0: real, px: real, py: real, qx: real, qy: real, f: real, h: real, rise: real)
    requires rise == py - qy && rise * f == rise * qx + (px - qx) * (h - qy)
    ensures rise * (gx * (h - y0) - gy * (f - x0)) ==
            (h - qy) * (gx * (py - y0) - gy * (px - x0)) + (py - h) * (gx * (qy - y0) - gy * (qx - x0))
  {
    assert (h - qy) * (px - x0) + (py - h) * (qx - x0) == rise * f - rise * x0;
    assert (h - qy) * (py - y0) + (py - h) * (qy - y0) == rise * (h - y0);
    Spread(gx, gy, h - qy, py - h, py - y0, qy - y0, px - x0, qx - x0, rise, h - y0, f - x0);
  }

  lemma Spread(gx: real, gy: real, s: real, t: real, ya: real, yb: real, xa: real, xb: real, k: real, y: real, x: real)
    requires s * ya + t * yb == k * y && s * xa + t * xb == k * x
    ensures k * (gx * y - gy * x) == s * (gx * ya - gy * xa) + t * (gx * yb - gy * xb)
  {
    assert k * (gx * y - gy * x) == gx * (k * y) - gy * (k * x);
    assert s * (gx * ya - gy * xa) + t * (gx * yb - gy * xb) == gx * (s * ya + t * yb) - gy * (s * xa + t * xb);
  }

  // ---------------------------------------------------------------- convex polygons

  function EdgeAt(vs: seq<Point>, i: nat): Edge
    requires i < |vs|
  {
    Edge(vs[i], vs[Previous(i, |vs|)])
  }

  /** Every edge has all other vertices on its left: a strictly convex polygon, listed counterclockwise. */
  ghost predicate TurnsLeft(vs: seq<Point>) {
    && |vs| >= 3
    && forall i, k | 0 <= i < |vs| && 0 <= k < |vs| && k != i && k != Previous(i, |vs|) :: LeftOf(EdgeAt(vs, i), vs[k]) > 0.0
  }

  lemma EndsAreOnTheLine(e: Edge)
    ensures LeftOf(e, e.a) == 0.0 && LeftOf(e, e.b) == 0.0
  {
  }

  lemma VertexSide(vs: seq<Point>, i: nat, k: nat)
    requires TurnsLeft(vs) && i < |vs| && k < |vs|
    ensures LeftOf(EdgeAt(vs, i), vs[k]) >= 0.0
    ensures LeftOf(EdgeAt(vs, i), vs[k]) == 0.0 <==> k == i || k == Previous(i, |vs|)
  {
    EndsAreOnTheLine(EdgeAt(vs, i));
    hide LeftOf;
  }

  lemma WeighedSum(k: real, s: real, t: real, x: real, y: real, z: real)
    requires k * z == s * x + t * y && k > 0.0 && s >= 0.0 && t > 0.0 && x >= 0.0 && y >= 0.0
    ensures z >= 0.0 && (z == 0.0 ==> y == 0.0)
  {
    assert s * x >= 0.0 && t * y >= 0.0;
    if y > 0.0 {
      assert t * y > 0.0;
    }
  }

  /** The end of an edge that lies at or below the height. */
  function LowEnd(vs: seq<Point>, j: nat, h: real): nat
    requires j < |vs|
  {
    if Up(EdgeAt(vs, j), h) then Previous(j, |vs|) else j
  }

  /** The foot of an edge that passes a height is on the inner side of every edge; on its line only if the low end is. */
  lemma FootSide(vs: seq<Point>, i: nat, j: nat, h: real)
    requires TurnsLeft(vs) && i < |vs| && j < |vs| && (Up(EdgeAt(vs, j), h) || Down(EdgeAt(vs, j), h))
    ensures LeftOf(EdgeAt(vs, i), Foot(EdgeAt(vs, j), h)) >= 0.0
    ensures LeftOf(EdgeAt(vs, i), Foot(EdgeAt(vs, j), h)) == 0.0 ==> LowEnd(vs, j, h) == i || LowEnd(vs, j, h) == Previous(i, |vs|)
  {
    var g, e := EdgeAt(vs, i), EdgeAt(vs, j);
    FootIsBetween(g, e, h);
    VertexSide(vs, i, j);
    VertexSide(vs, i, Previous(j, |vs|));
    hide LeftOf, Foot, TurnsLeft;
    var z, x, y := LeftOf(g, Foot(e, h)), LeftOf(g, e.a), LeftOf(g, e.b);
    if Up(e, h) {
      WeighedSum(e.a.y - e.b.y, h - e.b.y, e.a.y - h, x, y, z);
    } else {
      assert (e.b.y - e.a.y) * z == (h - e.a.y) * y + (e.b.y - h) * x;
      WeighedSum(e.b.y - e.a.y, h - e.a.y, e.b.y - h, y, x, z);
    }
  }

  lemma FootIsOnTheLine(e: Edge, h: real)
    requires e.a.y != e.b.y
    ensures LeftOf(e, Foot(e, h)) == 0.0
  {
    LeftFromFoot(e, Foot(e, h));
  }

  /** At every height, a convex polygon has at most one edge on its way up and one on its way down. */
  lemma OneEdgeEachWay(vs: seq<Point>, i: nat, j: nat, h: real)
    requires TurnsLeft(vs) && i < |vs| && j < |vs|
    ensures Up(EdgeAt(vs, i), h) && Up(EdgeAt(vs, j), h) ==> i == j
    ensures Down(EdgeAt(vs, i), h) && Down(EdgeAt(vs, j), h) ==> i == j
  {
    var e, g := EdgeAt(vs, i), EdgeAt(vs, j);
    hide FootX, LeftOf, TurnsLeft;
    if (Up(e, h) && Up(g, h)) || (Down(e, h) && Down(g, h)) {
      FootSide(vs, i, j, h);
      FootSide(vs, j, i, h);
      SideByFoot(e, Foot(g, h));
      SideByFoot(g, Foot(e, h));
    }
  }

  /** The edge on its way down is to the left of the one on its way up. */
  lemma DownIsLeftOfUp(vs: seq<Point>, u: nat, d: nat, h: real)
    requires TurnsLeft(vs) && u < |vs| && d < |vs| && Up(EdgeAt(vs, u), h) && Down(EdgeAt(vs, d), h)
    ensures FootX(EdgeAt(vs, d), h) <= FootX(EdgeAt(vs, u), h)
  {
    FootSide(vs, u, d, h);
    SideByFoot(EdgeAt(vs, u), Foot(EdgeAt(vs, d), h));
  }

  // ---------------------------------------------------------------- points on an edge

  lemma CrossIsSide(e: Edge, p: Point)
    ensures Cross(e, p) == -LeftOf(e, p)
  {
  }

  function Part(d: real, t: real): real {
    t * d
  }

  /** The point of an edge's segment at the share `t` of the way. */
  function PointOn(e: Edge, t: real): Point {
    Point(e.b.x + Part(e.a.x - e.b.x, t), e.b.y + Part(e.a.y - e.b.y, t))
  }

  /** Every point of the closed segment of an edge is on the edge. */
  lemma SegmentIsOnEdge(e: Edge, t: real)
    requires 0.0 <= t <= 1.0
    ensures OnEdge(e, PointOn(e, t))
  {
    CrossIsSide(e, PointOn(e, t));
    hide Cross, Part;
    ShareIsOnTheLine(e, t);
    hide LeftOf;
    WithinEnds(e.b.x, e.a.x - e.b.x, t);
    WithinEnds(e.b.y, e.a.y - e.b.y, t);
  }

  lemma ShareIsOnTheLine(e: Edge, t: real)
    ensures LeftOf(e, PointOn(e, t)) == 0.0
  {
    var dx, dy := e.a.x - e.b.x, e.a.y - e.b.y;
    PartsCommute(dx, dy, t);
    hide Part, LeftOf;
    SideOfOffset(e, PointOn(e, t), Part(dx, t), Part(dy, t));
  }

  lemma SideOfOffset(e: Edge, p: Point, x: real, y: real)
    requires p.x == e.b.x + x && p.y == e.b.y + y
    ensures LeftOf(e, p) == (e.a.x - e.b.x) * y - (e.a.y - e.b.y) * x
  {
    assert p.x - e.b.x == x && p.y - e.b.y == y;
  }

  lemma PartsCommute(dx: real, dy: real, t: real)
    ensures dx * Part(dy, t) == dy * Part(dx, t)
  {
  }

  lemma WithinEnds(b: real, d: real, t: real)
    requires 0.0 <= t <= 1.0
    ensures Min(b + d, b) <= b + Part(d, t) <= Max(b + d, b)
  {
    assert (1.0 - t) * d == d - t * d;
    SignOfProduct(d, t);
    SignOfProduct(d, 1.0 - t);
  }

  lemma Share(n: real, d: real) returns (t: real)
    requires d != 0.0 && (0.0 <= n <= d || d <= n <= 0.0)
    ensures 0.0 <= t <= 1.0 && t == n / d && t * d == n
  {
    t := n / d;
    assert t * d == n;
    SignOfProduct(d, t);
    SignOfProduct(d, 1.0 - t);
    assert d * (1.0 - t) == d - n;
  }

  /** The foot of an edge that passes a height is on that edge. */
  lemma FootIsOnEdge(e: Edge, h: real)
    requires Up(e, h) || Down(e, h)
    ensures OnEdge(e, Foot(e, h))
  {
    var t := Share(h - e.b.y, e.a.y - e.b.y);
    ShareOfWidth(e, h, t);
    hide FootX, OnEdge, Part;
    SegmentIsOnEdge(e, t);
    assert Foot(e, h) == PointOn(e, t);
  }

  lemma ShareOfWidth(e: Edge, h: real, t: real)
    requires e.a.y != e.b.y && t * (e.a.y - e.b.y) == h - e.b.y
    ensures FootX(e, h) == e.b.x + Part(e.a.x - e.b.x, t) && h == e.b.y + Part(e.a.y - e.b.y, t)
  {
    FootTimesRise(e, h);
    var f, rise, dx := FootX(e, h), e.a.y - e.b.y, e.a.x - e.b.x;
    PartsCommute(dx, rise, t);
    assert Part(rise, t) == h - e.b.y;
    hide FootX, Part;
    SignOfProduct(rise, (f - e.b.x) - Part(dx, t));
    assert rise * ((f - e.b.x) - Part(dx, t)) == rise * (f - e.b.x) - rise * Part(dx, t);
  }

  // ---------------------------------------------------------------- edges that pass a height

  predicate Above(p: Point, h: real) {
    p.y > h
  }

  /** The edge into vertex `i` leaves the side `above` of a height. */
  predicate Leaves(vs: seq<Point>, i: nat, h: real, above: bool)
    requires i < |vs|
  {
    Above(vs[Previous(i, |vs|)], h) == above && Above(vs[i], h) != above
  }

  lemma LeavesIsUpOrDown(vs: seq<Point>, i: nat, h: real)
    requires i < |vs|
    ensures Leaves(vs, i, h, false) <==> Up(EdgeAt(vs, i), h)
    ensures Leaves(vs, i, h, true) <==> Down(EdgeAt(vs, i), h)
  {
  }

  lemma {:induction false} StaysOnItsSide(vs: seq<Point>, i: nat, k: nat, h: real, above: bool)
    requires i <= k < |vs| && Above(vs[i], h) == above && forall j | 0 <= j < |vs| :: !Leaves(vs, j, h, above)
    ensures Above(vs[k], h) == above
  {
    if i < k {
      StaysOnItsSide(vs, i, k - 1, h, above);
      assert !Leaves(vs, k, h, above);
    }
  }

  /** A closed outline that passes a height one way passes it the other way too. */
  lemma ComesBack(vs: seq<Point>, i: nat, h: real, above: bool) returns (j: nat)
    requires i < |vs| && Leaves(vs, i, h, above)
    ensures j < |vs| && Leaves(vs, j, h, !above)
  {
    var other := !above;
    if forall k | 0 <= k < |vs| :: !Leaves(vs, k, h, other) {
      StaysOnItsSide(vs, i, |vs| - 1, h, other);
      if i > 0 {
        assert !Leaves(vs, 0, h, other);
        StaysOnItsSide(vs, 0, i - 1, h, other);
      }
      assert false;
    } else {
      j :| 0 <= j < |vs| && Leaves(vs, j, h, other);
    }
  }

  // ---------------------------------------------------------------- counting the crossings

  function Counted(es: seq<Edge>, i: int, p: Point): nat {
    if 0 <= i < |es| && Crosses(es[i], p) then 1 else 0
  }

  lemma {:induction false} OnlyTwoCross(es: seq<Edge>, p: Point, u: int, d: int)
    requires u != d && forall k | 0 <= k < |es| && k != u && k != d :: !Crosses(es[k], p)
    ensures Crossings(es, p) == Counted(es, u, p) + Counted(es, d, p)
  {
    hide Crosses;
    if es != [] {
      OnlyTwoCross(es[1..], p, u - 1, d - 1);
    }
  }

  lemma EdgesAre(vs: seq<Point>)
    ensures |Edges(vs)| == |vs| && forall i | 0 <= i < |vs| :: Edges(vs)[i] == EdgeAt(vs, i)
  {
  }

  lemma NoOtherCrosses(vs: seq<Point>, p: Point, u: nat, d: nat)
    requires TurnsLeft(vs) && u < |vs| && d < |vs| && Up(EdgeAt(vs, u), p.y) && Down(EdgeAt(vs, d), p.y)
    ensures u != d && forall k | 0 <= k < |vs| && k != u && k != d :: !Crosses(EdgeAt(vs, k), p)
  {
    hide Crosses, LeftOf, TurnsLeft;
    forall k | 0 <= k < |vs| && k != u && k != d ensures !Crosses(EdgeAt(vs, k), p) {
      CrossesBySide(EdgeAt(vs, k), p);
      OneEdgeEachWay(vs, k, u, p.y);
      OneEdgeEachWay(vs, k, d, p.y);
    }
  }

  /** With one edge up and one down at its height, a point crosses an odd number exactly between their feet. */
  lemma OddBetweenTheFeet(vs: seq<Point>, p: Point, u: nat, d: nat)
    requires TurnsLeft(vs) && u < |vs| && d < |vs| && Up(EdgeAt(vs, u), p.y) && Down(EdgeAt(vs, d), p.y)
    ensures Crossings(Edges(vs), p) % 2 == 1 <==> FootX(EdgeAt(vs, d), p.y) <= p.x < FootX(EdgeAt(vs, u), p.y)
  {
    EdgesAre(vs);
    DownIsLeftOfUp(vs, u, d, p.y);
    NoOtherCrosses(vs, p, u, d);
    hide Crosses, LeftOf, FootX, TurnsLeft, Edges;
    OnlyTwoCross(Edges(vs), p, u, d);
    CrossesBySide(EdgeAt(vs, u), p);
    CrossesBySide(EdgeAt(vs, d), p);
    SideByFoot(EdgeAt(vs, u), p);
    SideByFoot(EdgeAt(vs, d), p);
  }

  /** A point whose height no edge passes crosses none. */
  lemma NoneAtThisHeight(vs: seq<Point>, p: Point)
    requires forall i | 0 <= i < |vs| :: !Up(EdgeAt(vs, i), p.y) && !Down(EdgeAt(vs, i), p.y)
    ensures Crossings(Edges(vs), p) == 0
  {
    EdgesAre(vs);
    hide Crosses, Edges;
    forall k | 0 <= k < |vs| ensures !Crosses(Edges(vs)[k], p) {
      CrossesBySide(EdgeAt(vs, k), p);
    }
    OnlyTwoCross(Edges(vs), p, -1, -2);
  }

  // ---------------------------------------------------------------- inside means on the inner side of every edge

  /** Strictly to the left of every edge. */
  ghost predicate LeftOfAll(vs: seq<Point>, p: Point) {
    forall i | 0 <= i < |vs| :: LeftOf(EdgeAt(vs, i), p) > 0.0
  }

  lemma AlongTheHeight(g: Edge, x0: real, x1: real, p: Point)
    ensures (x1 - x0) * LeftOf(g, p) == (x1 - p.x) * LeftOf(g, Point(x0, p.y)) + (p.x - x0) * LeftOf(g, Point(x1, p.y))
    ensures LeftOf(g, Point(x1, p.y)) - LeftOf(g, Point(x0, p.y)) == (g.b.y - g.a.y) * (x1 - x0)
  {
    var gy, c := g.a.y - g.b.y, (g.a.x - g.b.x) * (p.y - g.b.y) + (g.a.y - g.b.y) * g.b.x;
    SideIsLinear(g, p, gy, c);
    SideIsLinear(g, Point(x0, p.y), gy, c);
    SideIsLinear(g, Point(x1, p.y), gy, c);
    hide LeftOf;
    assert (x1 - p.x) * (c - gy * x0) + (p.x - x0) * (c - gy * x1) == (x1 - x0) * (c - gy * p.x);
  }

  lemma SideIsLinear(g: Edge, p: Point, gy: real, c: real)
    requires gy == g.a.y - g.b.y && c == (g.a.x - g.b.x) * (p.y - g.b.y) + gy * g.b.x
    ensures LeftOf(g, p) == c - gy * p.x
  {
  }

  function Following(i: nat, n: nat): nat
    requires i < n
  {
    if i + 1 < n then i + 1 else 0
  }

  /** A horizontal edge is not a single point, and lies at the height of any point on its line. */
  lemma HorizontalEdge(vs: seq<Point>, i: nat, q: Point)
    requires TurnsLeft(vs) && i < |vs| && EdgeAt(vs, i).a.y == EdgeAt(vs, i).b.y && LeftOf(EdgeAt(vs, i), q) == 0.0
    ensures q.y == EdgeAt(vs, i).a.y
  {
    var g, k := EdgeAt(vs, i), Following(i, |vs|);
    assert LeftOf(g, vs[k]) > 0.0;
    NotAPoint(g, vs[k]);
    assert (g.a.x - g.b.x) * (q.y - g.b.y) == 0.0;
    SignOfProduct(g.a.x - g.b.x, q.y - g.b.y);
  }

  lemma NotAPoint(e: Edge, q: Point)
    requires LeftOf(e, q) > 0.0
    ensures e.a != e.b
  {
  }

  /** Where the low end of an edge is at the height, it is the foot. */
  lemma FootIsLowEnd(vs: seq<Point>, j: nat, h: real)
    requires j < |vs| && (Up(EdgeAt(vs, j), h) || Down(EdgeAt(vs, j), h)) && vs[LowEnd(vs, j, h)].y == h
    ensures Foot(EdgeAt(vs, j), h) == vs[LowEnd(vs, j, h)]
  {
    var e := EdgeAt(vs, j);
    FootTimesRise(e, h);
    var f, rise, dx := FootX(e, h), e.a.y - e.b.y, e.a.x - e.b.x;
    hide FootX;
    SignOfProduct(rise, f - e.b.x);
    SignOfProduct(rise, f - e.b.x - dx);
    assert rise * (f - e.b.x - dx) == rise * (f - e.b.x) - rise * dx;
    if Up(e, h) {
      assert dx * (h - e.b.y) == 0.0;
    } else {
      assert rise * (f - e.b.x) == rise * dx;
    }
  }

  lemma OnHorizontalEdge(e: Edge, p: Point)
    requires e.a.y == e.b.y == p.y && (e.a.x < p.x < e.b.x || e.b.x < p.x < e.a.x)
    ensures OnEdge(e, p)
  {
    CrossIsSide(e, p);
    assert LeftOf(e, p) == 0.0;
    hide Cross, LeftOf;
  }

  /** A point strictly between the two feet that is on no edge is strictly left of every edge. */
  lemma BetweenTheFeet(vs: seq<Point>, p: Point, u: nat, d: nat, i: nat)
    requires TurnsLeft(vs) && u < |vs| && d < |vs| && i < |vs| && Up(EdgeAt(vs, u), p.y) && Down(EdgeAt(vs, d), p.y)
    requires FootX(EdgeAt(vs, d), p.y) < p.x < FootX(EdgeAt(vs, u), p.y) && !OnEdge(EdgeAt(vs, i), p)
    ensures LeftOf(EdgeAt(vs, i), p) > 0.0
  {
    hide LeftOf, FootX, OnEdge, TurnsLeft;
    var g, l, r := EdgeAt(vs, i), Foot(EdgeAt(vs, d), p.y), Foot(EdgeAt(vs, u), p.y);
    FootSide(vs, i, d, p.y);
    FootSide(vs, i, u, p.y);
    AlongTheHeight(g, l.x, r.x, p);
    WeighedSum(r.x - l.x, r.x - p.x, p.x - l.x, LeftOf(g, l), LeftOf(g, r), LeftOf(g, p));
    WeighedSum(r.x - l.x, p.x - l.x, r.x - p.x, LeftOf(g, r), LeftOf(g, l), LeftOf(g, p));
    if LeftOf(g, p) == 0.0 {
      SignOfProduct(r.x - l.x, g.b.y - g.a.y);
      HorizontalEdge(vs, i, p);
      FootIsLowEnd(vs, d, p.y);
      FootIsLowEnd(vs, u, p.y);
      OnHorizontalEdge(g, p);
    }
  }

  lemma LeftBetweenTheFeet(vs: seq<Point>, p: Point, u: nat, d: nat)
    requires TurnsLeft(vs) && u < |vs| && d < |vs| && Up(EdgeAt(vs, u), p.y) && Down(EdgeAt(vs, d), p.y)
    requires forall i | 0 <= i < |vs| :: !OnEdge(EdgeAt(vs, i), p)
    ensures LeftOfAll(vs, p) <==> FootX(EdgeAt(vs, d), p.y) <= p.x < FootX(EdgeAt(vs, u), p.y)
  {
    hide LeftOf, FootX, OnEdge, TurnsLeft;
    SideByFoot(EdgeAt(vs, u), p);
    SideByFoot(EdgeAt(vs, d), p);
    FootIsOnEdge(EdgeAt(vs, d), p.y);
    assert p == Foot(EdgeAt(vs, d), p.y) <==> p.x == FootX(EdgeAt(vs, d), p.y);
    if FootX(EdgeAt(vs, d), p.y) < p.x < FootX(EdgeAt(vs, u), p.y) {
      forall i | 0 <= i < |vs| ensures LeftOf(EdgeAt(vs, i), p) > 0.0 {
        BetweenTheFeet(vs, p, u, d, i);
      }
    }
  }

  // ---------------------------------------------------------------- heights the polygon does not reach

  /** A point inside the corner at `v` is above it if both neighbours are not below, and below it if both are not above. */
  lemma Corner(b: Point, v: Point, a: Point, p: Point)
    requires Left(b, v, p) > 0.0 && Left(v, a, p) > 0.0 && Left(b, v, a) > 0.0
    ensures a.y >= v.y && b.y >= v.y ==> p.y > v.y
    ensures a.y <= v.y && b.y <= v.y ==> p.y < v.y
  {
    var ay, be, py := a.y - v.y, b.y - v.y, p.y - v.y;
    var k, s, t := Left(b, v, a), Left(b, v, p), Left(v, a, p);
    CornerSides(b, v, a, p);
    assert ay == 0.0 && be == 0.0 ==> k == 0.0;
    hide Left;
    if ay >= 0.0 && be >= 0.0 {
      WeighedSum(k, s, t, ay, be, py);
      WeighedSum(k, t, s, be, ay, py);
    }
    if ay <= 0.0 && be <= 0.0 {
      assert k * -py == s * -ay + t * -be;
      WeighedSum(k, s, t, -ay, -be, -py);
      WeighedSum(k, t, s, -be, -ay, -py);
    }
  }

  lemma CornerSides(b: Point, v: Point, a: Point, p: Point)
    ensures Left(b, v, a) * (p.y - v.y) == Left(b, v, p) * (a.y - v.y) + Left(v, a, p) * (b.y - v.y)
    ensures Left(b, v, a) == (a.x - v.x) * (b.y - v.y) - (a.y - v.y) * (b.x - v.x)
  {
    SeenFromCorner(b, v, a);
    SeenFromCorner(b, v, p);
    hide Left;
    var ax, ay, bx, be, px, py := a.x - v.x, a.y - v.y, b.x - v.x, b.y - v.y, p.x - v.x, p.y - v.y;
    assert Left(v, a, p) == ax * py - ay * px by {
      SeenFromStart(v, a, p);
    }
    Solve(ax, ay, bx, be, px, py);
  }

  lemma SeenFromCorner(b: Point, v: Point, q: Point)
    ensures Left(b, v, q) == (q.x - v.x) * (b.y - v.y) - (q.y - v.y) * (b.x - v.x)
  {
  }

  lemma SeenFromStart(v: Point, a: Point, q: Point)
    ensures Left(v, a, q) == (a.x - v.x) * (q.y - v.y) - (a.y - v.y) * (q.x - v.x)
  {
  }

  lemma Solve(ax: real, ay: real, bx: real, be: real, px: real, py: real)
    ensures (ax * be - ay * bx) * py == (px * be - py * bx) * ay + (ax * py - ay * px) * be
  {
  }

  lemma {:induction false} LowestVertex(vs: seq<Point>) returns (k: nat)
    requires vs != []
    ensures k < |vs| && forall i | 0 <= i < |vs| :: vs[k].y <= vs[i].y
  {
    k := 0;
    if |vs| > 1 {
      var j := LowestVertex(vs[1..]);
      assert forall i | 0 < i < |vs| :: vs[i] == vs[1..][i - 1];
      if vs[j + 1].y < vs[0].y {
        k := j + 1;
      }
    }
  }

  lemma {:induction false} HighestVertex(vs: seq<Point>) returns (k: nat)
    requires vs != []
    ensures k < |vs| && forall i | 0 <= i < |vs| :: vs[i].y <= vs[k].y
  {
    k := 0;
    if |vs| > 1 {
      var j := HighestVertex(vs[1..]);
      assert forall i | 0 < i < |vs| :: vs[i] == vs[1..][i - 1];
      if vs[0].y < vs[j + 1].y {
        k := j + 1;
      }
    }
  }

  lemma InsideCorner(vs: seq<Point>, p: Point, k: nat)
    requires TurnsLeft(vs) && LeftOfAll(vs, p) && k < |vs|
    ensures (forall i | 0 <= i < |vs| :: vs[k].y <= vs[i].y) ==> p.y > vs[k].y
    ensures (forall i | 0 <= i < |vs| :: vs[i].y <= vs[k].y) ==> p.y < vs[k].y
  {
    var m := Following(k, |vs|);
    assert LeftOf(EdgeAt(vs, k), p) > 0.0 && LeftOf(EdgeAt(vs, m), p) > 0.0 && LeftOf(EdgeAt(vs, k), vs[m]) > 0.0;
    hide Left;
    Corner(vs[Previous(k, |vs|)], vs[k], vs[m], p);
  }

  /** A point that is above all vertices, or not above any, is not on the inner side of every edge. */
  lemma OutsideTheHeights(vs: seq<Point>, p: Point)
    requires TurnsLeft(vs)
    requires forall i | 0 <= i < |vs| :: !Up(EdgeAt(vs, i), p.y) && !Down(EdgeAt(vs, i), p.y)
    ensures !LeftOfAll(vs, p)
  {
    hide LeftOfAll;
    var low := LowestVertex(vs);
    var high := HighestVertex(vs);
    forall i | 0 <= i < |vs| ensures !Leaves(vs, i, p.y, false) && !Leaves(vs, i, p.y, true) {
      LeavesIsUpOrDown(vs, i, p.y);
    }
    StaysOnItsSide(vs, 0, low, p.y, Above(vs[0], p.y));
    StaysOnItsSide(vs, 0, high, p.y, Above(vs[0], p.y));
    if LeftOfAll(vs, p) {
      InsideCorner(vs, p, low);
      InsideCorner(vs, p, high);
    }
  }

  // ---------------------------------------------------------------- convex zones

  /** Off its edges, a counterclockwise convex polygon is crossed an odd number of times exactly from the inner side of all edges. */
  lemma OddMeansLeftOfAll(vs: seq<Point>, p: Point)
    requires TurnsLeft(vs) && forall i | 0 <= i < |vs| :: !OnEdge(EdgeAt(vs, i), p)
    ensures Crossings(Edges(vs), p) % 2 == 1 <==> LeftOfAll(vs, p)
  {
    hide LeftOfAll, TurnsLeft, OnEdge, Up, Down, FootX, Crossings, Edges;
    if i :| 0 <= i < |vs| && (Up(EdgeAt(vs, i), p.y) || Down(EdgeAt(vs, i), p.y)) {
      var u, d := BothWays(vs, i, p.y);
      OddBetweenTheFeet(vs, p, u, d);
      LeftBetweenTheFeet(vs, p, u, d);
    } else {
      NoneAtThisHeight(vs, p);
      OutsideTheHeights(vs, p);
    }
  }

  lemma BothWays(vs: seq<Point>, i: nat, h: real) returns (u: nat, d: nat)
    requires i < |vs| && (Up(EdgeAt(vs, i), h) || Down(EdgeAt(vs, i), h))
    ensures u < |vs| && d < |vs| && Up(EdgeAt(vs, u), h) && Down(EdgeAt(vs, d), h)
  {
    hide Up, Down, Leaves;
    LeavesIsUpOrDown(vs, i, h);
    if Up(EdgeAt(vs, i), h) {
      u := i;
      d := ComesBack(vs, i, h, false);
      LeavesIsUpOrDown(vs, d, h);
    } else {
      d := i;
      u := ComesBack(vs, i, h, true);
      LeavesIsUpOrDown(vs, u, h);
    }
  }

  /** The same polygon listed clockwise. */
  ghost predicate TurnsRight(vs: seq<Point>) {
    && |vs| >= 3
    && forall i, k | 0 <= i < |vs| && 0 <= k < |vs| && k != i && k != Previous(i, |vs|) :: LeftOf(EdgeAt(vs, i), vs[k]) < 0.0
  }

  ghost predicate RightOfAll(vs: seq<Point>, p: Point) {
    forall i | 0 <= i < |vs| :: LeftOf(EdgeAt(vs, i), p) < 0.0
  }

  /** The edge of the vertex list that the `i`-th edge of the reversed list is. */
  function Mirror(i: nat, n: nat): nat
    requires i < n
  {
    if i == 0 then 0 else n - i
  }

  lemma FlippedSide(e: Edge, p: Point)
    ensures LeftOf(Flip(e), p) == -LeftOf(e, p)
  {
    CrossIsSide(e, p);
    CrossIsSide(Flip(e), p);
    FlippedCross(e, p);
    hide Cross, LeftOf;
  }

  lemma MirroredEdge(vs: seq<Point>, i: nat)
    requires i < |vs|
    ensures EdgeAt(Reversed(vs), i) == Flip(EdgeAt(vs, Mirror(i, |vs|))) && Mirror(Mirror(i, |vs|), |vs|) == i
  {
  }

  lemma MirroredSide(vs: seq<Point>, i: nat, p: Point)
    requires i < |vs|
    ensures LeftOf(EdgeAt(Reversed(vs), i), p) == -LeftOf(EdgeAt(vs, Mirror(i, |vs|)), p)
    ensures OnEdge(EdgeAt(Reversed(vs), i), p) <==> OnEdge(EdgeAt(vs, Mirror(i, |vs|)), p)
  {
    hide LeftOf, OnEdge;
    MirroredEdge(vs, i);
    FlippedSide(EdgeAt(vs, Mirror(i, |vs|)), p);
    FlippedOnEdge(EdgeAt(vs, Mirror(i, |vs|)), p);
  }

  lemma ReversedTurnsLeft(vs: seq<Point>)
    requires TurnsRight(vs)
    ensures TurnsLeft(Reversed(vs))
  {
    hide LeftOf;
    var rs, n := Reversed(vs), |vs|;
    forall i, k | 0 <= i < n && 0 <= k < n && k != i && k != Previous(i, n)
      ensures LeftOf(EdgeAt(rs, i), rs[k]) > 0.0
    {
      MirroredSide(vs, i, rs[k]);
      assert rs[k] == vs[n - 1 - k];
    }
  }

  lemma ReversedSides(vs: seq<Point>, p: Point)
    ensures LeftOfAll(Reversed(vs), p) <==> RightOfAll(vs, p)
    ensures (exists i | 0 <= i < |vs| :: OnEdge(EdgeAt(Reversed(vs), i), p)) <==>
            (exists i | 0 <= i < |vs| :: OnEdge(EdgeAt(vs, i), p))
  {
    hide LeftOf, OnEdge;
    forall i | 0 <= i < |vs|
      ensures LeftOf(EdgeAt(Reversed(vs), i), p) == -LeftOf(EdgeAt(vs, Mirror(i, |vs|)), p)
      ensures LeftOf(EdgeAt(Reversed(vs), Mirror(i, |vs|)), p) == -LeftOf(EdgeAt(vs, i), p)
      ensures OnEdge(EdgeAt(Reversed(vs), i), p) <==> OnEdge(EdgeAt(vs, Mirror(i, |vs|)), p)
      ensures OnEdge(EdgeAt(Reversed(vs), Mirror(i, |vs|)), p) <==> OnEdge(EdgeAt(vs, i), p)
    {
      MirroredEdge(vs, i);
      MirroredSide(vs, i, p);
      MirroredSide(vs, Mirror(i, |vs|), p);
    }
  }

  /** Within the tolerance of some edge. */
  ghost predicate OnBoundary(vs: seq<Point>, p: Point) {
    exists i | 0 <= i < |vs| :: OnEdge(EdgeAt(vs, i), p)
  }

  lemma TouchesBoundary(vs: seq<Point>, p: Point)
    ensures Touches(Edges(vs), p) <==> OnBoundary(vs, p)
  {
    hide OnEdge;
    EdgesAre(vs);
  }

  lemma ConvexInside(vs: seq<Point>, p: Point)
    ensures TurnsLeft(vs) ==> (Inside(vs, p) <==> OnBoundary(vs, p) || LeftOfAll(vs, p))
    ensures TurnsRight(vs) ==> (Inside(vs, p) <==> OnBoundary(vs, p) || RightOfAll(vs, p))
  {
    hide TurnsLeft, TurnsRight, LeftOfAll, RightOfAll, Touches, Crossings, Edges, OnEdge;
    var rs := Reversed(vs);
    TouchesBoundary(vs, p);
    TouchesBoundary(rs, p);
    if TurnsLeft(vs) && !OnBoundary(vs, p) {
      OddMeansLeftOfAll(vs, p);
    }
    if TurnsRight(vs) {
      ReversedTurnsLeft(vs);
      ReversedSides(vs, p);
      InsideIgnoresOrientation(vs, p);
      if !OnBoundary(rs, p) {
        OddMeansLeftOfAll(rs, p);
      }
    }
  }

  /**
   * A zone whose outline is strictly convex contains a point exactly when the point is within tolerance of an edge or
   * strictly on the inner side of every edge: left of all if the outline is listed counterclockwise, right if clockwise.
   */
  lemma ConvexZoneContains(zone: Zone, p: Point)
    requires IsPolygon(zone)
    ensures var vs := Vertices(zone);
      && (TurnsLeft(vs) ==> (ContainsPoint(zone, Finite(p.x), Finite(p.y)) <==> OnBoundary(vs, p) || LeftOfAll(vs, p)))
      && (TurnsRight(vs) ==> (ContainsPoint(zone, Finite(p.x), Finite(p.y)) <==> OnBoundary(vs, p) || RightOfAll(vs, p)))
  {
    hide TurnsLeft, TurnsRight, LeftOfAll, RightOfAll, OnBoundary, Inside, ContainsPoint;
    ContainsPointIsEvenOdd(zone, p);
    ConvexInside(Vertices(zone), p);
  }

  // ---------------------------------------------------------------- triangles

  lemma TriangleEdges(a: Point, b: Point, c: Point)
    ensures var vs := [a, b, c];
      EdgeAt(vs, 0) == Edge(a, c) && EdgeAt(vs, 1) == Edge(b, a) && EdgeAt(vs, 2) == Edge(c, b)
  {
  }

  /** Each vertex of a triangle lies on the same side of the opposite edge. */
  lemma SameTurn(a: Point, b: Point, c: Point)
    ensures Left(a, b, c) == Left(b, c, a) == Left(c, a, b)
  {
    SeenFromCorner(a, b, c);
    SeenFromStart(b, c, a);
    SeenFromCorner(c, a, b);
    SeenFromStart(a, b, c);
    hide Left;
  }

  lemma TriangleTurns(a: Point, b: Point, c: Point)
    ensures Left(a, b, c) > 0.0 ==> TurnsLeft([a, b, c])
    ensures Left(a, b, c) < 0.0 ==> TurnsRight([a, b, c])
  {
    SameTurn(a, b, c);
    TriangleEdges(a, b, c);
    hide Left;
  }

  /**
   * A zone that lists a triangle which is not flat, in either orientation, contains a point exactly when the point is
   * within tolerance of a side or strictly on the inner side of all three.
   */
  lemma TriangleZoneContains(zone: Zone, a: Point, b: Point, c: Point, p: Point)
    requires IsPolygon(zone) && Vertices(zone) == [a, b, c] && Left(a, b, c) != 0.0
    ensures ContainsPoint(zone, Finite(p.x), Finite(p.y)) <==>
            || OnEdge(Edge(a, c), p) || OnEdge(Edge(b, a), p) || OnEdge(Edge(c, b), p)
            || (if Left(a, b, c) > 0.0 then Left(a, b, p) > 0.0 && Left(b, c, p) > 0.0 && Left(c, a, p) > 0.0
                else Left(a, b, p) < 0.0 && Left(b, c, p) < 0.0 && Left(c, a, p) < 0.0)
  {
    hide Left, OnEdge, ContainsPoint, TurnsLeft, TurnsRight;
    TriangleTurns(a, b, c);
    TriangleEdges(a, b, c);
    ConvexZoneContains(zone, p);
  }

  /** A concrete zone with a slanted side, from (0, 0) to (4, 4): it contains (1, 0.5), below that side, and not (0.5, 1), above it. */
  lemma SlantedZone()
    ensures var zone := Zone("z", "m", "keepout", "map", true, 0.0,
                             [Finite(0.0), Finite(4.0), Finite(4.0)], [Finite(0.0), Finite(0.0), Finite(4.0)]);
      ContainsPoint(zone, Finite(1.0), Finite(0.5)) && !ContainsPoint(zone, Finite(0.5), Finite(1.0))
  {
    var zone := Zone("z", "m", "keepout", "map", true, 0.0,
                     [Finite(0.0), Finite(4.0), Finite(4.0)], [Finite(0.0), Finite(0.0), Finite(4.0)]);
    var a, b, c := Point(0.0, 0.0), Point(4.0, 0.0), Point(4.0, 4.0);
    assert Vertices(zone) == [a, b, c];
    hide ContainsPoint, Scan;
    TriangleZoneContains(zone, a, b, c, Point(1.0, 0.5));
    TriangleZoneContains(zone, a, b, c, Point(0.5, 1.0));
  }

  // ---------------------------------------------------------------- the boundary of any polygon

  /** Every polygon contains the whole of its outline, slanted sides included. */
  lemma OutlineIsContained(zone: Zone, i: nat, t: real)
    requires IsPolygon(zone) && i < |zone.xs| && 0.0 <= t <= 1.0
    ensures var q := PointOn(EdgeAt(Vertices(zone), i), t); ContainsPoint(zone, Finite(q.x), Finite(q.y))
  {
    hide ContainsPoint, OnEdge, PointOn, Crossings;
    var vs := Vertices(zone);
    var q := PointOn(EdgeAt(vs, i), t);
    ContainsPointIsEvenOdd(zone, q);
    SegmentIsOnEdge(EdgeAt(vs, i), t);
    TouchesBoundary(vs, q);
  }

  function SquaredLength(e: Edge): real {
    var dx, dy := e.a.x - e.b.x, e.a.y - e.b.y;
    dx * dx + dy * dy
  }

  /** A point counted as on an edge is within the tolerance of its line, or of the tolerance over the length for an edge shorter than 1. */
  lemma OnEdgeMeansNear(e: Edge, p: Point)
    requires OnEdge(e, p)
    ensures LeftOf(e, p) * LeftOf(e, p) <= TOLERANCE * TOLERANCE * Max(1.0, SquaredLength(e))
  {
    hide OnEdge, LeftOf, Scale, Max, SquaredLength;
    OnEdgeBound(e, p);
    ScaleIsAtMostLength(e);
    BoundedSquare(LeftOf(e, p), TOLERANCE, Scale(e), Max(1.0, SquaredLength(e)));
  }

  lemma BoundedSquare(c: real, tolerance: real, s: real, m: real)
    requires Abs(c) <= tolerance * s && s * s <= m
    ensures c * c <= tolerance * tolerance * m
  {
    SquareOfBound(c, tolerance * s);
    var k := tolerance * tolerance;
    assert (tolerance * s) * (tolerance * s) == k * (s * s);
    assert k >= 0.0;
    SignOfProduct(k, m - s * s);
    assert k * (m - s * s) == k * m - k * (s * s);
  }

  lemma OnEdgeBound(e: Edge, p: Point)
    requires OnEdge(e, p)
    ensures Abs(LeftOf(e, p)) <= TOLERANCE * Scale(e)
  {
    CrossIsSide(e, p);
    hide Cross, LeftOf, Scale;
  }

  lemma ScaleIsAtMostLength(e: Edge)
    ensures Scale(e) * Scale(e) <= Max(1.0, SquaredLength(e))
  {
    LongestIsAtMostLength(e.a.x - e.b.x, e.a.y - e.b.y, Scale(e));
  }

  lemma LongestIsAtMostLength(dx: real, dy: real, s: real)
    requires s == Max(Max(1.0, Abs(dx)), Abs(dy))
    ensures s * s <= Max(1.0, dx * dx + dy * dy)
  {
    assert dx * dx >= 0.0 && dy * dy >= 0.0;
  }

  lemma SquareOfBound(c: real, b: real)
    requires Abs(c) <= b
    ensures c * c <= b * b
  {
    assert c * c == Abs(c) * Abs(c);
  }
}
