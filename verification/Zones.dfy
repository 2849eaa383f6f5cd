// Semantic map zones: point-in-polygon with a boundary tolerance, zone validation and
// point evaluation (zone_catalog.cpp).  The zones a catalog file holds are a parameter.
module Zones {
  import opened Common

  datatype Zone = Zone(
    zoneId: string, mapName: string, kind: string, frameId: string, enabled: bool,
    speedLimit: real, xs: seq<Double>, ys: seq<Double>)

  datatype Point = Point(x: real, y: real)

  const TOLERANCE := 0.000000001

  // ---------------------------------------------------------------- one edge

  /** An edge from the previous vertex `b` to the vertex `a`. */
  datatype Edge = Edge(a: Point, b: Point)

  function Cross(e: Edge, p: Point): real {
    (p.x - e.b.x) * (e.a.y - e.b.y) - (p.y - e.b.y) * (e.a.x - e.b.x)
  }

  function Scale(e: Edge): real {
    Max(Max(1.0, Abs(e.a.x - e.b.x)), Abs(e.a.y - e.b.y))
  }

  predicate OnEdge(e: Edge, p: Point) {
    && Abs(Cross(e, p)) <= TOLERANCE * Scale(e)
    && Min(e.a.x, e.b.x) - TOLERANCE <= p.x <= Max(e.a.x, e.b.x) + TOLERANCE
    && Min(e.a.y, e.b.y) - TOLERANCE <= p.y <= Max(e.a.y, e.b.y) + TOLERANCE
  }

  predicate Crosses(e: Edge, p: Point) {
    && (e.a.y > p.y) != (e.b.y > p.y)
    && p.x < (e.b.x - e.a.x) * (p.y - e.a.y) / (e.b.y - e.a.y) + e.a.x
  }

  // ---------------------------------------------------------------- the loop

  predicate FiniteAt(zone: Zone, i: nat)
    requires i < |zone.xs| == |zone.ys|
  {
    zone.xs[i].Finite? && zone.ys[i].Finite?
  }

  /** As many coordinates of each kind, and all of them finite. */
  predicate AllFinite(zone: Zone) {
    |zone.xs| == |zone.ys| && forall i | 0 <= i < |zone.xs| :: FiniteAt(zone, i)
  }

  function VertexAt(zone: Zone, i: nat): Point
    requires i < |zone.xs| == |zone.ys| && FiniteAt(zone, i)
  {
    Point(zone.xs[i].value, zone.ys[i].value)
  }

  function Previous(i: nat, n: nat): nat
    requires i < n
  {
    if i == 0 then n - 1 else i - 1
  }

  /** The loop of ContainsPoint from edge `i` on. */
  function Scan(zone: Zone, p: Point, i: nat, inside: bool): bool
    requires |zone.xs| == |zone.ys|
    decreases |zone.xs| - i
  {
    if i >= |zone.xs| then inside
    else
      var j := Previous(i, |zone.xs|);
      if !FiniteAt(zone, i) || !FiniteAt(zone, j) then false
      else
        var e := Edge(VertexAt(zone, i), VertexAt(zone, j));
        if OnEdge(e, p) then true else Scan(zone, p, i + 1, inside != Crosses(e, p))
  }

  predicate ContainsPoint(zone: Zone, x: Double, y: Double) {
    && |zone.xs| >= 3 && |zone.ys| == |zone.xs| && x.Finite? && y.Finite?
    && Scan(zone, Point(x.value, y.value), 0, false)
  }

  method ComputeContainsPoint(zone: Zone, x: Double, y: Double) returns (contains: bool)
    ensures contains == ContainsPoint(zone, x, y)
  {
    var count := |zone.xs|;
    if count < 3 || |zone.ys| != count || x.NonFinite? || y.NonFinite? {
      return false;
    }
    var p := Point(x.value, y.value);
    var inside := false;
    var i, j := 0, count - 1;
    while i < count
      invariant i <= count && (i < count ==> j == Previous(i, count))
      invariant Scan(zone, p, 0, false) == Scan(zone, p, i, inside)
    {
      var xi, yi, xj, yj := zone.xs[i], zone.ys[i], zone.xs[j], zone.ys[j];
      if xi.NonFinite? || yi.NonFinite? || xj.NonFinite? || yj.NonFinite? {
        return false;
      }
      var e := Edge(Point(xi.value, yi.value), Point(xj.value, yj.value));
      if OnEdge(e, p) {
        return true;
      }
      if Crosses(e, p) {
        inside := !inside;
      }
      j := i;
      i := i + 1;
    }
    contains := inside;
  }

  // ---------------------------------------------------------------- what it decides

  predicate IsPolygon(zone: Zone) {
    AllFinite(zone) && |zone.xs| >= 3
  }

  function Vertices(zone: Zone): seq<Point>
    requires IsPolygon(zone)
  {
    seq(|zone.xs|, i requires 0 <= i < |zone.xs| => VertexAt(zone, i))
  }

  function Edges(vs: seq<Point>): seq<Edge> {
    seq(|vs|, i requires 0 <= i < |vs| => Edge(vs[i], vs[Previous(i, |vs|)]))
  }

  predicate Touches(es: seq<Edge>, p: Point) {
    exists i | 0 <= i < |es| :: OnEdge(es[i], p)
  }

  function Crossings(es: seq<Edge>, p: Point): nat {
    if es == [] then 0 else (if Crosses(es[0], p) then 1 else 0) + Crossings(es[1..], p)
  }

  /** On some edge within the tolerance, or an odd number of edges crossed. */
  predicate Inside(vs: seq<Point>, p: Point) {
    Touches(Edges(vs), p) || Crossings(Edges(vs), p) % 2 == 1
  }

  lemma TouchesTail(es: seq<Edge>, p: Point)
    requires es != []
    ensures Touches(es, p) <==> OnEdge(es[0], p) || Touches(es[1..], p)
  {
    hide OnEdge;
    if Touches(es[1..], p) {
      var i :| 0 <= i < |es[1..]| && OnEdge(es[1..][i], p);
      assert OnEdge(es[i + 1], p);
    }
    if Touches(es, p) && !OnEdge(es[0], p) {
      var i :| 0 <= i < |es| && OnEdge(es[i], p);
      assert OnEdge(es[1..][i - 1], p);
    }
  }

  lemma {:induction false} ScanMeaning(zone: Zone, p: Point, i: nat, inside: bool)
    requires IsPolygon(zone) && i <= |zone.xs|
    ensures var es := Edges(Vertices(zone))[i..];
      Scan(zone, p, i, inside) <==> Touches(es, p) || inside != (Crossings(es, p) % 2 == 1)
    decreases |zone.xs| - i
  {
    hide OnEdge, Crosses;
    var es := Edges(Vertices(zone))[i..];
    if i < |zone.xs| {
      var j := Previous(i, |zone.xs|);
      var e := Edge(VertexAt(zone, i), VertexAt(zone, j));
      assert FiniteAt(zone, i) && FiniteAt(zone, j);
      assert es[0] == e && es[1..] == Edges(Vertices(zone))[i + 1..];
      TouchesTail(es, p);
      ScanMeaning(zone, p, i + 1, inside != Crosses(e, p));
    }
  }

  /** On polygons, ContainsPoint is the even-odd rule with a tolerant boundary. */
  lemma ContainsPointIsEvenOdd(zone: Zone, p: Point)
    requires IsPolygon(zone)
    ensures ContainsPoint(zone, Finite(p.x), Finite(p.y)) <==> Inside(Vertices(zone), p)
  {
    hide Scan, Touches, Crossings;
    ScanMeaning(zone, p, 0, false);
    assert Edges(Vertices(zone))[0..] == Edges(Vertices(zone));
  }

  /** The edge into vertex `i` has finite ends. */
  predicate FiniteEdge(zone: Zone, i: nat)
    requires i < |zone.xs| == |zone.ys|
  {
    FiniteAt(zone, i) && FiniteAt(zone, Previous(i, |zone.xs|))
  }

  predicate TouchesAt(zone: Zone, i: nat, p: Point)
    requires i < |zone.xs| == |zone.ys|
  {
    FiniteEdge(zone, i) && OnEdge(Edge(VertexAt(zone, i), VertexAt(zone, Previous(i, |zone.xs|))), p)
  }

  lemma {:induction false} ScanStopsAt(zone: Zone, p: Point, i: nat, inside: bool, broken: nat)
    requires i <= broken < |zone.xs| == |zone.ys| && !FiniteEdge(zone, broken)
    requires forall k | i <= k < broken :: FiniteEdge(zone, k)
    ensures Scan(zone, p, i, inside) <==> exists k | i <= k < broken :: TouchesAt(zone, k, p)
    decreases broken - i
  {
    hide OnEdge, Crosses;
    if i < broken {
      assert FiniteEdge(zone, i);
      var e := Edge(VertexAt(zone, i), VertexAt(zone, Previous(i, |zone.xs|)));
      ScanStopsAt(zone, p, i + 1, inside != Crosses(e, p), broken);
      assert TouchesAt(zone, i, p) <==> OnEdge(e, p);
    }
  }

  /**
   * A zone with a coordinate that is not finite contains only points on the edges before the first broken one: the
   * even-odd count never decides.
   */
  lemma BrokenZoneContains(zone: Zone, p: Point, broken: nat)
    requires |zone.xs| == |zone.ys| >= 3 && broken < |zone.xs| && !FiniteEdge(zone, broken)
    requires forall k | 0 <= k < broken :: FiniteEdge(zone, k)
    ensures ContainsPoint(zone, Finite(p.x), Finite(p.y)) <==> exists k | 0 <= k < broken :: TouchesAt(zone, k, p)
  {
    hide TouchesAt, FiniteEdge, Scan;
    ScanStopsAt(zone, p, 0, false, broken);
  }

  // ---------------------------------------------------------------- rotation

  lemma {:induction false} CrossingsAppend(a: seq<Edge>, b: seq<Edge>, p: Point)
    ensures Crossings(a + b, p) == Crossings(a, p) + Crossings(b, p)
  {
    hide Crosses;
    if a == [] {
      assert a + b == b;
    } else {
      assert (a + b)[1..] == a[1..] + b;
      CrossingsAppend(a[1..], b, p);
    }
  }

  lemma TouchesAppend(a: seq<Edge>, b: seq<Edge>, p: Point)
    ensures Touches(a + b, p) <==> Touches(a, p) || Touches(b, p)
  {
    hide OnEdge;
    if Touches(a, p) {
      var i :| 0 <= i < |a| && OnEdge(a[i], p);
      assert OnEdge((a + b)[i], p);
    }
    if Touches(b, p) {
      var i :| 0 <= i < |b| && OnEdge(b[i], p);
      assert OnEdge((a + b)[|a| + i], p);
    }
    if Touches(a + b, p) {
      var i :| 0 <= i < |a + b| && OnEdge((a + b)[i], p);
      assert if i < |a| then OnEdge(a[i], p) else OnEdge(b[i - |a|], p);
    }
  }

  lemma RotatedEdges(vs: seq<Point>, k: nat)
    requires k <= |vs|
    ensures Edges(vs[k..] + vs[..k]) == Edges(vs)[k..] + Edges(vs)[..k]
  {
  }

  /** Starting the vertex list elsewhere changes nothing. */
  lemma InsideIgnoresRotation(vs: seq<Point>, k: nat, p: Point)
    requires k <= |vs|
    ensures Inside(vs[k..] + vs[..k], p) <==> Inside(vs, p)
  {
    hide Crossings, Touches;
    var es := Edges(vs);
    RotatedEdges(vs, k);
    CrossingsAppend(es[k..], es[..k], p);
    CrossingsAppend(es[..k], es[k..], p);
    TouchesAppend(es[k..], es[..k], p);
    TouchesAppend(es[..k], es[k..], p);
    assert es[..k] + es[k..] == es;
  }

  // ---------------------------------------------------------------- orientation

  function Flip(e: Edge): Edge {
    Edge(e.b, e.a)
  }

  lemma FlippedCross(e: Edge, p: Point)
    ensures Cross(Flip(e), p) == -Cross(e, p)
  {
  }

  lemma FlippedOnEdge(e: Edge, p: Point)
    ensures OnEdge(Flip(e), p) <==> OnEdge(e, p)
  {
    hide Cross;
    FlippedCross(e, p);
    assert Scale(Flip(e)) == Scale(e);
  }

  /** The line through an edge meets the height of `p` at the same place from either end. */
  lemma SameIntercept(xi: real, yi: real, xj: real, yj: real, y: real)
    requires yi != yj
    ensures (xj - xi) * (y - yi) / (yj - yi) + xi == (xi - xj) * (y - yj) / (yi - yj) + xj
  {
    var d := yj - yi;
    assert (xi - xj) * (y - yj) / (yi - yj) == (xj - xi) * (y - yj) / d;
    assert (xj - xi) * (y - yj) == (xj - xi) * (y - yi) - (xj - xi) * d;
    assert ((xj - xi) * (y - yi) - (xj - xi) * d) / d == (xj - xi) * (y - yi) / d - (xj - xi);
  }

  lemma FlippedCrosses(e: Edge, p: Point)
    ensures Crosses(Flip(e), p) <==> Crosses(e, p)
  {
    if e.a.y != e.b.y {
      SameIntercept(e.a.x, e.a.y, e.b.x, e.b.y, p.y);
    }
  }

  /** The flipped edges in reverse order. */
  function Backwards(es: seq<Edge>): seq<Edge> {
    if es == [] then [] else Backwards(es[1..]) + [Flip(es[0])]
  }

  lemma {:induction false} BackwardsAt(es: seq<Edge>, i: nat)
    requires i < |es|
    ensures |Backwards(es)| == |es| && Backwards(es)[i] == Flip(es[|es| - 1 - i])
  {
    if |es| > 1 {
      BackwardsAt(es[1..], if i < |es| - 1 then i else 0);
    }
  }

  lemma {:induction false} BackwardsSame(es: seq<Edge>, p: Point)
    ensures Crossings(Backwards(es), p) == Crossings(es, p)
    ensures Touches(Backwards(es), p) <==> Touches(es, p)
  {
    hide OnEdge, Crosses, Touches;
    if es == [] {
      assert Backwards(es) == es;
    } else {
      BackwardsSame(es[1..], p);
      FlippedOnEdge(es[0], p);
      FlippedCrosses(es[0], p);
      CrossingsAppend(Backwards(es[1..]), [Flip(es[0])], p);
      TouchesAppend(Backwards(es[1..]), [Flip(es[0])], p);
      OneEdge(Flip(es[0]), p);
      TouchesTail(es, p);
    }
  }

  lemma OneEdge(e: Edge, p: Point)
    ensures Touches([e], p) <==> OnEdge(e, p)
    ensures Crossings([e], p) == if Crosses(e, p) then 1 else 0
  {
    hide OnEdge, Crosses;
    assert [e][0] == e && [e][1..] == [];
  }

  function Reversed(vs: seq<Point>): seq<Point> {
    seq(|vs|, i requires 0 <= i < |vs| => vs[|vs| - 1 - i])
  }

  lemma ReversedEdges(vs: seq<Point>)
    requires vs != []
    ensures Edges(Reversed(vs)) == [Flip(Edges(vs)[0])] + Backwards(Edges(vs)[1..])
  {
    var es, rs := Edges(vs), Edges(Reversed(vs));
    var expected := [Flip(es[0])] + Backwards(es[1..]);
    if |vs| > 1 {
      BackwardsAt(es[1..], 0);
    }
    forall i | 0 <= i < |rs|
      ensures i < |expected| && rs[i] == expected[i]
    {
      if i > 0 {
        BackwardsAt(es[1..], i - 1);
      }
    }
  }

  /** Listing the vertices in the opposite direction changes nothing. */
  lemma InsideIgnoresOrientation(vs: seq<Point>, p: Point)
    ensures Inside(Reversed(vs), p) <==> Inside(vs, p)
  {
    hide Crossings, Touches, OnEdge, Crosses;
    if vs != [] {
      var es := Edges(vs);
      ReversedEdges(vs);
      FlippedOnEdge(es[0], p);
      FlippedCrosses(es[0], p);
      OneEdge(es[0], p);
      OneEdge(Flip(es[0]), p);
      BackwardsSame(es[1..], p);
      CrossingsAppend([Flip(es[0])], Backwards(es[1..]), p);
      TouchesAppend([Flip(es[0])], Backwards(es[1..]), p);
      CrossingsAppend([es[0]], es[1..], p);
      TouchesAppend([es[0]], es[1..], p);
      assert [es[0]] + es[1..] == es;
    } else {
      assert Reversed(vs) == vs;
    }
  }

  // ---------------------------------------------------------------- rectangles

  function Rectangle(x0: real, y0: real, x1: real, y1: real): seq<Point> {
    [Point(x0, y0), Point(x1, y0), Point(x1, y1), Point(x0, y1)]
  }

  /** Within the tolerance of the rectangle in each coordinate. */
  predicate InGrown(x0: real, y0: real, x1: real, y1: real, p: Point) {
    x0 - TOLERANCE <= p.x <= x1 + TOLERANCE && y0 - TOLERANCE <= p.y <= y1 + TOLERANCE
  }

  lemma AbsProduct(c: real, d: real)
    ensures Abs(c * d) == Abs(c) * Abs(d) && Abs(-(c * d)) == Abs(c * d)
  {
  }

  /** Against a side of length `h` the scaled cross product asks for no more than the distance does. */
  lemma WithinSide(c: real, h: real)
    requires h > 0.0 && 0.0 <= c <= TOLERANCE
    ensures c * h <= TOLERANCE * Max(1.0, h)
  {
    assert c * h <= TOLERANCE * h;
  }

  lemma VerticalSide(x: real, ya: real, yb: real, p: Point)
    requires ya != yb
    ensures OnEdge(Edge(Point(x, ya), Point(x, yb)), p) <==>
            Abs(p.x - x) <= TOLERANCE && Min(ya, yb) - TOLERANCE <= p.y <= Max(ya, yb) + TOLERANCE
    ensures Crosses(Edge(Point(x, ya), Point(x, yb)), p) <==> (ya > p.y) != (yb > p.y) && p.x < x
  {
    hide OnEdge, Crosses;
    OnVerticalSide(x, ya, yb, p);
    CrossesVerticalSide(x, ya, yb, p);
  }

  lemma OnVerticalSide(x: real, ya: real, yb: real, p: Point)
    requires ya != yb
    ensures OnEdge(Edge(Point(x, ya), Point(x, yb)), p) <==>
            Abs(p.x - x) <= TOLERANCE && Min(ya, yb) - TOLERANCE <= p.y <= Max(ya, yb) + TOLERANCE
  {
    VerticalCross(x, ya, yb, p);
    hide Cross, Scale;
    if Abs(p.x - x) <= TOLERANCE {
      WithinSide(Abs(p.x - x), Abs(ya - yb));
    }
  }

  lemma CrossesVerticalSide(x: real, ya: real, yb: real, p: Point)
    requires ya != yb
    ensures Crosses(Edge(Point(x, ya), Point(x, yb)), p) <==> (ya > p.y) != (yb > p.y) && p.x < x
  {
    VerticalIntercept(x, ya, yb, p.y);
  }

  lemma VerticalCross(x: real, ya: real, yb: real, p: Point)
    ensures var e := Edge(Point(x, ya), Point(x, yb));
      Abs(Cross(e, p)) == Abs(p.x - x) * Abs(ya - yb) && Scale(e) == Max(1.0, Abs(ya - yb))
  {
    var e := Edge(Point(x, ya), Point(x, yb));
    ZeroProduct(p.y - yb, x - x);
    var cross := Cross(e, p);
    hide Cross;
    AbsOfProduct(p.x - x, ya - yb, cross);
  }

  lemma VerticalIntercept(x: real, ya: real, yb: real, y: real)
    requires ya != yb
    ensures (x - x) * (y - ya) / (yb - ya) + x == x
  {
    assert (x - x) * (y - ya) == 0.0;
  }

  lemma HorizontalSide(y: real, xa: real, xb: real, p: Point)
    requires xa != xb
    ensures OnEdge(Edge(Point(xa, y), Point(xb, y)), p) <==>
            Abs(p.y - y) <= TOLERANCE && Min(xa, xb) - TOLERANCE <= p.x <= Max(xa, xb) + TOLERANCE
    ensures !Crosses(Edge(Point(xa, y), Point(xb, y)), p)
  {
    HorizontalCross(y, xa, xb, p);
    hide Cross, Scale;
    if Abs(p.y - y) <= TOLERANCE {
      WithinSide(Abs(p.y - y), Abs(xa - xb));
    }
  }

  lemma HorizontalCross(y: real, xa: real, xb: real, p: Point)
    ensures var e := Edge(Point(xa, y), Point(xb, y));
      Abs(Cross(e, p)) == Abs(p.y - y) * Abs(xa - xb) && Scale(e) == Max(1.0, Abs(xa - xb))
  {
    var e := Edge(Point(xa, y), Point(xb, y));
    ZeroProduct(p.x - xb, y - y);
    var cross := Cross(e, p);
    hide Cross;
    AbsOfProduct(p.y - y, xa - xb, -cross);
  }

  lemma ZeroProduct(a: real, b: real)
    requires b == 0.0
    ensures a * b == 0.0
  {
  }

  lemma AbsOfProduct(c: real, d: real, x: real)
    requires x == c * d
    ensures Abs(x) == Abs(c) * Abs(d) && Abs(-x) == Abs(x)
  {
    AbsProduct(c, d);
  }

  lemma RectangleEdges(x0: real, y0: real, x1: real, y1: real)
    ensures Edges(Rectangle(x0, y0, x1, y1)) ==
            [Edge(Point(x0, y0), Point(x0, y1))] + ([Edge(Point(x1, y0), Point(x0, y0))] +
            ([Edge(Point(x1, y1), Point(x1, y0))] + [Edge(Point(x0, y1), Point(x1, y1))]))
  {
  }

  /** A point is inside a rectangle exactly when it is in the closed rectangle grown by the tolerance. */
  lemma RectangleInside(x0: real, y0: real, x1: real, y1: real, p: Point)
    requires x0 < x1 && y0 < y1
    ensures Inside(Rectangle(x0, y0, x1, y1), p) <==> InGrown(x0, y0, x1, y1, p)
  {
    hide OnEdge, Crosses, Touches, Crossings, Edges;
    var l, b := Edge(Point(x0, y0), Point(x0, y1)), Edge(Point(x1, y0), Point(x0, y0));
    var r, t := Edge(Point(x1, y1), Point(x1, y0)), Edge(Point(x0, y1), Point(x1, y1));
    RectangleEdges(x0, y0, x1, y1);
    VerticalSide(x0, y0, y1, p);
    VerticalSide(x1, y1, y0, p);
    HorizontalSide(y0, x1, x0, p);
    HorizontalSide(y1, x0, x1, p);
    FourEdges(l, b, r, t, p);
  }

  lemma FourEdges(l: Edge, b: Edge, r: Edge, t: Edge, p: Point)
    ensures var es := [l] + ([b] + ([r] + [t]));
      && (Touches(es, p) <==> OnEdge(l, p) || OnEdge(b, p) || OnEdge(r, p) || OnEdge(t, p))
      && Crossings(es, p) == (if Crosses(l, p) then 1 else 0) + (if Crosses(b, p) then 1 else 0)
                             + (if Crosses(r, p) then 1 else 0) + (if Crosses(t, p) then 1 else 0)
  {
    hide OnEdge, Crosses, Touches, Crossings;
    OneEdge(l, p);
    OneEdge(b, p);
    OneEdge(r, p);
    OneEdge(t, p);
    TouchesAppend([r], [t], p);
    TouchesAppend([b], [r] + [t], p);
    TouchesAppend([l], [b] + ([r] + [t]), p);
    CrossingsAppend([r], [t], p);
    CrossingsAppend([b], [r] + [t], p);
    CrossingsAppend([l], [b] + ([r] + [t]), p);
  }

  /** The corners of a rectangle, from any corner on and in either direction. */
  predicate ListsRectangle(vs: seq<Point>, x0: real, y0: real, x1: real, y1: real) {
    exists k | 0 <= k <= 4 ::
      var rs := Rectangle(x0, y0, x1, y1);
      vs == rs[k..] + rs[..k] || vs == Reversed(rs)[k..] + Reversed(rs)[..k]
  }

  /** So ContainsPoint on an axis-aligned rectangle, however its corners are listed. */
  lemma RectangleZoneContains(zone: Zone, x0: real, y0: real, x1: real, y1: real, p: Point)
    requires IsPolygon(zone) && x0 < x1 && y0 < y1 && ListsRectangle(Vertices(zone), x0, y0, x1, y1)
    ensures ContainsPoint(zone, Finite(p.x), Finite(p.y)) <==> InGrown(x0, y0, x1, y1, p)
  {
    hide Inside, ContainsPoint, InGrown;
    var rs := Rectangle(x0, y0, x1, y1);
    ContainsPointIsEvenOdd(zone, p);
    RectangleInside(x0, y0, x1, y1, p);
    InsideIgnoresOrientation(rs, p);
    var k :| 0 <= k <= 4 && (Vertices(zone) == rs[k..] + rs[..k] || Vertices(zone) == Reversed(rs)[k..] + Reversed(rs)[..k]);
    InsideIgnoresRotation(rs, k, p);
    InsideIgnoresRotation(Reversed(rs), k, p);
  }
}
