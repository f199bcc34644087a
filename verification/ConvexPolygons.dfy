/** What the even-odd test decides: for convex polygons, exactly which points are inside. */
module ConvexPolygons {
  import opened PolygonRoi

  // ----- Sides -----

  /** Positive exactly when `p` lies to the left of the way from `a` to `b`. */
  function Side(a: Point, b: Point, p: Point): real {
    (b.x - a.x) * (p.y - a.y) - (b.y - a.y) * (p.x - a.x)
  }

  lemma Scaled(d: real, m: real, x: real)
    ensures d * (m - x) == d * m - d * x
  {
  }

  lemma MeetsOnEdge(a: Point, b: Point, y: real)
    requires Straddles(a, b, y)
    ensures (b.y - a.y) * (MeetsAt(a, b, y) - a.x) == (b.x - a.x) * (y - a.y)
  {
    var d, num := b.y - a.y, (b.x - a.x) * (y - a.y);
    assert MeetsAt(a, b, y) - a.x == num / d;
    assert d * (num / d) == num;
  }

  /** Along the line the side changes with the distance from the meeting point. */
  lemma SideOnLine(a: Point, b: Point, x: real, y: real)
    requires Straddles(a, b, y)
    ensures Side(a, b, Point(x, y)) == (b.y - a.y) * (MeetsAt(a, b, y) - x)
  {
    var d, m := b.y - a.y, MeetsAt(a, b, y);
    MeetsOnEdge(a, b, y);
    Scaled(d, m, a.x);
    Scaled(d, x, a.x);
    Scaled(d, m, x);
  }

  lemma Factor(e: real, w: real, s: real)
    requires e != 0.0 && s == e * w
    ensures e > 0.0 ==> (s >= 0.0 <==> w >= 0.0) && (s > 0.0 <==> w > 0.0)
    ensures e < 0.0 ==> (s >= 0.0 <==> w <= 0.0) && (s > 0.0 <==> w < 0.0)
  {
    SignOfProduct(w, e);
    SignOfProduct(-w, e);
  }

  /** A point of the line is on the inner side of a rising edge up to the meeting point, and of a
      falling edge from there on. */
  lemma SideOrders(a: Point, b: Point, x: real, y: real)
    requires Straddles(a, b, y)
    ensures b.y > a.y ==> (Side(a, b, Point(x, y)) >= 0.0 <==> x <= MeetsAt(a, b, y))
    ensures b.y > a.y ==> (Side(a, b, Point(x, y)) > 0.0 <==> x < MeetsAt(a, b, y))
    ensures b.y < a.y ==> (Side(a, b, Point(x, y)) >= 0.0 <==> MeetsAt(a, b, y) <= x)
    ensures b.y < a.y ==> (Side(a, b, Point(x, y)) > 0.0 <==> MeetsAt(a, b, y) < x)
  {
    SideOnLine(a, b, x, y);
    Factor(b.y - a.y, MeetsAt(a, b, y) - x, Side(a, b, Point(x, y)));
  }

  lemma CrossesSide(a: Point, b: Point, x: real, y: real)
    requires Straddles(a, b, y)
    ensures Crosses(a, b, x, y) <==> if b.y > a.y then Side(a, b, Point(x, y)) > 0.0 else Side(a, b, Point(x, y)) < 0.0
  {
    SideOrders(a, b, x, y);
  }

  /** An edge is crossed exactly when the point lies to its left as it rises, to its right as it falls:
      the division-free form of the comparison. */
  lemma CrossesExactly(a: Point, b: Point, x: real, y: real)
    requires Straddles(a, b, y)
    ensures Crosses(a, b, x, y) <==>
      if b.y > a.y then (b.y - a.y) * (x - a.x) < (b.x - a.x) * (y - a.y)
      else (b.y - a.y) * (x - a.x) > (b.x - a.x) * (y - a.y)
  {
    CrossesSide(a, b, x, y);
  }

  lemma CrossesSymmetric(a: Point, b: Point, x: real, y: real)
    ensures Crosses(a, b, x, y) == Crosses(b, a, x, y)
  {
    if Straddles(a, b, y) {
      CrossesSide(a, b, x, y);
      CrossesSide(b, a, x, y);
      SideBack(a, b, Point(x, y));
    }
  }

  lemma SideBack(a: Point, b: Point, p: Point)
    ensures Side(b, a, p) == -Side(a, b, p)
  {
    var dx, dy := b.x - a.x, b.y - a.y;
    assert dx * (p.y - b.y) == dx * (p.y - a.y) - dx * dy;
    assert dy * (p.x - b.x) == dy * (p.x - a.x) - dy * dx;
  }

  lemma AffineX(a: Point, b: Point, c: Point, d: Point, y: real, m: real)
    requires (d.y - c.y) * (m - c.x) == (d.x - c.x) * (y - c.y)
    ensures (d.y - c.y) * (m - a.x) == (c.x - a.x) * (d.y - y) + (d.x - a.x) * (y - c.y)
  {
    assert (d.y - c.y) * (m - a.x) == (d.y - c.y) * (m - c.x) + (d.y - c.y) * (c.x - a.x);
    assert (d.x - c.x) * (y - c.y) == (d.x - a.x) * (y - c.y) - (c.x - a.x) * (y - c.y);
    assert (d.y - c.y) * (c.x - a.x) == (c.x - a.x) * (d.y - y) + (c.x - a.x) * (y - c.y);
  }

  lemma AffineY(a: Point, c: Point, d: Point, y: real)
    ensures (d.y - c.y) * (y - a.y) == (c.y - a.y) * (d.y - y) + (d.y - a.y) * (y - c.y)
  {
  }

  lemma Combined(dx: real, dy: real, e: real, u: real, v: real, s: real, t: real, cx: real, cy: real, ex: real,
          ey: real)
    requires e * u == cy * s + ey * t && e * v == cx * s + ex * t
    ensures e * (dx * u - dy * v) == (dx * cy - dy * cx) * s + (dx * ey - dy * ex) * t
  {
    assert e * (dx * u) == dx * (e * u) && e * (dy * v) == dy * (e * v);
    assert dx * (cy * s + ey * t) == (dx * cy) * s + (dx * ey) * t;
    assert dy * (cx * s + ex * t) == (dy * cx) * s + (dy * ex) * t;
  }

  /** The meeting point of the edge from `c` to `d` lies between them, and so do its sides of any other
      edge. */
  lemma SideOfMeeting(a: Point, b: Point, c: Point, d: Point, y: real)
    requires Straddles(c, d, y)
    ensures (d.y - c.y) * Side(a, b, Point(MeetsAt(c, d, y), y))
      == Side(a, b, c) * (d.y - y) + Side(a, b, d) * (y - c.y)
  {
    MeetsOnEdge(c, d, y);
    AffineX(a, b, c, d, y, MeetsAt(c, d, y));
    AffineY(a, c, d, y);
    Combined(b.x - a.x, b.y - a.y, d.y - c.y, y - a.y, MeetsAt(c, d, y) - a.x, d.y - y, y - c.y,
      c.x - a.x, c.y - a.y, d.x - a.x, d.y - a.y);
  }

  lemma Weighted(e: real, m: real, p: real, s: real, q: real, t: real)
    requires e * m == p * s + q * t && p >= 0.0 && q >= 0.0
    requires (e > 0.0 && s > 0.0 && t >= 0.0) || (e < 0.0 && s <= 0.0 && t < 0.0)
    ensures m >= 0.0
    ensures (if e > 0.0 then p > 0.0 else q > 0.0) ==> m > 0.0
  {
    if e > 0.0 {
      WeightedUp(e, m, p, s, q, t);
    } else {
      assert (-e) * m == q * (-t) + p * (-s);
      WeightedUp(-e, m, q, -t, p, -s);
    }
  }

  lemma WeightedUp(e: real, m: real, p: real, s: real, q: real, t: real)
    requires e * m == p * s + q * t && p >= 0.0 && q >= 0.0 && e > 0.0 && s > 0.0 && t >= 0.0
    ensures m >= 0.0 && (p > 0.0 ==> m > 0.0)
  {
    assert q * t >= 0.0 && p * s >= 0.0;
    SignOfProduct(m, e);
    if p > 0.0 {
      SignOfProduct(p, s);
    }
    if m < 0.0 {
      SignOfProduct(-m, e);
    }
  }

  lemma MeetingSign(a: Point, b: Point, c: Point, d: Point, y: real)
    requires Straddles(c, d, y) && Side(a, b, c) >= 0.0 && Side(a, b, d) >= 0.0
    ensures Side(a, b, Point(MeetsAt(c, d, y), y)) >= 0.0
    ensures (if d.y > c.y then Side(a, b, c) > 0.0 else Side(a, b, d) > 0.0) ==>
      Side(a, b, Point(MeetsAt(c, d, y), y)) > 0.0
  {
    SideOfMeeting(a, b, c, d, y);
    Weighted(d.y - c.y, Side(a, b, Point(MeetsAt(c, d, y), y)), Side(a, b, c), d.y - y, Side(a, b, d), y - c.y);
  }

  // ----- The edges of a polygon -----

  /** The ends of edge `i`, traversed so that the polygon lies to its left: against the order of the
      vertices when `against`. */
  function StartOf(i: nat, n: nat, against: bool): (j: nat)
    requires i < n
    ensures j < n
  {
    if against then i else Previous(i, n)
  }

  function EndOf(i: nat, n: nat, against: bool): (j: nat)
    requires i < n
    ensures j < n
  {
    if against then Previous(i, n) else i
  }

  function From(points: seq<Point>, against: bool, i: nat): Point
    requires i < |points|
  {
    points[StartOf(i, |points|, against)]
  }

  function To(points: seq<Point>, against: bool, i: nat): Point
    requires i < |points|
  {
    points[EndOf(i, |points|, against)]
  }

  /** On which side of edge `i` the point lies: positive inside. */
  function SideOf(points: seq<Point>, against: bool, i: nat, p: Point): real
    requires i < |points|
  {
    Side(From(points, against, i), To(points, against, i), p)
  }

  /** Strictly convex: every edge has all the other vertices strictly on its inner side. */
  ghost predicate Convex(points: seq<Point>, against: bool) {
    && |points| >= 3
    && forall i: nat, j: nat :: i < |points| && j < |points| && j != i && j != Previous(i, |points|) ==>
         SideOf(points, against, i, points[j]) > 0.0
  }

  predicate Rises(points: seq<Point>, against: bool, y: real, i: nat)
    requires i < |points|
  {
    From(points, against, i).y <= y < To(points, against, i).y
  }

  predicate Falls(points: seq<Point>, against: bool, y: real, i: nat)
    requires i < |points|
  {
    To(points, against, i).y <= y < From(points, against, i).y
  }

  function Meeting(points: seq<Point>, against: bool, y: real, i: nat): real
    requires i < |points| && (Rises(points, against, y, i) || Falls(points, against, y, i))
  {
    MeetsAt(From(points, against, i), To(points, against, i), y)
  }

  lemma SideOfEnds(a: Point, b: Point)
    ensures Side(a, b, a) == 0.0 && Side(a, b, b) == 0.0
  {
  }

  lemma VertexBeside(points: seq<Point>, against: bool, k: nat, j: nat)
    requires Convex(points, against) && k < |points| && j < |points|
    ensures SideOf(points, against, k, points[j]) >= 0.0
    ensures j != StartOf(k, |points|, against) && j != EndOf(k, |points|, against) ==>
      SideOf(points, against, k, points[j]) > 0.0
  {
    SideOfEnds(From(points, against, k), To(points, against, k));
  }

  /** Where edge `i` meets the line is on the inner side of every edge; strictly, when the other edge
      goes the same way over the line. */
  lemma MeetingBeside(points: seq<Point>, against: bool, y: real, k: nat, i: nat)
    requires Convex(points, against) && k < |points| && i < |points|
    requires Rises(points, against, y, i) || Falls(points, against, y, i)
    ensures SideOf(points, against, k, Point(Meeting(points, against, y, i), y)) >= 0.0
    ensures k != i && Rises(points, against, y, i) && Rises(points, against, y, k) ==>
      SideOf(points, against, k, Point(Meeting(points, against, y, i), y)) > 0.0
    ensures k != i && Falls(points, against, y, i) && Falls(points, against, y, k) ==>
      SideOf(points, against, k, Point(Meeting(points, against, y, i), y)) > 0.0
  {
    VertexBeside(points, against, k, StartOf(i, |points|, against));
    VertexBeside(points, against, k, EndOf(i, |points|, against));
    MeetingSign(From(points, against, k), To(points, against, k), From(points, against, i), To(points, against, i), y);
  }

  lemma OneRises(points: seq<Point>, against: bool, y: real, k: nat, i: nat)
    requires Convex(points, against) && k < |points| && i < |points|
    requires Rises(points, against, y, k) && Rises(points, against, y, i)
    ensures k == i
  {
    if k != i {
      RisesBefore(points, against, y, k, i);
      RisesBefore(points, against, y, i, k);
    }
  }

  lemma RisesBefore(points: seq<Point>, against: bool, y: real, k: nat, i: nat)
    requires Convex(points, against) && k < |points| && i < |points| && k != i
    requires Rises(points, against, y, k) && Rises(points, against, y, i)
    ensures Meeting(points, against, y, i) < Meeting(points, against, y, k)
  {
    MeetingBeside(points, against, y, k, i);
    SideOrders(From(points, against, k), To(points, against, k), Meeting(points, against, y, i), y);
  }

  lemma OneFalls(points: seq<Point>, against: bool, y: real, k: nat, i: nat)
    requires Convex(points, against) && k < |points| && i < |points|
    requires Falls(points, against, y, k) && Falls(points, against, y, i)
    ensures k == i
  {
    if k != i {
      FallsAfter(points, against, y, k, i);
      FallsAfter(points, against, y, i, k);
    }
  }

  lemma FallsAfter(points: seq<Point>, against: bool, y: real, k: nat, i: nat)
    requires Convex(points, against) && k < |points| && i < |points| && k != i
    requires Falls(points, against, y, k) && Falls(points, against, y, i)
    ensures Meeting(points, against, y, k) < Meeting(points, against, y, i)
  {
    MeetingBeside(points, against, y, k, i);
    SideOrders(From(points, against, k), To(points, against, k), Meeting(points, against, y, i), y);
  }

  /** The falling edge meets the line to the left of the rising one. */
  lemma FallsLeft(points: seq<Point>, against: bool, y: real, u: nat, d: nat)
    requires Convex(points, against) && u < |points| && d < |points|
    requires Rises(points, against, y, u) && Falls(points, against, y, d)
    ensures Meeting(points, against, y, d) <= Meeting(points, against, y, u)
  {
    MeetingBeside(points, against, y, d, u);
    SideOrders(From(points, against, d), To(points, against, d), Meeting(points, against, y, u), y);
  }

  // ----- Which edges the line meets -----

  predicate Counted(points: seq<Point>, counts: (Point, Point) -> bool, i: nat) {
    i < |points| && counts(points[i], Before(points, i))
  }

  lemma OddStep(points: seq<Point>, counts: (Point, Point) -> bool, n: nat)
    requires n < |points|
    ensures OddEdges(points, counts, n + 1) == (OddEdges(points, counts, n) != Counted(points, counts, n))
  {
  }

  lemma {:induction false} OddOfTwo(points: seq<Point>, counts: (Point, Point) -> bool, n: nat, u: nat, d: nat)
    requires n <= |points| && u != d
    requires forall i: nat :: Counted(points, counts, i) ==> i == u || i == d
    ensures OddEdges(points, counts, n)
      == ((u < n && Counted(points, counts, u)) != (d < n && Counted(points, counts, d)))
  {
    if n > 0 {
      OddOfTwo(points, counts, n - 1, u, d);
      OddStep(points, counts, n - 1);
    }
  }

  lemma MetExactly(points: seq<Point>, against: bool, y: real, i: nat)
    requires i < |points|
    ensures Straddles(points[i], Before(points, i), y) <==> Rises(points, against, y, i) || Falls(points, against, y, i)
  {
  }

  ghost predicate MetAt(points: seq<Point>, y: real, i: nat) {
    i < |points| && Straddles(points[i], Before(points, i), y)
  }

  /** An edge is never the only one to meet the line. */
  lemma NeverAlone(points: seq<Point>, y: real, e: nat)
    requires |points| >= 2 && MetAt(points, y, e)
    ensures exists f: nat :: f != e && MetAt(points, y, f)
  {
    if forall f: nat :: MetAt(points, y, f) ==> f == e {
      LoneIsOdd(points, y, e);
      StraddleParity(points, y, |points|);
    }
  }

  lemma LoneIsOdd(points: seq<Point>, y: real, e: nat)
    requires |points| >= 2 && MetAt(points, y, e) && forall f: nat :: MetAt(points, y, f) ==> f == e
    ensures OddEdges(points, StraddlesLine(y), |points|)
  {
    forall i: nat
      ensures Counted(points, StraddlesLine(y), i) <==> MetAt(points, y, i)
    {
    }
    OddOfTwo(points, StraddlesLine(y), |points|, e, |points|);
  }

  /** A line that meets a convex polygon meets one rising and one falling edge. */
  lemma TwoMeet(points: seq<Point>, against: bool, y: real, e: nat) returns (u: nat, d: nat)
    requires Convex(points, against) && MetAt(points, y, e)
    ensures u < |points| && d < |points| && Rises(points, against, y, u) && Falls(points, against, y, d)
    ensures forall i: nat :: MetAt(points, y, i) ==> i == u || i == d
  {
    NeverAlone(points, y, e);
    var f: nat :| f != e && MetAt(points, y, f);
    MetExactly(points, against, y, e);
    MetExactly(points, against, y, f);
    if Rises(points, against, y, e) && Rises(points, against, y, f) {
      OneRises(points, against, y, e, f);
    }
    if Falls(points, against, y, e) && Falls(points, against, y, f) {
      OneFalls(points, against, y, e, f);
    }
    u, d := if Rises(points, against, y, e) then e else f, if Rises(points, against, y, e) then f else e;
    forall i: nat | MetAt(points, y, i)
      ensures i == u || i == d
    {
      MetExactly(points, against, y, i);
      if Rises(points, against, y, i) {
        OneRises(points, against, y, i, u);
      } else {
        OneFalls(points, against, y, i, d);
      }
    }
  }

  lemma CrossesOriented(points: seq<Point>, against: bool, x: real, y: real, i: nat)
    requires i < |points| && (Rises(points, against, y, i) || Falls(points, against, y, i))
    ensures Counted(points, CrossesRay(x, y), i) <==> x < Meeting(points, against, y, i)
  {
    CrossesSymmetric(points[i], Before(points, i), x, y);
  }

  lemma CountedMet(points: seq<Point>, x: real, y: real)
    ensures forall i: nat :: Counted(points, CrossesRay(x, y), i) ==> MetAt(points, y, i)
  {
  }

  /** On such a line the test accepts what lies from the falling edge up to the rising one. */
  lemma BetweenEdges(points: seq<Point>, against: bool, x: real, y: real, u: nat, d: nat)
    requires Convex(points, against) && u < |points| && d < |points|
    requires Rises(points, against, y, u) && Falls(points, against, y, d)
    requires forall i: nat :: MetAt(points, y, i) ==> i == u || i == d
    ensures InPolygon(x, y, points) <==> Meeting(points, against, y, d) <= x < Meeting(points, against, y, u)
  {
    CountedMet(points, x, y);
    OddOfTwo(points, CrossesRay(x, y), |points|, u, d);
    CrossesOriented(points, against, x, y, u);
    CrossesOriented(points, against, x, y, d);
    FallsLeft(points, against, y, u, d);
  }

  lemma NoneMeets(points: seq<Point>, x: real, y: real)
    requires |points| >= 2 && forall i: nat :: !MetAt(points, y, i)
    ensures !InPolygon(x, y, points)
  {
    CountedMet(points, x, y);
    OddOfTwo(points, CrossesRay(x, y), |points|, 0, 1);
  }

  /** The point is on the line between a rising edge, strictly on its inner side, and a falling one. */
  ghost predicate InsideOf(points: seq<Point>, against: bool, x: real, y: real, u: nat, d: nat) {
    && u < |points| && Rises(points, against, y, u) && SideOf(points, against, u, Point(x, y)) > 0.0
    && d < |points| && Falls(points, against, y, d) && SideOf(points, against, d, Point(x, y)) >= 0.0
  }

  lemma InsideExactlyBetween(points: seq<Point>, against: bool, x: real, y: real, u: nat, d: nat)
    requires Convex(points, against) && u < |points| && d < |points|
    requires Rises(points, against, y, u) && Falls(points, against, y, d)
    requires forall i: nat :: MetAt(points, y, i) ==> i == u || i == d
    ensures InPolygon(x, y, points) <==> InsideOf(points, against, x, y, u, d)
  {
    BetweenEdges(points, against, x, y, u, d);
    SideOrders(From(points, against, u), To(points, against, u), x, y);
    SideOrders(From(points, against, d), To(points, against, d), x, y);
  }

  /** Exactly the points on the inner side of both edges their line meets pass the test, those of the
      falling edge itself included. */
  lemma InsideExactly(points: seq<Point>, against: bool, x: real, y: real)
    requires Convex(points, against)
    ensures InPolygon(x, y, points) <==> exists u, d :: InsideOf(points, against, x, y, u, d)
  {
    if e: nat :| MetAt(points, y, e) {
      var u, d := TwoMeet(points, against, y, e);
      InsideExactlyBetween(points, against, x, y, u, d);
      forall v, b | InsideOf(points, against, x, y, v, b)
        ensures v == u && b == d
      {
        OneRises(points, against, y, v, u);
        OneFalls(points, against, y, b, d);
      }
    } else {
      NoneMeets(points, x, y);
      forall u, d | InsideOf(points, against, x, y, u, d)
        ensures MetAt(points, y, u)
      {
        MetExactly(points, against, y, u);
      }
    }
  }

  // ----- Inside is on the inner side of every edge -----

  lemma SideSlope(a: Point, b: Point, x: real, z: real, y: real)
    requires x <= z
    ensures b.y >= a.y ==> Side(a, b, Point(x, y)) >= Side(a, b, Point(z, y))
    ensures b.y <= a.y ==> Side(a, b, Point(x, y)) <= Side(a, b, Point(z, y))
  {
    var d := b.y - a.y;
    Scaled(d, x, a.x);
    Scaled(d, z, a.x);
    Scaled(d, z, x);
    assert b.y >= a.y ==> d * (z - x) >= 0.0;
    assert b.y <= a.y ==> d * (z - x) <= 0.0;
  }

  /** A point inside is strictly outside of no edge. */
  lemma InsideBesideEvery(points: seq<Point>, against: bool, x: real, y: real, k: nat)
    requires Convex(points, against) && InPolygon(x, y, points) && k < |points|
    ensures SideOf(points, against, k, Point(x, y)) >= 0.0
  {
    if forall e: nat :: !MetAt(points, y, e) {
      NoneMeets(points, x, y);
    }
    var e: nat :| MetAt(points, y, e);
    var u, d := TwoMeet(points, against, y, e);
    BetweenEdges(points, against, x, y, u, d);
    MeetingBeside(points, against, y, k, u);
    MeetingBeside(points, against, y, k, d);
    var a, b := From(points, against, k), To(points, against, k);
    SideSlope(a, b, Meeting(points, against, y, d), x, y);
    SideSlope(a, b, x, Meeting(points, against, y, u), y);
  }

  // ----- Strictly on the inner side of every edge is inside -----

  lemma Turned(px: real, py: real, nx: real, ny: real, x: real, y: real)
    ensures ny * (px * y - py * x) + py * (ny * x - nx * y) == y * (px * ny - py * nx)
  {
  }

  /** From a highest or lowest vertex the inner side of both its edges lies between them. */
  lemma NotBeyond(px: real, py: real, nx: real, ny: real, x: real, y: real)
    requires px * y - py * x > 0.0 && ny * x - nx * y > 0.0 && px * ny - py * nx > 0.0
    requires (py <= 0.0 && ny <= 0.0) || (py >= 0.0 && ny >= 0.0)
    ensures py <= 0.0 && ny <= 0.0 ==> y < 0.0
    ensures py >= 0.0 && ny >= 0.0 ==> y >= 0.0
  {
    var p, n, c := px * y - py * x, ny * x - nx * y, px * ny - py * nx;
    Turned(px, py, nx, ny, x, y);
    if py <= 0.0 && ny <= 0.0 {
      assert (-ny) * p >= 0.0 && (-py) * n >= 0.0;
      assert y * c <= 0.0;
      Factor(c, y, y * c);
    } else {
      assert ny * p >= 0.0 && py * n >= 0.0;
      assert y * c >= 0.0;
      Factor(c, y, y * c);
    }
  }

  function Next(k: nat, n: nat): (j: nat)
    requires k < n
    ensures j < n && Previous(j, n) == k
  {
    if k == n - 1 then 0 else k + 1
  }

  lemma Relative(n: Point, t: Point, q: Point)
    ensures Side(n, t, q) == (n.y - t.y) * (q.x - t.x) - (n.x - t.x) * (q.y - t.y)
  {
    var nx, ny, x, y := n.x - t.x, n.y - t.y, q.x - t.x, q.y - t.y;
    assert (t.x - n.x) * (q.y - n.y) == nx * ny - nx * y;
    assert (t.y - n.y) * (q.x - n.x) == ny * nx - ny * x;
  }

  ghost predicate AllSides(points: seq<Point>, against: bool, q: Point) {
    forall k: nat :: k < |points| ==> SideOf(points, against, k, q) > 0.0
  }

  lemma VertexNotBeyond(points: seq<Point>, against: bool, k: nat, q: Point)
    requires Convex(points, against) && AllSides(points, against, q) && k < |points|
    ensures (forall j :: 0 <= j < |points| ==> points[j].y <= points[k].y) ==> q.y < points[k].y
    ensures (forall j :: 0 <= j < |points| ==> points[j].y >= points[k].y) ==> q.y >= points[k].y
  {
    var next := Next(k, |points|);
    var i, j := if against then k else next, if against then next else k;
    var p, n, t := To(points, against, i), From(points, against, j), points[k];
    assert From(points, against, i) == t && To(points, against, j) == t;
    assert SideOf(points, against, i, q) > 0.0 && SideOf(points, against, j, q) > 0.0;
    assert SideOf(points, against, i, n) > 0.0;
    Relative(n, t, q);
    if (p.y <= t.y && n.y <= t.y) || (p.y >= t.y && n.y >= t.y) {
      NotBeyond(p.x - t.x, p.y - t.y, n.x - t.x, n.y - t.y, q.x - t.x, q.y - t.y);
    }
  }

  lemma {:induction false} SameHeight(points: seq<Point>, y: real, i: nat)
    requires i < |points| && forall e: nat :: !MetAt(points, y, e)
    ensures points[i].y > y <==> points[0].y > y
  {
    if i > 0 {
      SameHeight(points, y, i - 1);
      assert !MetAt(points, y, i);
    }
  }

  lemma ExtremeVertex(points: seq<Point>, high: bool) returns (k: nat)
    requires points != []
    ensures k < |points|
    ensures forall j :: 0 <= j < |points| ==> if high then points[j].y <= points[k].y else points[j].y >= points[k].y
  {
    var ys := Ys(points);
    ExtremesReached(ys);
    k :| k < |ys| && ys[k] == if high then MaxOf(ys) else MinOf(ys);
    forall j | 0 <= j < |points|
      ensures points[j].y in ys
    {
      assert ys[j] == points[j].y;
    }
  }

  lemma SidesMeetLine(points: seq<Point>, against: bool, q: Point)
    requires Convex(points, against) && AllSides(points, against, q)
    ensures exists e: nat :: MetAt(points, q.y, e)
  {
    if forall e: nat :: !MetAt(points, q.y, e) {
      var k := ExtremeVertex(points, points[0].y <= q.y);
      VertexNotBeyond(points, against, k, q);
      SameHeight(points, q.y, k);
    }
  }

  /** What lies strictly on the inner side of every edge of a convex polygon is inside; with
      `InsideBesideEvery`, the test errs on no point off the edges. */
  lemma BesideEveryInside(points: seq<Point>, against: bool, x: real, y: real)
    requires Convex(points, against) && AllSides(points, against, Point(x, y))
    ensures InPolygon(x, y, points)
  {
    SidesMeetLine(points, against, Point(x, y));
    var e: nat :| MetAt(points, y, e);
    var u, d := TwoMeet(points, against, y, e);
    InsideExactlyBetween(points, against, x, y, u, d);
  }

  // ----- Around a pixel centre -----

  function Corners(x0: real, x1: real, y0: real, y1: real): seq<Point> {
    [Point(x0, y0), Point(x1, y0), Point(x1, y1), Point(x0, y1)]
  }

  lemma CornerSides(x0: real, x1: real, y0: real, y1: real, p: Point)
    ensures SideOf(Corners(x0, x1, y0, y1), false, 0, p) == (y1 - y0) * (p.x - x0)
    ensures SideOf(Corners(x0, x1, y0, y1), false, 1, p) == (x1 - x0) * (p.y - y0)
    ensures SideOf(Corners(x0, x1, y0, y1), false, 2, p) == (y1 - y0) * (x1 - p.x)
    ensures SideOf(Corners(x0, x1, y0, y1), false, 3, p) == (x1 - x0) * (y1 - p.y)
  {
  }

  lemma CornerSigns(x0: real, x1: real, y0: real, y1: real, p: Point)
    requires x0 < x1 && y0 < y1
    ensures SideOf(Corners(x0, x1, y0, y1), false, 0, p) >= 0.0 <==> x0 <= p.x
    ensures SideOf(Corners(x0, x1, y0, y1), false, 1, p) >= 0.0 <==> y0 <= p.y
    ensures SideOf(Corners(x0, x1, y0, y1), false, 2, p) >= 0.0 <==> p.x <= x1
    ensures SideOf(Corners(x0, x1, y0, y1), false, 3, p) >= 0.0 <==> p.y <= y1
    ensures SideOf(Corners(x0, x1, y0, y1), false, 0, p) > 0.0 <==> x0 < p.x
    ensures SideOf(Corners(x0, x1, y0, y1), false, 1, p) > 0.0 <==> y0 < p.y
    ensures SideOf(Corners(x0, x1, y0, y1), false, 2, p) > 0.0 <==> p.x < x1
    ensures SideOf(Corners(x0, x1, y0, y1), false, 3, p) > 0.0 <==> p.y < y1
  {
    var points := Corners(x0, x1, y0, y1);
    CornerSides(x0, x1, y0, y1, p);
    Factor(y1 - y0, p.x - x0, SideOf(points, false, 0, p));
    Factor(x1 - x0, p.y - y0, SideOf(points, false, 1, p));
    Factor(y1 - y0, x1 - p.x, SideOf(points, false, 2, p));
    Factor(x1 - x0, y1 - p.y, SideOf(points, false, 3, p));
  }

  lemma CornersConvex(x0: real, x1: real, y0: real, y1: real)
    requires x0 < x1 && y0 < y1
    ensures Convex(Corners(x0, x1, y0, y1), false)
  {
    var points := Corners(x0, x1, y0, y1);
    forall i: nat, j: nat | i < 4 && j < 4 && j != i && j != Previous(i, 4)
      ensures SideOf(points, false, i, points[j]) > 0.0
    {
      CornerSigns(x0, x1, y0, y1, points[j]);
    }
  }

  lemma CornersInside(x0: real, x1: real, y0: real, y1: real, x: real, y: real)
    requires x0 < x1 && y0 < y1
    ensures x0 < x < x1 && y0 < y < y1 ==> InPolygon(x, y, Corners(x0, x1, y0, y1))
    ensures InPolygon(x, y, Corners(x0, x1, y0, y1)) ==> x0 <= x <= x1 && y0 <= y <= y1
  {
    var points, p := Corners(x0, x1, y0, y1), Point(x, y);
    CornersConvex(x0, x1, y0, y1);
    CornerSigns(x0, x1, y0, y1, p);
    if x0 < x < x1 && y0 < y < y1 {
      BesideEveryInside(points, false, x, y);
    }
    if InPolygon(x, y, points) {
      BesideCorners(points, x, y);
    }
  }

  lemma BesideCorners(points: seq<Point>, x: real, y: real)
    requires Convex(points, false) && |points| == 4 && InPolygon(x, y, points)
    ensures SideOf(points, false, 0, Point(x, y)) >= 0.0 && SideOf(points, false, 1, Point(x, y)) >= 0.0
    ensures SideOf(points, false, 2, Point(x, y)) >= 0.0 && SideOf(points, false, 3, Point(x, y)) >= 0.0
  {
    InsideBesideEvery(points, false, x, y, 0);
    InsideBesideEvery(points, false, x, y, 1);
    InsideBesideEvery(points, false, x, y, 2);
    InsideBesideEvery(points, false, x, y, 3);
  }

  /** Around the centre of a pixel, however tightly drawn, a square up to the pixel's own size selects
      that pixel and no other. */
  lemma SelectsItsPixel(x: int, y: int, e: real, p: int, q: int)
    requires 0.0 < e <= 0.5
    ensures var cx, cy := x as real + 0.5, y as real + 0.5;
      CentreInside(Corners(cx - e, cx + e, cy - e, cy + e))(p, q) <==> p == x && q == y
  {
    var cx, cy := x as real + 0.5, y as real + 0.5;
    CornersInside(cx - e, cx + e, cy - e, cy + e, p as real + 0.5, q as real + 0.5);
  }
}
