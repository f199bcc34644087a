/** Statistics over a region of interest of a preview grid (imageProcessing.ts). Coordinates
    are real numbers. */
module PolygonRoi {
  import opened Options
  import opened Seqs
  import opened Sums

  datatype Point = Point(x: real, y: real)

  datatype Roi =
    | Rectangle(x: real, y: real, width: real, height: real)
    | Freehand(points: seq<Point>)

  datatype RoiStats = RoiStats(count: nat, sum: int, mean: real, area: nat, min: int, max: int)

  const EMPTY_STATS := RoiStats(0, 0, 0.0, 0, 0, 0)

  // ----- The even-odd test -----

  predicate Straddles(a: Point, b: Point, y: real) {
    (a.y > y) != (b.y > y)
  }

  /** Where the edge from `a` to `b` meets the horizontal line at `y`. */
  function MeetsAt(a: Point, b: Point, y: real): real
    requires Straddles(a, b, y)
  {
    (b.x - a.x) * (y - a.y) / (b.y - a.y) + a.x
  }

  predicate Crosses(a: Point, b: Point, x: real, y: real) {
    Straddles(a, b, y) && x < MeetsAt(a, b, y)
  }

  function Previous(i: nat, n: nat): (j: nat)
    requires i < n
    ensures j < n
  {
    if i == 0 then n - 1 else i - 1
  }

  /** The vertex before vertex `i`, cyclically. */
  function Before(points: seq<Point>, i: nat): Point
    requires i < |points|
  {
    points[Previous(i, |points|)]
  }

  /** Whether an odd number of the first `n` edges counts. */
  function OddEdges(points: seq<Point>, counts: (Point, Point) -> bool, n: nat): bool
    requires n <= |points|
  {
    if n == 0 then false
    else OddEdges(points, counts, n - 1) != counts(points[n - 1], Before(points, n - 1))
  }

  function CrossesRay(x: real, y: real): (Point, Point) -> bool {
    (a: Point, b: Point) => Crosses(a, b, x, y)
  }

  function InPolygon(x: real, y: real, points: seq<Point>): bool {
    OddEdges(points, CrossesRay(x, y), |points|)
  }

  method PointInPolygon(x: real, y: real, points: seq<Point>) returns (inside: bool)
    ensures inside == InPolygon(x, y, points)
  {
    inside := false;
    var i, j := 0, |points| - 1;
    while i < |points|
      invariant 0 <= i <= |points| && j == if i == 0 then |points| - 1 else i - 1
      invariant inside == OddEdges(points, CrossesRay(x, y), i)
    {
      if Crosses(points[i], points[j], x, y) {
        inside := !inside;
      }
      i, j := i + 1, i;
    }
  }

  // ----- Outside the bounding box the count is even -----

  function StraddlesLine(y: real): (Point, Point) -> bool {
    (a: Point, b: Point) => Straddles(a, b, y)
  }

  /** Going round the vertices, the line is crossed back as often as it is crossed. */
  lemma {:induction false} StraddleParity(points: seq<Point>, y: real, n: nat)
    requires 1 <= n <= |points|
    ensures OddEdges(points, StraddlesLine(y), n) == ((points[n - 1].y > y) != (points[|points| - 1].y > y))
  {
    if n > 1 {
      StraddleParity(points, y, n - 1);
    }
  }

  lemma {:induction false} OddEdgesSame(points: seq<Point>, c: (Point, Point) -> bool, d: (Point, Point) -> bool,
          n: nat)
    requires n <= |points|
    requires forall a, b :: a in points && b in points ==> c(a, b) == d(a, b)
    ensures OddEdges(points, c, n) == OddEdges(points, d, n)
  {
    if n > 0 {
      OddEdgesSame(points, c, d, n - 1);
    }
  }

  lemma {:induction false} NoEdgeCounts(points: seq<Point>, c: (Point, Point) -> bool, n: nat)
    requires n <= |points|
    requires forall a, b :: a in points && b in points ==> !c(a, b)
    ensures !OddEdges(points, c, n)
  {
    if n > 0 {
      NoEdgeCounts(points, c, n - 1);
    }
  }

  lemma SignOfProduct(a: real, b: real)
    requires b != 0.0
    ensures b > 0.0 ==> (a * b > 0.0 <==> a > 0.0)
    ensures b < 0.0 ==> (a * b < 0.0 <==> a > 0.0)
  {
  }

  lemma QuotientBounds(num: real, den: real, lo: real, hi: real)
    requires den != 0.0
    requires den > 0.0 ==> lo * den <= num <= hi * den
    requires den < 0.0 ==> hi * den <= num <= lo * den
    ensures lo <= num / den <= hi
  {
    var q := num / den;
    assert q * den == num;
    SignOfProduct(lo - q, den);
    SignOfProduct(q - hi, den);
  }

  lemma Interpolated(d: real, t: real, u: real, w: real)
    requires u >= 0.0 && w >= 0.0 && (0.0 <= t <= d || d <= t <= 0.0)
    ensures d > 0.0 ==> (w - u) * t + u * d >= 0.0
    ensures d < 0.0 ==> (w - u) * t + u * d <= 0.0
  {
    assert (w - u) * t + u * d == w * t + u * (d - t);
    if d > 0.0 {
      assert w * t >= 0.0 && u * (d - t) >= 0.0;
    } else {
      assert w * t <= 0.0 && u * (d - t) <= 0.0;
    }
  }

  lemma Negated(p: real, q: real)
    ensures (-p) * q == -(p * q)
  {
  }

  /** The meeting point of a straddling edge lies between its ends. */
  lemma MeetsBetween(a: Point, b: Point, y: real, lo: real, hi: real)
    requires Straddles(a, b, y)
    requires lo <= a.x <= hi && lo <= b.x <= hi
    ensures lo <= MeetsAt(a, b, y) <= hi
  {
    var d, t := b.y - a.y, y - a.y;
    Interpolated(d, t, a.x - lo, b.x - lo);
    Interpolated(d, t, hi - a.x, hi - b.x);
    assert (hi - b.x) - (hi - a.x) == -(b.x - a.x) && (b.x - lo) - (a.x - lo) == b.x - a.x;
    Negated(b.x - a.x, t);
    Negated(a.x - lo, d);
    QuotientBounds((b.x - a.x) * t, d, lo - a.x, hi - a.x);
  }

  ghost predicate InBounds(points: seq<Point>, x0: real, x1: real, y0: real, y1: real) {
    forall p :: p in points ==> x0 <= p.x <= x1 && y0 <= p.y <= y1
  }

  /** A point outside the bounds of the vertices is outside the polygon: left of them every
      straddling edge is crossed, an even number in all, and elsewhere none is. */
  lemma OutsideBounds(x: real, y: real, points: seq<Point>, x0: real, x1: real, y0: real, y1: real)
    requires InBounds(points, x0, x1, y0, y1)
    requires x < x0 || x1 <= x || y < y0 || y1 <= y
    ensures !InPolygon(x, y, points)
  {
    if x < x0 && points != [] {
      forall a, b | a in points && b in points
        ensures CrossesRay(x, y)(a, b) == StraddlesLine(y)(a, b)
      {
        if Straddles(a, b, y) {
          MeetsBetween(a, b, y, x0, x1);
        }
      }
      OddEdgesSame(points, CrossesRay(x, y), StraddlesLine(y), |points|);
      StraddleParity(points, y, |points|);
    } else if points != [] {
      forall a, b | a in points && b in points
        ensures !CrossesRay(x, y)(a, b)
      {
        if Straddles(a, b, y) {
          MeetsBetween(a, b, y, x0, x1);
        }
      }
      NoEdgeCounts(points, CrossesRay(x, y), |points|);
    }
  }

  // ----- Accumulating statistics -----

  function Total(s: seq<int>): int {
    if s == [] then 0 else Total(s[..|s| - 1]) + s[|s| - 1]
  }

  /** The statistics of a list of pixel values. */
  function StatsOf(s: seq<int>): RoiStats {
    if s == [] then EMPTY_STATS
    else RoiStats(|s|, Total(s), Total(s) as real / |s| as real, |s|, Lowest(s), Highest(s))
  }

  lemma {:induction false} TotalJoin(s: seq<int>, t: seq<int>)
    ensures Total(s + t) == Total(s) + Total(t)
    ensures |s| == 1 ==> Total(s) == s[0]
    decreases |t|
  {
    if t == [] {
      assert s + t == s;
    } else {
      assert (s + t)[..|s + t| - 1] == s + t[..|t| - 1];
      TotalJoin(s, t[..|t| - 1]);
    }
  }

  /** The mean times the count is the sum, and the extremes are values that bound all others. */
  lemma StatsExactly(s: seq<int>)
    requires s != []
    ensures var r := StatsOf(s);
      && r.count == r.area == |s| && r.sum == Total(s) && Averages(|s|, r.mean, r.sum as real)
      && r.min in s && r.max in s && forall v :: v in s ==> r.min <= v <= r.max
  {
    QuotientAverages(|s|, Total(s) as real);
  }

  /** The grid's values, zero beyond the end of the buffer. */
  function ValueAt(values: seq<int>, i: int): int {
    if 0 <= i < |values| then values[i] else 0
  }

  /** The selected values of row `y` in columns `x0` to `x1`. */
  function RowValues(values: seq<int>, width: int, contains: (int, int) -> bool, y: int, x0: int, x1: int): seq<int>
    decreases x1 - x0
  {
    if x1 <= x0 then []
    else RowValues(values, width, contains, y, x0, x1 - 1)
         + if contains(x1 - 1, y) then [ValueAt(values, y * width + x1 - 1)] else []
  }

  /** The selected values of a box, in scan order. */
  function BoxValues(values: seq<int>, width: int, contains: (int, int) -> bool, x0: int, x1: int, y0: int, y1: int)
    : seq<int>
    decreases y1 - y0
  {
    if y1 <= y0 then []
    else BoxValues(values, width, contains, x0, x1, y0, y1 - 1) + RowValues(values, width, contains, y1 - 1, x0, x1)
  }

  class Accumulator {
    var count: nat
    var sum: int
    var min: Option<int>
    var max: Option<int>

    /** The running statistics are those of the values `s`; a missing bound is infinite. */
    ghost predicate Holds(s: seq<int>)
      reads this
    {
      && count == |s| && sum == Total(s)
      && (if s == [] then min.None? && max.None? else min == Some(Lowest(s)) && max == Some(Highest(s)))
    }

    constructor ()
      ensures Holds([])
    {
      count, sum, min, max := 0, 0, None, None;
    }

    method Take(v: int, ghost s: seq<int>)
      requires Holds(s)
      modifies this
      ensures Holds(s + [v])
    {
      assert (s + [v])[..|s|] == s;
      count := count + 1;
      sum := sum + v;
      if min.None? || v < min.value {
        min := Some(v);
      }
      if max.None? || v > max.value {
        max := Some(v);
      }
    }
  }

  /** The inner loop of the scan: one row of the box. */
  method AccumulateRow(acc: Accumulator, values: seq<int>, width: int, contains: (int, int) -> bool, y: int,
          left: int, right: int, ghost above: seq<int>)
    requires acc.Holds(above)
    modifies acc
    ensures acc.Holds(above + RowValues(values, width, contains, y, left, right))
  {
    var x := left;
    ghost var done := above;
    assert above + [] == above;
    while x < right
      invariant left <= x && (x <= right || x == left)
      invariant done == above + RowValues(values, width, contains, y, left, x) && acc.Holds(done)
    {
      if contains(x, y) {
        var v := ValueAt(values, y * width + x);
        acc.Take(v, done);
        done := done + [v];
      }
      x := x + 1;
    }
  }

  /** Scan the part of the box inside the grid. */
  method Accumulate(values: seq<int>, width: int, height: int, contains: (int, int) -> bool, x0: int, y0: int,
          x1: int, y1: int)
    returns (stats: RoiStats)
    ensures stats
      == StatsOf(BoxValues(values, width, contains, Max(0, x0), Min(width, x1), Max(0, y0), Min(height, y1)))
  {
    var acc := new Accumulator();
    var left, right, y, bottom := Max(0, x0), Min(width, x1), Max(0, y0), Min(height, y1);
    ghost var top := y;
    while y < bottom
      invariant top <= y && (y <= bottom || y == top)
      invariant acc.Holds(BoxValues(values, width, contains, left, right, top, y))
    {
      AccumulateRow(acc, values, width, contains, y, left, right,
        BoxValues(values, width, contains, left, right, top, y));
      y := y + 1;
    }
    if acc.count == 0 {
      stats := EMPTY_STATS;
    } else {
      stats := RoiStats(acc.count, acc.sum, acc.sum as real / acc.count as real, acc.count, acc.min.value,
        acc.max.value);
    }
  }

  function Everywhere(): (int, int) -> bool {
    (x: int, y: int) => true
  }

  lemma RowsFit(y: nat, h: nat, w: nat)
    requires y <= h
    ensures y * w <= h * w && (y > 0 ==> y * w == (y - 1) * w + w)
  {
  }

  lemma {:induction false} RowOfGrid(values: seq<int>, w: nat, y: nat, x: nat)
    requires x <= w && y * w + x <= |values|
    ensures RowValues(values, w, Everywhere(), y, 0, x) == values[y * w..y * w + x]
  {
    if x > 0 {
      RowOfGrid(values, w, y, x - 1);
    }
  }

  /** A grid is stored row after row: scanning all of it gives its values in order. */
  lemma {:induction false} WholeGrid(values: seq<int>, w: nat, h: nat, y: nat)
    requires y <= h && |values| == h * w
    ensures y * w <= |values| && BoxValues(values, w, Everywhere(), 0, w, 0, y) == values[..y * w]
  {
    RowsFit(y, h, w);
    if y > 0 {
      WholeGrid(values, w, h, y - 1);
      RowOfGrid(values, w, y - 1, w);
    }
  }

  // ----- The box loses no pixel -----

  lemma {:induction false} RowShrinks(values: seq<int>, width: int, contains: (int, int) -> bool, y: int, a: int,
          b: int, x0: int, x1: int)
    requires a <= x0 && x1 <= b
    requires forall x :: a <= x < b && !(x0 <= x < x1) ==> !contains(x, y)
    ensures RowValues(values, width, contains, y, a, b) == RowValues(values, width, contains, y, x0, x1)
    decreases b - a
  {
    if a < b {
      if b == x1 && x0 < x1 {
        RowShrinks(values, width, contains, y, a, b - 1, x0, x1 - 1);
      } else {
        RowShrinks(values, width, contains, y, a, b - 1, x0, if x1 < b then x1 else b - 1);
      }
    }
  }

  lemma {:induction false} RowNothing(values: seq<int>, width: int, contains: (int, int) -> bool, y: int, a: int,
          b: int)
    requires forall x :: a <= x < b ==> !contains(x, y)
    ensures RowValues(values, width, contains, y, a, b) == []
    decreases b - a
  {
    if a < b {
      RowNothing(values, width, contains, y, a, b - 1);
    }
  }

  lemma {:induction false} BoxShrinks(values: seq<int>, width: int, contains: (int, int) -> bool, a: int, b: int,
          c: int, d: int, x0: int, x1: int, y0: int, y1: int)
    requires a <= x0 && x1 <= b && c <= y0 && y1 <= d
    requires forall x, y :: a <= x < b && c <= y < d && !(x0 <= x < x1 && y0 <= y < y1) ==> !contains(x, y)
    ensures BoxValues(values, width, contains, a, b, c, d) == BoxValues(values, width, contains, x0, x1, y0, y1)
    decreases d - c
  {
    if c < d {
      if d == y1 && y0 < y1 {
        BoxShrinks(values, width, contains, a, b, c, d - 1, x0, x1, y0, y1 - 1);
        RowShrinks(values, width, contains, d - 1, a, b, x0, x1);
      } else {
        BoxShrinks(values, width, contains, a, b, c, d - 1, x0, x1, y0, if y1 < d then y1 else d - 1);
        RowNothing(values, width, contains, d - 1, a, b);
      }
    }
  }

  function Floor(x: real): int {
    x.Floor
  }

  function Ceil(x: real): int {
    -((-x).Floor)
  }

  function MinOf(s: seq<real>): (m: real)
    requires s != []
    ensures forall v :: v in s ==> m <= v
  {
    assert s == [s[0]] + s[1..];
    if |s| == 1 then s[0]
    else if s[0] < MinOf(s[1..]) then s[0] else MinOf(s[1..])
  }

  function MaxOf(s: seq<real>): (m: real)
    requires s != []
    ensures forall v :: v in s ==> v <= m
  {
    assert s == [s[0]] + s[1..];
    if |s| == 1 then s[0]
    else if s[0] > MaxOf(s[1..]) then s[0] else MaxOf(s[1..])
  }

  lemma {:induction false} ExtremesReached(s: seq<real>)
    requires s != []
    ensures MinOf(s) in s && MaxOf(s) in s
  {
    if |s| > 1 {
      ExtremesReached(s[1..]);
    }
  }

  function Xs(points: seq<Point>): (s: seq<real>)
    ensures |s| == |points| && forall i :: 0 <= i < |s| ==> s[i] == points[i].x
  {
    seq(|points|, i requires 0 <= i < |points| => points[i].x)
  }

  function Ys(points: seq<Point>): (s: seq<real>)
    ensures |s| == |points| && forall i :: 0 <= i < |s| ==> s[i] == points[i].y
  {
    seq(|points|, i requires 0 <= i < |points| => points[i].y)
  }

  lemma VerticesInBounds(points: seq<Point>)
    requires points != []
    ensures InBounds(points, MinOf(Xs(points)), MaxOf(Xs(points)), MinOf(Ys(points)), MaxOf(Ys(points)))
  {
    forall p | p in points
      ensures p.x in Xs(points) && p.y in Ys(points)
    {
      var i :| 0 <= i < |points| && points[i] == p;
      assert Xs(points)[i] == p.x && Ys(points)[i] == p.y;
    }
  }

  /** Whether the centre of a pixel lies in the polygon. */
  function CentreInside(points: seq<Point>): (int, int) -> bool {
    (x: int, y: int) => InPolygon(x as real + 0.5, y as real + 0.5, points)
  }

  /** Every pixel whose centre lies in the polygon is a pixel of the rounded bounding box. */
  lemma CentreInBox(points: seq<Point>, x: int, y: int)
    requires points != [] && CentreInside(points)(x, y)
    ensures Floor(MinOf(Xs(points))) <= x < Ceil(MaxOf(Xs(points)))
    ensures Floor(MinOf(Ys(points))) <= y < Ceil(MaxOf(Ys(points)))
  {
    VerticesInBounds(points);
    var cx, cy := x as real + 0.5, y as real + 0.5;
    var x0, x1, y0, y1 := MinOf(Xs(points)), MaxOf(Xs(points)), MinOf(Ys(points)), MaxOf(Ys(points));
    if cx < x0 || x1 <= cx || cy < y0 || y1 <= cy {
      OutsideBounds(cx, cy, points, x0, x1, y0, y1);
    }
  }

  /** The values found in the clipped bounding box are those a scan of the whole grid finds. */
  lemma BoxLosesNothing(values: seq<int>, width: int, height: int, points: seq<Point>)
    requires points != []
    ensures BoxValues(values, width, CentreInside(points),
                      Max(0, Floor(MinOf(Xs(points)))), Min(width, Ceil(MaxOf(Xs(points)))),
                      Max(0, Floor(MinOf(Ys(points)))), Min(height, Ceil(MaxOf(Ys(points)))))
         == BoxValues(values, width, CentreInside(points), 0, width, 0, height)
  {
    forall x, y | CentreInside(points)(x, y)
      ensures Floor(MinOf(Xs(points))) <= x < Ceil(MaxOf(Xs(points)))
      ensures Floor(MinOf(Ys(points))) <= y < Ceil(MaxOf(Ys(points)))
    {
      CentreInBox(points, x, y);
    }
    BoxShrinks(values, width, CentreInside(points), 0, width, 0, height,
               Max(0, Floor(MinOf(Xs(points)))), Min(width, Ceil(MaxOf(Xs(points)))),
               Max(0, Floor(MinOf(Ys(points)))), Min(height, Ceil(MaxOf(Ys(points)))));
  }

  /** Whether pixel (`x`, `y`), taken as the open unit square at that corner, meets the
      rectangle between the corners (`xa`, `ya`) and (`xb`, `yb`) in whatever order. */
  function CellMeets(xa: real, xb: real, ya: real, yb: real): (int, int) -> bool {
    (x: int, y: int) =>
      MinOf([xa, xb]) < x as real + 1.0 && x as real < MaxOf([xa, xb]) &&
      MinOf([ya, yb]) < y as real + 1.0 && y as real < MaxOf([ya, yb])
  }

  predicate Between(p: real, a: real, b: real) {
    a <= p <= b || b <= p <= a
  }

  /** A number between `lo` and `hi` and strictly between `c` and `c + 1`. */
  function Common(lo: real, hi: real, c: real): (p: real)
    requires lo <= hi && lo < c + 1.0 && c < hi
    ensures lo <= p <= hi && c < p < c + 1.0
  {
    ((if lo < c then c else lo) + (if hi < c + 1.0 then hi else c + 1.0)) / 2.0
  }

  /** A rectangle covers a pixel exactly when the open unit square has a point in common with it. */
  lemma CellMeetsExactly(xa: real, xb: real, ya: real, yb: real, x: int, y: int)
    ensures CellMeets(xa, xb, ya, yb)(x, y) <==> exists px, py ::
      Between(px, xa, xb) && x as real < px < x as real + 1.0 && Between(py, ya, yb) && y as real < py < y as real + 1.0
  {
    ExtremesReached([xa, xb]);
    ExtremesReached([ya, yb]);
    if CellMeets(xa, xb, ya, yb)(x, y) {
      var px := Common(MinOf([xa, xb]), MaxOf([xa, xb]), x as real);
      var py := Common(MinOf([ya, yb]), MaxOf([ya, yb]), y as real);
      assert Between(px, xa, xb) && Between(py, ya, yb);
    }
  }

  lemma FloorCeil(lo: real, hi: real, x: int)
    ensures Floor(lo) <= x < Ceil(hi) <==> lo < x as real + 1.0 && x as real < hi
  {
  }

  lemma {:induction false} RowSame(values: seq<int>, width: int, c: (int, int) -> bool, d: (int, int) -> bool, y: int,
          x0: int, x1: int)
    requires forall x :: x0 <= x < x1 ==> c(x, y) == d(x, y)
    ensures RowValues(values, width, c, y, x0, x1) == RowValues(values, width, d, y, x0, x1)
    decreases x1 - x0
  {
    if x0 < x1 {
      RowSame(values, width, c, d, y, x0, x1 - 1);
    }
  }

  lemma {:induction false} BoxSame(values: seq<int>, width: int, c: (int, int) -> bool, d: (int, int) -> bool,
          x0: int, x1: int, y0: int, y1: int)
    requires forall x, y :: x0 <= x < x1 && y0 <= y < y1 ==> c(x, y) == d(x, y)
    ensures BoxValues(values, width, c, x0, x1, y0, y1) == BoxValues(values, width, d, x0, x1, y0, y1)
    decreases y1 - y0
  {
    if y0 < y1 {
      BoxSame(values, width, c, d, x0, x1, y0, y1 - 1);
      RowSame(values, width, c, d, y1 - 1, x0, x1);
    }
  }

  /** Which pixels a region covers. */
  function Covers(roi: Roi): (int, int) -> bool {
    match roi
    case Rectangle(x, y, w, h) => CellMeets(x, x + w, y, y + h)
    case Freehand(points) => CentreInside(points)
  }

  lemma RectangleBox(values: seq<int>, width: int, height: int, xa: real, xb: real, ya: real, yb: real)
    ensures BoxValues(values, width, Everywhere(),
                      Max(0, Floor(MinOf([xa, xb]))), Min(width, Ceil(MaxOf([xa, xb]))),
                      Max(0, Floor(MinOf([ya, yb]))), Min(height, Ceil(MaxOf([ya, yb]))))
         == BoxValues(values, width, CellMeets(xa, xb, ya, yb), 0, width, 0, height)
  {
    var c := CellMeets(xa, xb, ya, yb);
    var x0, x1 := Max(0, Floor(MinOf([xa, xb]))), Min(width, Ceil(MaxOf([xa, xb])));
    var y0, y1 := Max(0, Floor(MinOf([ya, yb]))), Min(height, Ceil(MaxOf([ya, yb])));
    forall x, y
      ensures 0 <= x < width && 0 <= y < height ==> (c(x, y) <==> x0 <= x < x1 && y0 <= y < y1)
    {
      FloorCeil(MinOf([xa, xb]), MaxOf([xa, xb]), x);
      FloorCeil(MinOf([ya, yb]), MaxOf([ya, yb]), y);
    }
    BoxSame(values, width, Everywhere(), c, x0, x1, y0, y1);
    BoxShrinks(values, width, c, 0, width, 0, height, x0, x1, y0, y1);
  }

  lemma {:induction false} NothingSelected(values: seq<int>, width: int, c: (int, int) -> bool, x0: int, x1: int,
          y0: int, y1: int)
    requires forall x, y :: !c(x, y)
    ensures BoxValues(values, width, c, x0, x1, y0, y1) == []
    decreases y1 - y0
  {
    if y0 < y1 {
      NothingSelected(values, width, c, x0, x1, y0, y1 - 1);
      if x0 < x1 {
        RowShrinks(values, width, c, y1 - 1, x0, x1, x0, x0);
      }
    }
  }

  method RectangleStats(values: seq<int>, width: int, height: int, xa: real, xb: real, ya: real, yb: real)
    returns (stats: RoiStats)
    ensures stats == StatsOf(BoxValues(values, width, CellMeets(xa, xb, ya, yb), 0, width, 0, height))
  {
    var x0, x1 := Floor(MinOf([xa, xb])), Ceil(MaxOf([xa, xb]));
    var y0, y1 := Floor(MinOf([ya, yb])), Ceil(MaxOf([ya, yb]));
    stats := Accumulate(values, width, height, Everywhere(), x0, y0, x1, y1);
    RectangleBox(values, width, height, xa, xb, ya, yb);
  }

  method FreehandStats(values: seq<int>, width: int, height: int, points: seq<Point>) returns (stats: RoiStats)
    ensures stats == StatsOf(BoxValues(values, width, CentreInside(points), 0, width, 0, height))
  {
    if points == [] {
      NothingSelected(values, width, CentreInside(points), 0, width, 0, height);
      return EMPTY_STATS;
    }
    var x0, x1 := Floor(MinOf(Xs(points))), Ceil(MaxOf(Xs(points)));
    var y0, y1 := Floor(MinOf(Ys(points))), Ceil(MaxOf(Ys(points)));
    stats := Accumulate(values, width, height, CentreInside(points), x0, y0, x1, y1);
    BoxLosesNothing(values, width, height, points);
  }

  /** The statistics are those of a scan of the whole grid for the pixels the region covers. */
  method Stats(values: seq<int>, width: int, height: int, roi: Roi) returns (stats: RoiStats)
    ensures stats == StatsOf(BoxValues(values, width, Covers(roi), 0, width, 0, height))
  {
    match roi
    case Rectangle(x, y, w, h) => stats := RectangleStats(values, width, height, x, x + w, y, y + h);
    case Freehand(points) => stats := FreehandStats(values, width, height, points);
  }
}
