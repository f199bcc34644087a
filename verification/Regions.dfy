/** Measuring one label of a grid (SEP_D.py, `calculate_*`). */
module Regions {
  import opened Grids
  import opened Options
  import opened Seqs
  import opened Sums

  datatype Box = Box(rowMin: int, rowMax: int, colMin: int, colMax: int)

  datatype Obj = Obj(x: real, y: real, bbox: Box, npix: int, meanInt: real)

  datatype Entry = Entry(key: int, obj: Obj)

  /** A dictionary from labels to objects, in insertion order. */
  type Table = seq<Entry>

  predicate At(l: Labels, p: Pixel, key: int) {
    p in l && l[p] == key
  }

  function RowWhere(l: Labels, r: nat, c: nat, w: nat, key: int): (s: seq<Pixel>)
    ensures forall p :: p in s <==> At(l, p, key) && p.row == r && c <= p.col < w
    decreases w - c
  {
    if c >= w then []
    else if At(l, Pixel(r, c), key) then [Pixel(r, c)] + RowWhere(l, r, c + 1, w, key)
    else RowWhere(l, r, c + 1, w, key)
  }

  /** The pixels labelled `key` in rows `r` to `h`, in raster order. */
  function Where(l: Labels, r: nat, h: nat, w: nat, key: int): (s: seq<Pixel>)
    ensures forall p :: p in s <==> At(l, p, key) && r <= p.row < h && 0 <= p.col < w
    decreases h - r
  {
    if r >= h then [] else RowWhere(l, r, 0, w, key) + Where(l, r + 1, h, w, key)
  }

  // ----- The whole image -----

  /** The values of row `r` from column `c` on. */
  function RowValues(v: map<Pixel, real>, r: nat, c: nat, w: nat): (s: seq<real>)
    ensures |s| == if c < w then w - c else 0
    decreases w - c
  {
    if c >= w then [] else [if Pixel(r, c) in v then v[Pixel(r, c)] else 0.0] + RowValues(v, r, c + 1, w)
  }

  /** The values of rows `r` to `h`, in raster order. */
  function Values(v: map<Pixel, real>, r: nat, h: nat, w: nat): (s: seq<real>)
    ensures r < h && w > 0 ==> s != []
    decreases h - r
  {
    if r >= h then [] else RowValues(v, r, 0, w) + Values(v, r + 1, h, w)
  }

  function Average(s: seq<real>): real
    requires s != []
  {
    Sum(s) / |s| as real
  }

  function SquaredDeviation(m: real): real -> real {
    (x: real) => (x - m) * (x - m)
  }

  /** The mean squared deviation from the average. */
  function Variance(s: seq<real>): real
    requires s != []
  {
    Average(Mapped(SquaredDeviation(Average(s)), s))
  }

  /** `std` is the standard deviation of the values. */
  predicate IsStd(s: seq<real>, std: real)
    requires s != []
  {
    std >= 0.0 && std * std == Variance(s)
  }

  lemma SquareOrder(a: real, b: real)
    requires 0.0 <= a < b
    ensures a * a < b * b
  {
    PositiveProduct(b - a, b + a);
    assert (b - a) * (b + a) == b * b - a * a;
  }

  /** There is no other, so the threshold computed from it is determined by the image. */
  lemma StdUnique(s: seq<real>, a: real, b: real)
    requires s != [] && IsStd(s, a) && IsStd(s, b)
    ensures a == b
  {
    if a < b {
      SquareOrder(a, b);
    } else if b < a {
      SquareOrder(b, a);
    }
  }

  function Rows(s: seq<Pixel>): seq<int> {
    seq(|s|, i requires 0 <= i < |s| => s[i].row)
  }

  function Cols(s: seq<Pixel>): seq<int> {
    seq(|s|, i requires 0 <= i < |s| => s[i].col)
  }

  function Mean(s: seq<int>): real
    requires s != []
  {
    Sum(Mapped((x: int) => x as real, s)) / |s| as real
  }

  function CalculateCentroid(l: Labels, h: nat, w: nat, key: int): Option<(real, real)> {
    var s := Where(l, 0, h, w, key);
    if s == [] then None else Some((Mean(Rows(s)), Mean(Cols(s))))
  }

  function CalculateBoundingBox(l: Labels, h: nat, w: nat, key: int): Option<Box> {
    var s := Where(l, 0, h, w, key);
    if s == [] then None
    else Some(Box(Lowest(Rows(s)), Highest(Rows(s)), Lowest(Cols(s)), Highest(Cols(s))))
  }

  /** Every pixel of `s` lies inside `b`, and each side of `b` is reached by one. */
  ghost predicate TightBox(s: seq<Pixel>, b: Box) {
    && (forall p :: p in s ==> InBox(p, b))
    && (exists i :: 0 <= i < |s| && s[i].row == b.rowMin)
    && (exists i :: 0 <= i < |s| && s[i].row == b.rowMax)
    && (exists i :: 0 <= i < |s| && s[i].col == b.colMin)
    && (exists i :: 0 <= i < |s| && s[i].col == b.colMax)
  }

  /** The bounding box is tight around the label's pixels, and missing exactly when there are none. */
  lemma BoundingBoxTight(l: Labels, h: nat, w: nat, key: int)
    ensures CalculateBoundingBox(l, h, w, key).None? <==> forall p :: Within(p, h, w) ==> !At(l, p, key)
    ensures forall p :: p in Where(l, 0, h, w, key) <==> Within(p, h, w) && At(l, p, key)
    ensures CalculateBoundingBox(l, h, w, key).Some? ==>
      TightBox(Where(l, 0, h, w, key), CalculateBoundingBox(l, h, w, key).value)
  {
    var s := Where(l, 0, h, w, key);
    if s == [] {
      assert forall p :: p !in s;
    } else {
      assert s[0] in s;
      BoxTight(s);
    }
  }

  lemma BoxTight(s: seq<Pixel>)
    requires s != []
    ensures TightBox(s, Box(Lowest(Rows(s)), Highest(Rows(s)), Lowest(Cols(s)), Highest(Cols(s))))
  {
    forall p | p in s
      ensures p.row in Rows(s) && p.col in Cols(s)
    {
      var i :| 0 <= i < |s| && s[i] == p;
      assert Rows(s)[i] == p.row && Cols(s)[i] == p.col;
    }
    Reached(s, Lowest(Rows(s)), Lowest(Cols(s)));
    Reached(s, Highest(Rows(s)), Highest(Cols(s)));
  }

  lemma Reached(s: seq<Pixel>, r: int, c: int)
    requires r in Rows(s) && c in Cols(s)
    ensures exists i :: 0 <= i < |s| && s[i].row == r
    ensures exists i :: 0 <= i < |s| && s[i].col == c
  {
    var i :| 0 <= i < |s| && Rows(s)[i] == r;
    var j :| 0 <= j < |s| && Cols(s)[j] == c;
    assert s[i].row == r && s[j].col == c;
  }

  predicate InBox(p: Pixel, b: Box) {
    b.rowMin <= p.row <= b.rowMax && b.colMin <= p.col <= b.colMax
  }

  function CalculateNpix(l: Labels, h: nat, w: nat, key: int): nat {
    |Where(l, 0, h, w, key)|
  }

  function Intensity(image: map<Pixel, real>): Pixel -> real {
    (p: Pixel) => if p in image then image[p] else 0.0
  }

  function CalculateMeanInt(l: Labels, h: nat, w: nat, key: int, image: map<Pixel, real>): real {
    Sum(Mapped(Intensity(image), Where(l, 0, h, w, key)))
  }

  ghost function RowRegion(l: Labels, r: nat, c: nat, w: nat, key: int): set<Pixel> {
    set p | p in l && At(l, p, key) && p.row == r && c <= p.col < w
  }

  ghost function Region(l: Labels, r: nat, h: nat, w: nat, key: int): set<Pixel> {
    set p | p in l && At(l, p, key) && r <= p.row < h && 0 <= p.col < w
  }

  lemma {:induction false} RowWhereCounts(l: Labels, r: nat, c: nat, w: nat, key: int)
    ensures |RowWhere(l, r, c, w, key)| == |RowRegion(l, r, c, w, key)|
    decreases w - c
  {
    if c >= w {
      assert RowRegion(l, r, c, w, key) == {};
    } else {
      RowWhereCounts(l, r, c + 1, w, key);
      var rest := RowRegion(l, r, c + 1, w, key);
      if At(l, Pixel(r, c), key) {
        assert RowRegion(l, r, c, w, key) == rest + {Pixel(r, c)};
      } else {
        assert RowRegion(l, r, c, w, key) == rest;
      }
    }
  }

  lemma {:induction false} WhereCounts(l: Labels, r: nat, h: nat, w: nat, key: int)
    ensures |Where(l, r, h, w, key)| == |Region(l, r, h, w, key)|
    decreases h - r
  {
    if r >= h {
      assert Region(l, r, h, w, key) == {};
    } else {
      WhereCounts(l, r + 1, h, w, key);
      RowWhereCounts(l, r, 0, w, key);
      assert Region(l, r, h, w, key) == RowRegion(l, r, 0, w, key) + Region(l, r + 1, h, w, key);
    }
  }

  /** `npix` is the number of pixels carrying the label. */
  lemma NpixCountsPixels(l: Labels, h: nat, w: nat, key: int)
    ensures CalculateNpix(l, h, w, key) == |set p | p in Domain(h, w) && At(l, p, key)|
  {
    WhereCounts(l, 0, h, w, key);
    assert Region(l, 0, h, w, key) == set p | p in Domain(h, w) && At(l, p, key);
  }

  lemma {:induction false} RowWhereSame(l: Labels, m: Labels, r: nat, c: nat, h: nat, w: nat, key: int)
    requires r < h
    requires forall p :: Within(p, h, w) ==> (At(l, p, key) <==> At(m, p, key))
    ensures RowWhere(l, r, c, w, key) == RowWhere(m, r, c, w, key)
    decreases w - c
  {
    if c < w {
      RowWhereSame(l, m, r, c + 1, h, w, key);
      assert Within(Pixel(r, c), h, w);
    }
  }

  /** Where a label is, is all that its measurements depend on. */
  lemma {:induction false} WhereSame(l: Labels, m: Labels, r: nat, h: nat, w: nat, key: int)
    requires forall p :: Within(p, h, w) ==> (At(l, p, key) <==> At(m, p, key))
    ensures Where(l, r, h, w, key) == Where(m, r, h, w, key)
    decreases h - r
  {
    if r < h {
      WhereSame(l, m, r + 1, h, w, key);
      RowWhereSame(l, m, r, 0, h, w, key);
    }
  }

  /** The dictionary entry of a label, as both `extract_objects` and `update_objects` build it.
      Subscripting the missing centroid of an absent label would raise, hence the precondition. */
  function Measure(l: Labels, h: nat, w: nat, key: int, image: map<Pixel, real>): Obj
    requires Where(l, 0, h, w, key) != []
  {
    var centroid := CalculateCentroid(l, h, w, key).value;
    Obj(centroid.0, centroid.1, CalculateBoundingBox(l, h, w, key).value,
        CalculateNpix(l, h, w, key), CalculateMeanInt(l, h, w, key, image))
  }

  lemma MeasureSame(l: Labels, m: Labels, h: nat, w: nat, key: int, image: map<Pixel, real>)
    requires forall p :: Within(p, h, w) ==> (At(l, p, key) <==> At(m, p, key))
    requires Where(l, 0, h, w, key) != []
    ensures Where(m, 0, h, w, key) != [] && Measure(l, h, w, key, image) == Measure(m, h, w, key, image)
  {
    WhereSame(l, m, 0, h, w, key);
  }

  // ----- What an entry says of its label -----

  function RowOf(): Pixel -> real {
    (p: Pixel) => p.row as real
  }

  function ColOf(): Pixel -> real {
    (p: Pixel) => p.col as real
  }

  /** The pixels of the grid that carry the label. */
  ghost function Carrying(l: Labels, h: nat, w: nat, key: int): set<Pixel> {
    set p | p in Domain(h, w) && At(l, p, key)
  }

  /** The entry counts the pixels of the set; its centroid and intensity are the averages of the rows
      and of the columns, and the total of the image, over that set. */
  ghost predicate Describes(o: Obj, pixels: set<Pixel>, image: map<Pixel, real>) {
    && o.npix == |pixels|
    && Averages(|pixels|, o.x, SetSum(RowOf(), pixels))
    && Averages(|pixels|, o.y, SetSum(ColOf(), pixels))
    && o.meanInt == SetSum(Intensity(image), pixels)
  }

  lemma WhereCarrying(l: Labels, h: nat, w: nat, key: int)
    ensures Elements(Where(l, 0, h, w, key)) == Carrying(l, h, w, key)
    ensures |Where(l, 0, h, w, key)| == |Carrying(l, h, w, key)|
  {
    NpixCountsPixels(l, h, w, key);
  }

  lemma MeanAverages(s: seq<Pixel>, values: seq<int>, f: Pixel -> real)
    requires s != [] && |Elements(s)| == |s| == |values|
    requires forall i :: 0 <= i < |s| ==> values[i] as real == f(s[i])
    ensures Averages(|s|, Mean(values), SetSum(f, Elements(s)))
  {
    SumOfDistinct(f, s);
    assert Mapped((x: int) => x as real, values) == Mapped(f, s);
    QuotientAverages(|s|, Sum(Mapped(f, s)));
  }

  lemma CentroidDescribes(l: Labels, h: nat, w: nat, key: int)
    requires Where(l, 0, h, w, key) != []
    ensures var c, pixels := CalculateCentroid(l, h, w, key).value, Carrying(l, h, w, key);
      && Averages(|pixels|, c.0, SetSum(RowOf(), pixels))
      && Averages(|pixels|, c.1, SetSum(ColOf(), pixels))
  {
    var s := Where(l, 0, h, w, key);
    WhereCarrying(l, h, w, key);
    MeanAverages(s, Rows(s), RowOf());
    MeanAverages(s, Cols(s), ColOf());
  }

  /** Every field of an entry, in terms of the set of pixels carrying its label. */
  lemma MeasureDescribes(l: Labels, h: nat, w: nat, key: int, image: map<Pixel, real>)
    requires Where(l, 0, h, w, key) != []
    ensures Describes(Measure(l, h, w, key, image), Carrying(l, h, w, key), image)
  {
    CentroidDescribes(l, h, w, key);
    WhereCarrying(l, h, w, key);
    SumOfDistinct(Intensity(image), Where(l, 0, h, w, key));
  }

  // ----- What the threshold is made of -----

  /** One label everywhere. */
  function Uniform(h: nat, w: nat): Labels {
    map p | p in Domain(h, w) :: 1
  }

  lemma {:induction false} RowValuesOfAll(v: map<Pixel, real>, r: nat, c: nat, h: nat, w: nat)
    requires r < h
    ensures RowValues(v, r, c, w) == Mapped(Intensity(v), RowWhere(Uniform(h, w), r, c, w, 1))
    decreases w - c
  {
    if c < w {
      RowValuesOfAll(v, r, c + 1, h, w);
    }
  }

  lemma {:induction false} ValuesOfAll(v: map<Pixel, real>, r: nat, h: nat, w: nat)
    ensures Values(v, r, h, w) == Mapped(Intensity(v), Where(Uniform(h, w), r, h, w, 1))
    decreases h - r
  {
    if r < h {
      ValuesOfAll(v, r + 1, h, w);
      RowValuesOfAll(v, r, 0, h, w);
    }
  }

  /** There is one value for each pixel of the image. */
  lemma ValuesTotal(v: map<Pixel, real>, h: nat, w: nat)
    ensures |Values(v, 0, h, w)| == |Domain(h, w)| && Sum(Values(v, 0, h, w)) == SetSum(Intensity(v), Domain(h, w))
  {
    var s := Where(Uniform(h, w), 0, h, w, 1);
    ValuesOfAll(v, 0, h, w);
    WhereCarrying(Uniform(h, w), h, w, 1);
    assert Carrying(Uniform(h, w), h, w, 1) == Domain(h, w);
    SumOfDistinct(Intensity(v), s);
  }

  function Square(): real -> real {
    (x: real) => x * x
  }

  lemma Expanded(x: real, m: real)
    ensures (x - m) * (x - m) == x * x - 2.0 * (m * x) + m * m
  {
  }

  lemma DeviationAt(m: real, x: real)
    ensures SquaredDeviation(m)(x) == Square()(x) - 2.0 * Times(m)(x) + Always(m * m)(x)
  {
    Expanded(x, m);
  }

  ghost predicate Combines(f: real -> real, a: real -> real, b: real -> real, c: real -> real) {
    forall x :: f(x) == a(x) - 2.0 * b(x) + c(x)
  }

  lemma DeviationCombines(m: real, c: real)
    requires c == m * m
    ensures Combines(SquaredDeviation(m), Square(), Times(m), Always(c))
  {
    forall x
      ensures SquaredDeviation(m)(x) == Square()(x) - 2.0 * Times(m)(x) + Always(c)(x)
    {
      DeviationAt(m, x);
    }
  }

  lemma Quotients(n: real, e: real, deviations: real, squares: real, product: real, constant: real, c: real)
    requires n > 0.0 && deviations == squares - 2.0 * product + constant
    requires constant == n * c && product == constant && e == squares / n - c
    ensures deviations / n == e
  {
    assert n * (squares / n) == squares;
    assert n * e == squares - constant;
  }

  lemma Associate(n: real, m: real, total: real, c: real)
    requires n * m == total && c == m * m
    ensures m * total == n * c
  {
  }

  lemma ProductTotals(m: real, c: real, s: seq<real>, n: real, product: real)
    requires n == |s| as real && product == m * Sum(s) == n * c
    ensures Sum(Mapped(Times(m), s)) == product && Sum(Mapped(Always(c), s)) == product
  {
    SumTimes(m, s);
    SumAlways(c, s);
  }

  lemma CombinedAverage(f: real -> real, q: real -> real, a: real -> real, b: real -> real, s: seq<real>, n: real,
          product: real, c: real)
    requires s != [] && n == |s| as real && Combines(f, q, a, b) && product == n * c
    requires Sum(Mapped(a, s)) == product && Sum(Mapped(b, s)) == product
    ensures Average(Mapped(f, s)) == Average(Mapped(q, s)) - c
  {
    SumCombines(f, q, a, b, s);
    Quotients(n, Average(Mapped(q, s)) - c, Sum(Mapped(f, s)), Sum(Mapped(q, s)), product, product, c);
  }

  lemma DeviationAverages(f: real -> real, q: real -> real, s: seq<real>, m: real, n: real, c: real)
    requires s != [] && n == |s| as real && Averages(|s|, m, Sum(s)) && c == m * m
    requires Combines(f, q, Times(m), Always(c))
    ensures Average(Mapped(f, s)) == Average(Mapped(q, s)) - c
  {
    Associate(n, m, Sum(s), c);
    ProductTotals(m, c, s, n, n * c);
    CombinedAverage(f, q, Times(m), Always(c), s, n, n * c, c);
  }

  /** The average times the count is the total, and the variance is the average square less the
      squared average. */
  lemma VarianceExactly(s: seq<real>)
    requires s != []
    ensures Averages(|s|, Average(s), Sum(s))
    ensures Variance(s) == Average(Mapped(Square(), s)) - Average(s) * Average(s)
  {
    var m := Average(s);
    QuotientAverages(|s|, Sum(s));
    DeviationCombines(m, m * m);
    DeviationAverages(SquaredDeviation(m), Square(), s, m, |s| as real, m * m);
  }
}
