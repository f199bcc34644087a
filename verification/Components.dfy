/** Connected-component labelling (SEP_D.py, `connected_components`). */
module Components {
  import opened Grids
  import opened Walks

  ghost predicate Binary(image: array2<int>)
    reads image
  {
    forall p :: p in Cells(image) ==> Cells(image)[p] == 0 || Cells(image)[p] == 1
  }

  ghost function Foreground(image: array2<int>): (f: set<Pixel>)
    reads image
  {
    set p | p in Domain(image.Length0, image.Length1) && image[p.row, p.col] != 0
  }

  ghost function Unlabelled(f: set<Pixel>, l: Labels): set<Pixel> {
    set p | p in f && p in l && l[p] == 0
  }

  /** Every change from `before` to `after` gives `tag` to an unlabelled foreground
      pixel that a 4-connected walk of unlabelled foreground joins to `seed`. */
  ghost predicate Spread(f: set<Pixel>, before: Labels, after: Labels, seed: Pixel, tag: int) {
    && after.Keys == before.Keys
    && forall p :: p in before && after[p] != before[p] ==>
      && before[p] == 0 && p in f && after[p] == tag && seed in f
      && Linked(Step4(Unlabelled(f, before)), seed, p)
  }

  lemma LinkedInForeground(f: set<Pixel>, l: Labels, p: Pixel, q: Pixel)
    requires Linked(Step4(Unlabelled(f, l)), p, q)
    ensures Linked(Step4(f), p, q)
  {
    LinkedWiden(Step4(Unlabelled(f, l)), Step4(f), p, q);
  }

  /** No newly labelled pixel other than `exempt` has an unlabelled foreground neighbour. */
  ghost predicate Closed(f: set<Pixel>, before: Labels, after: Labels, exempt: set<Pixel>) {
    forall p, q | p in before && p in after && q in f && q in after && Adjacent4(p, q) ::
      after[p] != before[p] && p !in exempt ==> after[q] != 0
  }

  ghost predicate Flooded(f: set<Pixel>, before: Labels, after: Labels, seed: Pixel, tag: int) {
    && Spread(f, before, after, seed, tag)
    && Closed(f, before, after, {})
    && (seed in f && seed in after ==> after[seed] != 0)
  }

  /** A flood of `seed` that has labelled `seed` itself and still owes it some neighbours. */
  ghost predicate Started(f: set<Pixel>, before: Labels, after: Labels, seed: Pixel, tag: int) {
    && seed in f && seed in before && before[seed] == 0
    && Spread(f, before, after, seed, tag)
    && Closed(f, before, after, {seed})
    && after[seed] == tag
  }

  lemma FloodStarts(f: set<Pixel>, before: Labels, seed: Pixel, tag: int)
    requires tag != 0 && seed in f && seed in before && before[seed] == 0
    ensures Started(f, before, before[seed := tag], seed, tag)
  {
    LinkedSelf(Step4(Unlabelled(f, before)), seed);
  }

  /** A flood that changes a pixel started from an unlabelled one. */
  lemma SeedWasUnlabelled(f: set<Pixel>, before: Labels, after: Labels, seed: Pixel, tag: int, p: Pixel)
    requires Spread(f, before, after, seed, tag) && p in before && after[p] != before[p]
    ensures seed in Unlabelled(f, before)
  {
    var step := Step4(Unlabelled(f, before));
    var path :| IsWalk(step, seed, path, p);
  }

  /** A flood of a neighbour extends an unfinished flood of `seed`. */
  lemma FloodExtends(f: set<Pixel>, l0: Labels, l1: Labels, l2: Labels, seed: Pixel, next: Pixel, tag: int)
    requires tag != 0 && Adjacent4(seed, next)
    requires Started(f, l0, l1, seed, tag)
    requires Flooded(f, l1, l2, next, tag)
    ensures Started(f, l0, l2, seed, tag)
    ensures forall q :: Settled(f, l1, q) ==> Settled(f, l2, q)
    ensures Settled(f, l2, next)
    ensures Unlabelled(f, l2) < Unlabelled(f, l0)
  {
    forall p | p in l0 && l2[p] != l0[p]
      ensures l0[p] == 0 && p in f && l2[p] == tag && Linked(Step4(Unlabelled(f, l0)), seed, p)
    {
      if l1[p] == l0[p] {
        SeedWasUnlabelled(f, l1, l2, next, tag, p);
        assert Unlabelled(f, l1) <= Unlabelled(f, l0);
        LinkedWiden(Step4(Unlabelled(f, l1)), Step4(Unlabelled(f, l0)), next, p);
        LinkedStep(Step4(Unlabelled(f, l0)), seed, next, p);
      }
    }
    assert seed in Unlabelled(f, l0) && seed !in Unlabelled(f, l2);
  }

  /** Nothing is left to label at `q`: it is outside the grid, background, or labelled. */
  ghost predicate Settled(f: set<Pixel>, l: Labels, q: Pixel) {
    q in f && q in l ==> l[q] != 0
  }

  lemma FloodFinishes(f: set<Pixel>, before: Labels, after: Labels, seed: Pixel, tag: int)
    requires tag != 0 && Started(f, before, after, seed, tag)
    requires Settled(f, after, Pixel(seed.row + 1, seed.col)) && Settled(f, after, Pixel(seed.row - 1, seed.col))
    requires Settled(f, after, Pixel(seed.row, seed.col + 1)) && Settled(f, after, Pixel(seed.row, seed.col - 1))
    ensures Flooded(f, before, after, seed, tag)
  {
    forall q | Adjacent4(seed, q)
      ensures Settled(f, after, q)
    {
      assert q in {Pixel(seed.row + 1, seed.col), Pixel(seed.row - 1, seed.col),
                   Pixel(seed.row, seed.col + 1), Pixel(seed.row, seed.col - 1)};
    }
  }

  method FloodFill(image: array2<int>, labels: array2<int>, x: int, y: int, tag: int)
    requires image.Length0 == labels.Length0 && image.Length1 == labels.Length1
    requires image != labels && tag != 0
    modifies labels
    ensures Flooded(Foreground(image), old(Cells(labels)), Cells(labels), Pixel(x, y), tag)
    decreases Unlabelled(Foreground(image), Cells(labels))
  {
    if x < 0 || x >= image.Length0 || y < 0 || y >= image.Length1 {
      return;
    }
    if image[x, y] == 0 || labels[x, y] != 0 {
      return;
    }
    ghost var f, l0, seed := Foreground(image), Cells(labels), Pixel(x, y);
    labels[x, y] := tag;
    ghost var l1 := Cells(labels);
    assert l1 == l0[seed := tag];
    FloodStarts(f, l0, seed, tag);
    assert Unlabelled(f, l1) < Unlabelled(f, l0) by {
      assert seed in Unlabelled(f, l0) && seed !in Unlabelled(f, l1);
    }
    FloodFill(image, labels, x + 1, y, tag);
    ghost var l2 := Cells(labels);
    FloodExtends(f, l0, l1, l2, seed, Pixel(x + 1, y), tag);
    FloodFill(image, labels, x - 1, y, tag);
    ghost var l3 := Cells(labels);
    FloodExtends(f, l0, l2, l3, seed, Pixel(x - 1, y), tag);
    FloodFill(image, labels, x, y + 1, tag);
    ghost var l4 := Cells(labels);
    FloodExtends(f, l0, l3, l4, seed, Pixel(x, y + 1), tag);
    FloodFill(image, labels, x, y - 1, tag);
    FloodExtends(f, l0, l4, Cells(labels), seed, Pixel(x, y - 1), tag);
    FloodFinishes(f, l0, Cells(labels), seed, tag);
  }

  /** `l` labels exactly the foreground `f`, one label per 4-connected component,
      numbered without a gap in raster order of `seeds`, the components' first pixels. */
  ghost predicate IsLabelling(f: set<Pixel>, l: Labels, seeds: seq<Pixel>) {
    && f <= l.Keys
    && (forall p :: p in l ==> 0 <= l[p] <= |seeds| && (l[p] == 0 <==> p !in f))
    && (forall p, q {:trigger Linked(Step4(f), p, q)} ::
      p in f && q in f ==> (l[p] == l[q] <==> Linked(Step4(f), p, q)))
    && SeedsInRasterOrder(f, l, seeds)
  }

  ghost predicate SeedsInRasterOrder(f: set<Pixel>, l: Labels, seeds: seq<Pixel>)
    requires f <= l.Keys
  {
    && (forall k :: 0 <= k < |seeds| ==> seeds[k] in f && l[seeds[k]] == k + 1)
    && (forall j, k :: 0 <= j < k < |seeds| ==> RasterBefore(seeds[j], seeds[k]))
    && (forall k, p :: 0 <= k < |seeds| && p in f && l[p] == k + 1 ==> !RasterBefore(p, seeds[k]))
  }

  ghost predicate SeedsLinked(f: set<Pixel>, l: Labels, seeds: seq<Pixel>)
    requires f <= l.Keys
  {
    forall k, p :: 0 <= k < |seeds| && p in f && l[p] == k + 1 ==> Linked(Step4(f), seeds[k], p)
  }

  /** A labelled pixel shares its label with its foreground neighbours. */
  ghost predicate NeighboursAlike(f: set<Pixel>, l: Labels)
    requires f <= l.Keys
  {
    forall p, q :: p in f && q in f && Adjacent4(p, q) && l[p] != 0 ==> l[q] == l[p]
  }

  /** Labels and scanned pixels, as far as single pixels go. */
  ghost predicate ScannedPixels(f: set<Pixel>, l: Labels, seeds: seq<Pixel>, cursor: Pixel) {
    && f <= l.Keys
    && (forall p :: p in l && l[p] != 0 ==> p in f && 1 <= l[p] <= |seeds|)
    && (forall k :: 0 <= k < |seeds| ==> RasterBefore(seeds[k], cursor))
    && (forall p :: p in f && RasterBefore(p, cursor) ==> l[p] != 0)
  }

  /** The scan has passed every pixel raster-before `cursor`. */
  ghost predicate ScannedTo(f: set<Pixel>, l: Labels, seeds: seq<Pixel>, cursor: Pixel) {
    && ScannedPixels(f, l, seeds, cursor)
    && SeedsLinked(f, l, seeds)
    && NeighboursAlike(f, l)
    && SeedsInRasterOrder(f, l, seeds)
  }

  lemma ScanStarts(f: set<Pixel>, l: Labels)
    requires f <= l.Keys && forall p :: p in l ==> l[p] == 0
    requires forall p :: p in f ==> 0 <= p.row && 0 <= p.col
    ensures ScannedTo(f, l, [], Pixel(0, 0))
  {
  }

  lemma FloodKeepsNeighboursAlike(f: set<Pixel>, l0: Labels, l1: Labels, seed: Pixel, tag: int)
    requires f <= l0.Keys && Flooded(f, l0, l1, seed, tag) && NeighboursAlike(f, l0)
    ensures NeighboursAlike(f, l1)
  {
    forall p, q | p in f && q in f && Adjacent4(p, q) && l1[p] != 0
      ensures l1[q] == l1[p]
    {
      if l0[p] == l1[p] {
        assert l0[q] == l0[p];
      } else if l0[q] != 0 {
        assert Adjacent4(q, p);
      }
    }
  }

  lemma FloodKeepsSeedOrder(f: set<Pixel>, l0: Labels, l1: Labels, seeds: seq<Pixel>, cursor: Pixel)
    requires f <= l0.Keys && SeedsInRasterOrder(f, l0, seeds) && Flooded(f, l0, l1, cursor, |seeds| + 1)
    requires cursor in f && l0[cursor] == 0
    requires forall p :: p in f ==> 0 <= l0[p] <= |seeds|
    requires forall k :: 0 <= k < |seeds| ==> RasterBefore(seeds[k], cursor)
    requires forall p :: p in f && RasterBefore(p, cursor) ==> l0[p] != 0
    ensures SeedsInRasterOrder(f, l1, seeds + [cursor])
  {
    forall k, p | 0 <= k < |seeds + [cursor]| && p in f && l1[p] == k + 1
      ensures !RasterBefore(p, (seeds + [cursor])[k])
    {
      if k < |seeds| {
        assert l1[p] == l0[p];
      }
    }
  }

  lemma FloodKeepsLinks(f: set<Pixel>, l0: Labels, l1: Labels, seeds: seq<Pixel>, cursor: Pixel)
    requires f <= l0.Keys && Flooded(f, l0, l1, cursor, |seeds| + 1) && SeedsLinked(f, l0, seeds)
    requires forall p :: p in f ==> l0[p] <= |seeds|
    ensures SeedsLinked(f, l1, seeds + [cursor])
  {
    forall k, p | 0 <= k <= |seeds| && p in f && l1[p] == k + 1
      ensures Linked(Step4(f), (seeds + [cursor])[k], p)
    {
      if k < |seeds| {
        assert l1[p] == l0[p] && (seeds + [cursor])[k] == seeds[k];
      } else {
        LinkedInForeground(f, l0, cursor, p);
      }
    }
  }

  lemma FloodScansPixel(f: set<Pixel>, l0: Labels, l1: Labels, seeds: seq<Pixel>, cursor: Pixel, next: Pixel)
    requires ScannedPixels(f, l0, seeds, cursor) && cursor in f && l0[cursor] == 0
    requires Flooded(f, l0, l1, cursor, |seeds| + 1) && next == Pixel(cursor.row, cursor.col + 1)
    ensures ScannedPixels(f, l1, seeds + [cursor], next)
  {
  }

  lemma ScanFloods(f: set<Pixel>, l0: Labels, l1: Labels, seeds: seq<Pixel>, cursor: Pixel, next: Pixel)
    requires ScannedTo(f, l0, seeds, cursor)
    requires cursor in f && l0[cursor] == 0
    requires Flooded(f, l0, l1, cursor, |seeds| + 1)
    requires next == Pixel(cursor.row, cursor.col + 1)
    ensures ScannedTo(f, l1, seeds + [cursor], next)
  {
    FloodScansPixel(f, l0, l1, seeds, cursor, next);
    FloodKeepsSeedOrder(f, l0, l1, seeds, cursor);
    FloodKeepsNeighboursAlike(f, l0, l1, cursor, |seeds| + 1);
    FloodKeepsLinks(f, l0, l1, seeds, cursor);
  }

  /** A pixel that opens no component moves the cursor on. */
  lemma ScanSkips(f: set<Pixel>, l: Labels, seeds: seq<Pixel>, cursor: Pixel, next: Pixel)
    requires ScannedTo(f, l, seeds, cursor)
    requires cursor in f ==> l[cursor] != 0
    requires next == Pixel(cursor.row, cursor.col + 1)
    ensures ScannedTo(f, l, seeds, next)
  {
  }

  lemma ScanWraps(f: set<Pixel>, l: Labels, seeds: seq<Pixel>, row: int, w: nat)
    requires ScannedTo(f, l, seeds, Pixel(row, w))
    requires forall p :: p in f ==> 0 <= p.col < w
    ensures ScannedTo(f, l, seeds, Pixel(row + 1, 0))
  {
  }

  lemma ScanEnds(f: set<Pixel>, l: Labels, seeds: seq<Pixel>, cursor: Pixel)
    requires ScannedTo(f, l, seeds, cursor)
    requires forall p :: p in f ==> RasterBefore(p, cursor)
    ensures forall p :: p in l && p !in f ==> l[p] == 0
    ensures IsLabelling(f, l, seeds)
  {
    forall p, q | p in f && q in f
      ensures l[p] == l[q] <==> Linked(Step4(f), p, q)
    {
      if l[p] == l[q] {
        LinkedSymmetric(Step4(f), seeds[l[p] - 1], p);
        LinkedTransitive(Step4(f), p, seeds[l[p] - 1], q);
      }
      if Linked(Step4(f), p, q) {
        LinkedPreserves(Step4(f), r => r in f && r in l && l[r] == l[p], p, q);
      }
    }
  }

  /** The inner loop of the scan: one row of pixels. */
  method ScanRow(image: array2<int>, labels: array2<int>, i: int, tag: int, ghost seeds: seq<Pixel>)
    returns (nextTag: int, ghost nextSeeds: seq<Pixel>)
    requires Binary(image) && image != labels && 0 <= i < image.Length0
    requires image.Length0 == labels.Length0 && image.Length1 == labels.Length1
    requires tag == |seeds| + 1 && ScannedTo(Foreground(image), Cells(labels), seeds, Pixel(i, 0))
    modifies labels
    ensures nextTag == |nextSeeds| + 1
    ensures ScannedTo(Foreground(image), Cells(labels), nextSeeds, Pixel(i + 1, 0))
  {
    nextTag, nextSeeds := tag, seeds;
    ghost var f, l := Foreground(image), Cells(labels);
    for j := 0 to image.Length1
      invariant nextTag == |nextSeeds| + 1 && l == Cells(labels)
      invariant ScannedTo(f, l, nextSeeds, Pixel(i, j))
    {
      assert Pixel(i, j) in Cells(image);
      if image[i, j] == 1 && labels[i, j] == 0 {
        FloodFill(image, labels, i, j, nextTag);
        ScanFloods(f, l, Cells(labels), nextSeeds, Pixel(i, j), Pixel(i, j + 1));
        nextTag, nextSeeds, l := nextTag + 1, nextSeeds + [Pixel(i, j)], Cells(labels);
      } else {
        ScanSkips(f, l, nextSeeds, Pixel(i, j), Pixel(i, j + 1));
      }
    }
    ScanWraps(f, l, nextSeeds, i, image.Length1);
  }

  method ConnectedComponents(image: array2<int>) returns (labels: array2<int>, ghost seeds: seq<Pixel>)
    requires Binary(image)
    ensures fresh(labels) && labels.Length0 == image.Length0 && labels.Length1 == image.Length1
    ensures IsLabelling(Foreground(image), Cells(labels), seeds)
  {
    labels := Zeros(image.Length0, image.Length1);
    ScanStarts(Foreground(image), Cells(labels));
    var tag := 1;
    seeds := [];
    for i := 0 to image.Length0
      invariant tag == |seeds| + 1
      invariant ScannedTo(Foreground(image), Cells(labels), seeds, Pixel(i, 0))
    {
      tag, seeds := ScanRow(image, labels, i, tag, seeds);
    }
    ScanEnds(Foreground(image), Cells(labels), seeds, Pixel(image.Length0, 0));
  }

  /** Two labellings group the pixels alike; then the first pixel of the component
      numbered `k` is no earlier in one than in the other. */
  lemma SeedsAgreeAt(f: set<Pixel>, l: Labels, s: seq<Pixel>, m: Labels, t: seq<Pixel>, k: nat)
    requires f <= l.Keys && f <= m.Keys
    requires SeedsInRasterOrder(f, l, s) && SeedsInRasterOrder(f, m, t)
    requires forall p :: p in f ==> 1 <= m[p] <= |t|
    requires forall p, q :: p in f && q in f && m[p] == m[q] ==> l[p] == l[q]
    requires k < |s| && k <= |t| && s[..k] == t[..k]
    ensures k < |t| && !RasterBefore(s[k], t[k])
  {
    var p, j := s[k], m[s[k]] - 1;
    assert m[t[j]] == m[p];
    assert !RasterBefore(p, t[j]);
    assert j == k || RasterBefore(t[k], t[j]);
  }

  lemma {:induction false} SeedsAgree(f: set<Pixel>, l: Labels, s: seq<Pixel>, m: Labels, t: seq<Pixel>, k: nat)
    requires f <= l.Keys && f <= m.Keys
    requires SeedsInRasterOrder(f, l, s) && SeedsInRasterOrder(f, m, t)
    requires forall p :: p in f ==> 1 <= m[p] <= |t| && 1 <= l[p] <= |s|
    requires forall p, q :: p in f && q in f ==> (m[p] == m[q] <==> l[p] == l[q])
    requires k <= |s|
    ensures k <= |t| && s[..k] == t[..k]
  {
    if k > 0 {
      SeedsAgree(f, l, s, m, t, k - 1);
      SeedsAgreeAt(f, l, s, m, t, k - 1);
      SeedsAgreeAt(f, m, t, l, s, k - 1);
      assert s[..k] == s[..k - 1] + [s[k - 1]] && t[..k] == t[..k - 1] + [t[k - 1]];
    }
  }

  /** The specification leaves no freedom: there is one labelling of a foreground. */
  lemma LabellingUnique(f: set<Pixel>, l: Labels, s: seq<Pixel>, m: Labels, t: seq<Pixel>)
    requires l.Keys == m.Keys
    requires IsLabelling(f, l, s) && IsLabelling(f, m, t)
    ensures s == t && l == m
  {
    forall p, q | p in f && q in f
      ensures m[p] == m[q] <==> l[p] == l[q]
    {
      var linked := Linked(Step4(f), p, q);
      assert l[p] == l[q] <==> linked;
    }
    SeedsAgree(f, l, s, m, t, |s|);
    SeedsAgree(f, m, t, l, s, |t|);
    assert s == t;
    forall p | p in l
      ensures l[p] == m[p]
    {
      if p in f {
        var q := s[l[p] - 1];
        assert l[q] == l[p] && m[q] == l[p];
      }
    }
  }
}
