/** Splitting an object into branches, brightest pixel first
    (SEP_D.py, `closest_branch`, `add_to_branch`, `extract_branches`). */
module Branches {
  import opened Grids
  import opened Options
  import opened Regions
  import opened Seqs
  import opened Walks

  type Branch = seq<Pixel>
  type Brightness = map<Pixel, real>

  /** Some point of branch `b` is 8-adjacent to `p`. */
  ghost predicate Touches(items: seq<Branch>, b: int, p: Pixel) {
    0 <= b < |items| && exists q :: q in items[b] && Adjacent8(p, q)
  }

  /** Branches hold pixels of the image, none is empty, and no pixel is held twice. */
  ghost predicate WellFormed(items: seq<Branch>, v: Brightness) {
    && (forall b :: 0 <= b < |items| ==> items[b] != [])
    && (forall b, p :: 0 <= b < |items| && p in items[b] ==> p in v)
    && (forall b, i, j :: 0 <= b < |items| && 0 <= i < j < |items[b]| ==> items[b][i] != items[b][j])
    && (forall a, b, p :: 0 <= a < b < |items| && p in items[a] ==> p !in items[b])
  }

  /** One step to an 8-adjacent pixel of `s` that is at least as bright. */
  ghost function Climb(s: seq<Pixel>, v: Brightness): (Pixel, Pixel) -> bool {
    (p: Pixel, q: Pixel) => p in s && q in s && p in v && q in v && Adjacent8(p, q) && v[p] <= v[q]
  }

  /** What holds after the pixels `drained` have been handed to `AddPoint`. */
  ghost predicate Grown(items: seq<Branch>, drained: set<Pixel>, v: Brightness) {
    && WellFormed(items, v)
    && Apart(items)
    && AllClimb(items, v)
    && (forall b, p :: 0 <= b < |items| && p in items[b] ==> p in drained)
    && (forall p :: p in drained ==> Held(items, p) || TouchesTwo(items, p))
  }

  /** No two points of different branches are 8-adjacent. */
  ghost predicate Apart(items: seq<Branch>) {
    forall b, p :: 0 <= b < |items| && p in items[b] ==> !TouchesOther(items, b, p)
  }

  /** Every branch point climbs to its branch's first point without leaving the branch. */
  ghost predicate AllClimb(items: seq<Branch>, v: Brightness) {
    forall b, p :: 0 <= b < |items| && items[b] != [] && p in items[b] ==> Linked(Climb(items[b], v), p, items[b][0])
  }

  ghost predicate Held(items: seq<Branch>, p: Pixel) {
    exists b :: 0 <= b < |items| && p in items[b]
  }

  ghost predicate TouchesOther(items: seq<Branch>, b: int, p: Pixel) {
    exists c :: c != b && Touches(items, c, p)
  }

  ghost predicate TouchesTwo(items: seq<Branch>, p: Pixel) {
    exists b, c :: b != c && Touches(items, b, p) && Touches(items, c, p)
  }

  /** The effect of adding one point: a point between two branches is dropped, a point
      touching one branch extends it, and any other point starts a branch. */
  ghost function AddPoint(items: seq<Branch>, p: Pixel): seq<Branch> {
    if TouchesTwo(items, p) then items
    else if b :| Touches(items, b, p) then items[b := items[b] + [p]]
    else items + [[p]]
  }

  /** The inner loop of `closest_branch`: the first branch holding `n`. */
  method FirstHolding(items: seq<Branch>, n: Pixel) returns (b: Option<nat>)
    ensures b.None? <==> !Held(items, n)
    ensures b.Some? ==> b.value < |items| && n in items[b.value] && forall j :: 0 <= j < b.value ==> n !in items[j]
  {
    for i := 0 to |items|
      invariant forall j :: 0 <= j < i ==> n !in items[j]
    {
      if n in items[i] {
        return Some(i);
      }
    }
    return None;
  }

  /** Pixel `k` of `seen`, held by branch `closest`, is the first of the brightest pixels of `seen`
      that any branch holds. */
  ghost predicate BrightestHeld(items: seq<Branch>, v: Brightness, seen: seq<Pixel>, closest: Option<nat>, k: nat) {
    match closest
    case None => forall p :: p in seen ==> !Held(items, p)
    case Some(b) =>
      && b < |items| && k < |seen| && seen[k] in items[b] && seen[k] in v
      && (forall p :: p in seen && Held(items, p) ==> p in v && v[p] <= v[seen[k]])
      && (forall j :: 0 <= j < k && Held(items, seen[j]) ==> seen[j] in v && v[seen[j]] < v[seen[k]])
  }

  /** The branch holding the first of the brightest neighbours that any branch holds. */
  ghost predicate IsClosest(items: seq<Branch>, v: Brightness, point: Pixel, closest: Option<nat>) {
    exists k :: BrightestHeld(items, v, Neighbours(point), closest, k)
  }

  lemma HeldInImage(items: seq<Branch>, v: Brightness, p: Pixel)
    requires WellFormed(items, v) && Held(items, p)
    ensures p in v
  {
  }

  method ClosestBranch(point: Pixel, items: seq<Branch>, image: array2<real>) returns (closest: Option<nat>)
    requires WellFormed(items, Cells(image))
    ensures IsClosest(items, Cells(image), point, closest)
  {
    ghost var v := Cells(image);
    var neighbours := Neighbours(point);
    ghost var from: nat := 0;
    closest := None;
    var brightest := 0.0;
    for k := 0 to |neighbours|
      invariant BrightestHeld(items, v, neighbours[..k], closest, from)
      invariant closest.Some? ==> v[neighbours[from]] == brightest
    {
      var n := neighbours[k];
      TakeNext(neighbours, k);
      if 0 <= n.row < image.Length0 && 0 <= n.col < image.Length1 {
        var b := FirstHolding(items, n);
        if b.Some? && (closest.None? || image[n.row, n.col] > brightest) {
          brightest, closest, from := image[n.row, n.col], b, k;
        }
      } else if Held(items, n) {
        HeldInImage(items, v, n);
      }
    }
    TakeAll(neighbours);
  }

  lemma ClosestTouches(items: seq<Branch>, v: Brightness, point: Pixel, closest: Option<nat>)
    requires IsClosest(items, v, point, closest)
    ensures closest.None? ==> forall b :: !Touches(items, b, point)
    ensures closest.Some? ==> Touches(items, closest.value, point)
  {
    forall b, q | 0 <= b < |items| && q in items[b] && Adjacent8(point, q)
      ensures closest.Some?
    {
      assert q in Neighbours(point) && Held(items, q);
    }
  }

  ghost predicate Meets(branch: Branch, near: seq<Pixel>) {
    exists p :: p in near && p in branch
  }

  /** The contents of those of the first `n` branches that hold a pixel of `near`. */
  ghost function Holding(items: seq<Branch>, near: seq<Pixel>, n: nat): set<Branch>
    requires n <= |items|
  {
    set b | 0 <= b < n && Meets(items[b], near) :: items[b]
  }

  lemma HoldingGrows(items: seq<Branch>, near: seq<Pixel>, p: Pixel)
    ensures Holding(items, near + [p], |items|) == Holding(items, near, |items|) + Holding(items, [p], |items|)
  {
    forall b | 0 <= b < |items|
      ensures Meets(items[b], near + [p]) <==> Meets(items[b], near) || Meets(items[b], [p])
    {
      assert Meets(items[b], near + [p]) ==> Meets(items[b], near) || Meets(items[b], [p]);
    }
  }

  /** Branches are told apart by their contents, so counting contents counts branches. */
  lemma TouchedCount(items: seq<Branch>, v: Brightness, p: Pixel)
    requires WellFormed(items, v)
    ensures |Holding(items, Neighbours(p), |items|)| > 1 <==> TouchesTwo(items, p)
  {
    var s := Holding(items, Neighbours(p), |items|);
    forall b | 0 <= b < |items|
      ensures Meets(items[b], Neighbours(p)) <==> Touches(items, b, p)
    {
    }
    if |s| > 1 {
      var t :| t in s;
      assert |s - {t}| == |s| - 1;
      var u :| u in s - {t};
    }
    if b, c :| b != c && Touches(items, b, p) && Touches(items, c, p) {
      assert items[b][0] in items[b] && items[b] != items[c];
      assert {items[b], items[c]} <= s;
      assert |s - {items[b], items[c]}| == |s| - |{items[b], items[c]}|;
    }
  }

  /** The first loop of `add_to_branch`. */
  method NeighbouringBranches(items: seq<Branch>, neighbours: seq<Pixel>) returns (touching: set<Branch>)
    ensures touching == Holding(items, neighbours, |items|)
  {
    touching := {};
    for k := 0 to |neighbours|
      invariant touching == Holding(items, neighbours[..k], |items|)
    {
      ghost var before, n := touching, neighbours[k];
      for b := 0 to |items|
        invariant touching == before + Holding(items, [n], b)
      {
        assert Meets(items[b], [n]) <==> n in items[b];
        if neighbours[k] in items[b] {
          touching := touching + {items[b]};
        }
      }
      TakeNext(neighbours, k);
      HoldingGrows(items, neighbours[..k], n);
    }
    TakeAll(neighbours);
  }

  class BranchList {
    var items: seq<Branch>

    constructor ()
      ensures items == []
    {
      items := [];
    }

    method AddToBranch(point: Pixel, image: array2<real>)
      requires WellFormed(items, Cells(image))
      modifies this
      ensures items == AddPoint(old(items), point)
    {
      var neighbours := Neighbours(point);
      var touching := NeighbouringBranches(items, neighbours);
      TouchedCount(items, Cells(image), point);
      if |touching| > 1 {
        return;
      }
      var closest := ClosestBranch(point, items, image);
      ClosestTouches(items, Cells(image), point, closest);
      if closest.None? || |neighbours| == 0 {
        items := items + [[point]];
      } else {
        items := items[closest.value := items[closest.value] + [point]];
      }
    }
  }

  lemma TouchesSurvive(items: seq<Branch>, p: Pixel, b: int, q: Pixel)
    requires Touches(items, b, q)
    ensures Touches(AddPoint(items, p), b, q)
  {
    var r :| r in items[b] && Adjacent8(q, r);
    assert r in AddPoint(items, p)[b];
  }

  /** Old points stay held or stay between two branches. */
  lemma DecisionsSurvive(items: seq<Branch>, p: Pixel, q: Pixel)
    requires Held(items, q) || TouchesTwo(items, q)
    ensures Held(AddPoint(items, p), q) || TouchesTwo(AddPoint(items, p), q)
  {
    if b :| 0 <= b < |items| && q in items[b] {
      assert q in AddPoint(items, p)[b];
    } else {
      var b, c :| b != c && Touches(items, b, q) && Touches(items, c, q);
      TouchesSurvive(items, p, b, q);
      TouchesSurvive(items, p, c, q);
    }
  }

  lemma ClimbExtends(s: seq<Pixel>, p: Pixel, q: Pixel, v: Brightness, first: Pixel)
    requires Linked(Climb(s, v), q, first)
    ensures Linked(Climb(s + [p], v), q, first)
  {
    LinkedWiden(Climb(s, v), Climb(s + [p], v), q, first);
  }

  /** Giving `p` to branch `b` alone keeps branches apart when no other branch touches `p`. */
  lemma StaysApart(items: seq<Branch>, after: seq<Branch>, b: nat, p: Pixel, c: nat, q: Pixel)
    requires Apart(items)
    requires forall c :: c != b ==> !Touches(items, c, p)
    requires forall c, q :: 0 <= c < |after| && q in after[c] ==>
      (c < |items| && q in items[c]) || (c == b && q == p)
    requires c < |after| && q in after[c]
    ensures !TouchesOther(after, c, q)
  {
    if d :| d != c && Touches(after, d, q) {
      var r :| r in after[d] && Adjacent8(q, r);
      if c < |items| && q in items[c] {
        if d < |items| && r in items[d] {
          assert Touches(items, d, q);
        } else {
          assert Touches(items, c, p);
        }
      } else {
        assert Touches(items, d, p);
      }
    }
  }

  lemma BranchClimbs(items: seq<Branch>, v: Brightness, b: nat, p: Pixel, near: Pixel, q: Pixel)
    requires b < |items| && near in items[b] && Adjacent8(p, near)
    requires p in v && near in v && v[p] <= v[near]
    requires forall q :: q in items[b] ==> Linked(Climb(items[b], v), q, items[b][0])
    requires q in items[b] + [p]
    ensures Linked(Climb(items[b] + [p], v), q, items[b][0])
  {
    if q in items[b] {
      ClimbExtends(items[b], p, q, v, items[b][0]);
    } else {
      ClimbExtends(items[b], p, near, v, items[b][0]);
      LinkedStep(Climb(items[b] + [p], v), p, near, items[b][0]);
    }
  }

  lemma ExtendedWellFormed(items: seq<Branch>, v: Brightness, p: Pixel, b: nat)
    requires WellFormed(items, v) && p in v && !Held(items, p) && b < |items|
    ensures WellFormed(items[b := items[b] + [p]], v)
  {
  }

  lemma ExtendedAllClimb(items: seq<Branch>, v: Brightness, p: Pixel, near: Pixel, b: nat)
    requires WellFormed(items, v) && AllClimb(items, v)
    requires b < |items| && near in items[b] && Adjacent8(p, near) && p in v && v[p] <= v[near]
    ensures AllClimb(items[b := items[b] + [p]], v)
  {
    var after := items[b := items[b] + [p]];
    forall c, q | 0 <= c < |after| && after[c] != [] && q in after[c]
      ensures Linked(Climb(after[c], v), q, after[c][0])
    {
      if c == b {
        BranchClimbs(items, v, b, p, near, q);
      }
    }
  }

  lemma ExtendedApart(items: seq<Branch>, after: seq<Branch>, b: nat, p: Pixel)
    requires Apart(items)
    requires forall c :: c != b ==> !Touches(items, c, p)
    requires forall c, q :: 0 <= c < |after| && q in after[c] ==>
      (c < |items| && q in items[c]) || (c == b && q == p)
    ensures Apart(after)
  {
    forall c, q | 0 <= c < |after| && q in after[c]
      ensures !TouchesOther(after, c, q)
    {
      StaysApart(items, after, b, p, c, q);
    }
  }

  lemma PointExtendsBranch(items: seq<Branch>, drained: set<Pixel>, v: Brightness, p: Pixel, b: nat)
    requires Grown(items, drained, v)
    requires p in v && p !in drained && forall q :: q in drained ==> q in v && v[p] <= v[q]
    requires Touches(items, b, p) && !TouchesTwo(items, p)
    requires AddPoint(items, p) == items[b := items[b] + [p]]
    ensures Grown(AddPoint(items, p), drained + {p}, v)
  {
    var near :| near in items[b] && Adjacent8(p, near);
    ExtendedWellFormed(items, v, p, b);
    ExtendedApart(items, AddPoint(items, p), b, p);
    ExtendedAllClimb(items, v, p, near, b);
    PointsDecided(items, drained, p, b);
  }

  lemma PointStartsBranch(items: seq<Branch>, drained: set<Pixel>, v: Brightness, p: Pixel)
    requires Grown(items, drained, v)
    requires p in v && p !in drained
    requires forall b :: !Touches(items, b, p)
    ensures Grown(AddPoint(items, p), drained + {p}, v)
  {
    ExtendedApart(items, AddPoint(items, p), |items|, p);
    LinkedSelf(Climb([p], v), p);
    PointsDecided(items, drained, p, |items|);
  }

  lemma PointsDecided(items: seq<Branch>, drained: set<Pixel>, p: Pixel, b: nat)
    requires forall q :: q in drained ==> Held(items, q) || TouchesTwo(items, q)
    requires b < |AddPoint(items, p)| && p in AddPoint(items, p)[b]
    ensures forall q :: q in drained + {p} ==> Held(AddPoint(items, p), q) || TouchesTwo(AddPoint(items, p), q)
  {
    forall q | q in drained
      ensures Held(AddPoint(items, p), q) || TouchesTwo(AddPoint(items, p), q)
    {
      DecisionsSurvive(items, p, q);
    }
  }

  /** Handing over a pixel no brighter than its predecessors keeps every promise. */
  lemma AddPointKeepsGrown(items: seq<Branch>, drained: set<Pixel>, v: Brightness, p: Pixel)
    requires Grown(items, drained, v)
    requires p in v && p !in drained && forall q :: q in drained ==> q in v && v[p] <= v[q]
    ensures Grown(AddPoint(items, p), drained + {p}, v)
  {
    if TouchesTwo(items, p) {
    } else if exists b :: Touches(items, b, p) {
      var b :| 0 <= b < |items| && Touches(items, b, p) && AddPoint(items, p) == items[b := items[b] + [p]];
      PointExtendsBranch(items, drained, v, p, b);
    } else {
      PointStartsBranch(items, drained, v, p);
    }
  }

  /** `p` is drained before `q`: it is brighter, or equally bright and raster-earlier. */
  ghost predicate Precedes(v: Brightness, p: Pixel, q: Pixel)
    requires p in v && q in v
  {
    v[p] > v[q] || (v[p] == v[q] && RasterBefore(p, q))
  }

  ghost predicate BrightOrder(order: seq<Pixel>, v: Brightness) {
    && (forall p :: p in order ==> p in v)
    && (forall i, j :: 0 <= i < j < |order| ==> Precedes(v, order[i], order[j]))
  }

  ghost function AddAll(order: seq<Pixel>): seq<Branch> {
    if order == [] then [] else AddPoint(AddAll(order[..|order| - 1]), order[|order| - 1])
  }

  lemma LastIsDarkest(order: seq<Pixel>, v: Brightness, n: nat)
    requires BrightOrder(order, v) && |order| == n + 1
    ensures BrightOrder(order[..n], v) && Elements(order) == Elements(order[..n]) + {order[n]}
    ensures forall q :: q in Elements(order[..n]) ==> q != order[n] && v[order[n]] <= v[q]
  {
    assert order == order[..n] + [order[n]];
    forall q | q in order[..n]
      ensures q != order[n] && v[order[n]] <= v[q]
    {
      var i :| 0 <= i < n && order[i] == q;
      assert Precedes(v, order[i], order[n]);
    }
  }

  /** Handing over any pixels in order of falling brightness grows branches that are disjoint,
      apart, and climb to their first points, and drops only pixels between two branches. */
  lemma {:induction false} BrightOrderGrows(order: seq<Pixel>, v: Brightness)
    requires BrightOrder(order, v)
    ensures Grown(AddAll(order), Elements(order), v)
  {
    if order != [] {
      var n := |order| - 1;
      LastIsDarkest(order, v, n);
      BrightOrderGrows(order[..n], v);
      AddPointKeepsGrown(AddAll(order[..n]), Elements(order[..n]), v, order[n]);
    }
  }

  /** The dropped pixels are exactly those between two branches of the result. */
  lemma DroppedExactlyBetween(items: seq<Branch>, drained: set<Pixel>, v: Brightness, p: Pixel)
    requires Grown(items, drained, v) && p in drained
    ensures Held(items, p) <==> !TouchesTwo(items, p)
  {
    if b :| 0 <= b < |items| && p in items[b] {
      assert !TouchesOther(items, b, p);
      if c, d :| c != d && Touches(items, c, p) && Touches(items, d, p) {
        assert false;
      }
    }
  }

  ghost function Step8(s: seq<Pixel>): (Pixel, Pixel) -> bool {
    (p: Pixel, q: Pixel) => p in s && q in s && Adjacent8(p, q)
  }

  /** A branch is 8-connected and its first point is its brightest. */
  lemma BranchConnected(items: seq<Branch>, drained: set<Pixel>, v: Brightness, b: nat, p: Pixel, q: Pixel)
    requires Grown(items, drained, v)
    requires b < |items| && p in items[b] && q in items[b]
    ensures Linked(Step8(items[b]), p, q)
    ensures v[p] <= v[items[b][0]]
  {
    var s, first := items[b], items[b][0];
    assert Linked(Climb(s, v), p, first) && Linked(Climb(s, v), q, first);
    LinkedPreserves(Climb(s, v), r => r in v && v[p] <= v[r], p, first);
    LinkedWiden(Climb(s, v), Step8(s), p, first);
    LinkedWiden(Climb(s, v), Step8(s), q, first);
    LinkedSymmetric(Step8(s), q, first);
    LinkedTransitive(Step8(s), p, first, q);
  }

  /** `top` holds the maximum of the part of `m` raster-before `limit`, and holds it first. */
  ghost predicate FirstMaxBefore(m: map<Pixel, real>, top: Pixel, limit: Pixel) {
    && top in m
    && (forall p :: p in m && RasterBefore(p, limit) ==> m[p] <= m[top])
    && (forall p :: p in m && RasterBefore(p, top) ==> m[p] < m[top])
  }

  ghost predicate IsFirstMax(m: map<Pixel, real>, top: Pixel) {
    && top in m
    && (forall p :: p in m ==> m[p] <= m[top])
    && (forall p :: p in m && RasterBefore(p, top) ==> m[p] < m[top])
  }

  /** The raster-first position of the maximum. */
  method FirstMax(a: array2<real>) returns (row: nat, col: nat)
    requires a.Length0 > 0 && a.Length1 > 0
    ensures row < a.Length0 && col < a.Length1 && IsFirstMax(Cells(a), Pixel(row, col))
  {
    row, col := 0, 0;
    ghost var m := Cells(a);
    for i := 0 to a.Length0
      invariant !RasterBefore(Pixel(i, 0), Pixel(row, col))
      invariant FirstMaxBefore(m, Pixel(row, col), Pixel(i, 0))
    {
      for j := 0 to a.Length1
        invariant !RasterBefore(Pixel(i, j), Pixel(row, col))
        invariant FirstMaxBefore(m, Pixel(row, col), Pixel(i, j))
      {
        if a[i, j] > a[row, col] {
          row, col := i, j;
        }
      }
    }
  }

  /** The pixels of an object that have a positive value. */
  ghost function ObjectPixels(v: Brightness, seg: Labels, box: Box, key: int): set<Pixel> {
    set p | p in v && At(seg, p, key) && InBox(p, box) && v[p] > 0.0
  }

  /** The contents of a cut-out whose corner is (`r0`, `c0`), by pixel of the full image. */
  ghost function Placed(cut: array2<real>, r0: int, c0: int): (m: Brightness)
    reads cut
    ensures forall p :: p in m <==> r0 <= p.row < r0 + cut.Length0 && c0 <= p.col < c0 + cut.Length1
    ensures forall p :: p in m ==> m[p] == cut[p.row - r0, p.col - c0]
  {
    var d := set r: int, c: int | r0 <= r < r0 + cut.Length0 && c0 <= c < c0 + cut.Length1 :: Pixel(r, c);
    map p | p in d :: cut[p.row - r0, p.col - c0]
  }

  /** The first maximum of the cut-out, as a pixel of the full image. */
  method Brightest(cut: array2<real>, r0: int, c0: int) returns (point: Pixel, value: real)
    requires cut.Length0 > 0 && cut.Length1 > 0
    ensures IsFirstMax(Placed(cut, r0, c0), point) && value == Placed(cut, r0, c0)[point]
  {
    var row, col := FirstMax(cut);
    point, value := Pixel(row + r0, col + c0), cut[row, col];
    ghost var m := Placed(cut, r0, c0);
    forall p | p in m
      ensures m[p] <= m[point] && (RasterBefore(p, point) ==> m[p] < m[point])
    {
      assert Pixel(p.row - r0, p.col - c0) in Cells(cut);
    }
  }

  method Clear(cut: array2<real>, r0: int, c0: int, point: Pixel)
    requires point in Placed(cut, r0, c0)
    modifies cut
    ensures Placed(cut, r0, c0) == old(Placed(cut, r0, c0))[point := 0.0]
  {
    cut[point.row - r0, point.col - c0] := 0.0;
  }

  /** The pixels still positive in the masked copy. */
  ghost function Pending(copy: Brightness): set<Pixel> {
    set p | p in copy && copy[p] > 0.0
  }

  /** The masked copy still holds, unchanged, what has not been handed over. */
  ghost predicate Draining(v: Brightness, copy: Brightness, order: seq<Pixel>, all: set<Pixel>) {
    && BrightOrder(order, v)
    && Elements(order) + Pending(copy) == all
    && (forall q :: q in Pending(copy) ==> q in v && copy[q] == v[q])
    && (forall p, q :: p in order && q in Pending(copy) ==> Precedes(v, p, q))
  }

  /** `copy` is the part of the image inside the box, other labels masked to zero. */
  ghost predicate Masked(v: Brightness, seg: Labels, copy: Brightness, box: Box, key: int) {
    && (forall p :: p in copy <==> p in v && InBox(p, box))
    && (forall p :: p in copy ==> copy[p] == if At(seg, p, key) then v[p] else 0.0)
  }

  lemma DrainStarts(v: Brightness, seg: Labels, copy: Brightness, box: Box, key: int)
    requires Masked(v, seg, copy, box, key)
    ensures Draining(v, copy, [], ObjectPixels(v, seg, box, key))
  {
    assert Pending(copy) == ObjectPixels(v, seg, box, key);
  }

  lemma DrainStep(v: Brightness, copy: Brightness, order: seq<Pixel>, all: set<Pixel>, p: Pixel)
    requires Draining(v, copy, order, all)
    requires IsFirstMax(copy, p) && copy[p] > 0.0
    ensures p in v && p !in order && forall q :: q in order ==> q in v && v[p] <= v[q]
    ensures Draining(v, copy[p := 0.0], order + [p], all)
    ensures Pending(copy[p := 0.0]) < Pending(copy)
  {
    var after := copy[p := 0.0];
    assert p in Pending(copy);
    assert Pending(after) == Pending(copy) - {p};
    assert Elements(order + [p]) == Elements(order) + {p};
    forall q | q in Pending(after)
      ensures Precedes(v, p, q)
    {
      assert q in Pending(copy);
    }
  }

  lemma DrainEnds(v: Brightness, copy: Brightness, order: seq<Pixel>, all: set<Pixel>, top: Pixel)
    requires Draining(v, copy, order, all)
    requires IsFirstMax(copy, top) && copy[top] <= 0.0
    ensures Elements(order) == all
  {
    assert Pending(copy) == {};
  }

  ghost function MaskedAt(v: Brightness, seg: Labels, p: Pixel, key: int): real {
    if p in v && At(seg, p, key) then v[p] else 0.0
  }

  /** The region inside the box, with every pixel of another label masked to zero. */
  method MaskedCopy(image: array2<real>, segmap: array2<int>, box: Box, key: int) returns (copy: array2<real>)
    requires image.Length0 == segmap.Length0 && image.Length1 == segmap.Length1
    requires 0 <= box.rowMin <= box.rowMax < image.Length0 && 0 <= box.colMin <= box.colMax < image.Length1
    ensures fresh(copy)
    ensures copy.Length0 == box.rowMax + 1 - box.rowMin && copy.Length1 == box.colMax + 1 - box.colMin
    ensures forall p :: InBox(p, box) ==>
      copy[p.row - box.rowMin, p.col - box.colMin] == MaskedAt(Cells(image), Cells(segmap), p, key)
  {
    var r0, c0 := box.rowMin, box.colMin;
    copy := new real[box.rowMax + 1 - r0, box.colMax + 1 - c0](
      (r, c) requires 0 <= r <= box.rowMax - r0 && 0 <= c <= box.colMax - c0 reads image, segmap =>
        if segmap[r + r0, c + c0] == key then image[r + r0, c + c0] else 0.0);
  }

  lemma MaskedCopyPlaced(v: Brightness, seg: Labels, box: Box, key: int, copy: array2<real>)
    requires forall p :: InBox(p, box) ==> p in v
    requires copy.Length0 == box.rowMax + 1 - box.rowMin && copy.Length1 == box.colMax + 1 - box.colMin
    requires forall p :: InBox(p, box) ==> copy[p.row - box.rowMin, p.col - box.colMin] == MaskedAt(v, seg, p, key)
    ensures Masked(v, seg, Placed(copy, box.rowMin, box.colMin), box, key)
  {
    var m := Placed(copy, box.rowMin, box.colMin);
    forall p | p in m
      ensures m[p] == MaskedAt(v, seg, p, key)
    {
      assert InBox(p, box);
    }
  }

  /** The branches that draining these pixels, brightest first, gives. */
  ghost predicate IsSplit(branches: seq<Branch>, v: Brightness, pixels: set<Pixel>) {
    exists order :: BrightOrder(order, v) && Elements(order) == pixels && branches == AddAll(order)
  }

  lemma FirstInOrder(order: seq<Pixel>, v: Brightness, p: Pixel)
    requires BrightOrder(order, v) && p in order
    ensures p == order[0] || Precedes(v, order[0], p)
  {
    var i :| 0 <= i < |order| && order[i] == p;
  }

  lemma RestInOrder(order: seq<Pixel>, v: Brightness)
    requires BrightOrder(order, v) && order != []
    ensures BrightOrder(order[1..], v) && Elements(order[1..]) == Elements(order) - {order[0]}
  {
    forall i | 1 <= i < |order|
      ensures order[i] != order[0]
    {
      assert Precedes(v, order[0], order[i]);
    }
    assert order == [order[0]] + order[1..];
  }

  /** The order of draining is determined by the pixels, ties included. */
  lemma {:induction false} OrderUnique(a: seq<Pixel>, b: seq<Pixel>, v: Brightness)
    requires BrightOrder(a, v) && BrightOrder(b, v) && Elements(a) == Elements(b)
    ensures a == b
  {
    if a == [] {
      if b != [] {
        FirstMember(b);
      }
    } else {
      assert a[0] in Elements(b) && (b != [] ==> b[0] in Elements(a));
      FirstInOrder(b, v, a[0]);
      FirstInOrder(a, v, b[0]);
      RestInOrder(a, v);
      RestInOrder(b, v);
      OrderUnique(a[1..], b[1..], v);
      assert a == [a[0]] + a[1..] && b == [b[0]] + b[1..];
    }
  }

  lemma FirstMember(order: seq<Pixel>)
    requires order != []
    ensures order[0] in Elements(order)
  {
  }

  /** So the branches of an object are determined by its pixels and their brightness. */
  lemma SplitUnique(branches: seq<Branch>, others: seq<Branch>, v: Brightness, pixels: set<Pixel>)
    requires IsSplit(branches, v, pixels) && IsSplit(others, v, pixels)
    ensures branches == others
  {
    var a :| BrightOrder(a, v) && Elements(a) == pixels && branches == AddAll(a);
    var b :| BrightOrder(b, v) && Elements(b) == pixels && others == AddAll(b);
    OrderUnique(a, b, v);
  }

  /** Drain one object: hand its positive pixels to `AddToBranch`, brightest first. */
  method SplitObject(image: array2<real>, segmap: array2<int>, box: Box, key: int)
    returns (branches: seq<Branch>)
    requires image.Length0 == segmap.Length0 && image.Length1 == segmap.Length1
    requires 0 <= box.rowMin <= box.rowMax < image.Length0 && 0 <= box.colMin <= box.colMax < image.Length1
    ensures IsSplit(branches, Cells(image), ObjectPixels(Cells(image), Cells(segmap), box, key))
  {
    var r0, c0 := box.rowMin, box.colMin;
    ghost var v, all := Cells(image), ObjectPixels(Cells(image), Cells(segmap), box, key);
    var copy := MaskedCopy(image, segmap, box, key);
    var local := new BranchList();
    ghost var order: seq<Pixel> := [];
    ghost var left := Placed(copy, r0, c0);
    MaskedCopyPlaced(v, Cells(segmap), box, key, copy);
    DrainStarts(v, Cells(segmap), left, box, key);
    while true
      invariant Placed(copy, r0, c0) == left
      invariant local.items == AddAll(order)
      invariant Draining(v, left, order, all)
      decreases Pending(left)
    {
      var point, value := Brightest(copy, r0, c0);
      if value <= 0.0 {
        DrainEnds(v, left, order, all, point);
        break;
      }
      DrainStep(v, left, order, all, point);
      Clear(copy, r0, c0, point);
      left := left[point := 0.0];
      BrightOrderGrows(order, v);
      local.AddToBranch(point, image);
      assert (order + [point])[..|order|] == order;
      order := order + [point];
    }
    branches := local.items;
  }
}
