/** The object table and the label map of `extract_objects`, which separate functions
    rebuild after deblending (SEP_D.py, `update_objects`, `update_segmentation_map`). */
module Objects {
  import opened Branches
  import opened Components
  import opened Grids
  import opened Options
  import opened Regions
  import opened Seqs
  import opened Sums

  // ----- Branches of all objects -----

  /** `cleaning` keeps the longer branches; zero stands for an absent setting. */
  function Clean(branches: seq<Branch>, cleaning: int): (kept: seq<Branch>) {
    if cleaning == 0 || branches == [] then branches
    else (if |branches[0]| > cleaning then [branches[0]] else []) + Clean(branches[1..], cleaning)
  }

  function Flat(all: seq<seq<Branch>>): seq<Branch> {
    if all == [] then [] else Flat(all[..|all| - 1]) + all[|all| - 1]
  }

  lemma FlatPrefix(all: seq<seq<Branch>>, n: nat)
    requires n < |all|
    ensures Flat(all[..n + 1]) == Flat(all[..n]) + all[n]
  {
    assert all[..n + 1][..n] == all[..n];
  }

  /** Non-empty branches of image pixels, no pixel in two of them. */
  ghost predicate Disjoint(s: seq<Branch>) {
    && (forall i :: 0 <= i < |s| ==> s[i] != [])
    && (forall i, j, p :: 0 <= i < j < |s| && p in s[i] ==> p !in s[j])
  }

  /** All points of the branches lie on pixels labelled by one of `keys`. */
  ghost predicate Inside(s: seq<Branch>, seg: Labels, keys: set<int>) {
    forall i, p :: 0 <= i < |s| && p in s[i] ==> p in seg && seg[p] in keys
  }

  lemma DisjointAppend(s: seq<Branch>, t: seq<Branch>, seg: Labels, ks: set<int>, kt: set<int>)
    requires Disjoint(s) && Disjoint(t) && Inside(s, seg, ks) && Inside(t, seg, kt) && ks !! kt
    ensures Disjoint(s + t) && Inside(s + t, seg, ks + kt)
  {
    forall i, j, p | 0 <= i < j < |s + t| && p in (s + t)[i]
      ensures p !in (s + t)[j]
    {
      assert i < |s| <= j ==> seg[p] in ks;
    }
  }

  /** Cleaning keeps exactly the longer branches. */
  lemma {:induction false} CleanExactly(s: seq<Branch>, cleaning: int, b: Branch)
    ensures b in Clean(s, cleaning) <==> b in s && (cleaning == 0 || |b| > cleaning)
  {
    if cleaning != 0 && s != [] {
      CleanExactly(s[1..], cleaning, b);
      assert s == [s[0]] + s[1..];
    }
  }

  lemma {:induction false} CleanKeeps(s: seq<Branch>, cleaning: int, seg: Labels, keys: set<int>)
    requires Disjoint(s) && Inside(s, seg, keys)
    ensures Disjoint(Clean(s, cleaning)) && Inside(Clean(s, cleaning), seg, keys)
    ensures forall i :: 0 <= i < |Clean(s, cleaning)| ==> Clean(s, cleaning)[i] in s
  {
    if cleaning != 0 && s != [] {
      var tail := s[1..];
      var kept := Clean(tail, cleaning);
      assert forall i :: 0 <= i < |tail| ==> tail[i] == s[i + 1];
      CleanKeeps(tail, cleaning, seg, keys);
      forall j, p | 0 <= j < |kept| && p in s[0]
        ensures p !in kept[j]
      {
        var i :| 0 <= i < |tail| && tail[i] == kept[j];
      }
    }
  }

  /** Cleaning goes branch by branch, so those kept stay in their order. */
  lemma {:induction false} CleanInOrder(s: seq<Branch>, t: seq<Branch>, cleaning: int)
    ensures Clean(s + t, cleaning) == Clean(s, cleaning) + Clean(t, cleaning)
  {
    if cleaning != 0 && s != [] {
      assert (s + t)[1..] == s[1..] + t;
      CleanInOrder(s[1..], t, cleaning);
    } else if s == [] {
      assert s + t == t;
    }
  }

  ghost predicate BoxesFit(objects: Table, h: nat, w: nat) {
    forall i :: 0 <= i < |objects| ==> var b := objects[i].obj.bbox;
      0 <= b.rowMin <= b.rowMax < h && 0 <= b.colMin <= b.colMax < w
  }

  /** `branches` is what draining object `e` brightest first gives, short branches dropped. */
  ghost predicate BranchesOf(branches: seq<Branch>, e: Entry, v: Brightness, seg: Labels, cleaning: int) {
    exists grown :: IsSplit(grown, v, ObjectPixels(v, seg, e.obj.bbox, e.key)) && branches == Clean(grown, cleaning)
  }

  method ExtractBranches(image: array2<real>, objects: Table, segmap: array2<int>, cleaning: int)
    returns (all: seq<seq<Branch>>)
    requires image.Length0 == segmap.Length0 && image.Length1 == segmap.Length1
    requires BoxesFit(objects, image.Length0, image.Length1)
    ensures |all| == |objects|
    ensures forall i :: 0 <= i < |objects| ==>
      BranchesOf(all[i], objects[i], Cells(image), Cells(segmap), cleaning)
  {
    all := [];
    for n := 0 to |objects|
      invariant |all| == n
      invariant forall i :: 0 <= i < n ==>
        BranchesOf(all[i], objects[i], Cells(image), Cells(segmap), cleaning)
    {
      var local := SplitObject(image, segmap, objects[n].obj.bbox, objects[n].key);
      all := all + [Clean(local, cleaning)];
    }
  }

  lemma SplitDisjoint(grown: seq<Branch>, v: Brightness, seg: Labels, box: Box, key: int)
    requires IsSplit(grown, v, ObjectPixels(v, seg, box, key))
    ensures Disjoint(grown) && Inside(grown, seg, {key})
  {
    var pixels := ObjectPixels(v, seg, box, key);
    var order :| BrightOrder(order, v) && Elements(order) == pixels && grown == AddAll(order);
    BrightOrderGrows(order, v);
    forall i, p | 0 <= i < |grown| && p in grown[i]
      ensures p in seg && seg[p] == key
    {
      assert p in Elements(order);
    }
  }

  lemma ObjectBranchesDisjoint(branches: seq<Branch>, e: Entry, v: Brightness, seg: Labels, cleaning: int)
    requires BranchesOf(branches, e, v, seg, cleaning)
    ensures Disjoint(branches) && Inside(branches, seg, {e.key})
  {
    var grown :| IsSplit(grown, v, ObjectPixels(v, seg, e.obj.bbox, e.key)) && branches == Clean(grown, cleaning);
    SplitDisjoint(grown, v, seg, e.obj.bbox, e.key);
    CleanKeeps(grown, cleaning, seg, {e.key});
  }

  ghost function Keys(t: Table): set<int> {
    set e | e in t :: e.key
  }

  ghost predicate DistinctKeys(t: Table) {
    forall i, j :: 0 <= i < j < |t| ==> t[i].key != t[j].key
  }

  /** Branches of different objects cannot meet: their pixels carry different labels. */
  lemma {:induction false} AllBranchesDisjoint(all: seq<seq<Branch>>, objects: Table, v: Brightness, seg: Labels,
          cleaning: int)
    requires |all| == |objects| && DistinctKeys(objects)
    requires forall i :: 0 <= i < |objects| ==> BranchesOf(all[i], objects[i], v, seg, cleaning)
    ensures Disjoint(Flat(all)) && Inside(Flat(all), seg, Keys(objects))
  {
    if all != [] {
      var n := |all| - 1;
      AllBranchesDisjoint(all[..n], objects[..n], v, seg, cleaning);
      ObjectBranchesDisjoint(all[n], objects[n], v, seg, cleaning);
      assert objects == objects[..n] + [objects[n]];
      assert Keys(objects) == Keys(objects[..n]) + {objects[n].key};
      DisjointAppend(Flat(all[..n]), all[n], seg, Keys(objects[..n]), {objects[n].key});
    }
  }

  // ----- The rebuilt table and the rebuilt map -----

  /** A grid that is zero except on `branch`. */
  function Painted(h: nat, w: nat, branch: Branch, tag: int): Labels {
    map p | p in Domain(h, w) :: if p in branch then tag else 0
  }

  ghost predicate IsTableOf(t: Table, flat: seq<Branch>, h: nat, w: nat, image: map<Pixel, real>) {
    |t| == |flat| && forall k :: 0 <= k < |flat| ==> IsEntryOf(t[k], flat[k], k + 1, h, w, image)
  }

  ghost predicate IsEntryOf(e: Entry, branch: Branch, tag: int, h: nat, w: nat, image: map<Pixel, real>) {
    && e.key == tag
    && Where(Painted(h, w, branch, tag), 0, h, w, tag) != []
    && e.obj == Measure(Painted(h, w, branch, tag), h, w, tag, image)
  }

  ghost predicate InGrid(flat: seq<Branch>, h: nat, w: nat) {
    forall i :: 0 <= i < |flat| ==> flat[i] != [] && forall p :: p in flat[i] ==> Within(p, h, w)
  }

  lemma PaintedSomewhere(h: nat, w: nat, branch: Branch, tag: int)
    requires branch != [] && forall p :: p in branch ==> Within(p, h, w)
    ensures Where(Painted(h, w, branch, tag), 0, h, w, tag) != []
  {
    assert At(Painted(h, w, branch, tag), branch[0], tag);
    assert branch[0] in Where(Painted(h, w, branch, tag), 0, h, w, tag);
  }

  lemma TableGrows(t: Table, flat: seq<Branch>, e: Entry, branch: Branch, h: nat, w: nat, image: map<Pixel, real>)
    requires IsTableOf(t, flat, h, w, image)
    requires IsEntryOf(e, branch, |flat| + 1, h, w, image)
    ensures IsTableOf(t + [e], flat + [branch], h, w, image)
  {
  }

  method EntryFor(image: array2<real>, branch: Branch, tag: int) returns (e: Entry)
    requires branch != [] && forall p :: p in branch ==> Within(p, image.Length0, image.Length1)
    ensures IsEntryOf(e, branch, tag, image.Length0, image.Length1, Cells(image))
  {
    var h, w := image.Length0, image.Length1;
    PaintedSomewhere(h, w, branch, tag);
    e := Entry(tag, Measure(Painted(h, w, branch, tag), h, w, tag, Cells(image)));
  }

  /** The inner loop: the branches of one object. */
  method AppendEntries(image: array2<real>, table: Table, branches: seq<Branch>, ghost done: seq<Branch>)
    returns (updated: Table)
    requires InGrid(branches, image.Length0, image.Length1)
    requires IsTableOf(table, done, image.Length0, image.Length1, Cells(image))
    ensures IsTableOf(updated, done + branches, image.Length0, image.Length1, Cells(image))
  {
    updated := table;
    ghost var h, w, v, all := image.Length0, image.Length1, Cells(image), done;
    for k := 0 to |branches|
      invariant all == done + branches[..k]
      invariant IsTableOf(updated, all, h, w, v)
    {
      var entry := EntryFor(image, branches[k], |updated| + 1);
      TableGrows(updated, all, entry, branches[k], h, w, v);
      AppendNext(done, branches, k);
      updated, all := updated + [entry], all + [branches[k]];
    }
    TakeAll(branches);
  }

  method UpdateObjects(image: array2<real>, branches: seq<seq<Branch>>) returns (updated: Table)
    requires forall n :: 0 <= n < |branches| ==> InGrid(branches[n], image.Length0, image.Length1)
    ensures IsTableOf(updated, Flat(branches), image.Length0, image.Length1, Cells(image))
  {
    updated := [];
    for n := 0 to |branches|
      invariant IsTableOf(updated, Flat(branches[..n]), image.Length0, image.Length1, Cells(image))
    {
      FlatPrefix(branches, n);
      updated := AppendEntries(image, updated, branches[n], Flat(branches[..n]));
    }
    TakeAll(branches);
  }

  /** The label that painting `flat` in order leaves on `p`: its last branch wins. */
  ghost function LabelOf(flat: seq<Branch>, p: Pixel): int {
    if flat == [] then 0
    else if p in flat[|flat| - 1] then |flat|
    else LabelOf(flat[..|flat| - 1], p)
  }

  ghost predicate IsMapOf(l: Labels, flat: seq<Branch>) {
    forall p :: p in l ==> l[p] == LabelOf(flat, p)
  }

  /** Paint one branch on top of the map. */
  method PaintBranch(updated: array2<int>, branch: Branch, tag: int, ghost flat: seq<Branch>)
    requires tag == |flat| + 1 && IsMapOf(Cells(updated), flat)
    requires forall p :: p in branch ==> Within(p, updated.Length0, updated.Length1)
    modifies updated
    ensures IsMapOf(Cells(updated), flat + [branch])
  {
    for i := 0 to |branch|
      invariant forall p :: p in Cells(updated) ==>
        Cells(updated)[p] == if p in branch[..i] then tag else LabelOf(flat, p)
    {
      var point := branch[i];
      assert Within(point, updated.Length0, updated.Length1);
      updated[point.row, point.col] := tag;
      TakeNext(branch, i);
    }
    TakeAll(branch);
    assert (flat + [branch])[..|flat|] == flat;
  }

  method UpdateSegmentationMap(segmap: array2<int>, objects: Table, branches: seq<seq<Branch>>)
    returns (updated: array2<int>)
    requires |branches| == |objects|
    requires forall n :: 0 <= n < |branches| ==> InGrid(branches[n], segmap.Length0, segmap.Length1)
    ensures fresh(updated) && updated.Length0 == segmap.Length0 && updated.Length1 == segmap.Length1
    ensures IsMapOf(Cells(updated), Flat(branches))
  {
    updated := Zeros(segmap.Length0, segmap.Length1);
    var tag := 1;
    ghost var done: seq<Branch> := [];
    for n := 0 to |objects|
      invariant done == Flat(branches[..n]) && tag == |done| + 1
      invariant IsMapOf(Cells(updated), done)
    {
      FlatPrefix(branches, n);
      for k := 0 to |branches[n]|
        invariant done == Flat(branches[..n]) + branches[n][..k] && tag == |done| + 1
        invariant IsMapOf(Cells(updated), done)
      {
        PaintBranch(updated, branches[n][k], tag, done);
        TakeNext(branches[n], k);
        tag, done := tag + 1, done + [branches[n][k]];
      }
      TakeAll(branches[n]);
    }
    TakeAll(branches);
  }

  // ----- The two agree -----

  /** The table's keys are exactly the map's non-zero labels, and every entry measures
      its own label in that map. */
  ghost predicate Consistent(t: Table, l: Labels, h: nat, w: nat, image: map<Pixel, real>) {
    && (forall i, j :: 0 <= i < j < |t| ==> t[i].key < t[j].key)
    && (forall p :: Within(p, h, w) ==> p in l && (l[p] == 0 || l[p] in Keys(t)))
    && (forall i :: 0 <= i < |t| ==> Measures(t[i], l, h, w, image))
  }

  ghost predicate Measures(e: Entry, l: Labels, h: nat, w: nat, image: map<Pixel, real>) {
    && e.key > 0
    && Where(l, 0, h, w, e.key) != []
    && e.obj == Measure(l, h, w, e.key, image)
  }

  /** Where branches are disjoint, painting them in order loses no pixel of any. */
  lemma {:induction false} LabelExact(flat: seq<Branch>, p: Pixel, k: nat)
    requires Disjoint(flat)
    ensures 0 <= LabelOf(flat, p) <= |flat|
    ensures k < |flat| ==> (LabelOf(flat, p) == k + 1 <==> p in flat[k])
  {
    if flat != [] {
      LabelExact(flat[..|flat| - 1], p, k);
    }
  }

  lemma EntryMeasuresMap(e: Entry, l: Labels, flat: seq<Branch>, k: nat, h: nat, w: nat, image: map<Pixel, real>)
    requires Disjoint(flat) && k < |flat| && IsEntryOf(e, flat[k], k + 1, h, w, image)
    requires IsMapOf(l, flat) && forall p :: Within(p, h, w) ==> p in l
    ensures Measures(e, l, h, w, image)
  {
    forall p | Within(p, h, w)
      ensures At(Painted(h, w, flat[k], k + 1), p, k + 1) <==> At(l, p, k + 1)
    {
      LabelExact(flat, p, k);
    }
    MeasureSame(Painted(h, w, flat[k], k + 1), l, h, w, k + 1, image);
  }

  /** The table built branch by branch and the map painted branch by branch are consistent. */
  lemma TableMatchesMap(t: Table, l: Labels, flat: seq<Branch>, h: nat, w: nat, image: map<Pixel, real>)
    requires Disjoint(flat) && IsTableOf(t, flat, h, w, image)
    requires IsMapOf(l, flat) && forall p :: Within(p, h, w) ==> p in l
    ensures Consistent(t, l, h, w, image)
  {
    forall p | Within(p, h, w)
      ensures l[p] == 0 || l[p] in Keys(t)
    {
      LabelExact(flat, p, 0);
      if l[p] != 0 {
        assert t[l[p] - 1].key == l[p];
      }
    }
    forall k | 0 <= k < |t|
      ensures Measures(t[k], l, h, w, image)
    {
      EntryMeasuresMap(t[k], l, flat, k, h, w, image);
    }
  }

  // ----- Filters -----

  datatype Field = X | Y | Npix | MeanInt

  /** A filter keeps the objects whose field lies between its bounds; a missing bound is infinite. */
  datatype Filter = Filter(field: Field, lower: Option<real>, upper: Option<real>)

  function Value(o: Obj, field: Field): real {
    match field
    case X => o.x
    case Y => o.y
    case Npix => o.npix as real
    case MeanInt => o.meanInt
  }

  predicate Passes(o: Obj, f: Filter) {
    (f.lower.Some? ==> f.lower.value <= Value(o, f.field)) && (f.upper.Some? ==> Value(o, f.field) <= f.upper.value)
  }

  predicate PassesAll(o: Obj, filters: seq<Filter>) {
    forall f :: f in filters ==> Passes(o, f)
  }

  predicate Beyond(x: real, f: Filter) {
    (f.lower.Some? && x < f.lower.value) || (f.upper.Some? && f.upper.value < x)
  }

  predicate Rejects(f: Filter, o: Obj) {
    || (f.field == X && Beyond(o.x, f))
    || (f.field == Y && Beyond(o.y, f))
    || (f.field == Npix && Beyond(o.npix as real, f))
    || (f.field == MeanInt && Beyond(o.meanInt, f))
  }

  /** An object is dropped exactly when one of its four measurements is beyond a bound of a filter on
      that measurement. */
  lemma DroppedExactly(o: Obj, filters: seq<Filter>)
    ensures !PassesAll(o, filters) <==> exists f :: f in filters && Rejects(f, o)
  {
    if f :| f in filters && !Passes(o, f) {
      assert Rejects(f, o);
    }
  }

  function Keep(t: Table, f: Filter): (kept: Table) {
    if t == [] then []
    else (if Passes(t[0].obj, f) then [t[0]] else []) + Keep(t[1..], f)
  }

  /** `s` lists some entries of `t`, in ascending order of key. */
  ghost predicate Selects(s: Table, t: Table) {
    && (forall e :: e in s ==> e in t)
    && (forall i, j :: 0 <= i < j < |s| ==> s[i].key < s[j].key)
  }

  lemma {:induction false} KeepSelects(t: Table, f: Filter)
    requires forall i, j :: 0 <= i < j < |t| ==> t[i].key < t[j].key
    ensures Selects(Keep(t, f), t)
    ensures forall e :: e in Keep(t, f) <==> e in t && Passes(e.obj, f)
  {
    if t != [] {
      KeepSelects(t[1..], f);
      assert forall e :: e in t[1..] ==> t[0].key < e.key;
    }
  }

  method FilterObjects(updated: Table, filters: seq<Filter>) returns (filtered: Table)
    requires forall i, j :: 0 <= i < j < |updated| ==> updated[i].key < updated[j].key
    ensures Selects(filtered, updated)
    ensures forall e :: e in filtered <==> e in updated && PassesAll(e.obj, filters)
  {
    filtered := updated;
    for n := 0 to |filters|
      invariant Selects(filtered, updated)
      invariant forall e :: e in filtered <==> e in updated && PassesAll(e.obj, filters[..n])
    {
      KeepSelects(filtered, filters[n]);
      filtered := Keep(filtered, filters[n]);
      TakeNext(filters, n);
    }
    TakeAll(filters);
  }

  /** The map after the labels of dropped objects were set back to zero. */
  ghost predicate IsFilteredMap(after: Labels, before: Labels, dropped: set<int>) {
    after.Keys == before.Keys && forall p :: p in after ==> after[p] == if before[p] in dropped then 0 else before[p]
  }

  method ClearLabel(l: array2<int>, key: int)
    modifies l
    ensures IsFilteredMap(Cells(l), old(Cells(l)), {key})
  {
    forall i, j | 0 <= i < l.Length0 && 0 <= j < l.Length1 && l[i, j] == key {
      l[i, j] := 0;
    }
  }

  method FilterMap(segmap: array2<int>, updated: Table, filtered: Table) returns (kept: array2<int>)
    ensures fresh(kept) && kept.Length0 == segmap.Length0 && kept.Length1 == segmap.Length1
    ensures IsFilteredMap(Cells(kept), Cells(segmap), Keys(updated) - Keys(filtered))
  {
    kept := new int[segmap.Length0, segmap.Length1](
      (i, j) requires 0 <= i < segmap.Length0 && 0 <= j < segmap.Length1 reads segmap => segmap[i, j]);
    for n := 0 to |updated|
      invariant IsFilteredMap(Cells(kept), Cells(segmap), Keys(updated[..n]) - Keys(filtered))
    {
      var key := updated[n].key;
      TakeNext(updated, n);
      assert Keys(updated[..n + 1]) == Keys(updated[..n]) + {key};
      if !(exists e :: e in filtered && e.key == key) {
        ClearLabel(kept, key);
      }
    }
    TakeAll(updated);
  }

  /** Dropping objects from the table and their labels from the map keeps the two consistent. */
  lemma FilterKeepsConsistent(t: Table, l: Labels, t': Table, l': Labels, h: nat, w: nat, image: map<Pixel, real>)
    requires Consistent(t, l, h, w, image) && Selects(t', t)
    requires IsFilteredMap(l', l, Keys(t) - Keys(t'))
    ensures Consistent(t', l', h, w, image)
  {
    forall i | 0 <= i < |t'|
      ensures Measures(t'[i], l', h, w, image)
    {
      var e := t'[i];
      assert e in t && e.key in Keys(t');
      forall p | Within(p, h, w)
        ensures At(l, p, e.key) <==> At(l', p, e.key)
      {
      }
      MeasureSame(l, l', h, w, e.key, image);
    }
  }

  // ----- Extraction -----

  ghost function Above(v: Brightness, cut: real): set<Pixel> {
    set p | p in v && v[p] > cut
  }

  /** Above the mean by `factor` standard deviations. */
  function Cut(v: Brightness, h: nat, w: nat, factor: real, std: real): real
    requires h > 0 && w > 0
  {
    Average(Values(v, 0, h, w)) + factor * std
  }

  /** Less the factor times the standard deviation the cut is the mean over all pixels of the image. */
  lemma CutExactly(v: Brightness, h: nat, w: nat, factor: real, std: real)
    requires h > 0 && w > 0
    ensures Averages(|Domain(h, w)|, Cut(v, h, w, factor, std) - factor * std, SetSum(Intensity(v), Domain(h, w)))
  {
    ValuesTotal(v, h, w);
    QuotientAverages(|Domain(h, w)|, SetSum(Intensity(v), Domain(h, w)));
    AddedBack(Average(Values(v, 0, h, w)), factor * std);
  }

  lemma AddedBack(a: real, b: real)
    ensures a + b - b == a
  {
  }

  /** `threshold_image`; `std` is the standard deviation of the image. */
  method ThresholdImage(image: array2<real>, factor: real, std: real) returns (binary: array2<int>)
    requires image.Length0 > 0 && image.Length1 > 0
    requires IsStd(Values(Cells(image), 0, image.Length0, image.Length1), std)
    ensures fresh(binary) && binary.Length0 == image.Length0 && binary.Length1 == image.Length1
    ensures Binary(binary)
    ensures Foreground(binary) == Above(Cells(image), Cut(Cells(image), image.Length0, image.Length1, factor, std))
  {
    var cut := Cut(Cells(image), image.Length0, image.Length1, factor, std);
    binary := new int[image.Length0, image.Length1](
      (i, j) requires 0 <= i < image.Length0 && 0 <= j < image.Length1 reads image =>
        if image[i, j] > cut then 1 else 0);
  }

  method MaxLabel(l: array2<int>) returns (m: int)
    requires l.Length0 > 0 && l.Length1 > 0
    ensures (exists p :: p in Cells(l) && Cells(l)[p] == m) && forall p :: p in Cells(l) ==> Cells(l)[p] <= m
  {
    m := l[0, 0];
    ghost var top := Pixel(0, 0);
    for i := 0 to l.Length0
      invariant top in Cells(l) && Cells(l)[top] == m
      invariant forall p :: p in Cells(l) && RasterBefore(p, Pixel(i, 0)) ==> Cells(l)[p] <= m
    {
      for j := 0 to l.Length1
        invariant top in Cells(l) && Cells(l)[top] == m
        invariant forall p :: p in Cells(l) && RasterBefore(p, Pixel(i, j)) ==> Cells(l)[p] <= m
      {
        if l[i, j] > m {
          m, top := l[i, j], Pixel(i, j);
        }
      }
    }
  }

  /** Entries for the labels from 1 up, each measuring its own label. */
  ghost predicate Numbered(t: Table, l: Labels, h: nat, w: nat, image: map<Pixel, real>) {
    forall i :: 0 <= i < |t| ==> t[i].key == i + 1 && Measures(t[i], l, h, w, image)
  }

  lemma NumberedGrows(t: Table, l: Labels, h: nat, w: nat, image: map<Pixel, real>, tag: int)
    requires Numbered(t, l, h, w, image) && tag == |t| + 1 && Where(l, 0, h, w, tag) != []
    ensures Numbered(t + [Entry(tag, Measure(l, h, w, tag, image))], l, h, w, image)
  {
  }

  method InitialObjects(image: array2<real>, segmap: array2<int>, ghost seeds: seq<Pixel>) returns (objects: Table)
    requires image.Length0 == segmap.Length0 > 0 && image.Length1 == segmap.Length1 > 0
    requires forall p :: p in Cells(segmap) ==> Cells(segmap)[p] <= |seeds|
    requires forall k :: 0 <= k < |seeds| ==> At(Cells(segmap), seeds[k], k + 1)
    ensures |objects| >= |seeds|
    ensures Numbered(objects, Cells(segmap), image.Length0, image.Length1, Cells(image))
  {
    ghost var l, v := Cells(segmap), Cells(image);
    var h, w := image.Length0, image.Length1;
    var top := MaxLabel(segmap);
    objects := [];
    var tag := 1;
    while tag <= top
      invariant |objects| == tag - 1
      invariant Numbered(objects, l, h, w, v)
    {
      assert seeds[tag - 1] in Where(l, 0, h, w, tag);
      NumberedGrows(objects, l, h, w, v, tag);
      objects := objects + [Entry(tag, Measure(Cells(segmap), h, w, tag, Cells(image)))];
      tag := tag + 1;
    }
    assert |seeds| > 0 ==> At(l, seeds[|seeds| - 1], |seeds|);
  }

  lemma LabellingConsistent(t: Table, f: set<Pixel>, l: Labels, seeds: seq<Pixel>, h: nat, w: nat,
          image: map<Pixel, real>)
    requires IsLabelling(f, l, seeds) && |t| >= |seeds|
    requires forall p :: p in l <==> Within(p, h, w)
    requires Numbered(t, l, h, w, image)
    ensures Consistent(t, l, h, w, image) && DistinctKeys(t) && BoxesFit(t, h, w)
  {
    forall p | Within(p, h, w)
      ensures l[p] == 0 || l[p] in Keys(t)
    {
      if l[p] != 0 {
        assert t[l[p] - 1].key == l[p];
      }
    }
    forall i | 0 <= i < |t|
      ensures var b := t[i].obj.bbox; 0 <= b.rowMin <= b.rowMax < h && 0 <= b.colMin <= b.colMax < w
    {
      assert Measures(t[i], l, h, w, image);
      MeasuredBoxFits(t[i], l, h, w, image);
    }
  }

  lemma MeasuredBoxFits(e: Entry, l: Labels, h: nat, w: nat, image: map<Pixel, real>)
    requires Measures(e, l, h, w, image)
    ensures var b := e.obj.bbox; 0 <= b.rowMin <= b.rowMax < h && 0 <= b.colMin <= b.colMax < w
  {
    BoundingBoxTight(l, h, w, e.key);
    var s := Where(l, 0, h, w, e.key);
    assert s[0] in s && TightBox(s, e.obj.bbox);
    var i :| 0 <= i < |s| && s[i].row == e.obj.bbox.rowMin;
    var j :| 0 <= j < |s| && s[j].row == e.obj.bbox.rowMax;
    var k :| 0 <= k < |s| && s[k].col == e.obj.bbox.colMin;
    var m :| 0 <= m < |s| && s[m].col == e.obj.bbox.colMax;
    assert Within(s[i], h, w) && Within(s[j], h, w) && Within(s[k], h, w) && Within(s[m], h, w);
  }

  /** Every entry of a consistent table describes the set of pixels carrying its key in the map: their
      number, their mean row and column, their total brightness and their tight box. */
  lemma ConsistentCounts(t: Table, l: Labels, h: nat, w: nat, image: map<Pixel, real>, i: nat)
    requires Consistent(t, l, h, w, image) && i < |t|
    ensures Describes(t[i].obj, Carrying(l, h, w, t[i].key), image)
    ensures forall p :: p in Where(l, 0, h, w, t[i].key) <==> Within(p, h, w) && At(l, p, t[i].key)
    ensures TightBox(Where(l, 0, h, w, t[i].key), t[i].obj.bbox)
  {
    assert Measures(t[i], l, h, w, image);
    MeasureDescribes(l, h, w, t[i].key, image);
    BoundingBoxTight(l, h, w, t[i].key);
  }

  /** The non-zero labels of the map are exactly the keys of the table. */
  lemma ConsistentKeys(t: Table, l: Labels, h: nat, w: nat, image: map<Pixel, real>, key: int)
    requires Consistent(t, l, h, w, image)
    ensures key in Keys(t) <==> key != 0 && exists p :: Within(p, h, w) && At(l, p, key)
  {
    if e :| e in t && e.key == key {
      var i :| 0 <= i < |t| && t[i] == e;
      assert Measures(t[i], l, h, w, image);
      var s := Where(l, 0, h, w, key);
      assert s[0] in s;
    }
  }

  /** Draining an object reaches all of it: among the pixels of its label exactly the positive ones
      that do not lie between two branches are held by a branch, and no other pixel is. */
  lemma PositivePixelsHeld(grown: seq<Branch>, e: Entry, seg: Labels, h: nat, w: nat, v: Brightness, p: Pixel)
    requires IsSplit(grown, v, ObjectPixels(v, seg, e.obj.bbox, e.key)) && Measures(e, seg, h, w, v)
    requires Within(p, h, w) && p in v
    ensures Held(grown, p) <==> At(seg, p, e.key) && v[p] > 0.0 && !TouchesTwo(grown, p)
  {
    var pixels := ObjectPixels(v, seg, e.obj.bbox, e.key);
    var order :| BrightOrder(order, v) && Elements(order) == pixels && grown == AddAll(order);
    BrightOrderGrows(order, v);
    BoundingBoxTight(seg, h, w, e.key);
    if p in pixels {
      DroppedExactlyBetween(grown, pixels, v, p);
    }
  }

  /** The stages of one extraction: the labelled components and their table, the branches of
      each object, and the table and map before filtering. */
  datatype Stages = Stages(seg: Labels, seeds: seq<Pixel>, objects: Table,
                           branches: seq<seq<Branch>>, whole: Table, wholeMap: Labels)

  ghost predicate Deblended(st: Stages, h: nat, w: nat, v: Brightness, cleaning: int) {
    && |st.branches| == |st.objects|
    && (forall i :: 0 <= i < |st.objects| ==> BranchesOf(st.branches[i], st.objects[i], v, st.seg, cleaning))
    && Disjoint(Flat(st.branches))
    && IsTableOf(st.whole, Flat(st.branches), h, w, v)
    && IsMapOf(st.wholeMap, Flat(st.branches))
  }

  /** Deblending replaces the table and the map by a consistent pair. */
  method Deblend(image: array2<real>, objects: Table, segmap: array2<int>, cleaning: int, ghost st: Stages)
    returns (updated: Table, map': array2<int>, ghost after: Stages)
    requires image.Length0 == segmap.Length0 && image.Length1 == segmap.Length1
    requires DistinctKeys(objects) && BoxesFit(objects, image.Length0, image.Length1)
    requires st.objects == objects && st.seg == Cells(segmap)
    ensures fresh(map') && map'.Length0 == image.Length0 && map'.Length1 == image.Length1
    ensures after.whole == updated && after.wholeMap == Cells(map')
    ensures after.seg == st.seg && after.seeds == st.seeds && after.objects == objects
    ensures Deblended(after, image.Length0, image.Length1, Cells(image), cleaning)
    ensures Consistent(updated, Cells(map'), image.Length0, image.Length1, Cells(image))
  {
    var all := ExtractBranches(image, objects, segmap, cleaning);
    AllBranchesDisjoint(all, objects, Cells(image), Cells(segmap), cleaning);
    forall n | 0 <= n < |all|
      ensures InGrid(all[n], image.Length0, image.Length1)
    {
      ObjectBranchesDisjoint(all[n], objects[n], Cells(image), Cells(segmap), cleaning);
    }
    updated := UpdateObjects(image, all);
    map' := UpdateSegmentationMap(segmap, objects, all);
    TableMatchesMap(updated, Cells(map'), Flat(all), image.Length0, image.Length1, Cells(image));
    after := st.(branches := all, whole := updated, wholeMap := Cells(map'));
  }

  /** Whatever the options, the returned table and map are consistent, and hold exactly
      the objects of the requested stage that pass every filter. */
  method ExtractObjects(image: array2<real>, threshold: real, std: real, deblending: bool, filters: seq<Filter>,
          cleaning: int)
    returns (table: Table, segmap: array2<int>, ghost st: Stages)
    requires image.Length0 > 0 && image.Length1 > 0
    requires IsStd(Values(Cells(image), 0, image.Length0, image.Length1), std)
    ensures segmap.Length0 == image.Length0 && segmap.Length1 == image.Length1
    ensures IsLabelling(Above(Cells(image), Cut(Cells(image), image.Length0, image.Length1, threshold, std)),
                        st.seg, st.seeds)
    ensures Numbered(st.objects, st.seg, image.Length0, image.Length1, Cells(image))
    ensures if deblending then Deblended(st, image.Length0, image.Length1, Cells(image), cleaning)
            else st.whole == st.objects && st.wholeMap == st.seg
    ensures forall e :: e in table <==> e in st.whole && PassesAll(e.obj, filters)
    ensures IsFilteredMap(Cells(segmap), st.wholeMap, Keys(st.whole) - Keys(table))
    ensures Consistent(table, Cells(segmap), image.Length0, image.Length1, Cells(image))
  {
    var binary := ThresholdImage(image, threshold, std);
    ghost var seeds;
    segmap, seeds := ConnectedComponents(binary);
    table := InitialObjects(image, segmap, seeds);
    LabellingConsistent(table, Foreground(binary), Cells(segmap), seeds, image.Length0, image.Length1, Cells(image));
    st := Stages(Cells(segmap), seeds, table, [], table, Cells(segmap));
    if deblending {
      table, segmap, st := Deblend(image, table, segmap, cleaning, st);
    }
    if filters != [] {
      var kept := FilterObjects(table, filters);
      var keptMap := FilterMap(segmap, table, kept);
      FilterKeepsConsistent(table, Cells(segmap), kept, Cells(keptMap), image.Length0, image.Length1, Cells(image));
      table, segmap := kept, keptMap;
    }
  }
}
