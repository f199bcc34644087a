/** Grouping an object's pixels by the correlation of their traces
    (correlatie.py, the pair loop and the final ordering). */
module Grouping {
  import opened Seqs
  import opened Sorting
  import opened Sums
  import opened Walks

  /** `Corr(p, q)` is the entry of the symmetric correlation matrix. */
  type Corr = (nat, nat) -> real

  datatype Groups = Groups(branches: seq<seq<nat>>, owner: map<nat, nat>)

  /** The correlations of pixel `p`. */
  function CorrOf(corr: Corr, p: nat): nat -> real {
    (q: nat) => corr(p, q)
  }

  function Average(corr: Corr, branch: seq<nat>, p: nat): real
    requires branch != []
  {
    Sum(Mapped(CorrOf(corr, p), branch)) / |branch| as real
  }

  /** The correlations of `p` with the branch add up to the threshold for each of its pixels. */
  ghost predicate Close(corr: Corr, threshold: real, p: nat, branch: seq<nat>) {
    Sum(Mapped(CorrOf(corr, p), branch)) >= |branch| as real * threshold
  }

  lemma AverageExactly(corr: Corr, threshold: real, p: nat, branch: seq<nat>)
    requires branch != []
    ensures Average(corr, branch, p) >= threshold <==> Close(corr, threshold, p, branch)
  {
    var total := Sum(Mapped(CorrOf(corr, p), branch));
    QuotientAverages(|branch|, total);
    QuotientBelow(|branch| as real, total / |branch| as real, total, threshold);
  }

  /** A strong pair: the entry of the lower triangle reaches the threshold. */
  predicate Strong(corr: Corr, threshold: real, p: nat, q: nat) {
    (p > q && corr(p, q) >= threshold) || (q > p && corr(q, p) >= threshold)
  }

  ghost function StrongStep(corr: Corr, threshold: real, s: seq<nat>): (nat, nat) -> bool {
    (p: nat, q: nat) => p in s && q in s && Strong(corr, threshold, p, q)
  }

  ghost predicate Distinct(s: seq<nat>) {
    forall i, j :: 0 <= i < j < |s| ==> s[i] != s[j]
  }

  /** `owner` names, for every grouped pixel and no other, the one branch that holds it. */
  ghost predicate Tracked(g: Groups) {
    && (forall p: nat :: p in g.owner ==> g.owner[p] < |g.branches| && p in g.branches[g.owner[p]])
    && (forall b: nat, p: nat {:trigger p in g.branches[b]} :: b < |g.branches| && p in g.branches[b] ==>
      p in g.owner && g.owner[p] == b)
    && AllDistinct(g.branches)
  }

  ghost predicate AllDistinct(branches: seq<seq<nat>>) {
    forall b :: 0 <= b < |branches| ==> Distinct(branches[b])
  }

  /** Any two pixels of the branch are joined by strong pairs inside it. */
  ghost predicate Connected(corr: Corr, threshold: real, s: seq<nat>) {
    forall p, q :: p in s && q in s ==> Linked(StrongStep(corr, threshold, s), p, q)
  }

  ghost predicate AllConnected(g: Groups, corr: Corr, threshold: real) {
    forall b :: 0 <= b < |g.branches| ==> Connected(corr, threshold, g.branches[b])
  }

  lemma ConnectedJoin(corr: Corr, threshold: real, s: seq<nat>, t: seq<nat>, i: nat, j: nat)
    requires Connected(corr, threshold, s) && Connected(corr, threshold, t)
    requires i in s && j in t && Strong(corr, threshold, i, j)
    ensures Connected(corr, threshold, s + t)
  {
    var step := StrongStep(corr, threshold, s + t);
    forall p | p in s + t
      ensures Linked(step, p, i)
    {
      if p in s {
        LinkedWiden(StrongStep(corr, threshold, s), step, p, i);
      } else {
        LinkedWiden(StrongStep(corr, threshold, t), step, p, j);
        LinkedLast(step, p, j, i);
      }
    }
    forall p, q | p in s + t && q in s + t
      ensures Linked(step, p, q)
    {
      assert Linked(step, p, i) && Linked(step, q, i);
      LinkedSymmetric(step, q, i);
      LinkedTransitive(step, p, i, q);
    }
  }

  lemma ConnectedSingle(corr: Corr, threshold: real, p: nat)
    ensures Connected(corr, threshold, [p])
  {
    LinkedSelf(StrongStep(corr, threshold, [p]), p);
  }

  /** What one strong pair does to the groups. */
  function Pair(g: Groups, corr: Corr, threshold: real, i: nat, j: nat): Groups
    requires forall p :: p in g.owner ==> g.owner[p] < |g.branches|
    requires forall p :: p in g.owner ==> g.branches[g.owner[p]] != []
  {
    if i in g.owner && j in g.owner then
      if g.owner[i] == g.owner[j] then g else Merge(g, g.owner[i], g.owner[j])
    else if i in g.owner then
      if Average(corr, g.branches[g.owner[i]], j) >= threshold then Join(g, j, g.owner[i]) else g
    else if j in g.owner then
      if Average(corr, g.branches[g.owner[j]], i) >= threshold then Join(g, i, g.owner[j]) else g
    else
      Open(g, i, j)
  }

  function Open(g: Groups, i: nat, j: nat): Groups {
    Groups(g.branches + [[i, j]], g.owner[i := |g.branches|][j := |g.branches|])
  }

  function Merge(g: Groups, a: nat, b: nat): Groups
    requires a < |g.branches| && b < |g.branches| && a != b
  {
    Groups(g.branches[a := g.branches[a] + g.branches[b]][b := []],
           map p | p in g.owner.Keys + (set q | q in g.branches[b]) :: if p in g.branches[b] then a else g.owner[p])
  }

  function Join(g: Groups, p: nat, b: nat): Groups
    requires b < |g.branches|
  {
    Groups(g.branches[b := g.branches[b] + [p]], g.owner[p := b])
  }

  ghost predicate Grouped(g: Groups, corr: Corr, threshold: real, n: nat) {
    && Tracked(g) && AllConnected(g, corr, threshold)
    && forall p :: p in g.owner ==> p < n
  }

  lemma DistinctJoin(s: seq<nat>, t: seq<nat>)
    requires Distinct(s) && Distinct(t) && forall p :: p in s ==> p !in t
    ensures Distinct(s + t)
  {
    forall k, m | 0 <= k < m < |s + t|
      ensures (s + t)[k] != (s + t)[m]
    {
      assert k < |s| <= m ==> s[k] in s && t[m - |s|] in t;
    }
  }

  lemma MergeTracks(g: Groups, a: nat, b: nat)
    requires Tracked(g) && a < |g.branches| && b < |g.branches| && a != b
    ensures Tracked(Merge(g, a, b))
  {
    DistinctJoin(g.branches[a], g.branches[b]);
    var m := Merge(g, a, b);
    forall c: nat, p: nat | c < |m.branches| && p in m.branches[c]
      ensures p in m.owner && m.owner[p] == c
    {
      assert p in g.branches[b] || p in g.branches[c];
    }
    forall p: nat | p in m.owner
      ensures m.owner[p] < |m.branches| && p in m.branches[m.owner[p]]
    {
      assert p in g.branches[b] || p in g.branches[g.owner[p]];
    }
  }

  lemma MergeConnects(g: Groups, corr: Corr, threshold: real, i: nat, j: nat, a: nat, b: nat)
    requires AllConnected(g, corr, threshold) && Strong(corr, threshold, i, j)
    requires a < |g.branches| && b < |g.branches| && a != b && i in g.branches[a] && j in g.branches[b]
    ensures AllConnected(Merge(g, a, b), corr, threshold)
  {
    ConnectedJoin(corr, threshold, g.branches[a], g.branches[b], i, j);
    assert Connected(corr, threshold, []);
  }

  lemma JoinTracks(g: Groups, p: nat, b: nat)
    requires Tracked(g) && b < |g.branches| && p !in g.owner
    ensures Tracked(Join(g, p, b))
  {
    DistinctJoin(g.branches[b], [p]);
  }

  lemma JoinConnects(g: Groups, corr: Corr, threshold: real, i: nat, j: nat, b: nat)
    requires AllConnected(g, corr, threshold) && Strong(corr, threshold, i, j)
    requires b < |g.branches| && i in g.branches[b]
    ensures AllConnected(Join(g, j, b), corr, threshold)
  {
    ConnectedSingle(corr, threshold, j);
    ConnectedJoin(corr, threshold, g.branches[b], [j], i, j);
  }

  lemma NewTracks(g: Groups, i: nat, j: nat)
    requires Tracked(g) && i !in g.owner && j !in g.owner && i != j
    ensures Tracked(Open(g, i, j))
  {
  }

  lemma NewConnects(g: Groups, corr: Corr, threshold: real, i: nat, j: nat)
    requires AllConnected(g, corr, threshold) && Strong(corr, threshold, i, j)
    ensures AllConnected(Open(g, i, j), corr, threshold)
  {
    ConnectedSingle(corr, threshold, i);
    ConnectedSingle(corr, threshold, j);
    ConnectedJoin(corr, threshold, [i], [j], i, j);
    assert [i] + [j] == [i, j];
  }

  lemma PairCovers(g: Groups, corr: Corr, threshold: real, i: nat, j: nat)
    requires forall p :: p in g.owner ==> g.owner[p] < |g.branches|
    requires forall p :: p in g.owner ==> g.branches[g.owner[p]] != []
    ensures g.owner.Keys <= Pair(g, corr, threshold, i, j).owner.Keys
    ensures i in Pair(g, corr, threshold, i, j).owner || j in Pair(g, corr, threshold, i, j).owner
  {
  }

  /** Every pair keeps branches disjoint, duplicate-free, tracked and connected. */
  lemma PairKeeps(g: Groups, corr: Corr, threshold: real, n: nat, i: nat, j: nat)
    requires Grouped(g, corr, threshold, n) && Strong(corr, threshold, i, j) && i < n && j < n
    ensures Grouped(Pair(g, corr, threshold, i, j), corr, threshold, n)
  {
    if i in g.owner && j in g.owner {
      if g.owner[i] != g.owner[j] {
        MergeTracks(g, g.owner[i], g.owner[j]);
        MergeConnects(g, corr, threshold, i, j, g.owner[i], g.owner[j]);
      }
    } else if i in g.owner {
      JoinTracks(g, j, g.owner[i]);
      JoinConnects(g, corr, threshold, i, j, g.owner[i]);
    } else if j in g.owner {
      JoinTracks(g, i, g.owner[j]);
      JoinConnects(g, corr, threshold, j, i, g.owner[j]);
    } else {
      NewTracks(g, i, j);
      NewConnects(g, corr, threshold, i, j);
    }
  }

  // ----- What a pair decides -----

  /** The branch of a pixel; a pixel of no branch is alone. */
  ghost function BranchOf(g: Groups, p: nat): seq<nat>
    requires Tracked(g)
  {
    if p in g.owner then g.branches[g.owner[p]] else [p]
  }

  ghost predicate Together(g: Groups, p: nat, q: nat) {
    p in g.owner && q in g.owner && g.owner[p] == g.owner[q]
  }

  /** Two grouped pixels, or two pixels alone, are united; one alone only if it is close to the branch
      of the other. */
  ghost predicate Unites(g: Groups, corr: Corr, threshold: real, i: nat, j: nat)
    requires Tracked(g)
  {
    if i in g.owner && j !in g.owner then Close(corr, threshold, j, BranchOf(g, i))
    else if j in g.owner && i !in g.owner then Close(corr, threshold, i, BranchOf(g, j))
    else true
  }

  /** The branch of both once they are united: the first pixel's, then the second's; a pixel alone
      comes last. */
  ghost function United(g: Groups, i: nat, j: nat): seq<nat>
    requires Tracked(g)
  {
    if j in g.owner && i !in g.owner then BranchOf(g, j) + BranchOf(g, i) else BranchOf(g, i) + BranchOf(g, j)
  }

  lemma NoneEmpty(g: Groups)
    requires Tracked(g)
    ensures forall p :: p in g.owner ==> g.branches[g.owner[p]] != []
  {
  }

  lemma PairTracks(g: Groups, corr: Corr, threshold: real, i: nat, j: nat)
    requires Tracked(g) && i != j
    ensures Tracked(Pair(g, corr, threshold, i, j))
  {
    if i in g.owner && j in g.owner {
      if g.owner[i] != g.owner[j] {
        MergeTracks(g, g.owner[i], g.owner[j]);
      }
    } else if i in g.owner {
      JoinTracks(g, j, g.owner[i]);
    } else if j in g.owner {
      JoinTracks(g, i, g.owner[j]);
    } else {
      NewTracks(g, i, j);
    }
  }

  /** A pair puts its two pixels together exactly when it unites them. */
  lemma PairExactly(g: Groups, corr: Corr, threshold: real, i: nat, j: nat)
    requires Tracked(g) && i != j
    ensures Together(Pair(g, corr, threshold, i, j), i, j) <==> Unites(g, corr, threshold, i, j)
  {
    if i in g.owner && j !in g.owner {
      AverageExactly(corr, threshold, j, BranchOf(g, i));
    } else if j in g.owner && i !in g.owner {
      AverageExactly(corr, threshold, i, BranchOf(g, j));
    }
  }

  lemma MergedBranch(g: Groups, i: nat, j: nat, p: nat)
    requires Tracked(g) && i in g.owner && j in g.owner && !Together(g, i, j)
    ensures var h := Merge(g, g.owner[i], g.owner[j]);
      Tracked(h) && BranchOf(h, p)
        == if p in BranchOf(g, i) + BranchOf(g, j) then BranchOf(g, i) + BranchOf(g, j) else BranchOf(g, p)
  {
    MergeTracks(g, g.owner[i], g.owner[j]);
  }

  lemma JoinedBranch(g: Groups, i: nat, j: nat, p: nat)
    requires Tracked(g) && i in g.owner && j !in g.owner
    ensures var h := Join(g, j, g.owner[i]);
      Tracked(h) && BranchOf(h, p)
        == if p in BranchOf(g, i) + BranchOf(g, j) then BranchOf(g, i) + BranchOf(g, j) else BranchOf(g, p)
  {
    JoinTracks(g, j, g.owner[i]);
  }

  /** The pixels of the two branches then have the united branch, all others keep theirs. */
  lemma PairBranches(g: Groups, corr: Corr, threshold: real, i: nat, j: nat, p: nat)
    requires Tracked(g) && i != j
    ensures var h := Pair(g, corr, threshold, i, j);
      Tracked(h) && BranchOf(h, p)
        == if p in United(g, i, j) && Unites(g, corr, threshold, i, j) && !Together(g, i, j)
           then United(g, i, j) else BranchOf(g, p)
  {
    if i in g.owner && j in g.owner {
      if !Together(g, i, j) {
        MergedBranch(g, i, j, p);
      }
    } else if i in g.owner {
      JoinedBranch(g, i, j, p);
      AverageExactly(corr, threshold, j, BranchOf(g, i));
    } else if j in g.owner {
      JoinedBranch(g, j, i, p);
      AverageExactly(corr, threshold, i, BranchOf(g, j));
    } else {
      NewTracks(g, i, j);
    }
  }

  /** Branches keep their places, a united one that of the grouped pixel, of the first if both are; a
      new one comes last. */
  lemma PairPlaces(g: Groups, corr: Corr, threshold: real, i: nat, j: nat)
    requires Tracked(g) && i != j
    ensures var h := Pair(g, corr, threshold, i, j);
      && (forall p :: p in g.owner && !(i in g.owner && p in BranchOf(g, j)) ==>
            p in h.owner && h.owner[p] == g.owner[p])
      && (i !in g.owner && j !in g.owner ==> h.owner[i] == |g.branches|)
  {
  }

  lemma TogetherStays(g: Groups, corr: Corr, threshold: real, i: nat, j: nat, p: nat, q: nat)
    requires Tracked(g) && i != j && Together(g, p, q)
    ensures Together(Pair(g, corr, threshold, i, j), p, q)
  {
  }

  class PixelGroups {
    var branches: seq<seq<nat>>
    var pixelToBranch: map<nat, nat>

    constructor ()
      ensures branches == [] && pixelToBranch == map[]
    {
      branches, pixelToBranch := [], map[];
    }

    ghost function Value(): Groups
      reads this
    {
      Groups(branches, pixelToBranch)
    }

    method MergeInto(a: nat, b: nat)
      requires a < |branches| && b < |branches| && a != b && Tracked(Value())
      modifies this
      ensures Value() == Merge(old(Value()), a, b)
    {
      branches := branches[a := branches[a] + branches[b]];
      ghost var before := pixelToBranch;
      for k := 0 to |branches[b]|
        invariant branches == old(branches)[a := old(branches[a]) + old(branches[b])]
        invariant pixelToBranch.Keys == before.Keys
        invariant forall p :: p in before ==> pixelToBranch[p] == if p in branches[b][..k] then a else before[p]
      {
        TakeNext(branches[b], k);
        assert branches[b][k] in old(branches[b]);
        pixelToBranch := pixelToBranch[branches[b][k] := a];
      }
      TakeAll(branches[b]);
      branches := branches[b := []];
      assert pixelToBranch == Merge(old(Value()), a, b).owner;
    }

    /** One turn of the loop over the strong pairs. */
    method AddPair(corr: Corr, threshold: real, i: nat, j: nat)
      requires Tracked(Value())
      modifies this
      ensures Value() == Pair(old(Value()), corr, threshold, i, j)
    {
      if i in pixelToBranch && j in pixelToBranch {
        if pixelToBranch[i] != pixelToBranch[j] {
          MergeInto(pixelToBranch[i], pixelToBranch[j]);
        }
      } else if i in pixelToBranch {
        var b := pixelToBranch[i];
        if Average(corr, branches[b], j) >= threshold {
          branches := branches[b := branches[b] + [j]];
          pixelToBranch := pixelToBranch[j := b];
        }
      } else if j in pixelToBranch {
        var b := pixelToBranch[j];
        if Average(corr, branches[b], i) >= threshold {
          branches := branches[b := branches[b] + [i]];
          pixelToBranch := pixelToBranch[i := b];
        }
      } else {
        var index := |branches|;
        branches := branches + [[i, j]];
        pixelToBranch := pixelToBranch[i := index];
        pixelToBranch := pixelToBranch[j := index];
      }
    }
  }

  // ----- The strong pairs, strongest first -----

  function RowPairs(corr: Corr, threshold: real, i: nat, j: nat): (s: seq<(nat, nat)>)
    ensures forall e :: e in s <==> e.0 == i && j <= e.1 < i && corr(i, e.1) >= threshold
    decreases i - j
  {
    if j >= i then []
    else (if corr(i, j) >= threshold then [(i, j)] else []) + RowPairs(corr, threshold, i, j + 1)
  }

  /** The positions of the lower triangle that reach the threshold, row by row. */
  function StrongPairs(corr: Corr, threshold: real, n: nat): (s: seq<(nat, nat)>)
    ensures forall e :: e in s <==> e.1 < e.0 < n && corr(e.0, e.1) >= threshold
  {
    if n == 0 then [] else StrongPairs(corr, threshold, n - 1) + RowPairs(corr, threshold, n - 1, 0)
  }

  /** The pair `e` is visited before `f`, or is as strong. */
  function AtLeastAsStrong(corr: Corr): ((nat, nat), (nat, nat)) -> bool {
    (e: (nat, nat), f: (nat, nat)) => corr(e.0, e.1) >= corr(f.0, f.1)
  }

  function Sorted(corr: Corr, s: seq<(nat, nat)>): (r: seq<(nat, nat)>)
    ensures forall f :: f in r <==> f in s
    ensures |r| == |s|
  {
    Sort(AtLeastAsStrong(corr), s)
  }

  ghost predicate Falling(corr: Corr, s: seq<(nat, nat)>) {
    forall i, j :: 0 <= i < j < |s| ==> corr(s[i].0, s[i].1) >= corr(s[j].0, s[j].1)
  }

  /** The pairs are visited in order of falling correlation. */
  lemma SortedFalls(corr: Corr, s: seq<(nat, nat)>)
    ensures Falling(corr, Sorted(corr, s))
  {
    SortOrdered(AtLeastAsStrong(corr), s);
    var r := Sorted(corr, s);
    forall i, j | 0 <= i < j < |r|
      ensures corr(r[i].0, r[i].1) >= corr(r[j].0, r[j].1)
    {
      assert AtLeastAsStrong(corr)(r[i], r[j]);
    }
  }

  function Correlating(corr: Corr, c: real): ((nat, nat)) -> bool {
    (e: (nat, nat)) => corr(e.0, e.1) == c
  }

  /** Equally strong pairs stay in the order of the matrix. */
  lemma TiesInOrder(corr: Corr, s: seq<(nat, nat)>, c: real)
    ensures Filter(Correlating(corr, c), Sorted(corr, s)) == Filter(Correlating(corr, c), s)
  {
    SortStable(AtLeastAsStrong(corr), Correlating(corr, c), s);
  }

  ghost predicate RowByRow(s: seq<(nat, nat)>) {
    forall a, b :: 0 <= a < b < |s| ==> s[a].0 < s[b].0 || (s[a].0 == s[b].0 && s[a].1 < s[b].1)
  }

  lemma {:induction false} RowPairsInOrder(corr: Corr, threshold: real, i: nat, j: nat)
    ensures RowByRow(RowPairs(corr, threshold, i, j))
    decreases i - j
  {
    if j < i {
      RowPairsInOrder(corr, threshold, i, j + 1);
    }
  }

  /** That order is row by row. */
  lemma {:induction false} StrongPairsInOrder(corr: Corr, threshold: real, n: nat)
    ensures RowByRow(StrongPairs(corr, threshold, n))
  {
    if n > 0 {
      StrongPairsInOrder(corr, threshold, n - 1);
      RowPairsInOrder(corr, threshold, n - 1, 0);
      var above, row := StrongPairs(corr, threshold, n - 1), RowPairs(corr, threshold, n - 1, 0);
      forall a, b | 0 <= a < |above| <= b < |above + row|
        ensures var both := above + row; both[a].0 < both[b].0
      {
        assert above[a] in above && row[b - |above|] in row;
      }
    }
  }

  function Fold(corr: Corr, threshold: real, n: nat, pairs: seq<(nat, nat)>): (g: Groups)
    requires forall e :: e in pairs ==> e.1 < e.0 < n && corr(e.0, e.1) >= threshold
    ensures Grouped(g, corr, threshold, n)
  {
    if pairs == [] then Groups([], map[])
    else
      var last := pairs[|pairs| - 1];
      var g := Fold(corr, threshold, n, pairs[..|pairs| - 1]);
      PairKeeps(g, corr, threshold, n, last.0, last.1);
      Pair(g, corr, threshold, last.0, last.1)
  }

  ghost predicate Covers(g: Groups, e: (nat, nat)) {
    e.0 in g.owner || e.1 in g.owner
  }

  lemma FoldStep(corr: Corr, threshold: real, n: nat, pairs: seq<(nat, nat)>, m: nat)
    requires forall e :: e in pairs ==> e.1 < e.0 < n && corr(e.0, e.1) >= threshold
    requires |pairs| == m + 1
    ensures var g := Fold(corr, threshold, n, pairs[..m]);
      Tracked(g) && Fold(corr, threshold, n, pairs) == Pair(g, corr, threshold, pairs[m].0, pairs[m].1)
  {
  }

  lemma {:induction false} FoldCoversLater(corr: Corr, threshold: real, n: nat, pairs: seq<(nat, nat)>, k: nat,
          e: (nat, nat))
    requires forall e :: e in pairs ==> e.1 < e.0 < n && corr(e.0, e.1) >= threshold
    requires k <= |pairs| && Covers(Fold(corr, threshold, n, pairs[..k]), e)
    ensures Covers(Fold(corr, threshold, n, pairs), e)
  {
    if k == |pairs| {
      assert pairs[..k] == pairs;
    } else {
      var m := |pairs| - 1;
      assert pairs[..m][..k] == pairs[..k];
      FoldCoversLater(corr, threshold, n, pairs[..m], k, e);
      FoldStep(corr, threshold, n, pairs, m);
      PairCovers(Fold(corr, threshold, n, pairs[..m]), corr, threshold, pairs[m].0, pairs[m].1);
    }
  }

  /** Every strong pair leaves at least one of its pixels in a branch. */
  lemma FoldCovers(corr: Corr, threshold: real, n: nat, pairs: seq<(nat, nat)>, k: nat)
    requires forall e :: e in pairs ==> e.1 < e.0 < n && corr(e.0, e.1) >= threshold
    requires k < |pairs|
    ensures Covers(Fold(corr, threshold, n, pairs), pairs[k])
  {
    assert pairs[..k + 1][..k] == pairs[..k];
    FoldStep(corr, threshold, n, pairs[..k + 1], k);
    PairCovers(Fold(corr, threshold, n, pairs[..k]), corr, threshold, pairs[k].0, pairs[k].1);
    FoldCoversLater(corr, threshold, n, pairs, k + 1, pairs[k]);
  }

  /** Pixels once together stay together. */
  lemma {:induction false} FoldKeeps(corr: Corr, threshold: real, n: nat, pairs: seq<(nat, nat)>, k: nat, p: nat,
          q: nat)
    requires forall e :: e in pairs ==> e.1 < e.0 < n && corr(e.0, e.1) >= threshold
    requires k <= |pairs| && Together(Fold(corr, threshold, n, pairs[..k]), p, q)
    ensures Together(Fold(corr, threshold, n, pairs), p, q)
  {
    if k == |pairs| {
      assert pairs[..k] == pairs;
    } else {
      var m := |pairs| - 1;
      assert pairs[..m][..k] == pairs[..k];
      FoldKeeps(corr, threshold, n, pairs[..m], k, p, q);
      FoldStep(corr, threshold, n, pairs, m);
      TogetherStays(Fold(corr, threshold, n, pairs[..m]), corr, threshold, pairs[m].0, pairs[m].1, p, q);
    }
  }

  /** A strong pair visited when both its pixels are grouped, or neither is, or the one alone is close to
      the branch of the other, has both in one branch of the result. */
  lemma FoldUnites(corr: Corr, threshold: real, n: nat, pairs: seq<(nat, nat)>, k: nat)
    requires forall e :: e in pairs ==> e.1 < e.0 < n && corr(e.0, e.1) >= threshold
    requires k < |pairs| && Unites(Fold(corr, threshold, n, pairs[..k]), corr, threshold, pairs[k].0, pairs[k].1)
    ensures Together(Fold(corr, threshold, n, pairs), pairs[k].0, pairs[k].1)
  {
    assert pairs[..k + 1][..k] == pairs[..k];
    FoldStep(corr, threshold, n, pairs[..k + 1], k);
    PairExactly(Fold(corr, threshold, n, pairs[..k]), corr, threshold, pairs[k].0, pairs[k].1);
    FoldKeeps(corr, threshold, n, pairs, k + 1, pairs[k].0, pairs[k].1);
  }

  // ----- The final order -----

  function NonEmpty(branches: seq<seq<nat>>): seq<seq<nat>> {
    if branches == [] then []
    else (if |branches[0]| > 0 then [branches[0]] else []) + NonEmpty(branches[1..])
  }

  lemma {:induction false} NonEmptyMembers(branches: seq<seq<nat>>)
    ensures forall s :: s in NonEmpty(branches) <==> s in branches && s != []
  {
    if branches != [] {
      NonEmptyMembers(branches[1..]);
      assert branches == [branches[0]] + branches[1..];
    }
  }

  function Concat(branches: seq<seq<nat>>): (s: seq<nat>)
    ensures forall p :: p in s <==> exists b :: 0 <= b < |branches| && p in branches[b]
  {
    if branches == [] then []
    else
      assert branches == [branches[0]] + branches[1..];
      branches[0] + Concat(branches[1..])
  }

  /** Empty branches are dropped and the others laid out one by one, in their order. */
  lemma {:induction false} LaidOutInOrder(s: seq<seq<nat>>, t: seq<seq<nat>>, b: seq<nat>)
    ensures NonEmpty(s + t) == NonEmpty(s) + NonEmpty(t) && NonEmpty([b]) == if b == [] then [] else [b]
    ensures Concat(s + t) == Concat(s) + Concat(t) && Concat([b]) == b
  {
    if s == [] {
      assert s + t == t;
    } else {
      assert (s + t)[1..] == s[1..] + t;
      LaidOutInOrder(s[1..], t, b);
    }
  }

  lemma {:induction false} ConcatNonEmpty(branches: seq<seq<nat>>)
    ensures Concat(NonEmpty(branches)) == Concat(branches)
  {
    if branches != [] {
      ConcatNonEmpty(branches[1..]);
      if |branches[0]| > 0 {
        assert NonEmpty(branches)[1..] == NonEmpty(branches[1..]);
      } else {
        assert NonEmpty(branches) == NonEmpty(branches[1..]);
        assert branches[0] == [];
      }
    }
  }

  ghost predicate Apart(branches: seq<seq<nat>>) {
    && AllDistinct(branches)
    && (forall a, b, p :: 0 <= a < b < |branches| && p in branches[a] ==> p !in branches[b])
  }

  lemma {:induction false} ConcatDistinct(branches: seq<seq<nat>>)
    requires Apart(branches)
    ensures Distinct(Concat(branches))
  {
    if branches != [] {
      ConcatDistinct(branches[1..]);
      forall p | p in branches[0]
        ensures p !in Concat(branches[1..])
      {
        assert forall b :: 0 <= b < |branches[1..]| ==> branches[1..][b] == branches[b + 1];
      }
      DistinctJoin(branches[0], Concat(branches[1..]));
    }
  }

  /** The pixels of `left`, in whatever order the set yields them. */
  method ListOf(left: set<nat>) returns (s: seq<nat>)
    ensures Distinct(s) && forall p: nat :: p in s <==> p in left
  {
    s := [];
    var rest := left;
    while rest != {}
      invariant rest <= left && Distinct(s)
      invariant forall p :: p in s <==> p in left && p !in rest
      decreases rest
    {
      var p :| p in rest;
      s, rest := s + [p], rest - {p};
    }
  }

  function AllIndices(n: nat): (s: set<nat>)
    ensures forall p: nat :: p in s <==> p < n
  {
    if n == 0 then {} else AllIndices(n - 1) + {n - 1}
  }

  method FoldPairs(corr: Corr, threshold: real, n: nat, pairs: seq<(nat, nat)>) returns (groups: PixelGroups)
    requires forall e :: e in pairs ==> e.1 < e.0 < n && corr(e.0, e.1) >= threshold
    ensures fresh(groups) && groups.Value() == Fold(corr, threshold, n, pairs)
  {
    groups := new PixelGroups();
    for k := 0 to |pairs|
      invariant groups.Value() == Fold(corr, threshold, n, pairs[..k])
    {
      assert pairs[..k + 1][..k] == pairs[..k];
      groups.AddPair(corr, threshold, pairs[k].0, pairs[k].1);
    }
    TakeAll(pairs);
  }

  /** `order` lists the grouped pixels branch by branch, then `remaining`. */
  lemma OrderIsPermutation(g: Groups, corr: Corr, threshold: real, n: nat, remaining: seq<nat>)
    requires Grouped(g, corr, threshold, n)
    requires Distinct(remaining) && forall p: nat :: p in remaining <==> p < n && p !in Concat(NonEmpty(g.branches))
    ensures Distinct(Concat(NonEmpty(g.branches)) + remaining)
    ensures forall p: nat :: p in Concat(NonEmpty(g.branches)) + remaining <==> p < n
  {
    ConcatNonEmpty(g.branches);
    forall a: nat, b: nat, p: nat | a < b < |g.branches| && p in g.branches[a]
      ensures p !in g.branches[b]
    {
    }
    ConcatDistinct(g.branches);
    var grouped := Concat(NonEmpty(g.branches));
    forall p: nat | p in grouped
      ensures p < n
    {
      var b: nat :| b < |g.branches| && p in g.branches[b];
    }
    DistinctJoin(grouped, remaining);
  }

  lemma {:induction false} NonEmptyApart(branches: seq<seq<nat>>)
    requires Apart(branches)
    ensures Apart(NonEmpty(branches))
  {
    if branches != [] {
      NonEmptyApart(branches[1..]);
      NonEmptyMembers(branches[1..]);
      var rest := NonEmpty(branches[1..]);
      forall b, p | 0 <= b < |rest| && p in branches[0]
        ensures p !in rest[b]
      {
        assert rest[b] in rest;
        var c :| 0 <= c < |branches[1..]| && branches[1..][c] == rest[b];
        assert branches[c + 1] == rest[b];
      }
    }
  }

  /** The branches one after another, then the pixels of no branch. */
  method LayOut(ghost g: Groups, ghost corr: Corr, ghost threshold: real, n: nat, branches: seq<seq<nat>>)
    returns (order: seq<nat>)
    requires Grouped(g, corr, threshold, n) && branches == NonEmpty(g.branches)
    ensures Concat(branches) <= order
    ensures Distinct(order) && forall p: nat :: p in order <==> p < n
  {
    var grouped := Concat(branches);
    var left := set p: nat | p in AllIndices(n) && p !in grouped;
    var remaining := ListOf(left);
    OrderIsPermutation(g, corr, threshold, n, remaining);
    order := grouped + remaining;
  }

  lemma GroupedApart(g: Groups, corr: Corr, threshold: real, n: nat)
    requires Grouped(g, corr, threshold, n)
    ensures Apart(NonEmpty(g.branches))
    ensures forall s :: s in NonEmpty(g.branches) ==> s != [] && Connected(corr, threshold, s)
  {
    NonEmptyApart(g.branches);
    NonEmptyMembers(g.branches);
    forall s | s in g.branches
      ensures Connected(corr, threshold, s)
    {
      var b :| 0 <= b < |g.branches| && g.branches[b] == s;
    }
  }

  /** Group the `n` pixels of one object and lay them out branch by branch. */
  method GroupPixels(corr: Corr, threshold: real, n: nat) returns (branches: seq<seq<nat>>, order: seq<nat>)
    ensures branches == NonEmpty(Fold(corr, threshold, n, Sorted(corr, StrongPairs(corr, threshold, n))).branches)
    ensures Apart(branches) && forall s :: s in branches ==> s != [] && Connected(corr, threshold, s)
    ensures Concat(branches) <= order
    ensures Distinct(order) && forall p: nat :: p in order <==> p < n
  {
    var groups := FoldPairs(corr, threshold, n, Sorted(corr, StrongPairs(corr, threshold, n)));
    branches := NonEmpty(groups.branches);
    GroupedApart(groups.Value(), corr, threshold, n);
    order := LayOut(groups.Value(), corr, threshold, n, branches);
  }
}
