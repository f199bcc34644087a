/** Dark-count references (dark_reference.py). Counts are 16-bit, so a median or a mean of at most
    two repeats is a multiple of one half and exact in the float types used; references are
    represented by twice their value. */
module DarkReference {
  import opened Codec
  import opened Options
  import opened Sorting

  // ----- Reducing the repeats of one pixel and step -----

  function AtMost(): (nat, nat) -> bool {
    (a: nat, b: nat) => a <= b
  }

  function InOrder(s: seq<nat>): (r: seq<nat>)
    ensures |r| == |s|
  {
    Sort(AtMost(), s)
  }

  ghost predicate Sorted(s: seq<nat>) {
    forall i, j :: 0 <= i < j < |s| ==> s[i] <= s[j]
  }

  lemma InOrderSorted(s: seq<nat>)
    ensures Sorted(InOrder(s))
  {
    SortOrdered(AtMost(), s);
    var r := InOrder(s);
    forall i, j | 0 <= i < j < |r|
      ensures r[i] <= r[j]
    {
      assert AtMost()(r[i], r[j]);
    }
  }

  /** Twice the median: twice the middle value, or the sum of the two middle values. */
  function Median2(s: seq<nat>): nat
    requires s != []
  {
    var t, n := InOrder(s), |s|;
    if n % 2 == 1 then 2 * t[n / 2] else t[n / 2 - 1] + t[n / 2]
  }

  /** How many values lie in the range. */
  function Count(s: seq<nat>, lo: nat, hi: nat): (n: nat)
    ensures n <= |s|
  {
    if s == [] then 0 else (if lo <= s[0] <= hi then 1 else 0) + Count(s[1..], lo, hi)
  }

  lemma {:induction false} CountSplit(s: seq<nat>, k: nat, lo: nat, hi: nat)
    requires k <= |s|
    ensures Count(s, lo, hi) == Count(s[..k], lo, hi) + Count(s[k..], lo, hi)
  {
    if k == 0 {
      assert s[0..] == s;
    } else {
      CountSplit(s[1..], k - 1, lo, hi);
      assert s[..k][1..] == s[1..][..k - 1] && s[1..][k - 1..] == s[k..];
    }
  }

  lemma {:induction false} CountNone(s: seq<nat>, lo: nat, hi: nat)
    requires forall i :: 0 <= i < |s| ==> s[i] < lo || hi < s[i]
    ensures Count(s, lo, hi) == 0
  {
    if s != [] {
      CountNone(s[1..], lo, hi);
    }
  }

  lemma {:induction false} CountInsert(x: nat, s: seq<nat>, lo: nat, hi: nat)
    ensures Count(Insert(AtMost(), x, s), lo, hi) == Count(s, lo, hi) + if lo <= x <= hi then 1 else 0
  {
    if s != [] && x > s[0] {
      CountInsert(x, s[1..], lo, hi);
      assert Insert(AtMost(), x, s)[1..] == Insert(AtMost(), x, s[1..]);
    } else {
      assert Insert(AtMost(), x, s)[1..] == s;
    }
  }

  /** Sorting keeps how often every value, and every range of values, occurs. */
  lemma {:induction false} CountSort(s: seq<nat>, lo: nat, hi: nat)
    ensures Count(InOrder(s), lo, hi) == Count(s, lo, hi)
  {
    if s != [] {
      CountSort(s[1..], lo, hi);
      CountInsert(s[0], InOrder(s[1..]), lo, hi);
    }
  }

  /** In a sorted list, position `k` is in the range when too few values can be outside on
      either side of it. */
  lemma MiddleInRange(t: seq<nat>, k: nat, lo: nat, hi: nat)
    requires Sorted(t) && k < |t|
    requires Count(t, lo, hi) > |t| - k - 1 && Count(t, lo, hi) > k
    ensures lo <= t[k] <= hi
  {
    if t[k] < lo {
      CountSplit(t, k + 1, lo, hi);
      CountNone(t[..k + 1], lo, hi);
    }
    if t[k] > hi {
      CountSplit(t, k, lo, hi);
      CountNone(t[k..], lo, hi);
    }
  }

  /** A strict majority of the repeats in a range puts the median in it, whatever the others. */
  lemma MajorityBoundsMedian(s: seq<nat>, lo: nat, hi: nat)
    requires s != [] && 2 * Count(s, lo, hi) > |s|
    ensures 2 * lo <= Median2(s) <= 2 * hi
  {
    var t, n := InOrder(s), |s|;
    InOrderSorted(s);
    CountSort(s, lo, hi);
    MiddleInRange(t, n / 2, lo, hi);
    if n % 2 == 0 {
      MiddleInRange(t, n / 2 - 1, lo, hi);
    }
  }

  /** A bare half is not enough: two of four repeats at 5 do not keep the median there. */
  lemma HalfDoesNotBound()
    ensures Count([5, 5, 100, 100], 5, 5) == 2 && Median2([5, 5, 100, 100]) == 105
  {
    assert InOrder([100]) == [100];
    assert InOrder([100, 100]) == [100, 100];
    assert InOrder([5, 100, 100]) == [5, 100, 100];
    assert InOrder([5, 5, 100, 100]) == [5, 5, 100, 100];
    assert Count([100, 100], 5, 5) == 0;
  }

  const MIN_MEDIAN_REPEATS := 3

  /** Twice the reference of one pixel and step: the median from three repeats on, else the mean. */
  function Reduce2(repeats: seq<nat>): nat
    requires repeats != []
  {
    if |repeats| >= MIN_MEDIAN_REPEATS then Median2(repeats)
    else if |repeats| == 1 then 2 * repeats[0]
    else repeats[0] + repeats[1]
  }

  lemma {:induction false} CountAll(s: seq<nat>, lo: nat, hi: nat)
    requires forall i :: 0 <= i < |s| ==> lo <= s[i] <= hi
    ensures Count(s, lo, hi) == |s|
  {
    if s != [] {
      CountAll(s[1..], lo, hi);
    }
  }

  /** By median or by mean, the reference lies within the range of its repeats. */
  lemma ReduceWithin(repeats: seq<nat>, lo: nat, hi: nat)
    requires repeats != [] && forall i :: 0 <= i < |repeats| ==> lo <= repeats[i] <= hi
    ensures 2 * lo <= Reduce2(repeats) <= 2 * hi
  {
    CountAll(repeats, lo, hi);
    MajorityBoundsMedian(repeats, lo, hi);
  }

  lemma {:induction false} CountsWithin(s: seq<nat>, a: nat, b: nat)
    requires a < b
    ensures Count(s, a, a) + Count(s, b, b) <= Count(s, a, b)
  {
    if s != [] {
      CountsWithin(s[1..], a, b);
    }
  }

  /** A sorted list of which no more than the first `k` values are below `b`. */
  lemma LaterIsUpper(t: seq<nat>, k: nat, a: nat, b: nat)
    requires Sorted(t) && a < b && k < |t| && Count(t, a, a) <= k && Count(t, a, a) + Count(t, b, b) == |t|
    ensures t[k] >= b
  {
    if t[k] < b {
      CountSplit(t, k + 1, b, b);
      CountNone(t[..k + 1], b, b);
    }
  }

  lemma EarlierIsLower(t: seq<nat>, k: nat, a: nat, b: nat)
    requires Sorted(t) && a < b && k < Count(t, a, a) && Count(t, a, a) + Count(t, b, b) == |t|
    ensures k < |t| && t[k] <= a
  {
    if t[k] > a {
      CountSplit(t, k, a, a);
      CountNone(t[k..], a, a);
    }
  }

  lemma {:induction false} AllWithin(s: seq<nat>, lo: nat, hi: nat, i: nat)
    requires Count(s, lo, hi) == |s| && i < |s|
    ensures lo <= s[i] <= hi
  {
    if i > 0 {
      AllWithin(s[1..], lo, hi, i - 1);
    }
  }

  /** Half the repeats at `a` and half at `b`, two repeats or more: the reference lies in the middle. */
  lemma HalvesMeet(repeats: seq<nat>, a: nat, b: nat)
    requires repeats != [] && a < b && 2 * Count(repeats, a, a) == 2 * Count(repeats, b, b) == |repeats|
    ensures Reduce2(repeats) == a + b
  {
    CountsWithin(repeats, a, b);
    if |repeats| >= MIN_MEDIAN_REPEATS {
      MedianOfHalves(repeats, a, b);
    } else {
      var x, y := repeats[0], repeats[1];
      assert Count(repeats[1..], a, a) == if y == a then 1 else 0;
      assert Count(repeats[1..], b, b) == if y == b then 1 else 0;
    }
  }

  lemma MedianOfHalves(s: seq<nat>, a: nat, b: nat)
    requires s != [] && a < b && 2 * Count(s, a, a) == 2 * Count(s, b, b) == |s|
    ensures Median2(s) == a + b
  {
    var t, n := InOrder(s), |s|;
    InOrderSorted(s);
    CountSort(s, a, a);
    CountSort(s, b, b);
    CountsWithin(t, a, b);
    EarlierIsLower(t, n / 2 - 1, a, b);
    LaterIsUpper(t, n / 2, a, b);
    AllWithin(t, a, b, n / 2 - 1);
    AllWithin(t, a, b, n / 2);
  }

  // ----- Correcting one count -----

  /** Half of `x` rounded to an integer, halves to even. */
  function Rint2(x: nat): nat {
    if x % 2 == 0 then x / 2 else if x / 2 % 2 == 0 then x / 2 else x / 2 + 1
  }

  /** Subtract, clip at zero, round. */
  function Corrected(count: nat, reference2: nat): nat {
    if 2 * count <= reference2 then 0 else Rint2(2 * count - reference2)
  }

  /** The result is within one half of the exact clipped difference, the even neighbour at a tie,
      and never above the raw count. */
  lemma CorrectedIsNearest(count: nat, reference2: nat)
    ensures var exact2 := if 2 * count <= reference2 then 0 else 2 * count - reference2;
      var c := Corrected(count, reference2);
      && exact2 - 1 <= 2 * c <= exact2 + 1
      && (exact2 % 2 == 1 ==> c % 2 == 0)
      && c <= count
  {
  }

  lemma CorrectedMonotone(a: nat, b: nat, r: nat, q: nat)
    requires a <= b && r <= q
    ensures Corrected(a, q) <= Corrected(b, q) && Corrected(b, q) <= Corrected(b, r)
  {
  }

  /** With a strict majority of at least three repeats at `d`, a count of `d + s` corrects to `s`. */
  lemma MajorityCorrectsExactly(repeats: seq<nat>, d: nat, s: nat)
    requires |repeats| >= 3 && 2 * Count(repeats, d, d) > |repeats|
    ensures Corrected(d + s, Reduce2(repeats)) == s
  {
    MajorityBoundsMedian(repeats, d, d);
  }

  // ----- Stacks -----

  /** Frames of one shape, each given row by row. */
  datatype Stack = Stack(rows: nat, cols: nat, frames: seq<seq<nat>>) {
    ghost predicate Valid() {
      forall f :: f in frames ==> |f| == rows * cols
    }
  }

  /** Twice the per-iteration reference, one map per gate step. */
  datatype Reference = Reference(rows: nat, cols: nat, steps: seq<seq<nat>>) {
    ghost predicate Valid() {
      forall f :: f in steps ==> |f| == rows * cols
    }
  }

  /** The repeats of pixel `q` at step `g`: frame `i * gateSteps + g` belongs to iteration `i`. */
  function Repeats(st: Stack, iterations: nat, gateSteps: nat, g: nat, q: nat): (r: seq<nat>)
    requires st.Valid() && |st.frames| == iterations * gateSteps && g < gateSteps && q < st.rows * st.cols
    ensures |r| == iterations
  {
    seq(iterations, i requires 0 <= i < iterations =>
      IndexInside(i, g, iterations, gateSteps); st.frames[i * gateSteps + g][q])
  }

  /** None where the frame count raises. The routes demand at least one iteration. */
  function BuildReference(st: Stack, iterations: nat, gateSteps: nat): (r: Option<Reference>)
    requires st.Valid() && iterations > 0
    ensures r.Some? <==> |st.frames| == iterations * gateSteps
    ensures r.Some? ==>
      r.value.Valid() && |r.value.steps| == gateSteps && r.value.rows == st.rows && r.value.cols == st.cols
  {
    if |st.frames| != iterations * gateSteps then None
    else
      var steps := seq(gateSteps, g requires 0 <= g < gateSteps =>
        seq(st.rows * st.cols, q requires 0 <= q < st.rows * st.cols =>
          Reduce2(Repeats(st, iterations, gateSteps, g, q))));
      assert forall f :: f in steps ==> |f| == st.rows * st.cols;
      Some(Reference(st.rows, st.cols, steps))
  }

  function CorrectedFrame(frame: seq<nat>, reference: seq<nat>): (f: seq<nat>)
    requires |frame| == |reference|
    ensures |f| == |frame|
  {
    seq(|frame|, q requires 0 <= q < |frame| => Corrected(frame[q], reference[q]))
  }

  ghost predicate Fits(st: Stack, r: Reference) {
    && |r.steps| > 0 && |st.frames| % |r.steps| == 0
    && st.rows == r.rows && st.cols == r.cols
  }

  /** None where a shape check raises. */
  function ApplyDarkCorrection(st: Stack, r: Reference): (out: Option<Stack>)
    requires st.Valid() && r.Valid()
    ensures out.Some? <==> Fits(st, r)
    ensures out.Some? ==> out.value.Valid() && |out.value.frames| == |st.frames|
  {
    if |r.steps| == 0 || |st.frames| % |r.steps| != 0 || st.rows != r.rows || st.cols != r.cols then None
    else
      var frames := seq(|st.frames|, m requires 0 <= m < |st.frames| =>
        CorrectedFrame(st.frames[m], r.steps[m % |r.steps|]));
      assert forall f :: f in frames ==> |f| == st.rows * st.cols;
      Some(Stack(st.rows, st.cols, frames))
  }

  lemma ReferenceAt(st: Stack, iterations: nat, gateSteps: nat, g: nat, q: nat)
    requires st.Valid() && iterations > 0 && |st.frames| == iterations * gateSteps && g < gateSteps
      && q < st.rows * st.cols
    ensures var r := BuildReference(st, iterations, gateSteps).value;
      |r.steps[g]| == st.rows * st.cols && r.steps[g][q] == Reduce2(Repeats(st, iterations, gateSteps, g, q))
  {
  }

  lemma CorrectedAt(st: Stack, r: Reference, m: nat, q: nat)
    requires st.Valid() && r.Valid() && Fits(st, r) && m < |st.frames| && q < st.rows * st.cols
    ensures |r.steps[m % |r.steps|]| == |st.frames[m]| == |ApplyDarkCorrection(st, r).value.frames[m]|
      == st.rows * st.cols
    ensures ApplyDarkCorrection(st, r).value.frames[m][q] == Corrected(st.frames[m][q], r.steps[m % |r.steps|][q])
  {
  }

  lemma CorrectedFrameAt(st: Stack, r: Reference, m: nat)
    requires st.Valid() && r.Valid() && Fits(st, r) && m < |st.frames|
    ensures |r.steps[m % |r.steps|]| == |st.frames[m]|
    ensures ApplyDarkCorrection(st, r).value.frames[m] == CorrectedFrame(st.frames[m], r.steps[m % |r.steps|])
  {
  }

  lemma ModAfterWholeSweeps(a: nat, m: nat, g: nat)
    requires g > 0 && a % g == 0
    ensures (a + m) % g == m % g
  {
    assert a + m == (a / g + m / g) * g + m % g;
    DivModUnique(a + m, g, a / g + m / g, m % g);
  }

  function Joined(a: Stack, b: Stack): Stack {
    Stack(a.rows, a.cols, a.frames + b.frames)
  }

  lemma JoinedFits(a: Stack, b: Stack, r: Reference)
    requires a.Valid() && b.Valid() && Fits(a, r) && Fits(b, r)
    ensures Joined(a, b).Valid() && Fits(Joined(a, b), r)
  {
    ModAfterWholeSweeps(|a.frames|, |b.frames|, |r.steps|);
  }

  /** Correction acts sweep by sweep: correcting whole sweeps one after another gives the
      corrections one after another. */
  lemma CorrectionSweepBySweep(a: Stack, b: Stack, r: Reference)
    requires a.Valid() && b.Valid() && r.Valid() && Fits(a, r) && Fits(b, r)
    ensures Joined(a, b).Valid() && Fits(Joined(a, b), r)
    ensures ApplyDarkCorrection(Joined(a, b), r).value
         == Joined(ApplyDarkCorrection(a, r).value, ApplyDarkCorrection(b, r).value)
  {
    JoinedFits(a, b, r);
    var n, g := |a.frames|, |r.steps|;
    var whole := ApplyDarkCorrection(Joined(a, b), r).value.frames;
    var first, second := ApplyDarkCorrection(a, r).value.frames, ApplyDarkCorrection(b, r).value.frames;
    forall m | 0 <= m < |whole|
      ensures whole[m] == (first + second)[m]
    {
      CorrectedFrameAt(Joined(a, b), r, m);
      if m < n {
        CorrectedFrameAt(a, r, m);
      } else {
        CorrectedFrameAt(b, r, m - n);
        ModAfterWholeSweeps(n, m - n, g);
      }
    }
  }

  /** Every iteration shows the same sweep. */
  ghost predicate SameSweeps(st: Stack, iterations: nat, sweep: seq<seq<nat>>) {
    && st.Valid() && sweep != [] && iterations > 0 && |st.frames| == iterations * |sweep|
    && forall m :: 0 <= m < |st.frames| ==> st.frames[m] == sweep[m % |sweep|]
  }

  lemma RepeatsOfSweep(st: Stack, iterations: nat, sweep: seq<seq<nat>>, g: nat, q: nat)
    requires SameSweeps(st, iterations, sweep) && g < |sweep| && q < st.rows * st.cols
    ensures q < |sweep[g]|
    ensures forall i :: 0 <= i < iterations ==> Repeats(st, iterations, |sweep|, g, q)[i] == sweep[g][q]
  {
    IndexInside(0, g, iterations, |sweep|);
    assert st.frames[g] == sweep[g];
    forall i | 0 <= i < iterations
      ensures Repeats(st, iterations, |sweep|, g, q)[i] == sweep[g][q]
    {
      IndexInside(i, g, iterations, |sweep|);
    }
  }

  lemma ReferenceOfSweeps(st: Stack, iterations: nat, sweep: seq<seq<nat>>, g: nat, q: nat)
    requires SameSweeps(st, iterations, sweep) && g < |sweep| && q < st.rows * st.cols
    ensures var r := BuildReference(st, iterations, |sweep|).value;
      |r.steps[g]| == st.rows * st.cols && q < |sweep[g]| && r.steps[g][q] == 2 * sweep[g][q]
  {
    RepeatsOfSweep(st, iterations, sweep, g, q);
    ReferenceAt(st, iterations, |sweep|, g, q);
    ReduceWithin(Repeats(st, iterations, |sweep|, g, q), sweep[g][q], sweep[g][q]);
  }

  lemma CorrectedBy(signal: Stack, r: Reference, g: nat, m: nat, q: nat, raw: nat, s: nat)
    requires signal.Valid() && r.Valid() && Fits(signal, r)
    requires m < |signal.frames| && m % |r.steps| == g && q < signal.rows * signal.cols && signal.frames[m][q] == raw
    requires q < |r.steps[g]| && Corrected(raw, r.steps[g][q]) == s
    ensures var out := ApplyDarkCorrection(signal, r);
      out.Some? && |out.value.frames[m]| > q && out.value.frames[m][q] == s
  {
    CorrectedAt(signal, r, m, q);
  }

  /** Then the reference is that sweep, and correcting the stack by it leaves nothing. */
  lemma OwnReferenceRemovesAll(st: Stack, iterations: nat, sweep: seq<seq<nat>>, m: nat, q: nat)
    requires SameSweeps(st, iterations, sweep) && m < |st.frames| && q < st.rows * st.cols
    ensures var out := ApplyDarkCorrection(st, BuildReference(st, iterations, |sweep|).value);
      out.Some? && |out.value.frames[m]| > q && out.value.frames[m][q] == 0
  {
    var r, g := BuildReference(st, iterations, |sweep|).value, m % |sweep|;
    DivModUnique(iterations * |sweep|, |sweep|, iterations, 0);
    assert Fits(st, r);
    ReferenceOfSweeps(st, iterations, sweep, g, q);
    CorrectedBy(st, r, g, m, q, st.frames[m][q], 0);
  }

  /** Where a strict majority of at least three dark repeats of pixel `q` at step `g` lies in a range,
      so does the reference built from them. */
  lemma MajorityBoundsReference(dark: Stack, iterations: nat, gateSteps: nat, g: nat, q: nat, lo: nat, hi: nat)
    requires dark.Valid() && iterations >= 3
    requires |dark.frames| == iterations * gateSteps && g < gateSteps && q < dark.rows * dark.cols
    requires 2 * Count(Repeats(dark, iterations, gateSteps, g, q), lo, hi) > iterations
    ensures var r := BuildReference(dark, iterations, gateSteps).value;
      |r.steps[g]| == dark.rows * dark.cols && 2 * lo <= r.steps[g][q] <= 2 * hi
  {
    ReferenceAt(dark, iterations, gateSteps, g, q);
    MajorityBoundsMedian(Repeats(dark, iterations, gateSteps, g, q), lo, hi);
  }

  /** Where a strict majority of at least three dark repeats of pixel `q` at step `g` is `d`, the
      reference built from them removes exactly `d`. */
  lemma MajorityReference(dark: Stack, iterations: nat, gateSteps: nat, g: nat, q: nat, d: nat, s: nat)
    requires dark.Valid() && iterations >= 3
    requires |dark.frames| == iterations * gateSteps && g < gateSteps && q < dark.rows * dark.cols
    requires 2 * Count(Repeats(dark, iterations, gateSteps, g, q), d, d) > iterations
    ensures var r := BuildReference(dark, iterations, gateSteps).value;
      |r.steps[g]| == dark.rows * dark.cols && Corrected(d + s, r.steps[g][q]) == s
  {
    ReferenceAt(dark, iterations, gateSteps, g, q);
    MajorityCorrectsExactly(Repeats(dark, iterations, gateSteps, g, q), d, s);
  }

  /** Where a strict majority of at least three dark repeats of pixel `q` and step `g` is `d`, a
      signal of `d + s` at that pixel and step of any sweep corrects to exactly `s`. */
  lemma MajorityRemovesDark(dark: Stack, iterations: nat, gateSteps: nat, signal: Stack, g: nat, m: nat, q: nat,
          d: nat, s: nat)
    requires dark.Valid() && iterations >= 3
    requires |dark.frames| == iterations * gateSteps && g < gateSteps && q < dark.rows * dark.cols
    requires 2 * Count(Repeats(dark, iterations, gateSteps, g, q), d, d) > iterations
    requires signal.Valid() && signal.rows == dark.rows && signal.cols == dark.cols && |signal.frames| % gateSteps == 0
    requires m < |signal.frames| && m % gateSteps == g && signal.frames[m][q] == d + s
    ensures var out := ApplyDarkCorrection(signal, BuildReference(dark, iterations, gateSteps).value);
      out.Some? && |out.value.frames[m]| > q && out.value.frames[m][q] == s
  {
    var r := BuildReference(dark, iterations, gateSteps).value;
    assert Fits(signal, r);
    MajorityReference(dark, iterations, gateSteps, g, q, d, s);
    CorrectedBy(signal, r, g, m, q, d + s, s);
  }
}
