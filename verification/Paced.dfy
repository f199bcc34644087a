/** A gated sweep as one single-step request per gate offset, against the one continuous request
    it stands in for (acquisition.py, `_paced_gated_io`, `_gated_op`). */
module Paced {
  import opened Acquisition
  import opened Codec
  import opened Guard

  datatype GatedParams = GatedParams(fmt: Format, iterations: nat, gateSteps: nat, stepSize: real,
                                     gateOffset: int, reverse: bool, arbitrary: seq<real>) {
    function EffectiveSteps(): nat {
      if arbitrary != [] then |arbitrary| else gateSteps
    }
  }

  /** The frame captured in an iteration at a gate offset. */
  type View = (nat, real) -> Frame

  function Ascending(gateOffset: int, stepSize: real, n: nat): (s: seq<real>)
    ensures |s| == n && forall i :: 0 <= i < n ==> s[i] == gateOffset as real + i as real * stepSize
  {
    seq(n, i requires 0 <= i < n => gateOffset as real + i as real * stepSize)
  }

  function Reversed(s: seq<real>): (r: seq<real>)
    ensures |r| == |s| && forall i :: 0 <= i < |s| ==> r[i] == s[|s| - 1 - i]
  {
    seq(|s|, i requires 0 <= i < |s| => s[|s| - 1 - i])
  }

  /** The gate offsets in the order in which they are visited. */
  function Offsets(p: GatedParams): (s: seq<real>)
    ensures |s| == p.EffectiveSteps()
  {
    if p.arbitrary != [] then p.arbitrary
    else
      var s := Ascending(p.gateOffset, p.stepSize, p.gateSteps);
      if p.reverse then Reversed(s) else s
  }

  /** The gate position of step `i`: from the gate offset up by the step size, or from the last such
      position down in reverse; an arbitrary position where those are given. */
  function GatePosition(p: GatedParams, i: nat): real
    requires i < p.EffectiveSteps()
  {
    if p.arbitrary != [] then p.arbitrary[i]
    else p.gateOffset as real + (if p.reverse then p.gateSteps - 1 - i else i) as real * p.stepSize
  }

  lemma OffsetsAt(p: GatedParams, i: nat)
    requires i < p.EffectiveSteps()
    ensures Offsets(p)[i] == GatePosition(p, i)
  {
    if p.arbitrary == [] {
      var s := Ascending(p.gateOffset, p.stepSize, p.gateSteps);
      assert s[if p.reverse then p.gateSteps - 1 - i else i] == GatePosition(p, i);
    }
  }

  /** Rounding to the nearest integer, halves to even. */
  function Round(x: real): int {
    var d := x - x.Floor as real;
    if d < 0.5 then x.Floor else if d > 0.5 then x.Floor + 1
    else if x.Floor % 2 == 0 then x.Floor else x.Floor + 1
  }

  predicate Integral(x: real) {
    x.Floor as real == x
  }

  lemma RoundNearest(x: real, z: int)
    ensures Round(x) == z <==> (-0.5 < x - z as real < 0.5 || (x - z as real == 0.5 && z % 2 == 0)
                                || (z as real - x == 0.5 && z % 2 == 0))
  {
  }

  lemma RoundExact(x: real)
    ensures Round(x) as real == x <==> Integral(x)
  {
  }

  // ----- The two ways of asking -----

  /** One sweep offset seen in every iteration, in order. */
  function StepFrames(view: View, offset: real, iterations: nat): (s: seq<Frame>)
    ensures |s| == iterations && forall i :: 0 <= i < iterations ==> s[i] == view(i, offset)
  {
    seq(iterations, i requires 0 <= i < iterations => view(i, offset))
  }

  function Row(f: (nat, nat) -> Frame, i: nat, k: nat): (r: seq<Frame>)
    ensures |r| == k && forall s :: 0 <= s < k ==> r[s] == f(i, s)
  {
    seq(k, s requires 0 <= s < k => f(i, s))
  }

  /** `n` rows of `k` frames, row after row. */
  function Grid(f: (nat, nat) -> Frame, n: nat, k: nat): seq<Frame> {
    if n == 0 then [] else Grid(f, n - 1, k) + Row(f, n - 1, k)
  }

  lemma {:induction false} GridLength(f: (nat, nat) -> Frame, n: nat, k: nat)
    ensures |Grid(f, n, k)| == n * k
  {
    if n > 0 {
      GridLength(f, n - 1, k);
      MulStep(n - 1, k);
    }
  }

  /** Frame `i * k + s` stands in row `i`, column `s`. */
  lemma {:induction false} GridAt(f: (nat, nat) -> Frame, n: nat, k: nat, i: nat, s: nat)
    requires i < n && s < k
    ensures i * k + s < |Grid(f, n, k)| && Grid(f, n, k)[i * k + s] == f(i, s)
  {
    GridLength(f, n - 1, k);
    if i < n - 1 {
      GridAt(f, n - 1, k, i, s);
    }
  }

  lemma {:induction false} GridSame(f: (nat, nat) -> Frame, g: (nat, nat) -> Frame, n: nat, k: nat)
    requires forall i, s :: 0 <= i < n && 0 <= s < k ==> f(i, s) == g(i, s)
    ensures Grid(f, n, k) == Grid(g, n, k)
  {
    if n > 0 {
      GridSame(f, g, n - 1, k);
    }
  }

  lemma {:induction false} GridMembers(f: (nat, nat) -> Frame, n: nat, k: nat, x: Frame)
    requires x in Grid(f, n, k)
    ensures exists i, s :: 0 <= i < n && 0 <= s < k && x == f(i, s)
  {
    if x in Grid(f, n - 1, k) {
      GridMembers(f, n - 1, k, x);
    } else {
      var s :| 0 <= s < k && Row(f, n - 1, k)[s] == x;
      assert x == f(n - 1, s);
    }
  }

  /** What the vendor captures in iteration `i` at the `s`-th of the offsets. */
  function Captured(view: View, offsets: seq<real>): (nat, nat) -> Frame {
    (i: nat, s: nat) => view(i, if s < |offsets| then offsets[s] else 0.0)
  }

  /** Whole sweeps one after another. */
  function SweepFrames(view: View, offsets: seq<real>, iterations: nat): seq<Frame> {
    Grid(Captured(view, offsets), iterations, |offsets|)
  }

  function SeenStack(frames: seq<Frame>, fmt: Format): seq<Frame> {
    SeenAll(frames, fmt.bitDepth, fmt.pileup, fmt.rows)
  }

  ghost predicate ViewFits(view: View, fmt: Format) {
    forall i: nat, o: real ::
      view(i, o).rows == fmt.rows && view(i, o).cols == fmt.width && |view(i, o).px| == fmt.rows * fmt.width
  }

  ghost predicate Packable(fmt: Format) {
    fmt.bitDepth == 1 ==> fmt.rows * fmt.rows % 8 == 0
  }

  /** A request for these frames: the reply has the expected length and decodes to what is seen. */
  method Request(frames: seq<Frame>, fmt: Format) returns (stack: seq<Frame>, wire: nat)
    requires Packable(fmt) && SameShape(frames, fmt.rows, fmt.width)
    ensures wire == fmt.Size(|frames|, fmt.pileup) && stack == SeenStack(frames, fmt)
  {
    StackRoundTrip(frames, fmt.bitDepth, fmt.pileup, fmt.rows, fmt.width);
    var data := EncodeAll(frames, fmt.bitDepth, fmt.pileup, fmt.rows);
    var decoded := DecodeIntensity(data, fmt.bitDepth, fmt.rows, fmt.width, |frames|, fmt.pileup);
    stack, wire := decoded.value, |data|;
  }

  /** The continuous command: the vendor visits the offsets itself, sweep after sweep. Arbitrary
      offsets are sent in a command of their own before it. */
  method ContinuousGatedIo(p: GatedParams, view: View) returns (stack: seq<Frame>, wire: nat, ghost log: seq<Cmd>)
    requires Packable(p.fmt) && ViewFits(view, p.fmt)
    ensures stack == SeenStack(SweepFrames(view, Offsets(p), p.iterations), p.fmt)
    ensures wire == p.fmt.Size(p.iterations * p.EffectiveSteps(), p.fmt.pileup)
    ensures log == GatedScript(p.iterations * p.EffectiveSteps(), p.arbitrary != [], p.fmt.pileup)
    ensures p.arbitrary != [] ==> log == [SetPileup(p.fmt.pileup), Other, Guard.Acquire(p.iterations * |p.arbitrary|)]
  {
    log := [SetPileup(p.fmt.pileup)];
    if p.arbitrary != [] {
      log := log + [Other];
    }
    var frames := SweepFrames(view, Offsets(p), p.iterations);
    GridLength(Captured(view, Offsets(p)), p.iterations, p.EffectiveSteps());
    forall f | f in frames
      ensures f.Valid() && f.rows == p.fmt.rows && f.cols == p.fmt.width
    {
      GridMembers(Captured(view, Offsets(p)), p.iterations, p.EffectiveSteps(), f);
    }
    stack, wire := Request(frames, p.fmt);
    log := log + [Acquire(|frames|)];
  }

  /** Steps completed, and whether a stop at a boundary between two steps ended the sweep. */
  function PacedOutcome(n: nat, stops: nat -> bool): (nat, bool) {
    if n == 0 then (0, true) else (BatchesDone(stops, 0, n), BatchesDone(stops, 0, n) < n)
  }

  /** The stack of step `s` as the bridge sees it: the offset is rounded into the command. */
  function StepStack(p: GatedParams, view: View, s: nat): seq<Frame>
    requires s < p.EffectiveSteps()
  {
    SeenStack(StepFrames(view, Round(Offsets(p)[s]) as real, p.iterations), p.fmt)
  }

  function Collected(stacks: seq<seq<Frame>>): (nat, nat) -> Frame {
    (i: nat, s: nat) => if s < |stacks| && i < |stacks[s]| then stacks[s][i] else Frame(0, 0, [])
  }

  /** Collected step by step, handed on sweep by sweep. */
  function SweepMajor(stacks: seq<seq<Frame>>, iterations: nat): seq<Frame> {
    Grid(Collected(stacks), iterations, |stacks|)
  }

  ghost function StepLog(n: nat, iterations: nat, k: nat): seq<Cmd> {
    if k == 0 then []
    else StepLog(n, iterations, k - 1) + [Guard.Acquire(iterations)] + if k < n then [Boundary] else []
  }

  lemma {:induction false} StepLogIsPrefix(n: nat, iterations: nat, k: nat)
    requires k <= n
    ensures StepLog(n, iterations, k) + PacedSteps(n - k, iterations) == PacedSteps(n, iterations)
  {
    if k > 0 {
      StepLogIsPrefix(n, iterations, k - 1);
    }
  }

  function StepStacks(p: GatedParams, view: View, k: nat): (stacks: seq<seq<Frame>>)
    requires k <= p.EffectiveSteps()
    ensures |stacks| == k && forall s :: 0 <= s < k ==> stacks[s] == StepStack(p, view, s)
  {
    seq(k, s requires 0 <= s < k => StepStack(p, view, s))
  }

  /** One single-step request at a rounded offset. */
  method PacedStep(p: GatedParams, view: View, s: nat) returns (frames: seq<Frame>, wire: nat)
    requires Packable(p.fmt) && ViewFits(view, p.fmt) && s < p.EffectiveSteps()
    ensures frames == StepStack(p, view, s) && wire == p.fmt.Size(p.iterations, p.fmt.pileup)
  {
    frames, wire := Request(StepFrames(view, Round(Offsets(p)[s]) as real, p.iterations), p.fmt);
  }

  /** A stop ends a sweep after the first step behind which it is seen; behind the last step none is
      looked for. */
  lemma PacedOutcomeExactly(n: nat, stops: nat -> bool)
    requires n > 0
    ensures var (k, aborted) := PacedOutcome(n, stops);
      && 0 < k <= n && (forall i :: 0 <= i < k - 1 ==> !stops(i)) && (k < n ==> stops(k - 1))
      && (aborted <==> exists i: nat :: i < n - 1 && stops(i))
  {
    var k := PacedOutcome(n, stops).0;
    if k < n {
      assert stops(k - 1);
    }
  }

  lemma PacedOutcomeIs(n: nat, stops: nat -> bool, k: nat, aborted: bool)
    requires k <= n && (n > 0 ==> 0 < k) && aborted == (k < n || n == 0)
    requires forall i :: 0 <= i < k - 1 ==> !stops(i)
    requires k < n ==> stops(k - 1)
    ensures PacedOutcome(n, stops) == (k, aborted)
  {
    if n > 0 {
      BatchesDoneIs(stops, 0, k, n);
    }
  }

  /** The loop over the steps, with a boundary between two of them. */
  method PacedLoop(p: GatedParams, view: View, stops: nat -> bool)
    returns (stacks: seq<seq<Frame>>, aborted: bool, wire: nat, ghost log: seq<Cmd>)
    requires Packable(p.fmt) && ViewFits(view, p.fmt)
    ensures |stacks| <= p.EffectiveSteps() && stacks == StepStacks(p, view, |stacks|)
    ensures PacedOutcome(p.EffectiveSteps(), stops) == (|stacks|, aborted || stacks == [])
    ensures wire == |stacks| * p.fmt.Size(p.iterations, p.fmt.pileup)
    ensures log == StepLog(p.EffectiveSteps(), p.iterations, |stacks|)
  {
    var n, index := p.EffectiveSteps(), 0;
    ghost var size := p.fmt.Size(p.iterations, p.fmt.pileup);
    stacks, aborted, wire, log := [], false, 0, [];
    while index < n
      invariant index == |stacks| <= n && !aborted && stacks == StepStacks(p, view, index)
      invariant forall i :: 0 <= i < index && i < n - 1 ==> !stops(i)
      invariant wire == index * size && log == StepLog(n, p.iterations, index)
      decreases n - index
    {
      var frames, bytes := PacedStep(p, view, index);
      MulStep(index, size);
      stacks, wire := stacks + [frames], wire + bytes;
      log := log + [Guard.Acquire(p.iterations)] + if index < n - 1 then [Boundary] else [];
      index := index + 1;
      if index < n && stops(index - 1) {
        aborted := true;
        break;
      }
    }
    PacedOutcomeIs(n, stops, index, aborted || n == 0);
  }

  method PacedGatedIo(p: GatedParams, view: View, stops: nat -> bool)
    returns (stack: seq<Frame>, completed: nat, aborted: bool, wire: nat, ghost log: seq<Cmd>)
    requires Packable(p.fmt) && ViewFits(view, p.fmt)
    ensures (completed, aborted) == PacedOutcome(p.EffectiveSteps(), stops) && completed <= p.EffectiveSteps()
    ensures stack == SweepMajor(StepStacks(p, view, completed), p.iterations)
    ensures wire == completed * p.fmt.Size(p.iterations, p.fmt.pileup)
    ensures log <= PacedScript(p.EffectiveSteps(), p.iterations, p.fmt.pileup)
    ensures completed == p.EffectiveSteps() ==> log == PacedScript(p.EffectiveSteps(), p.iterations, p.fmt.pileup)
  {
    var stacks;
    stacks, aborted, wire, log := PacedLoop(p, view, stops);
    completed := |stacks|;
    StepLogIsPrefix(p.EffectiveSteps(), p.iterations, completed);
    log := [SetPileup(p.fmt.pileup)] + log;
    if completed == 0 {
      GridLength(Collected(stacks), p.iterations, 0);
      return [], 0, true, wire, log;
    }
    stack := SweepMajor(stacks, p.iterations);
  }

  // ----- Paced and continuous agree -----

  ghost predicate AllIntegral(s: seq<real>) {
    forall i :: 0 <= i < |s| ==> Integral(s[i])
  }

  lemma StepFrameAt(p: GatedParams, view: View, k: nat, i: nat, s: nat)
    requires k <= p.EffectiveSteps() && i < p.iterations && s < k
    ensures var stack := SweepMajor(StepStacks(p, view, k), p.iterations);
      i * k + s < |stack| && stack[i * k + s] == SeenBy(p.fmt)(view(i, Round(Offsets(p)[s]) as real))
  {
    GridAt(Collected(StepStacks(p, view, k)), p.iterations, k, i, s);
  }

  /** Frame `i * k + s` of a paced stack of `k` completed steps shows iteration `i` at the rounded gate
      position of step `s`. */
  lemma PacedFrameAt(p: GatedParams, view: View, k: nat, i: nat, s: nat)
    requires k <= p.EffectiveSteps() && i < p.iterations && s < k
    ensures var stack := SweepMajor(StepStacks(p, view, k), p.iterations);
      i * k + s < |stack| && stack[i * k + s] == SeenBy(p.fmt)(view(i, Round(GatePosition(p, s)) as real))
  {
    StepFrameAt(p, view, k, i, s);
    OffsetsAt(p, s);
  }

  function SeenBy(fmt: Format): Frame -> Frame {
    (f: Frame) => Seen(f, fmt.bitDepth, fmt.pileup, fmt.rows)
  }

  function Composed(seen: Frame -> Frame, f: (nat, nat) -> Frame): (nat, nat) -> Frame {
    (i: nat, s: nat) => seen(f(i, s))
  }

  lemma {:induction false} SeenGrid(fmt: Format, f: (nat, nat) -> Frame, n: nat, k: nat)
    ensures SeenStack(Grid(f, n, k), fmt) == Grid(Composed(SeenBy(fmt), f), n, k)
  {
    if n > 0 {
      SeenGrid(fmt, f, n - 1, k);
      assert SeenStack(Row(f, n - 1, k), fmt) == Row(Composed(SeenBy(fmt), f), n - 1, k);
      assert SeenStack(Grid(f, n - 1, k) + Row(f, n - 1, k), fmt)
          == SeenStack(Grid(f, n - 1, k), fmt) + SeenStack(Row(f, n - 1, k), fmt);
    }
  }

  lemma ContinuousFrameAt(p: GatedParams, view: View, offsets: seq<real>, i: nat, s: nat)
    requires i < p.iterations && s < |offsets|
    ensures var stack := SeenStack(SweepFrames(view, offsets, p.iterations), p.fmt);
      i * |offsets| + s < |stack| && stack[i * |offsets| + s] == SeenBy(p.fmt)(view(i, offsets[s]))
  {
    SeenGrid(p.fmt, Captured(view, offsets), p.iterations, |offsets|);
    GridAt(Composed(SeenBy(p.fmt), Captured(view, offsets)), p.iterations, |offsets|, i, s);
  }

  /** And of a continuous stack, at the position itself. */
  lemma ContinuousPositionAt(p: GatedParams, view: View, i: nat, s: nat)
    requires i < p.iterations && s < p.EffectiveSteps()
    ensures var stack, k := SeenStack(SweepFrames(view, Offsets(p), p.iterations), p.fmt), p.EffectiveSteps();
      i * k + s < |stack| && stack[i * k + s] == SeenBy(p.fmt)(view(i, GatePosition(p, s)))
  {
    ContinuousFrameAt(p, view, Offsets(p), i, s);
    OffsetsAt(p, s);
  }

  /** After `k` steps at integral offsets the paced stack is the continuous one over the first `k`
      visited offsets; over all of them when the sweep was not stopped. */
  lemma PacedIsContinuous(p: GatedParams, view: View, k: nat)
    requires k <= p.EffectiveSteps() && AllIntegral(Offsets(p)[..k])
    ensures SweepMajor(StepStacks(p, view, k), p.iterations)
      == SeenStack(SweepFrames(view, Offsets(p)[..k], p.iterations), p.fmt)
  {
    var offsets, stacks := Offsets(p)[..k], StepStacks(p, view, k);
    var paced, continuous := Collected(stacks), Composed(SeenBy(p.fmt), Captured(view, offsets));
    forall i, s | 0 <= i < p.iterations && 0 <= s < k
      ensures paced(i, s) == continuous(i, s)
    {
      RoundExact(offsets[s]);
      assert stacks[s][i] == SeenBy(p.fmt)(view(i, Round(offsets[s]) as real));
    }
    GridSame(paced, continuous, p.iterations, k);
    SeenGrid(p.fmt, Captured(view, offsets), p.iterations, k);
  }

  lemma {:induction false} IntegralMultiples(gateOffset: int, step: int, i: nat)
    ensures Integral(gateOffset as real + i as real * step as real)
  {
    assert gateOffset as real + i as real * step as real == (gateOffset + i * step) as real;
  }

  /** With an integral step size every offset is integral, forward and reverse. */
  lemma IntegralStepOffsets(p: GatedParams, step: int)
    requires p.arbitrary == [] && p.stepSize == step as real
    ensures AllIntegral(Offsets(p))
  {
    forall i | 0 <= i < p.gateSteps
      ensures Integral(Ascending(p.gateOffset, p.stepSize, p.gateSteps)[i])
    {
      IntegralMultiples(p.gateOffset, step, i);
      assert Ascending(p.gateOffset, p.stepSize, p.gateSteps)[i] == p.gateOffset as real + i as real * step as real;
    }
  }

  /** A frame of one value everywhere. */
  function Flat(fmt: Format, value: nat): (f: Frame)
    ensures f.rows == fmt.rows && f.cols == fmt.width && |f.px| == fmt.rows * fmt.width
  {
    Frame(fmt.rows, fmt.width, seq(fmt.rows * fmt.width, i => value))
  }

  /** A vendor that lights up at one offset only. */
  function LitAt(fmt: Format, offset: real): View {
    (i: nat, o: real) => Flat(fmt, if o == offset then 1 else 0)
  }

  lemma FlatsDiffer(fmt: Format)
    requires fmt.bitDepth != 1 && fmt.rows * fmt.width > 0
    ensures Seen(Flat(fmt, 0), fmt.bitDepth, fmt.pileup, fmt.rows)
      != Seen(Flat(fmt, 1), fmt.bitDepth, fmt.pileup, fmt.rows)
  {
    assert Seen(Flat(fmt, 0), fmt.bitDepth, fmt.pileup, fmt.rows).px[0] == 0;
    assert Seen(Flat(fmt, 1), fmt.bitDepth, fmt.pileup, fmt.rows).px[0] == 1;
  }

  /** Integral offsets are exactly what the agreement needs: at any other offset some vendor
      tells the two apart. Gated depths start at six bits. */
  lemma PacedExact(p: GatedParams, k: nat)
    requires k <= p.EffectiveSteps() && p.iterations > 0 && p.fmt.bitDepth != 1 && p.fmt.rows * p.fmt.width > 0
    ensures AllIntegral(Offsets(p)[..k]) <==>
      forall view :: ViewFits(view, p.fmt) ==>
        SweepMajor(StepStacks(p, view, k), p.iterations)
          == SeenStack(SweepFrames(view, Offsets(p)[..k], p.iterations), p.fmt)
  {
    var offsets := Offsets(p)[..k];
    if AllIntegral(offsets) {
      forall view | ViewFits(view, p.fmt)
        ensures SweepMajor(StepStacks(p, view, k), p.iterations)
          == SeenStack(SweepFrames(view, offsets, p.iterations), p.fmt)
      {
        PacedIsContinuous(p, view, k);
      }
    } else {
      var s :| 0 <= s < k && !Integral(offsets[s]);
      var view := LitAt(p.fmt, offsets[s]);
      forall i: nat, o: real
        ensures view(i, o) == Flat(p.fmt, if o == offsets[s] then 1 else 0)
      {
      }
      assert ViewFits(view, p.fmt);
      StepFrameAt(p, view, k, 0, s);
      ContinuousFrameAt(p, view, offsets, 0, s);
      RoundExact(offsets[s]);
      FlatsDiffer(p.fmt);
    }
  }
}
