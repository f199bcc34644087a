/** The busy guard under interleaving: guarded operations, health polls and stop requests share
    one vendor (acquisition.py, health.py, instrument.py). Code between suspension points is one
    step; the client's lock makes every request one step. */
module Guard {
  import opened Codec
  import opened Instrument
  import opened Options

  // ----- What an operation does on the socket -----

  /** `Boundary` is the forced health poll between two requests, after which a stop is honoured. */
  datatype Cmd = SetPileup(on: bool) | Acquire(frames: nat) | Other | Boundary

  /** How a request's frames are encoded and so how long its payload is. */
  datatype Format = Format(bitDepth: nat, rows: nat, width: nat, pileup: bool) {
    function Size(frames: nat, vendorPileup: bool): nat {
      frames * BytesPerFrame(bitDepth, rows, width, vendorPileup)
    }
  }

  const BATCH_SIZE: nat := 10

  /** `_acquire_io`: up to ten frames in one request, more in batches of ten. */
  function IntensityScript(iterations: nat, pileup: bool): seq<Cmd> {
    if iterations <= BATCH_SIZE then [SetPileup(pileup), Acquire(iterations)] else Batches(iterations, pileup)
  }

  function Batches(left: nat, pileup: bool): seq<Cmd> {
    if left == 0 then []
    else
      var batch := if left < BATCH_SIZE then left else BATCH_SIZE;
      [SetPileup(pileup), Acquire(batch), Boundary] + Batches(left - batch, pileup)
  }

  /** The continuous gated command; arbitrary offsets take one more request. */
  function GatedScript(frames: nat, arbitrary: bool, pileup: bool): seq<Cmd> {
    [SetPileup(pileup)] + (if arbitrary then [Other] else []) + [Acquire(frames)]
  }

  /** The paced sweep: one request per step and a boundary between two steps. */
  function PacedScript(steps: nat, iterations: nat, pileup: bool): seq<Cmd> {
    [SetPileup(pileup)] + PacedSteps(steps, iterations)
  }

  function PacedSteps(steps: nat, iterations: nat): seq<Cmd> {
    if steps == 0 then [] else if steps == 1 then [Acquire(iterations)]
    else [Acquire(iterations), Boundary] + PacedSteps(steps - 1, iterations)
  }

  lemma {:induction false} BatchesLength(left: nat, pileup: bool)
    ensures |Batches(left, pileup)| == 3 * ((left + 9) / 10)
  {
    if left > BATCH_SIZE {
      BatchesLength(left - BATCH_SIZE, pileup);
    } else if left > 0 {
      assert Batches(0, pileup) == [];
    }
  }

  lemma BatchesRest(left: nat, pileup: bool)
    requires left > 10
    ensures Batches(left, pileup) == [SetPileup(pileup), Acquire(10), Boundary] + Batches(left - 10, pileup)
  {
  }

  /** Batch `i`: the mode, up to ten frames, and a boundary. */
  lemma {:induction false} BatchAt(left: nat, pileup: bool, i: nat)
    requires 10 * i < left
    ensures 3 * i + 3 <= |Batches(left, pileup)|
    ensures Batches(left, pileup)[3 * i..3 * i + 3]
      == [SetPileup(pileup), Acquire(if left - 10 * i < 10 then left - 10 * i else 10), Boundary]
  {
    BatchesLength(left, pileup);
    if i > 0 {
      BatchAt(left - 10, pileup, i - 1);
      BatchesRest(left, pileup);
    }
  }

  /** A paced sweep acquires at even positions and looks for a stop between them. */
  lemma {:induction false} PacedAt(steps: nat, iterations: nat, i: nat)
    requires steps > 0 && i < 2 * steps - 1
    ensures |PacedSteps(steps, iterations)| == 2 * steps - 1
    ensures PacedSteps(steps, iterations)[i] == if i % 2 == 0 then Acquire(iterations) else Boundary
  {
    if steps > 1 {
      PacedAt(steps - 1, iterations, if i > 1 then i - 2 else 0);
    }
  }

  datatype Kind =
    | Intensity(iterations: nat)
    | Gated(frames: nat, arbitrary: bool)
    | Paced(steps: nat, iterations: nat)
    | Calibration
    | Flim

  datatype Op = Op(kind: Kind, format: Format) {
    function Script(): seq<Cmd> {
      match kind
      case Intensity(n) => IntensityScript(n, format.pileup)
      case Gated(n, arbitrary) => GatedScript(n, arbitrary, format.pileup)
      case Paced(k, n) => PacedScript(k, n, format.pileup)
      case Calibration => [Other]
      case Flim => [Other]
    }

    function Mode(): Status {
      if kind.Calibration? then CALIBRATING else ACQUIRING
    }
  }

  /** Before position `pc` the script has set the pileup mode. */
  ghost predicate PileupSet(script: seq<Cmd>, pc: nat) {
    exists i :: 0 <= i < pc && i < |script| && script[i].SetPileup?
  }

  /** Only this mode is ever set, and it is set before the first acquisition or boundary. */
  ghost predicate SetsFirst(script: seq<Cmd>, pileup: bool) {
    forall i :: 0 <= i < |script| ==>
      && (script[i].SetPileup? ==> script[i].on == pileup)
      && (script[i].Acquire? || script[i].Boundary? ==> PileupSet(script, i))
  }

  lemma SetsFirstFromHead(script: seq<Cmd>, pileup: bool)
    requires script != [] && script[0] == SetPileup(pileup)
    requires forall c :: c in script && c.SetPileup? ==> c.on == pileup
    ensures SetsFirst(script, pileup)
  {
    forall i | 0 <= i < |script| && (script[i].Acquire? || script[i].Boundary?)
      ensures PileupSet(script, i)
    {
      assert script[0].SetPileup?;
    }
  }

  lemma {:induction false} BatchesSetOnly(left: nat, pileup: bool)
    ensures forall c :: c in Batches(left, pileup) && c.SetPileup? ==> c.on == pileup
    ensures left > 0 ==> Batches(left, pileup) != [] && Batches(left, pileup)[0] == SetPileup(pileup)
  {
    if left > 0 {
      BatchesSetOnly(left - if left < BATCH_SIZE then left else BATCH_SIZE, pileup);
    }
  }

  lemma {:induction false} PacedStepsSetNone(steps: nat, iterations: nat)
    ensures forall c :: c in PacedSteps(steps, iterations) ==> !c.SetPileup?
  {
    if steps > 1 {
      PacedStepsSetNone(steps - 1, iterations);
    }
  }

  /** Every operation sets its own mode before it acquires. */
  lemma ScriptSetsFirst(op: Op)
    ensures SetsFirst(op.Script(), op.format.pileup)
  {
    match op.kind
    case Intensity(n) =>
      BatchesSetOnly(n, op.format.pileup);
      SetsFirstFromHead(op.Script(), op.format.pileup);
    case Gated(n, arbitrary) => SetsFirstFromHead(op.Script(), op.format.pileup);
    case Paced(k, n) =>
      PacedStepsSetNone(k, n);
      SetsFirstFromHead(op.Script(), op.format.pileup);
    case Calibration =>
    case Flim =>
  }

  /** How many frames a script acquires. */
  function FramesIn(script: seq<Cmd>): nat {
    if script == [] then 0 else (if script[0].Acquire? then script[0].frames else 0) + FramesIn(script[1..])
  }

  lemma {:induction false} FramesInJoin(s: seq<Cmd>, t: seq<Cmd>)
    ensures FramesIn(s + t) == FramesIn(s) + FramesIn(t)
  {
    if s == [] {
      assert s + t == t;
    } else {
      assert (s + t)[1..] == s[1..] + t;
      FramesInJoin(s[1..], t);
    }
  }

  lemma {:induction false} BatchesAcquire(left: nat, pileup: bool)
    ensures FramesIn(Batches(left, pileup)) == left
  {
    if left > 0 {
      var batch := if left < BATCH_SIZE then left else BATCH_SIZE;
      var first := [SetPileup(pileup), Acquire(batch), Boundary];
      BatchesAcquire(left - batch, pileup);
      FramesInJoin(first, Batches(left - batch, pileup));
      FramesInJoin([SetPileup(pileup)], [Acquire(batch), Boundary]);
      FramesInJoin([Acquire(batch)], [Boundary]);
      assert first == [SetPileup(pileup)] + [Acquire(batch), Boundary] && first[1..] == [Acquire(batch)] + [Boundary];
    }
  }

  lemma {:induction false} PacedAcquire(steps: nat, iterations: nat)
    ensures FramesIn(PacedSteps(steps, iterations)) == steps * iterations
  {
    if steps == 1 {
      assert PacedSteps(steps, iterations)[1..] == [];
    } else if steps > 1 {
      var first := [Acquire(iterations), Boundary];
      PacedAcquire(steps - 1, iterations);
      FramesInJoin(first, PacedSteps(steps - 1, iterations));
      MulStep(steps - 1, iterations);
      FramesInJoin([Acquire(iterations)], [Boundary]);
      assert first == [Acquire(iterations)] + [Boundary];
    }
  }

  /** However it is split into requests, an operation acquires all its frames and no more. */
  lemma ScriptAcquiresAll(op: Op)
    ensures FramesIn(op.Script()) == match op.kind
                                     case Intensity(n) => n
                                     case Gated(n, _) => n
                                     case Paced(k, n) => k * n
                                     case _ => 0
  {
    match op.kind
    case Intensity(n) =>
      BatchesAcquire(n, op.format.pileup);
      assert [SetPileup(op.format.pileup), Acquire(n)][1..] == [Acquire(n)] && [Acquire(n)][1..] == [];
    case Gated(n, arbitrary) =>
      var before := [SetPileup(op.format.pileup)] + if arbitrary then [Other] else [];
      FramesInJoin([SetPileup(op.format.pileup)], if arbitrary then [Other] else []);
      FramesInJoin(before, [Acquire(n)]);
    case Paced(k, n) =>
      PacedAcquire(k, n);
      FramesInJoin([SetPileup(op.format.pileup)], PacedSteps(k, n));
    case Calibration =>
    case Flim =>
  }

  // ----- The shared system -----

  datatype Phase = Waiting | Running(pc: nat) | Finished

  /** One answered acquisition: the length its sender expects and the length the vendor sends, the
      pileup mode the sender computed with and the mode the vendor was in. */
  datatype Served = Served(expected: nat, actual: nat, wanted: bool, mode: bool)

  datatype System = System(inst: Inst, vendorPileup: bool, phases: seq<Phase>, served: seq<Served>)

  /** `Begin` is a busy check together with the status it sets. `ForceIdle` is what the stop route
      does when its wait runs out; the two `Dcr` steps are the unguarded DCR-curve route. */
  datatype Step =
    | Begin(op: nat)
    | Advance(op: nat)
    | End(op: nat)
    | Poll(hot: bool)
    | RequestStop
    | ForceIdle
    | DcrPileup
    | DcrAcquire

  const DCR_FORMAT := Format(8, 512, 512, false)

  function Next(s: System, step: Step, ops: seq<Op>): System
    requires |s.phases| == |ops|
  {
    match step
    case Begin(k) =>
      if k >= |ops| || !s.phases[k].Waiting? then s
      else if s.inst.IsBusy() then s.(phases := s.phases[k := Finished])
      else s.(inst := s.inst.Set(ops[k].Mode()), phases := s.phases[k := Running(0)])
    case Advance(k) =>
      if k >= |ops| || !s.phases[k].Running? || s.phases[k].pc >= |ops[k].Script()| then s
      else Perform(s, k, ops[k], s.phases[k].pc)
    case End(k) =>
      // Completion, failure, cancellation or an honoured stop: the status returns to idle.
      if k >= |ops| || !s.phases[k].Running? then s
      else s.(inst := s.inst.Set(IDLE), phases := s.phases[k := Finished])
    case Poll(hot) =>
      // The readings may be stale and the requests sent change no acquisition setting.
      if hot && s.inst.IsBusy() then s.(inst := s.inst.RequestStop(Some("over_temperature"))) else s
    case RequestStop => s.(inst := s.inst.RequestStop(None))
    case ForceIdle => if s.inst.IsBusy() then s.(inst := s.inst.Set(IDLE)) else s
    case DcrPileup => s.(vendorPileup := false)
    case DcrAcquire =>
      var size := DCR_FORMAT.Size(1, s.vendorPileup);
      s.(served := s.served + [Served(DCR_FORMAT.Size(1, false), size, false, s.vendorPileup)])
  }

  /** The request at position `pc` of the script of operation `k`. A stop seen at a boundary skips the rest. */
  function Perform(s: System, k: nat, op: Op, pc: nat): System
    requires k < |s.phases| && pc < |op.Script()|
  {
    var t := s.(phases := s.phases[k := Running(pc + 1)]);
    match op.Script()[pc]
    case SetPileup(on) => t.(vendorPileup := on)
    case Acquire(n) =>
      var wanted, mode := op.format.pileup, s.vendorPileup;
      t.(served := s.served + [Served(op.format.Size(n, wanted), op.format.Size(n, mode), wanted, mode)])
    case Other => t
    case Boundary => if s.inst.stopRequested then s.(phases := s.phases[k := Running(|op.Script()|)]) else t
  }

  predicate Active(s: System, k: int) {
    0 <= k < |s.phases| && s.phases[k].Running?
  }

  /** At most one operation lies between its busy check and its return to idle, and the status
      is busy exactly while one does. */
  ghost predicate Exclusive(s: System) {
    && (forall j, k :: Active(s, j) && Active(s, k) ==> j == k)
    && (s.inst.IsBusy() <==> exists k :: Active(s, k))
  }

  /** The vendor is in the mode the active operation has set. */
  ghost predicate InMode(s: System, ops: seq<Op>)
    requires |s.phases| == |ops|
  {
    forall k :: Active(s, k) && PileupSet(ops[k].Script(), s.phases[k].pc) ==> s.vendorPileup == ops[k].format.pileup
  }

  /** In the mode its length was computed from, and so with that length. */
  predicate ServedWell(r: Served) {
    r.wanted == r.mode && r.expected == r.actual
  }

  ghost predicate AllServedWell(s: System) {
    forall i :: 0 <= i < |s.served| ==> ServedWell(s.served[i])
  }

  ghost predicate Safe(s: System, ops: seq<Op>) {
    |s.phases| == |ops| && Exclusive(s) && InMode(s, ops) && AllServedWell(s)
  }

  /** The steps that break safety: forcing idle under a running operation, clearing the pileup
      mode under one that has set it, and a DCR acquisition in the wrong mode. */
  ghost predicate Hazard(s: System, step: Step, ops: seq<Op>)
    requires |s.phases| == |ops|
  {
    match step
    case ForceIdle => exists k :: Active(s, k)
    case DcrPileup => exists k :: Active(s, k) && PileupSet(ops[k].Script(), s.phases[k].pc) && ops[k].format.pileup
    case DcrAcquire => s.vendorPileup
    case _ => false
  }

  lemma BeginSafe(s: System, k: nat, ops: seq<Op>)
    requires Safe(s, ops)
    ensures Safe(Next(s, Begin(k), ops), ops)
  {
    var t := Next(s, Begin(k), ops);
    if k < |ops| && s.phases[k].Waiting? && !s.inst.IsBusy() {
      assert Active(t, k);
      assert forall j :: Active(t, j) ==> j == k || Active(s, j);
    } else {
      assert forall j :: Active(t, j) <==> Active(s, j);
    }
  }

  lemma EndSafe(s: System, k: nat, ops: seq<Op>)
    requires Safe(s, ops)
    ensures Safe(Next(s, End(k), ops), ops)
  {
    var t := Next(s, End(k), ops);
    if k < |ops| && s.phases[k].Running? {
      assert Active(s, k);
      assert forall j :: Active(t, j) ==> Active(s, j) && j != k;
    }
  }

  lemma PileupSetNext(script: seq<Cmd>, pc: nat)
    requires pc < |script|
    ensures PileupSet(script, pc + 1) <==> PileupSet(script, pc) || script[pc].SetPileup?
  {
  }

  lemma PerformKeepsActive(s: System, k: nat, op: Op, pc: nat)
    requires k < |s.phases| && s.phases[k] == Running(pc) && pc < |op.Script()|
    ensures var t := Perform(s, k, op, pc);
      && t.inst == s.inst && |t.phases| == |s.phases|
      && (forall j :: Active(t, j) <==> Active(s, j))
      && (forall j :: 0 <= j < |s.phases| && j != k ==> t.phases[j] == s.phases[j])
  {
  }

  lemma AdvanceSafe(s: System, k: nat, ops: seq<Op>)
    requires Safe(s, ops)
    ensures Safe(Next(s, Advance(k), ops), ops)
  {
    if k < |ops| && s.phases[k].Running? && s.phases[k].pc < |ops[k].Script()| {
      var op, pc := ops[k], s.phases[k].pc;
      var t := Perform(s, k, op, pc);
      ScriptSetsFirst(op);
      PerformKeepsActive(s, k, op, pc);
      PileupSetNext(op.Script(), pc);
      assert Active(s, k);
      forall j | Active(t, j) && PileupSet(ops[j].Script(), t.phases[j].pc)
        ensures t.vendorPileup == ops[j].format.pileup
      {
        assert j == k;
      }
    }
  }

  /** From a safe state a step leads to a safe state exactly when it is no hazard. */
  lemma StepExact(s: System, step: Step, ops: seq<Op>)
    requires Safe(s, ops)
    ensures Safe(Next(s, step, ops), ops) <==> !Hazard(s, step, ops)
  {
    var t := Next(s, step, ops);
    match step
    case Begin(k) => BeginSafe(s, k, ops);
    case Advance(k) => AdvanceSafe(s, k, ops);
    case End(k) => EndSafe(s, k, ops);
    case Poll(hot) => assert forall j :: Active(t, j) <==> Active(s, j);
    case RequestStop => assert forall j :: Active(t, j) <==> Active(s, j);
    case ForceIdle =>
      assert forall j :: Active(t, j) <==> Active(s, j);
    case DcrPileup =>
      assert forall j :: Active(t, j) <==> Active(s, j);
    case DcrAcquire =>
      assert forall j :: Active(t, j) <==> Active(s, j);
      assert t.served[|s.served|].mode == s.vendorPileup && !t.served[|s.served|].wanted;
      assert forall i :: 0 <= i < |s.served| ==> t.served[i] == s.served[i];
  }

  // ----- Runs -----

  function Start(ops: seq<Op>, vendorPileup: bool): System {
    System(Inst(IDLE, false, None), vendorPileup, seq(|ops|, i => Waiting), [])
  }

  function After(s: System, steps: seq<Step>, ops: seq<Op>, n: nat): (t: System)
    requires |s.phases| == |ops| && n <= |steps|
    ensures |t.phases| == |ops|
  {
    if n == 0 then s else Next(After(s, steps, ops, n - 1), steps[n - 1], ops)
  }

  lemma StartSafe(ops: seq<Op>, vendorPileup: bool)
    ensures Safe(Start(ops, vendorPileup), ops)
  {
  }

  ghost predicate HazardAt(s: System, steps: seq<Step>, ops: seq<Op>, i: nat)
    requires |s.phases| == |ops| && i < |steps|
  {
    Hazard(After(s, steps, ops, i), steps[i], ops)
  }

  ghost predicate SafeAt(s: System, steps: seq<Step>, ops: seq<Op>, i: nat)
    requires |s.phases| == |ops| && i <= |steps|
  {
    Safe(After(s, steps, ops, i), ops)
  }

  ghost predicate SafeUpTo(s: System, steps: seq<Step>, ops: seq<Op>, n: nat)
    requires |s.phases| == |ops| && n <= |steps|
  {
    forall i :: 0 <= i <= n ==> SafeAt(s, steps, ops, i)
  }

  lemma StepExactAt(s: System, steps: seq<Step>, ops: seq<Op>, i: nat)
    requires |s.phases| == |ops| && i < |steps| && SafeAt(s, steps, ops, i)
    ensures SafeAt(s, steps, ops, i + 1) <==> !HazardAt(s, steps, ops, i)
  {
    StepExact(After(s, steps, ops, i), steps[i], ops);
  }

  ghost predicate NoHazardUpTo(s: System, steps: seq<Step>, ops: seq<Op>, n: nat)
    requires |s.phases| == |ops| && n <= |steps|
  {
    forall i :: 0 <= i < n ==> !HazardAt(s, steps, ops, i)
  }

  /** Every interleaving stays safe exactly as long as it meets no hazard: with neither forced
      idle nor the DCR route, operations exclude each other and every acquisition is served in
      the mode its length was computed from. */
  lemma {:induction false} RunSafeExact(s: System, steps: seq<Step>, ops: seq<Op>, n: nat)
    requires Safe(s, ops) && n <= |steps|
    ensures SafeUpTo(s, steps, ops, n) <==> NoHazardUpTo(s, steps, ops, n)
  {
    if n > 0 {
      var m := n - 1;
      RunSafeExact(s, steps, ops, m);
      assert SafeUpTo(s, steps, ops, n) <==> SafeUpTo(s, steps, ops, m) && SafeAt(s, steps, ops, n);
      assert NoHazardUpTo(s, steps, ops, n) <==> NoHazardUpTo(s, steps, ops, m) && !HazardAt(s, steps, ops, m);
      if SafeUpTo(s, steps, ops, m) {
        StepExactAt(s, steps, ops, m);
      }
    }
  }

  lemma GuardedRunSafe(steps: seq<Step>, ops: seq<Op>, vendorPileup: bool, n: nat)
    requires n <= |steps| && forall step :: step in steps ==> !step.ForceIdle? && !step.DcrPileup? && !step.DcrAcquire?
    ensures var t := After(Start(ops, vendorPileup), steps, ops, n);
      && (forall j, k :: Active(t, j) && Active(t, k) ==> j == k)
      && (forall i :: 0 <= i < |t.served| ==> t.served[i].wanted == t.served[i].mode)
      && (forall i :: 0 <= i < |t.served| ==> t.served[i].expected == t.served[i].actual)
  {
    var s := Start(ops, vendorPileup);
    StartSafe(ops, vendorPileup);
    forall i | 0 <= i < n
      ensures !HazardAt(s, steps, ops, i)
    {
      assert steps[i] in steps;
    }
    RunSafeExact(s, steps, ops, n);
    assert SafeAt(s, steps, ops, n);
  }

  /** At most one operation runs. */
  ghost predicate Alone(s: System) {
    forall j, k :: Active(s, j) && Active(s, k) ==> j == k
  }

  /** The step begins an operation although one is running. The busy check lets that happen only
      when the status was forced to idle under the running one. */
  ghost predicate Overlaps(s: System, step: Step, ops: seq<Op>)
    requires |s.phases| == |ops|
  {
    && step.Begin? && step.op < |ops| && s.phases[step.op].Waiting?
    && !s.inst.IsBusy() && exists k :: Active(s, k)
  }

  lemma AloneStepExact(s: System, step: Step, ops: seq<Op>)
    requires |s.phases| == |ops| && Alone(s)
    ensures Alone(Next(s, step, ops)) <==> !Overlaps(s, step, ops)
  {
    var t := Next(s, step, ops);
    if Overlaps(s, step, ops) {
      var k :| Active(s, k);
      assert Active(t, k) && Active(t, step.op);
    } else if step.Begin? {
      assert forall j :: Active(t, j) ==> Active(s, j) || (j == step.op && forall k :: !Active(s, k));
    } else {
      assert forall j :: Active(t, j) ==> Active(s, j);
    }
  }

  ghost predicate OverlapsAt(steps: seq<Step>, ops: seq<Op>, vendorPileup: bool, i: nat)
    requires i < |steps|
  {
    Overlaps(After(Start(ops, vendorPileup), steps, ops, i), steps[i], ops)
  }

  ghost predicate AloneAt(steps: seq<Step>, ops: seq<Op>, vendorPileup: bool, i: nat)
    requires i <= |steps|
  {
    Alone(After(Start(ops, vendorPileup), steps, ops, i))
  }

  /** Operations exclude each other exactly as long as none begins while a running one's status has
      been forced to idle. */
  lemma {:induction false} AloneExactly(steps: seq<Step>, ops: seq<Op>, vendorPileup: bool, n: nat)
    requires n <= |steps|
    ensures (forall i :: 0 <= i <= n ==> AloneAt(steps, ops, vendorPileup, i))
      <==> forall i :: 0 <= i < n ==> !OverlapsAt(steps, ops, vendorPileup, i)
  {
    if n == 0 {
      assert AloneAt(steps, ops, vendorPileup, 0);
    } else {
      var m := n - 1;
      AloneExactly(steps, ops, vendorPileup, m);
      if AloneAt(steps, ops, vendorPileup, m) {
        AloneStepExact(After(Start(ops, vendorPileup), steps, ops, m), steps[m], ops);
        assert AloneAt(steps, ops, vendorPileup, n) <==> !OverlapsAt(steps, ops, vendorPileup, m);
      }
    }
  }

  // ----- Nothing is lost -----

  /** What the first `n` requests of an operation are served in its own mode. */
  function ServedAlone(op: Op, n: nat): seq<Served>
    requires n <= |op.Script()|
  {
    if n == 0 then []
    else
      var size := (frames: nat) => op.format.Size(frames, op.format.pileup);
      ServedAlone(op, n - 1) + match op.Script()[n - 1]
                               case Acquire(f) => [Served(size(f), size(f), op.format.pileup, op.format.pileup)]
                               case _ => []
  }

  /** The steps of operation `k` with nothing in between. */
  function Solo(k: nat, n: nat): (steps: seq<Step>)
    ensures |steps| == n + 2
  {
    [Begin(k)] + seq(n, i => Advance(k)) + [End(k)]
  }

  /** `t` is `s` with operation `k` begun and its first `n` requests answered in its mode. */
  ghost predicate Halfway(s: System, t: System, k: nat, op: Op, n: nat)
    requires k < |s.phases| && n <= |op.Script()|
  {
    && t.inst == s.inst.Set(op.Mode())
    && t.phases == s.phases[k := Running(n)]
    && t.served == s.served + ServedAlone(op, n)
    && (PileupSet(op.Script(), n) ==> t.vendorPileup == op.format.pileup)
  }

  lemma HalfwayNext(s: System, t: System, k: nat, ops: seq<Op>, n: nat)
    requires |s.phases| == |ops| && k < |ops| && n < |ops[k].Script()| && !s.inst.stopRequested
    requires Halfway(s, t, k, ops[k], n)
    ensures Halfway(s, Next(t, Advance(k), ops), k, ops[k], n + 1)
  {
    ScriptSetsFirst(ops[k]);
    PileupSetNext(ops[k].Script(), n);
  }

  lemma {:induction false} SoloHalfway(s: System, k: nat, ops: seq<Op>, n: nat)
    requires |s.phases| == |ops| && k < |ops| && n <= |ops[k].Script()| && !s.inst.stopRequested
    requires s.phases[k].Waiting? && !s.inst.IsBusy()
    ensures Halfway(s, After(s, Solo(k, |ops[k].Script()|), ops, n + 1), k, ops[k], n)
  {
    var steps := Solo(k, |ops[k].Script()|);
    if n == 0 {
      assert After(s, steps, ops, 1) == Next(s, Begin(k), ops);
    } else {
      SoloHalfway(s, k, ops, n - 1);
      assert steps[n] == Advance(k);
      HalfwayNext(s, After(s, steps, ops, n), k, ops, n - 1);
    }
  }

  /** An operation begun on an idle instrument, left alone and not stopped, is served its whole script in
      its own mode and leaves the instrument idle. */
  lemma SoloServed(s: System, k: nat, ops: seq<Op>)
    requires |s.phases| == |ops| && k < |ops| && s.phases[k].Waiting? && !s.inst.IsBusy() && !s.inst.stopRequested
    ensures var n := |ops[k].Script()|;
      var t := After(s, Solo(k, n), ops, n + 2);
      && t.served == s.served + ServedAlone(ops[k], n)
      && t.phases == s.phases[k := Finished] && t.inst == Inst(IDLE, false, None)
  {
    var n := |ops[k].Script()|;
    SoloHalfway(s, k, ops, n);
    assert Solo(k, n)[n + 1] == End(k);
  }

  /** While the instrument is busy no operation begins; a poll that finds the sensor too hot stops the
      running one and says why. */
  lemma BusyRefusesHotStops(s: System, k: nat, ops: seq<Op>)
    requires |s.phases| == |ops| && k < |ops| && s.phases[k].Waiting? && s.inst.IsBusy()
    ensures Next(s, Begin(k), ops) == s.(phases := s.phases[k := Finished])
    ensures Next(s, Poll(true), ops) == s.(inst := Inst(STOPPING, true, Some("over_temperature")))
    ensures Next(s, Poll(false), ops) == s
  {
  }

  /** A stop pending at a boundary ends the operation there: what is left of its script is skipped. */
  lemma StoppedAtBoundary(s: System, k: nat, pc: nat, ops: seq<Op>)
    requires |s.phases| == |ops| && k < |ops| && s.phases[k] == Running(pc) && s.inst.stopRequested
    requires pc < |ops[k].Script()| && ops[k].Script()[pc] == Boundary
    ensures var t := Next(s, Advance(k), ops);
      t.served == s.served && t.phases[k] == Running(|ops[k].Script()|) && Next(t, Advance(k), ops) == t
  {
  }

  /** A stop request that outwaits its deadline forces idle under a running acquisition: a second
      one starts beside it and the first is answered in the second one's mode. */
  lemma ForcedIdleBreaksExclusion() returns (ops: seq<Op>, steps: seq<Step>, t: System)
    ensures t == After(Start(ops, false), steps, ops, |steps|)
    ensures Active(t, 0) && Active(t, 1)
    ensures t.served == [Served(512 * 512 * 2, 512 * 512, true, false)]
  {
    ops := [Op(Intensity(1), Format(8, 512, 512, true)), Op(Intensity(1), Format(8, 512, 512, false))];
    steps := [Begin(0), Advance(0), ForceIdle, Begin(1), Advance(1), Advance(0)];
    var s0 := Start(ops, false);
    var s1 := Next(s0, Begin(0), ops);
    assert After(s0, steps, ops, 1) == s1 && s1.phases == [Running(0), Waiting];
    var s2 := Next(s1, Advance(0), ops);
    assert After(s0, steps, ops, 2) == s2 && s2.phases == [Running(1), Waiting];
    var s3 := Next(s2, ForceIdle, ops);
    assert After(s0, steps, ops, 3) == s3 && s3.phases == [Running(1), Waiting];
    var s4 := Next(s3, Begin(1), ops);
    assert After(s0, steps, ops, 4) == s4 && s4.phases == [Running(1), Running(0)];
    var s5 := Next(s4, Advance(1), ops);
    assert After(s0, steps, ops, 5) == s5 && s5.phases == [Running(1), Running(1)] && !s5.vendorPileup;
    t := Next(s5, Advance(0), ops);
    assert After(s0, steps, ops, 6) == t;
  }
}
