/** When a stored dark reference is applied (acquisition.py, `_resolve_dark_reference`; the
    measuring routes of calibration.py). Stored fingerprints come back as they were saved. */
module DarkRuns {
  import opened Acquisition
  import opened Bytes
  import opened Codec
  import opened DarkReference
  import opened Options
  import opened Paced

  /** The configuration a reference is valid for. The two modes have disjoint key sets. */
  datatype Fingerprint =
    | GatedPrint(bitDepth: nat, integrationTime: real, gateSteps: nat, gateStepSize: real, gateOffset: int,
                 gateWidth: int, direction: string, trigger: string, overlap: bool, pileup: bool,
                 arbitrary: Option<seq<real>>, cooloff: real)
    | IntensityPrint(bitDepth: nat, integrationTime: real, roiWidth: nat, overlap: bool, pileup: bool)

  /** A validated request: at least one iteration and one gate step. */
  datatype Request = Request(conf: Fingerprint, iterations: nat, referenceId: Option<nat>) {
    ghost predicate Valid() {
      && iterations >= 1
      && (conf.GatedPrint? ==> conf.gateSteps >= 1 && ArbitraryFits())
    }

    /** Arbitrary offsets, when given, are as many as there are steps. */
    predicate ArbitraryFits()
      requires conf.GatedPrint?
    {
      conf.arbitrary.Some? ==> conf.arbitrary.value != [] && |conf.arbitrary.value| == conf.gateSteps
    }

    /** Steps of one sweep; intensity is the case of one. */
    function Steps(): nat {
      if conf.GatedPrint? then conf.gateSteps else 1
    }
  }

  datatype Stored = Stored(conf: Fingerprint, reference: Reference)

  /** `rows` is the sensor's; reference ids are never reused. */
  datatype Lab = Lab(rows: nat, store: map<nat, Stored>, nextId: nat)

  /** Decoded frames of a one-bit or gated run are square. */
  function FrameCols(rows: nat, conf: Fingerprint): nat {
    if conf.IntensityPrint? && conf.bitDepth != 1 then conf.roiWidth else rows
  }

  datatype Result =
    | Failed
    | AbortedAtOnce
    | CorrectionFailed
    | Done(frames: nat, aborted: bool, applied: Option<Stored>)

  /** Completed steps of a sweep and whether it was stopped; the continuous command is never
      stopped midway. */
  function StepsDone(q: Request, stops: nat -> bool): (nat, bool) {
    if q.conf.GatedPrint? && q.conf.cooloff > 0.0 then PacedOutcome(q.Steps(), stops) else (q.Steps(), false)
  }

  function Resolve(lab: Lab, q: Request): (Option<Stored>, bool) {
    if q.referenceId.None? then (None, true)
    else if q.referenceId.value !in lab.store then (None, false)
    else
      var stored := lab.store[q.referenceId.value];
      if stored.conf == q.conf then (Some(stored), true) else (None, false)
  }

  /** The shape checks of `apply_dark_correction`. */
  predicate ChecksPass(lab: Lab, q: Request, frames: nat, r: Reference) {
    |r.steps| > 0 && frames % |r.steps| == 0 && r.rows == lab.rows && r.cols == FrameCols(lab.rows, q.conf)
  }

  /** A run whose requests are all answered. A partial paced sweep drops the reference. */
  function Run(lab: Lab, q: Request, stops: nat -> bool): Result {
    var (reference, ok) := Resolve(lab, q);
    if !ok then Failed
    else if q.conf.GatedPrint? then
      var (steps, aborted) := StepsDone(q, stops);
      if steps == 0 then AbortedAtOnce
      else
        var kept := if aborted && steps != q.Steps() then None else reference;
        Finish(lab, q, q.iterations * steps, aborted, kept)
    else
      var (completed, aborted) := Outcome(q.iterations, stops);
      Finish(lab, q, completed, aborted, reference)
  }

  function Finish(lab: Lab, q: Request, frames: nat, aborted: bool, kept: Option<Stored>): Result {
    if kept.Some? && !ChecksPass(lab, q, frames, kept.value.reference) then CorrectionFailed
    else Done(frames, aborted, kept)
  }

  datatype Event = Measure(q: Request, stops: nat -> bool, pixels: seq<seq<nat>>) | Use(q: Request, stops: nat -> bool)

  /** The dark stack a measurement reduces, when the run was not cut short. */
  function DarkStack(lab: Lab, q: Request, pixels: seq<seq<nat>>): Stack {
    Stack(lab.rows, FrameCols(lab.rows, q.conf), pixels)
  }

  /** The frames a measurement delivers: as many as the run reports, all of the run's shape. */
  ghost predicate Delivers(lab: Lab, e: Event) {
    e.Measure? ==>
      && DarkStack(lab, e.q, e.pixels).Valid()
      && (Run(lab, e.q, e.stops).Done? ==> |e.pixels| == Run(lab, e.q, e.stops).frames)
  }

  ghost predicate ValidEvent(lab: Lab, e: Event) {
    e.q.Valid() && (e.Measure? ==> e.q.referenceId.None?) && Delivers(lab, e)
  }

  /** A measurement stores a reference only when the run is done and not aborted. */
  function Apply(lab: Lab, e: Event): Lab
    requires e.Measure? ==> DarkStack(lab, e.q, e.pixels).Valid() && e.q.iterations > 0
  {
    match e
    case Use(_, _) => lab
    case Measure(q, stops, pixels) =>
      var run := Run(lab, q, stops);
      if !run.Done? || run.aborted then lab
      else
        match BuildReference(DarkStack(lab, q, pixels), q.iterations, q.Steps())
        case None => lab
        case Some(r) => Lab(lab.rows, lab.store[lab.nextId := Stored(q.conf, r)], lab.nextId + 1)
  }

  /** The stored reference has the shape of a complete run of its configuration. */
  ghost predicate WellMade(rows: nat, s: Stored) {
    && s.reference.rows == rows && s.reference.cols == FrameCols(rows, s.conf)
    && |s.reference.steps| == (if s.conf.GatedPrint? then s.conf.gateSteps else 1) > 0
  }

  ghost predicate AllWellMade(lab: Lab) {
    forall id :: id in lab.store ==> WellMade(lab.rows, lab.store[id])
  }

  /** An uncut run has exactly the frames the reduction expects. */
  lemma CompleteRunFrames(lab: Lab, q: Request, stops: nat -> bool)
    requires q.Valid() && Run(lab, q, stops).Done? && !Run(lab, q, stops).aborted
    ensures Run(lab, q, stops).frames == q.iterations * q.Steps()
  {
    if q.conf.IntensityPrint? {
      OutcomeBoundaries(q.iterations, stops);
    }
  }

  lemma MeasureKeeps(lab: Lab, e: Event)
    requires ValidEvent(lab, e) && AllWellMade(lab)
    ensures AllWellMade(Apply(lab, e)) && Apply(lab, e).rows == lab.rows
  {
  }

  /** The frame-count check of `build_reference` cannot fail on a completed measurement. */
  lemma BuildNeverFails(lab: Lab, e: Event)
    requires ValidEvent(lab, e) && e.Measure? && Run(lab, e.q, e.stops).Done? && !Run(lab, e.q, e.stops).aborted
    ensures BuildReference(DarkStack(lab, e.q, e.pixels), e.q.iterations, e.q.Steps()).Some?
  {
    CompleteRunFrames(lab, e.q, e.stops);
  }

  lemma WholeSweeps(iterations: nat, steps: nat)
    requires steps > 0
    ensures iterations * steps % steps == 0
  {
    DivModUnique(iterations * steps, steps, iterations, 0);
  }

  /** A correction is applied only with a reference of the same mode and configuration, and to
      whole sweeps; then no shape check fails. */
  lemma UseIsSound(lab: Lab, q: Request, stops: nat -> bool)
    requires q.Valid() && AllWellMade(lab)
    ensures var run := Run(lab, q, stops);
      && run != CorrectionFailed
      && (run.Done? && run.applied.Some? ==>
            && run.applied.value.conf == q.conf
            && ChecksPass(lab, q, run.frames, run.applied.value.reference)
            && (q.conf.GatedPrint? ==> run.frames == q.iterations * q.Steps()))
  {
    WholeSweeps(q.iterations, q.Steps());
    var (reference, ok) := Resolve(lab, q);
    if reference.Some? {
      assert WellMade(lab.rows, reference.value);
    }
  }

  /** The stored reference the request asks for exists and has the request's configuration. */
  predicate Matching(lab: Lab, q: Request) {
    q.referenceId.Some? && q.referenceId.value in lab.store && lab.store[q.referenceId.value].conf == q.conf
  }

  /** A paced sweep that a stop cuts short. */
  predicate CutShort(q: Request, stops: nat -> bool) {
    q.conf.GatedPrint? && q.conf.cooloff > 0.0 && exists i: nat :: i < q.conf.gateSteps - 1 && stops(i)
  }

  /** A run fails exactly when it asks for a reference and none matches; a matching one is applied exactly
      when the run is not a sweep cut short. */
  lemma AppliedExactly(lab: Lab, q: Request, stops: nat -> bool)
    requires q.Valid() && AllWellMade(lab)
    ensures var run := Run(lab, q, stops);
      && (run.Done? && q.conf.IntensityPrint? ==> (run.frames, run.aborted) == Outcome(q.iterations, stops))
      && (run.Done? && q.conf.GatedPrint? ==>
            run.frames == q.iterations * StepsDone(q, stops).0 && run.aborted == CutShort(q, stops))
      && (run == Failed <==> q.referenceId.Some? && !Matching(lab, q))
      && (run != Failed ==> run.Done?)
      && (run.Done? ==> run.applied == if Matching(lab, q) && !CutShort(q, stops)
                                       then Some(lab.store[q.referenceId.value]) else None)
  {
    UseIsSound(lab, q, stops);
    if q.conf.GatedPrint? {
      PacedOutcomeExactly(q.Steps(), stops);
    }
  }

  /** What a measurement leaves in the store: one new reference, built from its frames, exactly when its
      run was done and not aborted. */
  lemma StoresExactly(lab: Lab, e: Event)
    requires ValidEvent(lab, e) && e.Measure?
    ensures var run := Run(lab, e.q, e.stops);
      if run.Done? && !run.aborted
      then
        var built := BuildReference(DarkStack(lab, e.q, e.pixels), e.q.iterations, e.q.Steps());
        built.Some? && Apply(lab, e).store == lab.store[lab.nextId := Stored(e.q.conf, built.value)]
          && Apply(lab, e).nextId == lab.nextId + 1
      else Apply(lab, e) == lab
  {
    if Run(lab, e.q, e.stops).Done? && !Run(lab, e.q, e.stops).aborted {
      BuildNeverFails(lab, e);
    }
  }

  /** The columns a reference must have are those of the frames the bridge decodes. */
  lemma FrameColsDecoded(rows: nat, conf: Fingerprint, chunk: Bytes)
    ensures FrameCols(rows, conf)
      == DecodeOne(chunk, conf.bitDepth, rows, if conf.IntensityPrint? then conf.roiWidth else rows, conf.pileup).cols
  {
  }

  function After(lab: Lab, events: seq<Event>): Lab
    requires ValidRun(lab, events)
    decreases |events|
  {
    if events == [] then lab else After(Apply(lab, events[0]), events[1..])
  }

  ghost predicate ValidRun(lab: Lab, events: seq<Event>)
    decreases |events|
  {
    events != [] ==> ValidEvent(lab, events[0]) && ValidRun(Apply(lab, events[0]), events[1..])
  }

  /** In the state `before` it, event `e` measured a complete run of exactly this configuration,
      and the reference was built from the frames of that run. */
  ghost predicate MeasuredBy(before: Lab, e: Event, s: Stored) {
    && e.Measure? && e.q.conf == s.conf && e.q.iterations > 0
    && Run(before, e.q, e.stops).Done? && !Run(before, e.q, e.stops).aborted
    && DarkStack(before, e.q, e.pixels).Valid()
    && |e.pixels| == e.q.iterations * e.q.Steps()
    && BuildReference(DarkStack(before, e.q, e.pixels), e.q.iterations, e.q.Steps()) == Some(s.reference)
  }

  /** The state in which event `k` happens. */
  function Before(lab: Lab, events: seq<Event>, k: nat): Lab
    requires k < |events| && ValidRun(lab, events)
    decreases |events|
  {
    if k == 0 then lab else Before(Apply(lab, events[0]), events[1..], k - 1)
  }

  lemma ApplyAdds(lab: Lab, e: Event, id: nat)
    requires ValidEvent(lab, e) && id in Apply(lab, e).store
    ensures (id in lab.store && lab.store[id] == Apply(lab, e).store[id]) || MeasuredBy(lab, e, Apply(lab, e).store[id])
  {
    if e.Measure? && Run(lab, e.q, e.stops).Done? && !Run(lab, e.q, e.stops).aborted {
      CompleteRunFrames(lab, e.q, e.stops);
    }
  }

  /** Every stored reference was there at first or was built by a complete measurement of its own
      configuration. */
  lemma {:induction false} Provenance(lab: Lab, events: seq<Event>, id: nat)
    requires ValidRun(lab, events) && id in After(lab, events).store
    ensures var s := After(lab, events).store[id];
      || (id in lab.store && lab.store[id] == s)
      || exists k :: 0 <= k < |events| && MeasuredBy(Before(lab, events, k), events[k], s)
    decreases |events|
  {
    if events != [] {
      var next, rest := Apply(lab, events[0]), events[1..];
      var s := After(lab, events).store[id];
      Provenance(next, rest, id);
      if k :| 0 <= k < |rest| && MeasuredBy(Before(next, rest, k), rest[k], s) {
        assert Before(lab, events, k + 1) == Before(next, rest, k) && events[k + 1] == rest[k];
      } else {
        ApplyAdds(lab, events[0], id);
        assert Before(lab, events, 0) == lab;
      }
    }
  }

  lemma {:induction false} StaysWellMade(lab: Lab, events: seq<Event>)
    requires AllWellMade(lab) && ValidRun(lab, events)
    ensures AllWellMade(After(lab, events)) && After(lab, events).rows == lab.rows
    decreases |events|
  {
    if events != [] {
      MeasureKeeps(lab, events[0]);
      StaysWellMade(Apply(lab, events[0]), events[1..]);
    }
  }

  /** The reference this run applies is the one asked for. */
  lemma AppliedIsStored(lab: Lab, q: Request, stops: nat -> bool)
    ensures var run := Run(lab, q, stops);
      run.Done? && run.applied.Some? ==>
        q.referenceId.Some? && q.referenceId.value in lab.store && run.applied.value == lab.store[q.referenceId.value]
  {
  }

  /** Whatever was measured and used on one sensor, starting from an empty store: no shape check
      fails, and an applied reference was built, in this history, from a complete run of exactly the
      configuration it is applied to, and is applied to whole sweeps. */
  lemma EveryUseIsSound(rows: nat, nextId: nat, events: seq<Event>, q: Request, stops: nat -> bool)
    requires ValidRun(Lab(rows, map[], nextId), events) && q.Valid()
    ensures var lab := After(Lab(rows, map[], nextId), events);
      var run := Run(lab, q, stops);
      && run != CorrectionFailed
      && (run.Done? && run.applied.Some? ==>
            && run.applied.value.conf == q.conf
            && (exists k :: 0 <= k < |events| &&
                 MeasuredBy(Before(Lab(rows, map[], nextId), events, k), events[k], run.applied.value))
            && ChecksPass(lab, q, run.frames, run.applied.value.reference)
            && (q.conf.GatedPrint? ==> run.frames == q.iterations * q.Steps()))
  {
    var empty := Lab(rows, map[], nextId);
    StaysWellMade(empty, events);
    var lab := After(empty, events);
    UseIsSound(lab, q, stops);
    AppliedIsStored(lab, q, stops);
    var run := Run(lab, q, stops);
    if run.Done? && run.applied.Some? {
      Provenance(empty, events, q.referenceId.value);
    }
  }
}
