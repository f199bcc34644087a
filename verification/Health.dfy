/** The health monitor: auto-protection and alarms (health.py). What a poll meets is an event;
    a poll is one step, since it does not wait between evaluating alarms and noting them. */
module Health {
  import opened Histories
  import opened Instrument
  import opened Options

  datatype Config = Config(tempThreshold: real, vexMax: real, expectedLaser: real, laserTolerance: real,
          missingLaser: real)

  datatype Readings = Readings(tempChip: real, cooling: bool, laser: real, saturated: bool, vex: real, valid: bool,
          vexReduced: bool)

  datatype Alarm = OverTemperature | CoolingFailure | MissingLaser | AbnormalLaser | Overexposure | VexReduced

  /** What asking the instrument gives: a failed request keeps the old values, a missing
      connection makes them invalid. */
  datatype Sample = Failed | NoConnection | Values(tempChip: real, cooling: bool, laser: real, saturated: bool,
          vex: real)

  /** One poll: whether it is forced, whether the instrument is busy when it begins and again when
      it protects, what reading it would give, and whether the vendor accepts a new bias. */
  datatype Event =
    | Poll(force: bool, busyFirst: bool, busy: bool, sample: Sample, connected: bool, accepts: bool)
    | ManualVex

  datatype Monitor = Monitor(readings: Readings, active: set<Alarm>)

  /** What a poll does besides: the alarms it broadcasts, the bias it commands, the stop it asks for. */
  datatype Effect = Effect(broadcast: set<Alarm>, vexSet: bool, stop: bool)

  function Refreshed(r: Readings, e: Event): Readings
    requires e.Poll?
  {
    if !e.force && e.busyFirst then r
    else
      match e.sample
      case Failed => r
      case NoConnection => r.(valid := false)
      case Values(temp, cooling, laser, saturated, vex) =>
        Readings(temp, cooling, laser, saturated, vex, true, r.vexReduced)
  }

  predicate Hot(r: Readings, cfg: Config) {
    r.valid && r.tempChip > cfg.tempThreshold
  }

  predicate OverBiased(r: Readings, cfg: Config) {
    r.valid && r.vex > cfg.vexMax
  }

  /** The safe bias goes out only when the socket is free. */
  predicate Commands(r: Readings, cfg: Config, e: Event)
    requires e.Poll?
  {
    OverBiased(r, cfg) && !e.busy && e.connected && e.accepts
  }

  function Protected(r: Readings, cfg: Config, e: Event): Readings
    requires e.Poll?
  {
    if !OverBiased(r, cfg) then r
    else if Commands(r, cfg, e) then r.(vex := cfg.vexMax, vexReduced := true)
    else r.(vexReduced := true)
  }

  function Abs(x: real): real {
    if x < 0.0 then -x else x
  }

  predicate LaserInRange(freq: real, cfg: Config) {
    cfg.expectedLaser * (1.0 - cfg.laserTolerance) <= freq <= cfg.expectedLaser * (1.0 + cfg.laserTolerance)
  }

  function Alarms(r: Readings, cfg: Config): set<Alarm> {
    (if Hot(r, cfg) then {OverTemperature} else {})
    + (if r.valid && !r.cooling then {CoolingFailure} else {})
    + (if !r.valid then {} else if Abs(r.laser) <= cfg.missingLaser then {MissingLaser}
       else if !LaserInRange(r.laser, cfg) then {AbnormalLaser} else {})
    + (if r.valid && r.saturated then {Overexposure} else {})
    + (if r.vexReduced then {VexReduced} else {})
  }

  /** One event, and what it does. */
  function Stepped(m: Monitor, cfg: Config, e: Event): (Monitor, Effect) {
    match e
    case ManualVex => (m.(readings := m.readings.(vexReduced := false)), Effect({}, false, false))
    case Poll(_, _, busy, _, _, _) =>
      var read := Refreshed(m.readings, e);
      var r := Protected(read, cfg, e);
      (Monitor(r, Alarms(r, cfg)), Effect(Alarms(r, cfg) - m.active, Commands(read, cfg, e), Hot(read, cfg) && busy))
  }

  class HealthMonitor {
    const config: Config
    const instrument: InstrumentState
    var readings: Readings
    var alarms: set<Alarm>
    var active: set<Alarm>

    constructor (config: Config, instrument: InstrumentState)
      ensures this.config == config && this.instrument == instrument
      ensures Value() == Start()
    {
      this.config, this.instrument := config, instrument;
      readings, alarms, active := Start().readings, {}, {};
    }

    ghost function Value(): Monitor
      reads this
    {
      Monitor(readings, active)
    }

    method ReadInstrument(e: Event)
      requires e.Poll? && (e.force || !e.busyFirst)
      modifies this`readings
      ensures readings == Refreshed(old(readings), e)
    {
      match e.sample {
        case Failed =>
        case NoConnection => readings := readings.(valid := false);
        case Values(temp, cooling, laser, saturated, vex) =>
          readings := Readings(temp, cooling, laser, saturated, vex, true, readings.vexReduced);
      }
    }

    method ApplyAutoProtect(e: Event) returns (vexSet: bool)
      requires e.Poll? && e.busy == instrument.Value().IsBusy()
      modifies this`readings, instrument
      ensures readings == Protected(old(readings), config, e) && vexSet == Commands(old(readings), config, e)
      ensures instrument.Value() == if Hot(old(readings), config) && e.busy
                                    then old(instrument.Value()).RequestStop(Some("over_temperature"))
                                    else old(instrument.Value())
    {
      vexSet := false;
      if readings.valid && readings.tempChip > config.tempThreshold && e.busy {
        instrument.RequestStop(Some("over_temperature"));
      }
      if readings.valid && readings.vex > config.vexMax {
        if !e.busy && e.connected && e.accepts {
          vexSet := true;
          readings := readings.(vex := config.vexMax);
        }
        readings := readings.(vexReduced := true);
      }
    }

    method EvaluateAlarms()
      modifies this`alarms
      ensures alarms == Alarms(readings, config)
    {
      var r := readings;
      alarms := {};
      if r.valid && r.tempChip > config.tempThreshold {
        alarms := alarms + {OverTemperature};
      }
      if r.valid && !r.cooling {
        alarms := alarms + {CoolingFailure};
      }
      if r.valid && Abs(r.laser) <= config.missingLaser {
        alarms := alarms + {MissingLaser};
      } else if r.valid && !LaserInRange(r.laser, config) {
        alarms := alarms + {AbnormalLaser};
      }
      if r.valid && r.saturated {
        alarms := alarms + {Overexposure};
      }
      if r.vexReduced {
        alarms := alarms + {VexReduced};
      }
    }

    /** `e` is what the poll meets. */
    method PollOnce(e: Event) returns (effect: Effect)
      requires e.Poll? && e.busy == instrument.Value().IsBusy()
      modifies this, instrument
      ensures (Value(), effect) == Stepped(old(Value()), config, e)
      ensures instrument.Value() == if effect.stop then old(instrument.Value()).RequestStop(Some("over_temperature"))
                                    else old(instrument.Value())
    {
      if e.force || !e.busyFirst {
        ReadInstrument(e);
      }
      var stop := readings.valid && readings.tempChip > config.tempThreshold && e.busy;
      var vexSet := ApplyAutoProtect(e);
      EvaluateAlarms();
      effect := Effect(alarms - active, vexSet, stop);
      active := alarms;
    }

    method ClearVexReduced()
      modifies this`readings
      ensures (Value(), Effect({}, false, false)) == Stepped(old(Value()), config, ManualVex)
    {
      readings := readings.(vexReduced := false);
    }
  }

  // ----- Runs -----

  function Start(): Monitor {
    Monitor(Readings(0.0, true, 0.0, false, 0.0, false, false), {})
  }

  /** The monitor after the first `n` events. */
  function After(cfg: Config, events: seq<Event>, n: nat): Monitor
    requires n <= |events|
  {
    if n == 0 then Start() else Stepped(After(cfg, events, n - 1), cfg, events[n - 1]).0
  }

  function EffectAt(cfg: Config, events: seq<Event>, k: nat): Effect
    requires k < |events|
  {
    Stepped(After(cfg, events, k), cfg, events[k]).1
  }

  /** What an alarm warns of. */
  predicate Warrants(r: Readings, cfg: Config, a: Alarm) {
    match a
    case OverTemperature => r.valid && r.tempChip > cfg.tempThreshold
    case CoolingFailure => r.valid && !r.cooling
    case MissingLaser => r.valid && -cfg.missingLaser <= r.laser <= cfg.missingLaser
    case AbnormalLaser =>
      && r.valid && Abs(r.laser) > cfg.missingLaser
      && Abs(r.laser - cfg.expectedLaser) > cfg.expectedLaser * cfg.laserTolerance
    case Overexposure => r.valid && r.saturated
    case VexReduced => r.vexReduced
  }

  lemma LaserDeviation(freq: real, cfg: Config)
    ensures LaserInRange(freq, cfg) <==> Abs(freq - cfg.expectedLaser) <= cfg.expectedLaser * cfg.laserTolerance
  {
    var e, d := cfg.expectedLaser, cfg.expectedLaser * cfg.laserTolerance;
    assert e * (1.0 - cfg.laserTolerance) == e - d && e * (1.0 + cfg.laserTolerance) == e + d;
  }

  /** After a poll exactly the alarms that its readings warrant are in force: a laser that deviates from
      the expected frequency by more than the tolerance is abnormal unless it is missing. */
  lemma RaisedExactly(cfg: Config, events: seq<Event>, k: nat, a: Alarm)
    requires k < |events| && events[k].Poll?
    ensures a in After(cfg, events, k + 1).active <==> Warrants(After(cfg, events, k + 1).readings, cfg, a)
  {
    LaserDeviation(After(cfg, events, k + 1).readings.laser, cfg);
  }

  /** The readings after a poll: those taken, if any were, the bias lowered to the limit if it was
      commanded; a poll that finds the instrument busy takes none unless it is forced. */
  lemma ReadingsExactly(cfg: Config, events: seq<Event>, k: nat)
    requires k < |events| && events[k].Poll?
    ensures var e, r, before := events[k], After(cfg, events, k + 1).readings, After(cfg, events, k).readings;
      var taken := (e.force || !e.busyFirst) && e.sample.Values?;
      && (taken ==> r.valid && r.tempChip == e.sample.tempChip && r.cooling == e.sample.cooling
                    && r.laser == e.sample.laser && r.saturated == e.sample.saturated)
      && (!taken ==> r.tempChip == before.tempChip && r.cooling == before.cooling && r.laser == before.laser
                     && r.saturated == before.saturated)
      && (!taken ==> (r.valid <==> before.valid && !((e.force || !e.busyFirst) && e.sample.NoConnection?)))
      && r.vex == if EffectAt(cfg, events, k).vexSet then cfg.vexMax
                  else if taken then e.sample.vex else before.vex
  {
  }

  /** A stop is asked for exactly when valid readings are too hot while the instrument is busy; a lower
      bias is commanded exactly when they show it above the limit and the socket is free. */
  lemma ProtectsExactly(cfg: Config, events: seq<Event>, k: nat)
    requires k < |events| && events[k].Poll?
    ensures var e, r, effect := events[k], After(cfg, events, k + 1).readings, EffectAt(cfg, events, k);
      && (effect.stop <==> r.valid && r.tempChip > cfg.tempThreshold && e.busy)
      && (effect.vexSet ==> r.valid && !e.busy && e.connected && e.accepts && r.vex == cfg.vexMax && r.vexReduced)
      && (!effect.vexSet && r.valid && r.vex > cfg.vexMax ==> e.busy || !e.connected || !e.accepts)
  {
  }

  /** Event `k` is a poll that finds the bias too high. */
  predicate Intervenes(cfg: Config, events: seq<Event>, k: nat)
    requires k < |events|
  {
    events[k].Poll? && OverBiased(Refreshed(After(cfg, events, k).readings, events[k]), cfg)
  }

  /** After the first `i` events the warning that protection has intervened is on. */
  function Latched(cfg: Config, events: seq<Event>): nat -> bool {
    (i: nat) => i <= |events| && After(cfg, events, i).readings.vexReduced
  }

  function Intervening(cfg: Config, events: seq<Event>): nat -> bool {
    (k: nat) => k < |events| && Intervenes(cfg, events, k)
  }

  function SetByHand(events: seq<Event>): nat -> bool {
    (k: nat) => k < |events| && events[k].ManualVex?
  }

  lemma LatchStep(cfg: Config, events: seq<Event>, k: nat)
    requires k < |events|
    ensures Latched(cfg, events)(k + 1) <==>
      Intervening(cfg, events)(k) || (Latched(cfg, events)(k) && !SetByHand(events)(k))
  {
  }

  /** The warning says exactly that auto-protection has intervened since the bias was last set by
      hand. */
  lemma LatchExactly(cfg: Config, events: seq<Event>, n: nat)
    requires n <= |events|
    ensures Latched(cfg, events)(n) <==>
      exists k: nat :: k < n && Intervening(cfg, events)(k) && NoneBetween(SetByHand(events), k, n)
  {
    forall k: nat | k < n
      ensures Latched(cfg, events)(k + 1) <==>
        Intervening(cfg, events)(k) || (Latched(cfg, events)(k) && !SetByHand(events)(k))
    {
      LatchStep(cfg, events, k);
    }
    LatchedSince(Latched(cfg, events), Intervening(cfg, events), SetByHand(events), n);
  }

  /** After the first `n` events the alarm is noted as in force. */
  predicate Raised(cfg: Config, events: seq<Event>, a: Alarm, n: nat)
    requires n <= |events|
  {
    a in After(cfg, events, n).active
  }

  function RaisedAt(cfg: Config, events: seq<Event>, a: Alarm): nat -> bool {
    (i: nat) => i <= |events| && Raised(cfg, events, a, i)
  }

  function BroadcastAt(cfg: Config, events: seq<Event>, a: Alarm): nat -> bool {
    (k: nat) => k < |events| && a in EffectAt(cfg, events, k).broadcast
  }

  /** The alarms in force are exactly those broadcast and not lowered since, each broadcast once: a
      client that hears the broadcasts hears of every alarm, and of none twice while it lasts. */
  lemma BroadcastsTellAlarms(cfg: Config, events: seq<Event>, a: Alarm, n: nat)
    requires n <= |events|
    ensures Raised(cfg, events, a, n) <==>
      exists k: nat :: k < n && BroadcastAt(cfg, events, a)(k) && HoldsThroughout(RaisedAt(cfg, events, a), k, n)
    ensures forall k: nat :: k < n && BroadcastAt(cfg, events, a)(k) ==> !Raised(cfg, events, a, k)
  {
    forall k: nat | k < n
      ensures BroadcastAt(cfg, events, a)(k) <==> !RaisedAt(cfg, events, a)(k) && RaisedAt(cfg, events, a)(k + 1)
    {
      BroadcastExactly(cfg, events, a, k);
    }
    LastRise(RaisedAt(cfg, events, a), BroadcastAt(cfg, events, a), n);
  }

  /** An alarm is broadcast by the poll that raises it, and by no other. */
  lemma BroadcastExactly(cfg: Config, events: seq<Event>, a: Alarm, k: nat)
    requires k < |events|
    ensures a in EffectAt(cfg, events, k).broadcast <==> !Raised(cfg, events, a, k) && Raised(cfg, events, a, k + 1)
  {
  }

  /** The safe bias is commanded only to a free socket; afterwards the known bias is within the
      limit, so no poll commands it again until a reading says otherwise. */
  lemma BiasSettles(cfg: Config, events: seq<Event>, k: nat)
    requires k + 1 < |events| && EffectAt(cfg, events, k).vexSet
    ensures events[k].Poll? && !events[k].busy && !OverBiased(After(cfg, events, k + 1).readings, cfg)
    ensures events[k + 1].Poll? && !events[k + 1].sample.Values? ==> !EffectAt(cfg, events, k + 1).vexSet
  {
  }
}
