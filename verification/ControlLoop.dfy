/** The controller's cycle: snapshot, mode ladder, control law, publishing. */
module ControlLoop {
  import opened Common
  import opened EdgeController
  import opened Modes
  import opened Droop
  import opened Setpoints

  datatype Snapshot = Snapshot(aggregates: map<AssetClass, PointValues>, pcc: PointValues)

  datatype CycleResult = CycleResult(
    mode: Mode, modeChanged: bool, reason: Reason, setpoint: real, reactive: real, derate: real, curtail: real,
    error: real, piOutput: real, dataFresh: bool, batteryOk: bool, published: seq<AssetClass>)

  datatype Published = Published(assetClass: AssetClass, points: Points)

  datatype LoopConfig = LoopConfig(
    control: Config, holdMax: real, droop: Option<DroopController>, maxFeed: Option<real>, target: real)

  ghost predicate ValidLoop(c: LoopConfig) {
    ValidConfig(c.control) && c.holdMax >= 0.0 && (c.droop.Some? ==> ValidDroop(c.droop.value))
  }

  // ------------------------------------------------------------ judging the snapshot

  const PCC_V_MIN := 50.0
  const PCC_F_MIN := 45.0
  const PCC_F_MAX := 55.0

  function Get<T>(m: map<string, T>, k: string): Option<T> { if k in m then Some(m[k]) else None }

  function Val(pv: Option<PointValue>, default: real): real {
    if pv.Some? && pv.value.value.Some? then pv.value.value.value else default
  }

  predicate Fresh(pv: Option<PointValue>) { pv.Some? && pv.value.value.Some? && pv.value.quality == Good }

  predicate PccPlausible(volt: Option<PointValue>, freq: Option<PointValue>) {
    Fresh(volt) && Val(volt, 0.0) >= PCC_V_MIN && Fresh(freq) && PCC_F_MIN <= Val(freq, 0.0) <= PCC_F_MAX
  }

  predicate BatteryOk(batt: PointValues) {
    var soc, alarm := Get(batt, "soc_pct"), Get(batt, "converter_alarm");
    && soc.Some? && soc.value.value.Some? && soc.value.quality != CommFail
    && !(alarm.Some? && alarm.value.quality == Good && alarm.value.value.Some? && alarm.value.value.value != 0.0)
  }

  datatype Assembled = Assembled(inputs: ControlInputs, freq: real, volt: real, dataFresh: bool, batteryOk: bool)

  function Assemble(snap: Snapshot, c: LoopConfig): Assembled {
    var batt := if Battery in snap.aggregates then snap.aggregates[Battery] else map[];
    var pv := if Pv in snap.aggregates then snap.aggregates[Pv] else map[];
    var soc, pccP := Get(batt, "soc_pct"), Get(snap.pcc, "active_power_kw");
    var charge, discharge := Get(batt, "available_charge_power_kw"), Get(batt, "available_discharge_power_kw");
    var volt, freq := Get(snap.pcc, "voltage_v"), Get(snap.pcc, "frequency_hz");
    var ok := BatteryOk(batt);
    Assembled(
      ControlInputs(Val(pccP, 0.0), c.target, Val(soc, 0.0), Val(charge, 0.0), Val(discharge, 0.0),
                    Val(Get(pv, "active_power_kw"), 0.0), c.maxFeed),
      Val(freq, 50.0), Val(volt, 230.0),
      PccPlausible(volt, freq) && ok && Fresh(pccP) && Fresh(soc) && Fresh(charge) && Fresh(discharge),
      ok)
  }

  function Observe(a: Assembled, now: real): Observation { Observation(a.dataFresh, a.batteryOk, now) }

  // ------------------------------------------------------------ one cycle

  datatype LoopState = LoopState(
    edge: ControlState, mode: ModeState, lastReactive: real, lastPub: map<AssetClass, real>)

  const START := LoopState(INITIAL, ModeState(Mode.Run, None), 0.0, map[])

  /** The commands a cycle decides on, and the control state it leaves. */
  datatype Command = Command(setpoint: real, reactive: real, derate: real, curtail: real,
                             error: real, piOutput: real, edge: ControlState)

  ghost function Decide(c: LoopConfig, edge: ControlState, lastReactive: real, a: Assembled, mode: Mode): Command
    requires ValidLoop(c)
  {
    match mode
    case Run =>
      var corr := if c.droop.Some? && DroopEnabled(c.droop.value) then CorrectionOf(c.droop.value, a.freq, a.volt)
                  else DroopCorrection(0.0, 0.0);
      var out := Compute(a.inputs.(pccSetpoint := c.target + corr.dp), c.control, edge);
      Command(out.setpoint, corr.dq, out.derate, out.curtail, out.error, out.piOutput, out.state)
    case Hold =>
      Command(edge.lastSetpoint, lastReactive, edge.derate, edge.curtail,
              a.inputs.pccSetpoint - a.inputs.pccMeas, 0.0, edge)
    case Safe =>
      var sp := SafeSetpoint(edge.lastSetpoint, c.control.params.slewLimit, c.control.params.updatePeriod);
      Command(sp, 0.0, 1.0, 1.0, a.inputs.pccSetpoint - a.inputs.pccMeas, 0.0, ControlState(0.0, sp, 1.0, 1.0))
  }

  /** What a cycle tells the devices. */
  datatype Outputs = Outputs(setpoint: real, reactive: real, derate: real, curtail: real)

  ghost function Told(cmd: Command): Outputs { Outputs(cmd.setpoint, cmd.reactive, cmd.derate, cmd.curtail) }

  predicate Changed(lastPub: map<AssetClass, real>, assetClass: AssetClass, factor: real) {
    !(assetClass in lastPub && lastPub[assetClass] == factor)
  }

  /** The messages of one cycle: the battery always, the factors when they changed. */
  ghost function Messages(lastPub: map<AssetClass, real>, cmd: Command): seq<Published> {
    [Published(Battery, map[ActivePower := cmd.setpoint, ReactivePower := cmd.reactive])]
    + (if Changed(lastPub, Pv, cmd.curtail) then [Published(Pv, map[DerateFactor := cmd.curtail])] else [])
    + (if Changed(lastPub, FlexibleLoad, cmd.derate) then [Published(FlexibleLoad, map[DerateFactor := cmd.derate])]
       else [])
  }

  datatype Cycle = Cycle(snap: Snapshot, now: real)

  ghost function NextMode(c: LoopConfig, s: LoopState, y: Cycle): ModeState {
    Advance(c.holdMax, s.mode, Observe(Assemble(y.snap, c), y.now)).0
  }

  ghost function ReasonOf(c: LoopConfig, s: LoopState, y: Cycle): Reason {
    Advance(c.holdMax, s.mode, Observe(Assemble(y.snap, c), y.now)).1
  }

  ghost function CommandOf(c: LoopConfig, s: LoopState, y: Cycle): Command
    requires ValidLoop(c)
  {
    Decide(c, s.edge, s.lastReactive, Assemble(y.snap, c), NextMode(c, s, y).mode)
  }

  ghost function Next(c: LoopConfig, s: LoopState, y: Cycle): LoopState
    requires ValidLoop(c)
  {
    var cmd := CommandOf(c, s, y);
    LoopState(cmd.edge, NextMode(c, s, y), cmd.reactive,
              s.lastPub[Pv := cmd.curtail][FlexibleLoad := cmd.derate])
  }

  ghost function Classes(out: seq<Published>): seq<AssetClass> {
    seq(|out|, i requires 0 <= i < |out| => out[i].assetClass)
  }

  class ControlLoop {
    const cfg: LoopConfig
    const edge: EdgeController
    const modes: ModeController
    var lastReactive: real
    var lastPub: map<AssetClass, real>
    var outbox: seq<Published>  // everything handed to the injected publisher

    constructor (cfg: LoopConfig)
      requires ValidLoop(cfg)
      ensures Valid() && this.cfg == cfg && fresh(edge) && fresh(modes)
      ensures State() == START && outbox == []
    {
      this.cfg := cfg;
      edge := new EdgeController(cfg.control, INITIAL);
      modes := new ModeController(cfg.holdMax, Mode.Run);
      lastReactive, lastPub, outbox := 0.0, map[], [];
    }

    ghost predicate Valid() {
      ValidLoop(cfg) && edge.config == cfg.control && modes.holdMax == cfg.holdMax
    }

    ghost function State(): LoopState
      reads this, edge, modes
    {
      LoopState(edge.state, modes.State(), lastReactive, lastPub)
    }

    method RunOnce(snap: Snapshot, now: real) returns (r: CycleResult)
      requires Valid()
      modifies this, edge, modes
      ensures Valid()
      ensures State() == Next(cfg, old(State()), Cycle(snap, now))
      ensures var cmd := CommandOf(cfg, old(State()), Cycle(snap, now));
        && outbox == old(outbox) + Messages(old(lastPub), cmd)
        && r.mode == modes.mode && r.modeChanged == (modes.mode != old(modes.mode))
        && Told(cmd) == Outputs(r.setpoint, r.reactive, r.derate, r.curtail)
        && r.error == cmd.error && r.piOutput == cmd.piOutput
        && r.reason == ReasonOf(cfg, old(State()), Cycle(snap, now))
        && r.dataFresh == Assemble(snap, cfg).dataFresh && r.batteryOk == Assemble(snap, cfg).batteryOk
        && r.published == Classes(Messages(old(lastPub), cmd))
    {
      hide Decide, Assemble, ValidDroop, ValidConfig, Advance;
      var a := Assemble(snap, cfg);
      var decision := modes.Update(Observe(a, now));
      var cmd := Execute(a, decision.mode);
      var published := Publish(cmd);
      r := CycleResult(decision.mode, decision.changed, decision.reason, cmd.setpoint, cmd.reactive, cmd.derate,
                       cmd.curtail, cmd.error, cmd.piOutput, a.dataFresh, a.batteryOk, published);
    }

    /** The mode's branch: what to command, with the control state advanced. */
    method Execute(a: Assembled, mode: Mode) returns (cmd: Command)
      requires Valid()
      modifies edge
      ensures cmd == Decide(cfg, old(edge.state), lastReactive, a, mode) && edge.state == cmd.edge
    {
      hide Compute, CorrectionOf, SafeSetpoint, ValidDroop, ValidConfig;
      match mode {
        case Run =>
          var dp, dq := 0.0, 0.0;
          if cfg.droop.Some? && DroopEnabled(cfg.droop.value) {
            var corr := Correction(cfg.droop.value, a.freq, a.volt);
            dp, dq := corr.dp, corr.dq;
          }
          var out := edge.Step(a.inputs.(pccSetpoint := cfg.target + dp));
          cmd := Command(out.setpoint, dq, out.derate, out.curtail, out.error, out.piOutput, out.state);
        case Hold =>
          var st := edge.state;
          cmd := Command(st.lastSetpoint, lastReactive, st.derate, st.curtail,
                         a.inputs.pccSetpoint - a.inputs.pccMeas, 0.0, st);
        case Safe =>
          var sp := SafeSetpoint(edge.state.lastSetpoint, cfg.control.params.slewLimit,
                                 cfg.control.params.updatePeriod);
          edge.Reset(Some(edge.state.(integral := 0.0, lastSetpoint := sp, derate := 1.0, curtail := 1.0)));
          cmd := Command(sp, 0.0, 1.0, 1.0, a.inputs.pccSetpoint - a.inputs.pccMeas, 0.0, edge.state);
      }
    }

    /** The battery every cycle, the factors on change. */
    method Publish(cmd: Command) returns (published: seq<AssetClass>)
      modifies this
      ensures outbox == old(outbox) + Messages(old(lastPub), cmd)
      ensures published == Classes(Messages(old(lastPub), cmd))
      ensures lastReactive == cmd.reactive
      ensures lastPub == old(lastPub)[Pv := cmd.curtail][FlexibleLoad := cmd.derate]
    {
      outbox := outbox + [Published(Battery, map[ActivePower := cmd.setpoint, ReactivePower := cmd.reactive])];
      published := [Battery];
      lastReactive := cmd.reactive;
      var sentPv := PublishIfChanged(Pv, cmd.curtail);
      if sentPv { published := published + [Pv]; }
      var sentLoad := PublishIfChanged(FlexibleLoad, cmd.derate);
      if sentLoad { published := published + [FlexibleLoad]; }
      assert Changed(old(lastPub)[Pv := cmd.curtail], FlexibleLoad, cmd.derate)
        == Changed(old(lastPub), FlexibleLoad, cmd.derate);
    }

    method PublishIfChanged(assetClass: AssetClass, factor: real) returns (sent: bool)
      modifies this`lastPub, this`outbox
      ensures sent == Changed(old(lastPub), assetClass, factor)
      ensures lastPub == old(lastPub)[assetClass := factor]
      ensures outbox == old(outbox) + if sent then [Published(assetClass, map[DerateFactor := factor])] else []
    {
      if assetClass in lastPub && lastPub[assetClass] == factor {
        return false;
      }
      outbox := outbox + [Published(assetClass, map[DerateFactor := factor])];
      lastPub := lastPub[assetClass := factor];
      return true;
    }
  }

  lemma OutputsAreState(i: ControlInputs, c: Config, s: ControlState)
    ensures var out := Compute(i, c, s);
      out.state.lastSetpoint == out.setpoint && out.state.derate == out.derate && out.state.curtail == out.curtail
  {
    hide Curtail, Slew, Pi, DerateTarget, Window;
  }

  // ------------------------------------------------------------ whole runs

  ghost function Run(c: LoopConfig, ys: seq<Cycle>): LoopState
    requires ValidLoop(c)
  {
    if ys == [] then START else Next(c, Run(c, ys[..|ys| - 1]), ys[|ys| - 1])
  }

  /** The command of the last cycle of a non-empty run. */
  ghost function Last(c: LoopConfig, ys: seq<Cycle>): Command
    requires ValidLoop(c) && ys != []
  {
    CommandOf(c, Run(c, ys[..|ys| - 1]), ys[|ys| - 1])
  }

  /** What every cycle of every mode keeps, and what it does to the command. */
  lemma CycleSafe(c: LoopConfig, s: LoopState, y: Cycle)
    requires ValidLoop(c) && ValidGains(c.control.params) && Bounded(c.control, s.edge)
    ensures Bounded(c.control, Next(c, s, y).edge)
    ensures var cmd := CommandOf(c, s, y);
      && cmd.edge.lastSetpoint == cmd.setpoint && cmd.edge.derate == cmd.derate && cmd.edge.curtail == cmd.curtail
      && (c.control.params.slewLimit.Some? ==>
            Abs(cmd.setpoint - s.edge.lastSetpoint) <= SlewStep(c.control.params))
  {
    hide Compute, CorrectionOf, Assemble, ValidDroop, Advance;
    var a, mode := Assemble(y.snap, c), NextMode(c, s, y).mode;
    match mode {
      case Run =>
        var corr := if c.droop.Some? && DroopEnabled(c.droop.value) then CorrectionOf(c.droop.value, a.freq, a.volt)
                    else DroopCorrection(0.0, 0.0);
        var i := a.inputs.(pccSetpoint := c.target + corr.dp);
        ComputeKeepsBounded(i, c.control, s.edge);
        OutputsAreState(i, c.control, s.edge);
        RunSlewed(i, c.control, s.edge);
      case Hold =>
        SlewStepNonNegative(c.control);
      case Safe =>
        SafeWithin(c.control, s.edge.lastSetpoint);
        ZeroBounded(c.control, SafeSetpoint(s.edge.lastSetpoint, c.control.params.slewLimit,
                                            c.control.params.updatePeriod));
    }
  }

  ghost function SlewStep(p: ControlParams): real
    requires p.slewLimit.Some?
  { p.slewLimit.value * p.updatePeriod }

  lemma SlewStepNonNegative(c: Config)
    requires ValidConfig(c)
    ensures c.params.slewLimit.Some? ==> SlewStep(c.params) > 0.0
  {
    if c.params.slewLimit.Some? {
      MulLt(c.params.slewLimit.value, 0.0, c.params.updatePeriod);
    }
  }

  lemma RunSlewed(i: ControlInputs, c: Config, s: ControlState)
    requires ValidConfig(c)
    ensures c.params.slewLimit.Some? ==> Abs(Compute(i, c, s).setpoint - s.lastSetpoint) <= SlewStep(c.params)
  {
    var (lower, upper) := Window(i, c.battery);
    hide Curtail, Pi, Slew, DerateTarget, Window;
    SlewBetween(c, Clamp(Compute(i, c, s).piOutput, lower, upper), s.lastSetpoint);
  }

  lemma SafeWithin(c: Config, last: real)
    requires ValidConfig(c)
    ensures var next := SafeSetpoint(last, c.params.slewLimit, c.params.updatePeriod);
      && Toward(next, last)
      && (c.params.slewLimit.Some? ==> Abs(next - last) <= SlewStep(c.params))
  {
    SlewStepNonNegative(c);
  }

  lemma ZeroBounded(c: Config, sp: real)
    requires ValidConfig(c) && Between(-c.battery.maxDischarge, sp, c.battery.maxCharge)
    ensures Bounded(c, ControlState(0.0, sp, 1.0, 1.0))
  {
    assert Contribution(c.params, 0.0) == 0.0;
  }

  /** Over every run, whatever the snapshots, the clock and the path through the modes: the published
      battery command is the stored one and inside the static limits, the integral contribution and
      both factors are inside theirs, and with a slew limit consecutive commands differ by at most
      one step. */
  lemma {:induction false} RunSafe(c: LoopConfig, ys: seq<Cycle>)
    requires ValidLoop(c) && ValidGains(c.control.params)
    ensures Bounded(c.control, Run(c, ys).edge)
    ensures ys != [] ==>
      var cmd, before := Last(c, ys), Run(c, ys[..|ys| - 1]).edge.lastSetpoint;
      && cmd.setpoint == Run(c, ys).edge.lastSetpoint
      && Between(-c.control.battery.maxDischarge, cmd.setpoint, c.control.battery.maxCharge)
      && (c.control.params.slewLimit.Some? ==> Abs(cmd.setpoint - before) <= SlewStep(c.control.params))
  {
    hide CommandOf, SlewStep;
    if ys == [] {
      ZeroBounded(c.control, 0.0);
    } else {
      RunSafe(c, ys[..|ys| - 1]);
      CycleSafe(c, Run(c, ys[..|ys| - 1]), ys[|ys| - 1]);
    }
  }

  /** The observations a run made. */
  ghost function History(c: LoopConfig, ys: seq<Cycle>): (h: seq<Observation>)
    ensures |h| == |ys|
  {
    if ys == [] then []
    else History(c, ys[..|ys| - 1]) + [Observe(Assemble(ys[|ys| - 1].snap, c), ys[|ys| - 1].now)]
  }

  lemma {:induction false} RunModeIsHistory(c: LoopConfig, ys: seq<Cycle>)
    requires ValidLoop(c)
    ensures Run(c, ys).mode == After(c.holdMax, History(c, ys))
    ensures Run(c, ys).mode.mode == ModeOf(c.holdMax, History(c, ys))
  {
    hide CommandOf, Advance, Assemble;
    ModeIsHistory(c.holdMax, History(c, ys));
    if ys != [] {
      RunModeIsHistory(c, ys[..|ys| - 1]);
      var h := History(c, ys[..|ys| - 1]);
      assert History(c, ys)[..|h|] == h;
    }
  }

  /** Grid support reaches the devices: at a higher frequency and voltage a RUN cycle aims at no lower
      PCC power and commands no lower reactive power, everything else being equal. */
  lemma DroopRaisesTargets(c: LoopConfig, s: LoopState, y: Cycle, y': Cycle)
    requires ValidLoop(c) && NextMode(c, s, y).mode == Mode.Run && NextMode(c, s, y').mode == Mode.Run
    requires var a, a' := Assemble(y.snap, c), Assemble(y'.snap, c);
      a.inputs.pccMeas == a'.inputs.pccMeas && a.freq <= a'.freq && a.volt <= a'.volt
    ensures CommandOf(c, s, y).error <= CommandOf(c, s, y').error
    ensures CommandOf(c, s, y).reactive <= CommandOf(c, s, y').reactive
  {
    hide Assemble, CorrectionOf, Curtail, Slew, Pi, DerateTarget, Window;
    var a, a' := Assemble(y.snap, c), Assemble(y'.snap, c);
    AssembledTarget(y.snap, c);
    AssembledTarget(y'.snap, c);
    if c.droop.Some? && DroopEnabled(c.droop.value) {
      CorrectionMonotone(c.droop.value, a.freq, a'.freq, a.volt, a'.volt);
    }
  }

  lemma AssembledTarget(snap: Snapshot, c: LoopConfig)
    ensures Assemble(snap, c).inputs.pccSetpoint == c.target
  {}

  /** A point that was read, and is good. */
  ghost predicate Trusted(points: PointValues, name: string) {
    name in points && points[name].quality == Good && points[name].value.Some?
  }

  ghost predicate TrustedBetween(points: PointValues, name: string, lo: real, up: Option<real>) {
    Trusted(points, name) && lo <= points[name].value.value && (up.Some? ==> points[name].value.value <= up.value)
  }

  /** A grid that is there, every controlled input measured, and no converter alarm. */
  ghost predicate TrustedSnapshot(snap: Snapshot) {
    && TrustedBetween(snap.pcc, "voltage_v", 50.0, None)
    && TrustedBetween(snap.pcc, "frequency_hz", 45.0, Some(55.0))
    && Trusted(snap.pcc, "active_power_kw")
    && Battery in snap.aggregates
    && var batt := snap.aggregates[Battery];
    && Trusted(batt, "soc_pct")
    && Trusted(batt, "available_charge_power_kw") && Trusted(batt, "available_discharge_power_kw")
    && !AlarmOn(batt)
  }

  ghost predicate AlarmOn(batt: PointValues) {
    Trusted(batt, "converter_alarm") && batt["converter_alarm"].value.value != 0.0
  }

  /** The battery can be given up on: no state of charge was obtained, or the converter is in alarm. */
  ghost predicate BatteryGone(snap: Snapshot) {
    || Battery !in snap.aggregates
    || var batt := snap.aggregates[Battery];
       !("soc_pct" in batt && batt["soc_pct"].value.Some? && batt["soc_pct"].quality != CommFail) || AlarmOn(batt)
  }

  lemma FreshExactly(snap: Snapshot, c: LoopConfig)
    ensures Assemble(snap, c).dataFresh <==> TrustedSnapshot(snap)
    ensures !Assemble(snap, c).batteryOk <==> BatteryGone(snap)
  {
    hide Val;
    PlausibleExactly(snap.pcc);
  }

  lemma PlausibleExactly(pcc: PointValues)
    ensures PccPlausible(Get(pcc, "voltage_v"), Get(pcc, "frequency_hz"))
       <==> TrustedBetween(pcc, "voltage_v", 50.0, None) && TrustedBetween(pcc, "frequency_hz", 45.0, Some(55.0))
  {}

  /** The value a point was read with, whatever its quality, and a default for one that was not read. */
  ghost function ReadAs(points: PointValues, name: string, default: real): real {
    if name in points && points[name].value.Some? then points[name].value.value else default
  }

  /** What was read of a class; nothing for an absent one. */
  ghost function ReadOf(snap: Snapshot, assetClass: AssetClass): PointValues {
    if assetClass in snap.aggregates then snap.aggregates[assetClass] else map[]
  }

  /** Which measurement goes into which input, for every snapshot: an unread point counts as 0, an unread
      grid as 50 Hz and 230 V. */
  lemma InputsAreMeasurements(snap: Snapshot, c: LoopConfig)
    ensures var a, batt := Assemble(snap, c), ReadOf(snap, Battery);
      && a.inputs.pccMeas == ReadAs(snap.pcc, "active_power_kw", 0.0)
      && a.inputs.soc == ReadAs(batt, "soc_pct", 0.0)
      && a.inputs.availCharge == ReadAs(batt, "available_charge_power_kw", 0.0)
      && a.inputs.availDischarge == ReadAs(batt, "available_discharge_power_kw", 0.0)
      && a.inputs.pvPower == ReadAs(ReadOf(snap, Pv), "active_power_kw", 0.0)
      && a.freq == ReadAs(snap.pcc, "frequency_hz", 50.0) && a.volt == ReadAs(snap.pcc, "voltage_v", 230.0)
      && a.inputs.pccSetpoint == c.target && a.inputs.maxFeed == c.maxFeed
  {
    hide PccPlausible, BatteryOk, Fresh;
  }

  /** On a trusted snapshot every regulated input is the measured value itself. */
  lemma TrustedInputs(snap: Snapshot, c: LoopConfig)
    requires TrustedSnapshot(snap)
    ensures var a, batt := Assemble(snap, c), snap.aggregates[Battery];
      && a.inputs.pccMeas == snap.pcc["active_power_kw"].value.value
      && a.inputs.soc == batt["soc_pct"].value.value
      && a.inputs.availCharge == batt["available_charge_power_kw"].value.value
      && a.inputs.availDischarge == batt["available_discharge_power_kw"].value.value
      && a.freq == snap.pcc["frequency_hz"].value.value && a.volt == snap.pcc["voltage_v"].value.value
  {
    InputsAreMeasurements(snap, c);
    hide Assemble;
  }

  /** The droop correction for the snapshot's own frequency and voltage; none without droop. */
  ghost function Support(c: LoopConfig, snap: Snapshot): DroopCorrection
    requires ValidLoop(c)
  {
    if c.droop.None? then DroopCorrection(0.0, 0.0)
    else CorrectionOf(c.droop.value, ReadAs(snap.pcc, "frequency_hz", 50.0), ReadAs(snap.pcc, "voltage_v", 230.0))
  }

  /** What a cycle regulates: the gap between the configured target, in RUN raised by the droop support,
      and the measured PCC power; in RUN it also commands the support's reactive power. */
  lemma ErrorIsGap(c: LoopConfig, s: LoopState, y: Cycle)
    requires ValidLoop(c)
    ensures var cmd, gap := CommandOf(c, s, y), c.target - ReadAs(y.snap.pcc, "active_power_kw", 0.0);
      if NextMode(c, s, y).mode == Mode.Run
      then cmd.error == gap + Support(c, y.snap).dp && cmd.reactive == Support(c, y.snap).dq
      else cmd.error == gap
  {
    InputsAreMeasurements(y.snap, c);
    hide Assemble, CorrectionOf, Curtail, Slew, Pi, DerateTarget, Window, ReadAs;
    if c.droop.Some? && !DroopEnabled(c.droop.value) {
      DisabledIsZero(c.droop.value, ReadAs(y.snap.pcc, "frequency_hz", 50.0), ReadAs(y.snap.pcc, "voltage_v", 230.0));
    }
  }

  lemma DisabledIsZero(d: DroopController, f: real, v: real)
    requires ValidDroop(d) && !DroopEnabled(d)
    ensures CorrectionOf(d, f, v) == DroopCorrection(0.0, 0.0)
  {
    CorrectionMonotone(d, f, f, v, v);
  }

  /** A RUN cycle is the control law on the snapshot's own measurements: the PI law around the gap, inside
      the window of the measured headrooms and state of charge. */
  lemma RunCycleIsLaw(c: LoopConfig, s: LoopState, y: Cycle)
    requires ValidLoop(c) && NextMode(c, s, y).mode == Mode.Run
    ensures var batt := ReadOf(y.snap, Battery);
      var i := ControlInputs(
        ReadAs(y.snap.pcc, "active_power_kw", 0.0), c.target + Support(c, y.snap).dp, ReadAs(batt, "soc_pct", 0.0),
        ReadAs(batt, "available_charge_power_kw", 0.0), ReadAs(batt, "available_discharge_power_kw", 0.0),
        ReadAs(ReadOf(y.snap, Pv), "active_power_kw", 0.0), c.maxFeed);
      var out, cmd := Compute(i, c.control, s.edge), CommandOf(c, s, y);
      && cmd.setpoint == out.setpoint && cmd.derate == out.derate && cmd.curtail == out.curtail
      && cmd.piOutput == out.piOutput && cmd.edge == out.state
  {
    InputsAreMeasurements(y.snap, c);
    hide Assemble, CorrectionOf, Compute, ReadAs, ReadOf;
    if c.droop.Some? && !DroopEnabled(c.droop.value) {
      DisabledIsZero(c.droop.value, ReadAs(y.snap.pcc, "frequency_hz", 50.0), ReadAs(y.snap.pcc, "voltage_v", 230.0));
    }
  }

  /** The loop regulates exactly on trusted snapshots, so never against a dead grid, and is in SAFE
      whenever the battery is gone. */
  lemma RunExactlyOnTrustedData(c: LoopConfig, ys: seq<Cycle>)
    requires ValidLoop(c) && ys != []
    ensures Run(c, ys).mode.mode == Mode.Run <==> TrustedSnapshot(ys[|ys| - 1].snap)
    ensures BatteryGone(ys[|ys| - 1].snap) ==> Run(c, ys).mode.mode == Safe
  {
    FreshExactly(ys[|ys| - 1].snap, c);
    hide CommandOf, Assemble, BatteryGone;
    FreshNeedsBattery(ys[|ys| - 1].snap, c);
  }

  lemma FreshNeedsBattery(snap: Snapshot, c: LoopConfig)
    ensures Assemble(snap, c).dataFresh ==> Assemble(snap, c).batteryOk
  {
    hide Val, BatteryOk, PccPlausible;
  }

  /** The outputs held after a run: those of its last cycle. */
  ghost function Held(s: LoopState): Outputs {
    Outputs(s.edge.lastSetpoint, s.lastReactive, s.edge.derate, s.edge.curtail)
  }

  lemma HeldIsTold(c: LoopConfig, s: LoopState, y: Cycle)
    requires ValidLoop(c)
    ensures Held(Next(c, s, y)) == Told(CommandOf(c, s, y))
    ensures NextMode(c, s, y).mode == Hold ==> Told(CommandOf(c, s, y)) == Held(s)
  {
    hide Compute, CorrectionOf, Assemble, ValidDroop, Advance, SafeSetpoint;
    if NextMode(c, s, y).mode == Mode.Run {
      var a := Assemble(y.snap, c);
      var corr := if c.droop.Some? && DroopEnabled(c.droop.value) then CorrectionOf(c.droop.value, a.freq, a.volt)
                  else DroopCorrection(0.0, 0.0);
      OutputsAreState(a.inputs.(pccSetpoint := c.target + corr.dp), c.control, s.edge);
    }
  }

  /** A cycle in HOLD repeats, value for value, what the last RUN cycle told the devices (the
      initial outputs when there has been none). */
  lemma {:induction false} HoldRepeatsLastRun(c: LoopConfig, ys: seq<Cycle>)
    requires ValidLoop(c) && ys != [] && Run(c, ys).mode.mode == Hold
    ensures var k := OutageStart(History(c, ys));
      && k < |ys|
      && Told(Last(c, ys)) == Held(Run(c, ys[..k]))
      && (k == 0 ==> Held(Run(c, ys[..k])) == Outputs(0.0, 0.0, 1.0, 1.0))
      && (k > 0 ==> Run(c, ys[..k]).mode.mode == Mode.Run && Told(Last(c, ys)) == Told(Last(c, ys[..k])))
  {
    hide CommandOf, Assemble, Advance, ModeOf, After;
    var n := |ys| - 1;
    var rest, y, h := ys[..n], ys[n], History(c, ys[..n]);
    var o := Observe(Assemble(y.snap, c), y.now);
    var k := OutageStart(History(c, ys));
    RunModeIsHistory(c, ys);
    RunModeIsHistory(c, rest);
    LadderDiscipline(c.holdMax, h, o);
    OutageGrows(h, o);
    HeldIsTold(c, Run(c, rest), y);
    if Run(c, rest).mode.mode == Hold {
      assert n > 0;
      HoldRepeatsLastRun(c, rest);
      HeldIsTold(c, Run(c, rest[..n - 1]), rest[n - 1]);
      assert rest[..k] == ys[..k];
    } else {
      RunOutage(c, rest);
      assert k == n && ys[..k] == rest;
      if k > 0 {
        HeldIsTold(c, Run(c, rest[..n - 1]), rest[n - 1]);
      }
    }
  }

  lemma RunOutage(c: LoopConfig, ys: seq<Cycle>)
    requires ValidLoop(c) && Run(c, ys).mode.mode == Mode.Run
    ensures OutageStart(History(c, ys)) == |ys|
  {
    RunModeIsHistory(c, ys);
  }

  ghost predicate AllSafe(c: LoopConfig, ys: seq<Cycle>, from: nat)
    requires ValidLoop(c) && from <= |ys|
  {
    forall i | from < i <= |ys| :: Run(c, ys[..i]).mode.mode == Safe
  }

  /** Consecutive SAFE cycles follow the ramp exactly, so the command reaches 0 in bounded time and
      stays there, with the mitigations released and the integrator empty. */
  lemma {:induction false} SafeCyclesRamp(c: LoopConfig, ys: seq<Cycle>, from: nat)
    requires ValidLoop(c) && from <= |ys| && AllSafe(c, ys, from)
    ensures Run(c, ys).edge.lastSetpoint
         == SafeRamp(Run(c, ys[..from]).edge.lastSetpoint, c.control.params.slewLimit,
                     c.control.params.updatePeriod, |ys| - from)
    ensures |ys| > from ==> var e := Run(c, ys).edge;
      e.integral == 0.0 && e.derate == 1.0 && e.curtail == 1.0 && Run(c, ys).lastReactive == 0.0
  {
    hide SafeSetpoint, Assemble, Advance, Compute, CorrectionOf;
    assert ys[..|ys|] == ys;
    if |ys| > from {
      var rest := ys[..|ys| - 1];
      assert forall i | from <= i <= |rest| :: rest[..i] == ys[..i];
      SafeCyclesRamp(c, rest, from);
      assert Run(c, ys[..|ys|]).mode.mode == Safe;
    }
  }

  // ------------------------------------------------------------ what was published

  ghost function Outbox(c: LoopConfig, ys: seq<Cycle>): seq<Published>
    requires ValidLoop(c)
  {
    if ys == [] then []
    else Outbox(c, ys[..|ys| - 1]) + Messages(Run(c, ys[..|ys| - 1]).lastPub, Last(c, ys))
  }

  /** The factors published for one class, in order. */
  ghost function Factors(out: seq<Published>, assetClass: AssetClass): seq<real> {
    if out == [] then []
    else
      var m := out[|out| - 1];
      Factors(out[..|out| - 1], assetClass)
      + if m.assetClass == assetClass && DerateFactor in m.points then [m.points[DerateFactor]] else []
  }

  lemma {:induction false} FactorsConcat(a: seq<Published>, b: seq<Published>, assetClass: AssetClass)
    ensures Factors(a + b, assetClass) == Factors(a, assetClass) + Factors(b, assetClass)
  {
    if b == [] {
      assert a + b == a;
    } else {
      assert (a + b)[..|a + b| - 1] == a + b[..|b| - 1];
      FactorsConcat(a, b[..|b| - 1], assetClass);
    }
  }

  ghost predicate NoRepeats(fs: seq<real>) { forall i | 0 < i < |fs| :: fs[i - 1] != fs[i] }

  /** The factor a class should be at. */
  ghost function FactorOf(s: LoopState, assetClass: AssetClass): real {
    if assetClass == Pv then s.edge.curtail else s.edge.derate
  }

  lemma CycleFactors(lastPub: map<AssetClass, real>, cmd: Command, assetClass: AssetClass)
    requires assetClass == Pv || assetClass == FlexibleLoad
    ensures var f := if assetClass == Pv then cmd.curtail else cmd.derate;
      Factors(Messages(lastPub, cmd), assetClass) == if Changed(lastPub, assetClass, f) then [f] else []
  {
    var b := [Published(Battery, map[ActivePower := cmd.setpoint, ReactivePower := cmd.reactive])];
    var p := if Changed(lastPub, Pv, cmd.curtail) then [Published(Pv, map[DerateFactor := cmd.curtail])] else [];
    var l :=
      if Changed(lastPub, FlexibleLoad, cmd.derate) then [Published(FlexibleLoad, map[DerateFactor := cmd.derate])]
      else [];
    assert b[..0] == [] && (p != [] ==> p[..0] == []) && (l != [] ==> l[..0] == []);
    assert Factors([], assetClass) == [];
    FactorsConcat(b + p, l, assetClass);
    FactorsConcat(b, p, assetClass);
  }

  /** The factors of a class published so far agree with what the loop remembers of it. */
  ghost predicate Faithful(fs: seq<real>, lastPub: map<AssetClass, real>, assetClass: AssetClass) {
    && NoRepeats(fs)
    && (assetClass in lastPub <==> fs != [])
    && (fs != [] ==> lastPub[assetClass] == fs[|fs| - 1])
  }

  lemma FaithfulStep(fs: seq<real>, pub: map<AssetClass, real>, pub': map<AssetClass, real>, assetClass: AssetClass,
                     f: real)
    requires Faithful(fs, pub, assetClass)
    requires assetClass in pub' && pub'[assetClass] == f
    ensures Faithful(fs + if Changed(pub, assetClass, f) then [f] else [], pub', assetClass)
  {}

  /** Publishing on change loses nothing on the controller's side: after every cycle the last factor
      published for a class is the one in force, and no factor is published twice in a row. */
  lemma {:induction false} ChangesSuffice(c: LoopConfig, ys: seq<Cycle>, assetClass: AssetClass)
    requires ValidLoop(c) && (assetClass == Pv || assetClass == FlexibleLoad)
    ensures Faithful(Factors(Outbox(c, ys), assetClass), Run(c, ys).lastPub, assetClass)
    ensures ys != [] ==>
      assetClass in Run(c, ys).lastPub && Run(c, ys).lastPub[assetClass] == FactorOf(Run(c, ys), assetClass)
  {
    if ys != [] {
      hide Messages, Changed, Faithful, Factors, ValidLoop;
      var n := |ys| - 1;
      var s, cmd := Run(c, ys[..n]), Last(c, ys);
      ChangesSuffice(c, ys[..n], assetClass);
      HeldIsTold(c, s, ys[n]);
      hide CommandOf;
      FactorsConcat(Outbox(c, ys[..n]), Messages(s.lastPub, cmd), assetClass);
      CycleFactors(s.lastPub, cmd, assetClass);
      FaithfulStep(Factors(Outbox(c, ys[..n]), assetClass), s.lastPub, Run(c, ys).lastPub, assetClass,
                   FactorOf(Run(c, ys), assetClass));
    }
  }

  /** The factor of a class stays what it was after ys, through all of zs. */
  ghost predicate FactorStays(c: LoopConfig, ys: seq<Cycle>, zs: seq<Cycle>, assetClass: AssetClass)
    requires ValidLoop(c)
  {
    forall i | 0 <= i <= |zs| :: FactorOf(Run(c, ys + zs[..i]), assetClass) == FactorOf(Run(c, ys), assetClass)
  }

  /** From index from on nothing is addressed to the class. */
  ghost predicate NothingFor(out: seq<Published>, from: nat, assetClass: AssetClass) {
    forall i | from <= i < |out| :: out[i].assetClass != assetClass
  }

  /** What publishing on change relies on delivery for: while a factor stays in force the loop only adds
      messages of other classes, however often it cycles, and the last factor sent is the one in force. */
  lemma {:induction false} NotSentAgain(c: LoopConfig, ys: seq<Cycle>, zs: seq<Cycle>, assetClass: AssetClass)
    requires ValidLoop(c) && (assetClass == Pv || assetClass == FlexibleLoad) && ys != []
    requires FactorStays(c, ys, zs, assetClass)
    ensures Outbox(c, ys) <= Outbox(c, ys + zs) && NothingFor(Outbox(c, ys + zs), |Outbox(c, ys)|, assetClass)
    ensures Factors(Outbox(c, ys + zs), assetClass) == Factors(Outbox(c, ys), assetClass)
    ensures Factors(Outbox(c, ys), assetClass) != []
    ensures Factors(Outbox(c, ys), assetClass)[|Factors(Outbox(c, ys), assetClass)| - 1]
      == FactorOf(Run(c, ys), assetClass)
    decreases |zs|
  {
    hide CommandOf, Messages, ValidLoop, Factors, FactorOf;
    if zs == [] {
      assert ys + zs == ys;
      ChangesSuffice(c, ys, assetClass);
    } else {
      var n, rest := |zs| - 1, zs[..|zs| - 1];
      StaysBefore(c, ys, zs, assetClass);
      NotSentAgain(c, ys, rest, assetClass);
      assert (ys + zs)[..|ys + zs| - 1] == ys + rest;
      assert zs[..|zs|] == zs;
      ChangesSuffice(c, ys + rest, assetClass);
      UnchangedNotSent(c, ys + rest, (ys + zs)[|ys + zs| - 1], assetClass);
    }
  }

  lemma StaysBefore(c: LoopConfig, ys: seq<Cycle>, zs: seq<Cycle>, assetClass: AssetClass)
    requires ValidLoop(c) && zs != [] && FactorStays(c, ys, zs, assetClass)
    ensures var rest := zs[..|zs| - 1];
      FactorStays(c, ys, rest, assetClass)
      && FactorOf(Run(c, ys + zs), assetClass) == FactorOf(Run(c, ys + rest), assetClass)
  {
    hide Run, FactorOf;
    var rest := zs[..|zs| - 1];
    assert forall i | 0 <= i <= |rest| :: rest[..i] == zs[..i];
    assert zs[..|zs|] == zs;
  }

  lemma UnchangedNotSent(c: LoopConfig, ys: seq<Cycle>, y: Cycle, assetClass: AssetClass)
    requires ValidLoop(c) && (assetClass == Pv || assetClass == FlexibleLoad)
    requires assetClass in Run(c, ys).lastPub
      && Run(c, ys).lastPub[assetClass] == FactorOf(Next(c, Run(c, ys), y), assetClass)
    ensures var sent := Messages(Run(c, ys).lastPub, CommandOf(c, Run(c, ys), y));
      && NothingFor(sent, 0, assetClass)
      && Factors(Outbox(c, ys) + sent, assetClass) == Factors(Outbox(c, ys), assetClass)
  {
    var s, cmd := Run(c, ys), CommandOf(c, Run(c, ys), y);
    HeldIsTold(c, s, y);
    hide CommandOf, Run, Messages, Factors, ValidLoop;
    FactorsConcat(Outbox(c, ys), Messages(s.lastPub, cmd), assetClass);
    CycleFactors(s.lastPub, cmd, assetClass);
    UnchangedSkipped(s.lastPub, cmd, assetClass);
  }

  lemma UnchangedSkipped(lastPub: map<AssetClass, real>, cmd: Command, assetClass: AssetClass)
    requires assetClass == Pv || assetClass == FlexibleLoad
    requires !Changed(lastPub, assetClass, if assetClass == Pv then cmd.curtail else cmd.derate)
    ensures NothingFor(Messages(lastPub, cmd), 0, assetClass)
  {}

  /** The first cycle tells every class. */
  lemma FirstCycleTellsAll(c: LoopConfig, y: Cycle)
    requires ValidLoop(c)
    ensures var cmd := CommandOf(c, START, y);
      && Run(c, []) == START && Last(c, [y]) == cmd
      && Outbox(c, [y])
         == [Published(Battery, map[ActivePower := cmd.setpoint, ReactivePower := cmd.reactive]),
             Published(Pv, map[DerateFactor := cmd.curtail]), Published(FlexibleLoad, map[DerateFactor := cmd.derate])]
  {
    hide CommandOf;
    assert [y][..0] == [];
  }

  /** Outside RUN no demand is reported, and SAFE asks for no reactive power. */
  lemma NoDemandOutsideRun(c: LoopConfig, s: LoopState, y: Cycle)
    requires ValidLoop(c) && NextMode(c, s, y).mode != Mode.Run
    ensures CommandOf(c, s, y).piOutput == 0.0
    ensures NextMode(c, s, y).mode == Safe ==> CommandOf(c, s, y).reactive == 0.0
  {
    hide Assemble, Advance, SafeSetpoint;
  }

  /** Every cycle tells the battery first: its active power is the command kept in the state, its reactive
      power the one held for later. */
  lemma NextCycleTellsBattery(c: LoopConfig, ys: seq<Cycle>, y: Cycle)
    requires ValidLoop(c)
    ensures var out, n := Outbox(c, ys + [y]), |Outbox(c, ys)|;
      && Outbox(c, ys) <= out && n < |out|
      && out[n] == Published(Battery, map[ActivePower := Run(c, ys + [y]).edge.lastSetpoint,
                                          ReactivePower := Run(c, ys + [y]).lastReactive])
  {
    HeldIsTold(c, Run(c, ys), y);
    hide CommandOf, Changed;
    assert (ys + [y])[..|ys|] == ys;
  }
}
