/** Core's sequencing of polling, dispatch and the silence watchdog, and the power flow end to end. */
module Orchestrator {
  import opened Common
  import opened Sums
  import opened Setpoints
  import opened Aggregator
  import D = Dispatcher
  import W = SilenceWatchdog
  import EC = EdgeController
  import CL = ControlLoop
  import Droop
  import Modes

  const CHARGE := "available_charge_power_kw"
  const DISCHARGE := "available_discharge_power_kw"

  function ValueOr0(points: PointValues, name: string): real {
    if name in points && points[name].value.Some? then points[name].value.value else 0.0
  }

  function UnitLimitOf(latest: map<string, PointValues>, unit: string): D.UnitLimits {
    var points := if unit in latest then latest[unit] else map[];
    D.UnitLimits(ValueOr0(points, CHARGE), ValueOr0(points, DISCHARGE))
  }

  function BatteryLimits(assets: seq<(string, AssetClass)>, latest: map<string, PointValues>)
    : map<string, D.UnitLimits>
  {
    map u | u in D.UnitsOf(assets, Battery) :: UnitLimitOf(latest, u)
  }

  /** Each battery unit's headrooms are the ones it reported in the poll, whatever their quality; an
      unreported one is none. */
  lemma LimitsAreReported(assets: seq<(string, AssetClass)>, latest: map<string, PointValues>, u: string)
    requires (u, Battery) in assets
    ensures u in BatteryLimits(assets, latest)
    ensures var l, points := BatteryLimits(assets, latest)[u], if u in latest then latest[u] else map[];
      && l.charge == CL.ReadAs(points, "available_charge_power_kw", 0.0)
      && l.discharge == CL.ReadAs(points, "available_discharge_power_kw", 0.0)
  {
    var i :| 0 <= i < |assets| && assets[i] == (u, Battery);
  }

  class Orchestrator {
    const dispatcher: D.SetpointDispatcher
    const watchdog: W.SetpointWatchdog
    var latest: map<string, PointValues>

    constructor (dispatcher: D.SetpointDispatcher, watchdog: W.SetpointWatchdog)
      ensures this.dispatcher == dispatcher && this.watchdog == watchdog && latest == map[]
    {
      this.dispatcher, this.watchdog := dispatcher, watchdog;
      latest := map[];
    }

    /** Keeps the poll; the readings themselves come from the adapters. */
    method Polled(readings: map<string, PointValues>)
      modifies this
      ensures latest == readings
    {
      latest := readings;
    }

    /** Headroom per battery unit from the latest poll. */
    method BatteryUnitLimits() returns (limits: map<string, D.UnitLimits>)
      ensures limits == BatteryLimits(dispatcher.cfg.assets, latest)
    {
      hide UnitLimitOf;
      limits := map[];
      var assets := dispatcher.cfg.assets;
      for i := 0 to |assets|
        invariant limits == BatteryLimits(assets[..i], latest)
      {
        assert assets[..i + 1][..i] == assets[..i];
        if assets[i].1 != Battery {
          continue;
        }
        limits := limits[assets[i].0 := UnitLimitOf(latest, assets[i].0)];
      }
      assert assets[..|assets|] == assets;
    }

    /** Dispatch one message; only an accepted one feeds the watchdog. */
    method HandleSetpoint(payload: Payload, now: real) returns (report: D.DispatchReport)
      requires D.ValidDispatch(dispatcher.cfg)
      modifies dispatcher, watchdog
      ensures (dispatcher.lastSeq, report)
           == D.Dispatched(dispatcher.cfg, old(dispatcher.lastSeq), payload,
                           BatteryLimits(dispatcher.cfg.assets, latest), now)
      ensures watchdog.State() == W.Step(watchdog.timeout, old(watchdog.State()),
                                         if report.accepted then W.Armed(now) else W.Refused(now))
      ensures watchdog.issued == old(watchdog.issued)
    {
      hide D.Dispatched;
      var limits := BatteryUnitLimits();
      report := dispatcher.Dispatch(payload, limits, now);
      if report.accepted {
        watchdog.Notify(now);
      }
    }

    method SafetyCycle(now: real) returns (trips: bool)
      modifies watchdog
      ensures watchdog.State() == W.Step(watchdog.timeout, old(watchdog.State()), W.Checked(now))
      ensures trips == W.TripsNow(watchdog.timeout, old(watchdog.State()), now)
      ensures watchdog.issued == old(watchdog.issued)
        + if trips then W.SafeCommands(watchdog.assets, watchdog.adapters, watchdog.safe) else []
    {
      trips := watchdog.Check(now);
    }
  }

  // ------------------------------------------------------------ power flow

  /** One reading per unit, in the units' order. */
  ghost predicate PollOf(rs: seq<Reading>, uids: seq<string>, latest: map<string, PointValues>) {
    && |rs| == |uids|
    && forall i | 0 <= i < |uids| :: rs[i].asset == uids[i] && uids[i] in latest && latest[uids[i]] == rs[i].points
  }

  /** The aggregate counts GOOD values only, the units' headrooms count every value, but never less
      than zero: so the aggregate never promises more than the units have. */
  lemma {:induction false} AggregateWithinHeadroom(rs: seq<Reading>, point: string, caps: seq<real>)
    requires |caps| == |rs| && forall i | 0 <= i < |rs| :: caps[i] == Max(0.0, ValueOr0(rs[i].points, point))
    ensures Sum(GoodValues(rs, point)) <= Sum(caps)
  {
    if rs != [] {
      var n := |rs| - 1;
      AggregateWithinHeadroom(rs[..n], point, caps[..n]);
      if Contributes(rs[n], point) {
        SumStep(GoodValues(rs[..n], point), rs[n].points[point].value.value);
      } else {
        assert GoodValues(rs, point) == GoodValues(rs[..n], point);
      }
    }
  }

  /** Headroom the fleet has in a direction. */
  ghost function FleetCap(total: real, uids: seq<string>, latest: map<string, PointValues>): real {
    Sum(ValuesOf(uids, D.Caps(total, D.LimitsOf(uids, map u | u in uids :: UnitLimitOf(latest, u)))))
  }

  lemma FleetCapIsLimit(rs: seq<Reading>, uids: seq<string>, latest: map<string, PointValues>, total: real)
    requires PollOf(rs, uids, latest)
    ensures Sum(GoodValues(rs, if total >= 0.0 then CHARGE else DISCHARGE)) <= FleetCap(total, uids, latest)
  {
    var limits := D.LimitsOf(uids, map u | u in uids :: UnitLimitOf(latest, u));
    var caps := ValuesOf(uids, D.Caps(total, limits));
    var point := if total >= 0.0 then CHARGE else DISCHARGE;
    forall i | 0 <= i < |rs| ensures caps[i] == Max(0.0, ValueOr0(rs[i].points, point)) {
      assert limits[uids[i]] == UnitLimitOf(latest, uids[i]);
    }
    AggregateWithinHeadroom(rs, point, caps);
  }

  /** The snapshot's battery headrooms are the aggregates of this poll. */
  ghost predicate AggregatedFrom(snap: CL.Snapshot, rs: seq<Reading>, weights: map<string, real>, ts: real) {
    && Battery in snap.aggregates && CHARGE in snap.aggregates[Battery] && DISCHARGE in snap.aggregates[Battery]
    && snap.aggregates[Battery][CHARGE] == AggregatePoint(rs, CHARGE, weights, ts)
    && snap.aggregates[Battery][DISCHARGE] == AggregatePoint(rs, DISCHARGE, weights, ts)
  }

  lemma HeadroomIsSum(rs: seq<Reading>, point: string, weights: map<string, real>, ts: real)
    requires point == CHARGE || point == DISCHARGE
    requires AggregatePoint(rs, point, weights, ts).value.Some?
    ensures AggregatePoint(rs, point, weights, ts).value.value == Sum(GoodValues(rs, point))
  {
    assert CHARGE[|CHARGE| - 1] == 'w' && DISCHARGE[|DISCHARGE| - 1] == 'w';
    assert "_pct"[3] == 't';
  }

  /** What the control law aims at before the slew limit. */
  ghost function Target(i: EC.ControlInputs, c: EC.Config, s: EC.ControlState): real {
    var (lower, upper) := EC.Window(i, c.battery);
    Clamp(EC.Compute(i, c, s).piOutput, lower, upper)
  }

  /** The target never leaves the window of aggregate headrooms. */
  lemma TargetWithinAggregates(i: EC.ControlInputs, c: EC.Config, s: EC.ControlState)
    requires EC.ValidConfig(c)
    ensures var t := Target(i, c, s); t == 0.0 || (if t >= 0.0 then t <= i.availCharge else -t <= i.availDischarge)
    ensures EC.Compute(i, c, s).setpoint == EC.Slew(c.params, Target(i, c, s), s.lastSetpoint)
  {
    hide EC.Curtail, EC.Pi, EC.DerateTarget, EC.Slew;
  }

  lemma AssembledHeadroom(snap: CL.Snapshot, c: CL.LoopConfig, rs: seq<Reading>, weights: map<string, real>, ts: real)
    requires AggregatedFrom(snap, rs, weights, ts) && CL.Assemble(snap, c).dataFresh
    ensures CL.Assemble(snap, c).inputs.availCharge == Sum(GoodValues(rs, CHARGE))
    ensures CL.Assemble(snap, c).inputs.availDischarge == Sum(GoodValues(rs, DISCHARGE))
  {
    hide AggregatePoint, CL.PccPlausible, CL.BatteryOk;
    HeadroomIsSum(rs, CHARGE, weights, ts);
    HeadroomIsSum(rs, DISCHARGE, weights, ts);
  }

  /** Headroom of the fleet against charging and against discharging. */
  ghost function ChargeCap(uids: seq<string>, latest: map<string, PointValues>): real {
    FleetCap(1.0, uids, latest)
  }

  ghost function DischargeCap(uids: seq<string>, latest: map<string, PointValues>): real {
    FleetCap(-1.0, uids, latest)
  }

  /** Sharing a command over the units of a poll. */
  ghost function Leftover(sp: real, uids: seq<string>, latest: map<string, PointValues>): real {
    D.ShareBatteryPower(sp, uids, D.LimitsOf(uids, map u | u in uids :: UnitLimitOf(latest, u))).leftover
  }

  /** How far a command exceeds the fleet's headrooms, with its sign. */
  ghost function Excess(sp: real, charge: real, discharge: real): real { sp - Clamp(sp, -discharge, charge) }

  lemma LeftoverIsExcess(sp: real, uids: seq<string>, latest: map<string, PointValues>)
    ensures ChargeCap(uids, latest) >= 0.0 && DischargeCap(uids, latest) >= 0.0
    ensures Leftover(sp, uids, latest) == Excess(sp, ChargeCap(uids, latest), DischargeCap(uids, latest))
  {
    var limits := D.LimitsOf(uids, map u | u in uids :: UnitLimitOf(latest, u));
    CapBySign(sp, limits);
    D.CapsNonNegative(1.0, uids, limits);
    D.CapsNonNegative(-1.0, uids, limits);
    D.LeftoverExactly(sp, uids, limits);
    D.LeftoverSign(sp, uids, limits);
    hide D.ShareBatteryPower, D.Caps, D.LimitsOf;
  }

  lemma CapBySign(sp: real, limits: map<string, D.UnitLimits>)
    ensures D.Caps(sp, limits) == D.Caps(if sp >= 0.0 then 1.0 else -1.0, limits)
  {}

  /** The target of a RUN cycle is within the headrooms of the fleet its poll came from. */
  lemma RunTarget(c: CL.LoopConfig, s: CL.LoopState, y: CL.Cycle, rs: seq<Reading>, uids: seq<string>,
                  latest: map<string, PointValues>, weights: map<string, real>, ts: real) returns (target: real)
    requires CL.ValidLoop(c) && CL.NextMode(c, s, y).mode == Modes.Run
    requires PollOf(rs, uids, latest) && AggregatedFrom(y.snap, rs, weights, ts)
    ensures -DischargeCap(uids, latest) <= target <= ChargeCap(uids, latest)
    ensures CL.CommandOf(c, s, y).setpoint == EC.Slew(c.control.params, target, s.edge.lastSetpoint)
  {
    hide EC.Compute, CL.Assemble, AggregatedFrom, GoodValues, EC.ValidConfig, Modes.Advance, Droop.ValidDroop,
         Droop.CorrectionOf, Modes.SafeSetpoint, EC.Slew, Target, FleetCap, PollOf;
    var a := CL.Assemble(y.snap, c);
    RunIsFresh(c, s, y);
    AssembledHeadroom(y.snap, c, rs, weights, ts);
    var corr := if c.droop.Some? && Droop.DroopEnabled(c.droop.value)
                then Droop.CorrectionOf(c.droop.value, a.freq, a.volt)
                else Droop.DroopCorrection(0.0, 0.0);
    var i := a.inputs.(pccSetpoint := c.target + corr.dp);
    target := Target(i, c.control, s.edge);
    TargetWithinAggregates(i, c.control, s.edge);
    FleetCapIsLimit(rs, uids, latest, 1.0);
    FleetCapIsLimit(rs, uids, latest, -1.0);
    LeftoverIsExcess(0.0, uids, latest);
  }

  /** From poll to devices: with no slew limit and the same poll on both sides, the power a RUN cycle
      commands is shared out without a leftover. */
  lemma RunCommandFullyShared(c: CL.LoopConfig, s: CL.LoopState, y: CL.Cycle, rs: seq<Reading>, uids: seq<string>,
                              latest: map<string, PointValues>, weights: map<string, real>, ts: real)
    requires CL.ValidLoop(c) && c.control.params.slewLimit.None?
    requires CL.NextMode(c, s, y).mode == Modes.Run
    requires PollOf(rs, uids, latest) && AggregatedFrom(y.snap, rs, weights, ts)
    ensures Leftover(CL.CommandOf(c, s, y).setpoint, uids, latest) == 0.0
  {
    var target := RunTarget(c, s, y, rs, uids, latest, weights, ts);
    LeftoverIsExcess(target, uids, latest);
    hide CL.CommandOf, Leftover, FleetCap, PollOf, AggregatedFrom, CL.ValidLoop, CL.NextMode;
  }

  /** With a slew limit it is what the previous command exceeds the headrooms by, less one step: the
      leftover is zero exactly when the previous command is within a step of them, which is known
      before the cycle. */
  lemma RunLeftoverExactly(c: CL.LoopConfig, s: CL.LoopState, y: CL.Cycle, rs: seq<Reading>, uids: seq<string>,
                           latest: map<string, PointValues>, weights: map<string, real>, ts: real, step: real)
    requires CL.ValidLoop(c) && EC.SlewStepIs(c.control.params, step)
    requires CL.NextMode(c, s, y).mode == Modes.Run
    requires PollOf(rs, uids, latest) && AggregatedFrom(y.snap, rs, weights, ts)
    ensures var left := Leftover(CL.CommandOf(c, s, y).setpoint, uids, latest);
      && left == Excess(s.edge.lastSetpoint, ChargeCap(uids, latest) + step, DischargeCap(uids, latest) + step)
      && (left == 0.0 <==>
            -DischargeCap(uids, latest) - step <= s.edge.lastSetpoint <= ChargeCap(uids, latest) + step)
  {
    var target := RunTarget(c, s, y, rs, uids, latest, weights, ts);
    EC.StepPositive(c.control, step);
    LeftoverIsExcess(CL.CommandOf(c, s, y).setpoint, uids, latest);
    SlewedExcess(c.control.params, target, s.edge.lastSetpoint, ChargeCap(uids, latest), DischargeCap(uids, latest),
                 step);
    hide CL.CommandOf, Leftover, FleetCap, PollOf, AggregatedFrom, CL.ValidLoop, CL.NextMode, EC.Slew;
  }

  lemma SlewedExcess(p: EC.ControlParams, target: real, prev: real, charge: real, discharge: real, step: real)
    requires EC.SlewStepIs(p, step) && step > 0.0 && 0.0 <= charge && 0.0 <= discharge && -discharge <= target <= charge
    ensures Excess(EC.Slew(p, target, prev), charge, discharge) == Excess(prev, charge + step, discharge + step)
  {}

  lemma RunIsFresh(c: CL.LoopConfig, s: CL.LoopState, y: CL.Cycle)
    requires CL.NextMode(c, s, y).mode == Modes.Run
    ensures CL.Assemble(y.snap, c).dataFresh
  {
    hide CL.Assemble;
  }

  /** One cycle after the fleet's headroom vanished the command is one slew step closer to zero, and all
      that remains of it is left over: nothing exactly when it was within a step of zero. */
  lemma SlewLeavesLeftover(i: EC.ControlInputs, c: EC.Config, s: EC.ControlState, uids: seq<string>, step: real)
    requires EC.ValidConfig(c) && EC.SlewStepIs(c.params, step) && EC.Window(i, c.battery) == (0.0, 0.0)
    ensures var sp := EC.Compute(i, c, s).setpoint;
      var left := D.ShareBatteryPower(sp, uids, map u | u in uids :: D.UnitLimits(0.0, 0.0)).leftover;
      && left == sp && Abs(left) == Max(0.0, Abs(s.lastSetpoint) - step)
      && (left == 0.0 <==> Abs(s.lastSetpoint) <= step)
  {
    EC.OneCycleApproaches(i, c, s, 0.0, 0.0, step);
    var sp := EC.Compute(i, c, s).setpoint;
    assert EC.Compute(i, c, s).state.lastSetpoint == sp by { CL.OutputsAreState(i, c, s); }
    NoHeadroomNoShare(sp, uids);
    hide EC.Compute, EC.Window, D.ShareBatteryPower, EC.SlewStepIs;
  }

  lemma NoHeadroomNoShare(sp: real, uids: seq<string>)
    ensures D.ShareBatteryPower(sp, uids, map u | u in uids :: D.UnitLimits(0.0, 0.0)).leftover == sp
  {
    SumConstant(ValuesOf(uids, D.Caps(sp, map u | u in uids :: D.UnitLimits(0.0, 0.0))), 0.0);
  }
}
