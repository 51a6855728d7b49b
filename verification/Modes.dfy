/** The RUN / HOLD / SAFE supervisor and the SAFE ramp. */
module Modes {
  import opened Common
  import EC = EdgeController

  datatype Mode = Run | Hold | Safe

  datatype Reason =
    | BatteryUnavailable | DataFresh | StaleData | HoldExpired | Holding | RemainingSafe

  datatype ModeState = ModeState(mode: Mode, holdSince: Option<real>)

  datatype ModeDecision = ModeDecision(mode: Mode, changed: bool, reason: Reason)

  /** What one update is told. */
  datatype Observation = Observation(dataFresh: bool, batteryOk: bool, now: real)

  /** One transition of the ladder. */
  function Advance(holdMax: real, s: ModeState, o: Observation): (ModeState, Reason) {
    if !o.batteryOk then (ModeState(Safe, None), BatteryUnavailable)
    else if o.dataFresh then (ModeState(Run, None), DataFresh)
    else match s.mode
      case Run => (ModeState(Hold, Some(o.now)), StaleData)
      case Hold =>
        var held := o.now - (if s.holdSince.Some? then s.holdSince.value else o.now);
        if held >= holdMax then (ModeState(Safe, None), HoldExpired) else (s, Holding)
      case Safe => (s, RemainingSafe)
  }

  class ModeController {
    const holdMax: real
    var mode: Mode
    var holdSince: Option<real>

    constructor (holdMax: real, mode: Mode)
      requires holdMax >= 0.0
      ensures this.holdMax == holdMax && this.mode == mode && holdSince == None
    {
      this.holdMax := holdMax;
      this.mode := mode;
      holdSince := None;
    }

    function State(): ModeState reads this { ModeState(mode, holdSince) }

    method Update(o: Observation) returns (d: ModeDecision)
      modifies this
      ensures State() == Advance(holdMax, old(State()), o).0
      ensures d == ModeDecision(mode, mode != old(mode), Advance(holdMax, old(State()), o).1)
    {
      var prev := mode;
      var reason;
      if !o.batteryOk {
        mode, holdSince := Safe, None;
        reason := BatteryUnavailable;
      } else if o.dataFresh {
        mode, holdSince := Run, None;
        reason := DataFresh;
      } else if mode == Run {
        mode, holdSince := Hold, Some(o.now);
        reason := StaleData;
      } else if mode == Hold {
        var held := o.now - (if holdSince.Some? then holdSince.value else o.now);
        if held >= holdMax {
          mode, holdSince := Safe, None;
          reason := HoldExpired;
        } else {
          reason := Holding;
        }
      } else {
        reason := RemainingSafe;
      }
      d := ModeDecision(mode, mode != prev, reason);
    }
  }

  // ------------------------------------------------------------ the mode as a function of the history

  function After(holdMax: real, h: seq<Observation>): ModeState {
    if h == [] then ModeState(Run, None) else Advance(holdMax, After(holdMax, h[..|h| - 1]), h[|h| - 1]).0
  }

  predicate Healthy(o: Observation) { o.dataFresh && o.batteryOk }

  /** The first observation of the outage that is going on at the end of h; |h| when there is none. */
  ghost function OutageStart(h: seq<Observation>): (k: nat)
    ensures k <= |h|
    ensures forall i | k <= i < |h| :: !Healthy(h[i])
    ensures k > 0 ==> Healthy(h[k - 1])
  {
    if h == [] || Healthy(h[|h| - 1]) then |h| else OutageStart(h[..|h| - 1])
  }

  /** The battery was lost at some point of the outage. */
  ghost predicate BatteryLost(h: seq<Observation>) {
    exists i :: OutageStart(h) <= i < |h| && !h[i].batteryOk
  }

  /** Some later update of the outage came at least holdMax after its first one. */
  ghost predicate Expired(holdMax: real, h: seq<Observation>) {
    exists i :: OutageStart(h) < i < |h| && h[i].now - h[OutageStart(h)].now >= holdMax
  }

  ghost function ModeOf(holdMax: real, h: seq<Observation>): Mode {
    if OutageStart(h) == |h| then Run
    else if BatteryLost(h) || Expired(holdMax, h) then Safe
    else Hold
  }

  lemma OutageGrows(h: seq<Observation>, o: Observation)
    ensures OutageStart(h + [o]) == if Healthy(o) then |h| + 1 else OutageStart(h)
  {
    assert (h + [o])[..|h|] == h;
  }

  /** The machine refines the history: RUN exactly when the last observation was good, SAFE exactly
      when the current outage lost the battery or outlived the limit, HOLD otherwise, timed from the
      first observation of the outage. */
  lemma {:induction false} ModeIsHistory(holdMax: real, h: seq<Observation>)
    ensures After(holdMax, h).mode == ModeOf(holdMax, h)
    ensures After(holdMax, h).mode == Hold ==> After(holdMax, h).holdSince == Some(h[OutageStart(h)].now)
  {
    if h != [] {
      var rest, o := h[..|h| - 1], h[|h| - 1];
      assert h == rest + [o];
      ModeIsHistory(holdMax, rest);
      OutageGrows(rest, o);
      if !Healthy(o) {
        LossGrows(rest, o);
        ExpiryGrows(holdMax, rest, o);
        hide BatteryLost, Expired, OutageStart;
      }
    }
  }

  lemma LossGrows(h: seq<Observation>, o: Observation)
    requires !Healthy(o)
    ensures BatteryLost(h + [o]) <==> BatteryLost(h) || !o.batteryOk
  {
    var g := h + [o];
    OutageGrows(h, o);
    if BatteryLost(h) {
      var i :| OutageStart(h) <= i < |h| && !h[i].batteryOk;
      assert !g[i].batteryOk;
    }
    if !o.batteryOk {
      assert !g[|h|].batteryOk;
    }
  }

  lemma ExpiryGrows(holdMax: real, h: seq<Observation>, o: Observation)
    requires !Healthy(o)
    ensures OutageStart(h) == |h| ==> !Expired(holdMax, h + [o])
    ensures OutageStart(h) < |h| ==>
      (Expired(holdMax, h + [o]) <==> Expired(holdMax, h) || o.now - h[OutageStart(h)].now >= holdMax)
  {
    var g := h + [o];
    OutageGrows(h, o);
    if OutageStart(h) < |h| {
      if Expired(holdMax, h) {
        var i :| OutageStart(h) < i < |h| && h[i].now - h[OutageStart(h)].now >= holdMax;
        assert g[i].now - g[OutageStart(g)].now >= holdMax;
      }
      if o.now - h[OutageStart(h)].now >= holdMax {
        assert g[|h|].now - g[OutageStart(g)].now >= holdMax;
      }
    }
  }

  /** What a reader of the ladder relies on: SAFE is left only to RUN, HOLD is entered only from RUN,
      and no HOLD decision is taken once the limit has elapsed since the outage began. */
  lemma LadderDiscipline(holdMax: real, h: seq<Observation>, o: Observation)
    ensures var before, after := After(holdMax, h).mode, After(holdMax, h + [o]).mode;
      && (after == Run <==> Healthy(o))
      && (before == Safe ==> after != Hold)
      && (before != Hold && after == Hold ==> before == Run)
      && (before == Hold && after == Hold ==>
            o.now - h[OutageStart(h)].now < holdMax && o.batteryOk && OutageStart(h) < |h|)
  {
    var g := h + [o];
    assert g[..|h|] == h;
    ModeIsHistory(holdMax, h);
    ModeIsHistory(holdMax, g);
    OutageGrows(h, o);
  }

  /** The reason of a decision tells which of the six situations the history is in. */
  lemma ReasonIsSituation(holdMax: real, h: seq<Observation>, o: Observation)
    ensures var k, reason := OutageStart(h), Advance(holdMax, After(holdMax, h), o).1;
      && (reason == BatteryUnavailable <==> !o.batteryOk)
      && (reason == DataFresh <==> Healthy(o))
      && (o.batteryOk && !o.dataFresh ==>
            if k == |h| then reason == StaleData
            else if BatteryLost(h) || Expired(holdMax, h) then reason == RemainingSafe
            else reason == if o.now - h[k].now >= holdMax then HoldExpired else Holding)
  {
    ModeIsHistory(holdMax, h);
  }

  ghost predicate AllStale(h: seq<Observation>) { forall i | 0 <= i < |h| :: !h[i].dataFresh && h[i].batteryOk }

  ghost function From(holdMax: real, s: ModeState, h: seq<Observation>): ModeState {
    if h == [] then s else Advance(holdMax, From(holdMax, s, h[..|h| - 1]), h[|h| - 1]).0
  }

  /** A controller constructed in HOLD has no start time, so with a positive limit stale data keep it
      there however long they last; the limit works only for a HOLD entered from RUN. */
  lemma {:induction false} ConstructedHoldNeverExpires(holdMax: real, h: seq<Observation>)
    requires AllStale(h) && h != []
    ensures From(holdMax, ModeState(Hold, None), h).mode == Hold <==> holdMax > 0.0
    ensures holdMax > 0.0 ==> From(holdMax, ModeState(Hold, None), h) == ModeState(Hold, None)
  {
    if |h| > 1 {
      ConstructedHoldNeverExpires(holdMax, h[..|h| - 1]);
    } else {
      assert h[..0] == [];
    }
  }

  // ------------------------------------------------------------ SAFE ramp

  /** SAFE-mode target: toward 0 by at most one slew step, straight to 0 without a slew limit. */
  function SafeSetpoint(last: real, slewLimit: Option<real>, period: real): real {
    match slewLimit
    case None => 0.0
    case Some(slew) =>
      if last > 0.0 then Max(0.0, last - slew * period) else Min(0.0, last + slew * period)
  }

  /** n consecutive SAFE cycles. */
  ghost function SafeRamp(last: real, slewLimit: Option<real>, period: real, n: nat): real {
    if n == 0 then last else SafeSetpoint(SafeRamp(last, slewLimit, period, n - 1), slewLimit, period)
  }

  lemma SafeStep(last: real, slew: real, period: real, step: real)
    requires step == slew * period && step > 0.0
    ensures var next := SafeSetpoint(last, Some(slew), period);
      Toward(next, last) && Abs(next) == Max(0.0, Abs(last) - step)
  {}

  /** Closed form: the magnitude falls by exactly one step per cycle until it is 0, and the sign
      never changes; so it is 0 exactly from cycle ceil(|last| / step) on. */
  lemma {:induction false} SafeRampClosedForm(last: real, slew: real, period: real, step: real, n: nat)
    requires step == slew * period && step > 0.0
    ensures Abs(SafeRamp(last, Some(slew), period, n)) == EC.Remaining(Abs(last), n, step)
    ensures Toward(SafeRamp(last, Some(slew), period, n), last)
    ensures SafeRamp(last, Some(slew), period, n) == 0.0 <==> n as real * step >= Abs(last)
  {
    hide SafeSetpoint, EC.Remaining;
    if n == 0 {
      EC.RemainingStep(Abs(last), 0, step);
    } else {
      SafeRampClosedForm(last, slew, period, step, n - 1);
      SafeStep(SafeRamp(last, Some(slew), period, n - 1), slew, period, step);
      EC.RemainingStep(Abs(last), n - 1, step);
    }
    RemainingZero(Abs(last), n, step);
  }

  /** Without a slew limit the first SAFE cycle is at zero. */
  lemma UnslewedSafeIsZero(last: real, period: real, n: nat)
    ensures SafeRamp(last, None, period, n) == if n == 0 then last else 0.0
  {}

  lemma RemainingZero(d: real, n: nat, step: real)
    ensures EC.Remaining(d, n, step) == 0.0 <==> n as real * step >= d
  {}
}
