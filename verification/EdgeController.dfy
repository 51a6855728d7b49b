/** The control law: one pure cycle, and the object that carries its state. */
module EdgeController {
  import opened Common

  const DERATE_DEADBAND: real := 0.01
  const CURTAIL_GAIN: real := 0.5
  const SAT_EPS: real := 0.000000001

  datatype ControlParams = ControlParams(kp: real, ki: real, updatePeriod: real, slewLimit: Option<real>)

  datatype BatteryLimits = BatteryLimits(
    maxCharge: real, maxDischarge: real, minSoc: real, maxSoc: real,
    minWarningSoc: real, maxWarningSoc: real)

  datatype DerateLimits = DerateLimits(loadMinDerate: real, pvMinDerate: real)

  datatype ControlInputs = ControlInputs(
    pccMeas: real, pccSetpoint: real, soc: real, availCharge: real, availDischarge: real,
    pvPower: real, maxFeed: Option<real>)

  datatype ControlState = ControlState(integral: real, lastSetpoint: real, derate: real, curtail: real)

  datatype ControlOutput = ControlOutput(
    setpoint: real, derate: real, curtail: real, error: real, piOutput: real,
    saturated: bool, frozen: bool, state: ControlState)

  const INITIAL := ControlState(0.0, 0.0, 1.0, 1.0)

  datatype Config = Config(params: ControlParams, battery: BatteryLimits, derate: DerateLimits)

  /** What the configuration models and the docstrings demand: a positive period, a positive
      slew limit when there is one, limits that are magnitudes, floors that are factors. */
  ghost predicate ValidConfig(c: Config) {
    && c.params.updatePeriod > 0.0
    && (c.params.slewLimit.Some? ==> c.params.slewLimit.value > 0.0)
    && c.battery.maxCharge >= 0.0
    && c.battery.maxDischarge >= 0.0
    && 0.0 <= c.derate.loadMinDerate <= 1.0
    && 0.0 <= c.derate.pvMinDerate <= 1.0
  }

  /** The gains are not checked by the configuration; several results need them to be non-negative. */
  ghost predicate ValidGains(p: ControlParams) { p.kp >= 0.0 && p.ki >= 0.0 }

  /** Signed setpoint window: static limits, dynamic headroom and the state-of-charge gates. */
  function Window(inputs: ControlInputs, battery: BatteryLimits): (real, real) {
    var upper := Min(battery.maxCharge, inputs.availCharge);
    var lower := -Min(battery.maxDischarge, inputs.availDischarge);
    var lower := if inputs.soc <= battery.minSoc then Max(lower, 0.0) else lower;
    var upper := if inputs.soc >= battery.maxSoc then Min(upper, 0.0) else upper;
    if lower > upper then (0.0, 0.0) else (lower, upper)
  }

  function Deadband(target: real, last: real): real {
    if Abs(target - last) < DERATE_DEADBAND then last else target
  }

  /** Low state-of-charge derate before the deadband. */
  function DerateTarget(soc: real, battery: BatteryLimits, derate: DerateLimits): real {
    if battery.minWarningSoc > 0.0 && soc < battery.minWarningSoc then
      var span := battery.minWarningSoc - battery.minSoc;
      var ramp := if span > 0.0 then (soc - battery.minSoc) / span else 0.0;
      Clamp(ramp, derate.loadMinDerate, 1.0)
    else
      1.0
  }

  /** The export overshoot, normalised by the available power that pvGen / prev estimates. */
  function Nudge(feedError: real, prev: real, pvGen: real): real
    requires pvGen > 0.0
  {
    CURTAIL_GAIN * feedError * prev / pvGen
  }

  /** Integrating feed-limit regulator; inactive outside the high state-of-charge band. */
  function Curtail(inputs: ControlInputs, battery: BatteryLimits, derate: DerateLimits, last: real): real {
    if inputs.maxFeed.Some? && battery.maxWarningSoc > 0.0 && inputs.soc >= battery.maxWarningSoc then
      var feedError := -inputs.pccMeas - inputs.maxFeed.value;
      var pvGen := Abs(inputs.pvPower);
      var prev := if last > 0.0 then last else 1.0;
      if pvGen > 0.0 then
        Clamp(prev - Nudge(feedError, prev, pvGen), derate.pvMinDerate, 1.0)
      else
        Clamp(prev, derate.pvMinDerate, 1.0)
    else
      1.0
  }

  datatype PiResult = PiResult(output: real, integral: real, frozen: bool)

  /** Proportional-integral law with conditional integration: the cycle's increment is rejected
      when the demand passes a limit of the window and the error pushes further into it. */
  function Pi(p: ControlParams, integral: real, error: real, lower: real, upper: real): PiResult {
    var candidate := integral + error * p.updatePeriod;
    var demand := p.kp * error + p.ki * candidate;
    if (demand > upper + SAT_EPS && error > 0.0) || (demand < lower - SAT_EPS && error < 0.0) then
      PiResult(p.kp * error + p.ki * integral, integral, true)
    else
      PiResult(demand, candidate, false)
  }

  /** Slew limiter; applied after the window clamp. */
  function Slew(p: ControlParams, target: real, prev: real): real {
    match p.slewLimit
    case Some(slew) => Clamp(target, prev - slew * p.updatePeriod, prev + slew * p.updatePeriod)
    case None => target
  }

  /** One control cycle. */
  function Compute(inputs: ControlInputs, c: Config, state: ControlState): ControlOutput {
    var error := inputs.pccSetpoint - inputs.pccMeas;
    var (lower, upper) := Window(inputs, c.battery);
    var pi := Pi(c.params, state.integral, error, lower, upper);
    var clamped := Clamp(pi.output, lower, upper);
    var setpoint := Slew(c.params, clamped, state.lastSetpoint);
    var derate := Deadband(DerateTarget(inputs.soc, c.battery, c.derate), state.derate);
    var curtail := Curtail(inputs, c.battery, c.derate, state.curtail);
    ControlOutput(setpoint, derate, curtail, error, pi.output, Abs(clamped - pi.output) > SAT_EPS, pi.frozen,
                  ControlState(pi.integral, setpoint, derate, curtail))
  }

  class EdgeController {
    const config: Config
    var state: ControlState

    constructor (config: Config, state: ControlState)
      ensures this.config == config && this.state == state
    {
      this.config := config;
      this.state := state;
    }

    method Step(inputs: ControlInputs) returns (out: ControlOutput)
      modifies this
      ensures out == Compute(inputs, config, old(state))
      ensures state == out.state
    {
      out := Compute(inputs, config, state);
      state := out.state;
    }

    method Reset(replacement: Option<ControlState>)
      modifies this
      ensures state == if replacement.Some? then replacement.value else INITIAL
    {
      state := if replacement.Some? then replacement.value else INITIAL;
    }
  }

  // ------------------------------------------------------------ what one cycle keeps

  lemma WindowWithinLimits(inputs: ControlInputs, battery: BatteryLimits)
    requires battery.maxCharge >= 0.0 && battery.maxDischarge >= 0.0
    ensures var (lower, upper) := Window(inputs, battery);
      -battery.maxDischarge <= lower <= upper <= battery.maxCharge
    ensures var (lower, upper) := Window(inputs, battery);
      (inputs.soc <= battery.minSoc ==> lower >= 0.0) && (inputs.soc >= battery.maxSoc ==> upper <= 0.0)
  {}

  /** Commands the limits, the headrooms and the gates allow together. */
  ghost predicate Allowed(x: real, inputs: ControlInputs, battery: BatteryLimits) {
    && Between(-battery.maxDischarge, x, battery.maxCharge)
    && Between(-inputs.availDischarge, x, inputs.availCharge)
    && (inputs.soc <= battery.minSoc ==> x >= 0.0)
    && (inputs.soc >= battery.maxSoc ==> x <= 0.0)
  }

  /** The window is exactly the allowed commands; when none is allowed it holds the battery at zero. */
  lemma WindowExactly(inputs: ControlInputs, battery: BatteryLimits)
    ensures var (lower, upper) := Window(inputs, battery);
      if exists x :: Allowed(x, inputs, battery)
      then forall x :: Between(lower, x, upper) <==> Allowed(x, inputs, battery)
      else (lower, upper) == (0.0, 0.0)
  {
    var (lower, upper) := Window(inputs, battery);
    if (lower, upper) != (0.0, 0.0) {
      assert Allowed(lower, inputs, battery);
    } else if exists x :: Allowed(x, inputs, battery) {
      var x :| Allowed(x, inputs, battery);
    }
  }

  /** The load derate ramps with the state of charge: never down as it rises, full from the warning
      level on, at the floor up to the minimum. */
  lemma DerateRamps(soc: real, soc': real, battery: BatteryLimits, derate: DerateLimits)
    requires soc <= soc' && derate.loadMinDerate <= 1.0
    ensures derate.loadMinDerate <= DerateTarget(soc, battery, derate) <= DerateTarget(soc', battery, derate) <= 1.0
    ensures soc >= battery.minWarningSoc ==> DerateTarget(soc, battery, derate) == 1.0
    ensures 0.0 <= derate.loadMinDerate && 0.0 < battery.minWarningSoc && soc < battery.minWarningSoc
      && soc <= battery.minSoc
      ==> DerateTarget(soc, battery, derate) == derate.loadMinDerate
  {
    var span := battery.minWarningSoc - battery.minSoc;
    if span > 0.0 {
      RampOrder(soc - battery.minSoc, soc' - battery.minSoc, span);
    }
  }

  lemma RampOrder(a: real, b: real, span: real)
    requires 0.0 < span && a <= b
    ensures a / span <= b / span && (a <= 0.0 ==> a / span <= 0.0)
  {}

  /** The curtailment factor follows the export: down while it is over the feed limit unless the floor
      is reached, up while it is under unless full power is, and still when it is on the limit. */
  lemma CurtailFollowsExport(inputs: ControlInputs, battery: BatteryLimits, derate: DerateLimits, last: real)
    requires inputs.maxFeed.Some? && battery.maxWarningSoc > 0.0 && inputs.soc >= battery.maxWarningSoc
    requires 0.0 < last && Between(derate.pvMinDerate, last, 1.0)
    ensures var next, over := Curtail(inputs, battery, derate, last), -inputs.pccMeas - inputs.maxFeed.value;
      && (inputs.pvPower == 0.0 || over == 0.0 ==> next == last)
      && (inputs.pvPower != 0.0 && over > 0.0 ==> next < last || next == last == derate.pvMinDerate)
      && (inputs.pvPower != 0.0 && over < 0.0 ==> next > last || next == last == 1.0)
  {
    var over, pv := -inputs.pccMeas - inputs.maxFeed.value, Abs(inputs.pvPower);
    if pv > 0.0 {
      NudgeSign(over, last, pv);
      hide Nudge;
    }
  }

  lemma NudgeSign(over: real, prev: real, pv: real)
    requires 0.0 < prev && 0.0 < pv
    ensures Nudge(over, prev, pv) > 0.0 <==> over > 0.0
    ensures Nudge(over, prev, pv) < 0.0 <==> over < 0.0
  {
    var n := Nudge(over, prev, pv);
    assert n * pv == CURTAIL_GAIN * over * prev;
    SignOfProduct(n, pv);
    SignOfProduct(CURTAIL_GAIN * over, prev);
  }

  /** Curtailment is regulated in this cycle: there is a feed limit, and the battery is in the high band. */
  ghost predicate Curtailing(inputs: ControlInputs, battery: BatteryLimits) {
    inputs.maxFeed.Some? && battery.maxWarningSoc > 0.0 && inputs.soc >= battery.maxWarningSoc
  }

  /** Outside the band, or without a feed limit, PV is released in that very cycle whatever the factor was.
      Inside, a factor that is not positive counts as no curtailment so far. */
  lemma CurtailReleases(inputs: ControlInputs, c: Config, s: ControlState)
    ensures !Curtailing(inputs, c.battery) ==> Compute(inputs, c, s).curtail == 1.0
    ensures s.curtail <= 0.0 ==> Compute(inputs, c, s).curtail == Compute(inputs, c, s.(curtail := 1.0)).curtail
  {
    hide Slew, Pi, DerateTarget, Window, Deadband;
  }

  /** Between the minimum and the warning level the load derate is the share of that span, unless the floor
      is higher. */
  lemma DerateInterpolates(soc: real, share: real, battery: BatteryLimits, derate: DerateLimits)
    requires battery.minSoc <= soc < battery.minWarningSoc && 0.0 < battery.minWarningSoc
    requires soc - battery.minSoc == share * (battery.minWarningSoc - battery.minSoc)
    requires derate.loadMinDerate <= 1.0
    ensures DerateTarget(soc, battery, derate) == Max(derate.loadMinDerate, share)
  {
    ShareOf(soc - battery.minSoc, share, battery.minWarningSoc - battery.minSoc);
  }

  lemma ShareOf(x: real, share: real, span: real)
    requires 0.0 <= x < span && x == share * span
    ensures x / span == share < 1.0
  {
    assert (x / span) * span == x;
  }

  /** The derate moves exactly when its target is at least a hundredth away, and then onto the target. */
  lemma DerateDeadband(inputs: ControlInputs, c: Config, s: ControlState)
    ensures var out, target := Compute(inputs, c, s).derate, DerateTarget(inputs.soc, c.battery, c.derate);
      && (Abs(target - s.derate) >= 0.01 ==> out == target)
      && (Abs(target - s.derate) < 0.01 ==> out == s.derate)
  {
    hide Slew, Pi, DerateTarget, Window, Curtail;
  }

  /** When the integrator holds still, in numbers: the demand the cycle asks for passes a limit by more than a
      billionth of a kilowatt and the error pushes further that way. */
  lemma FreezesExactly(inputs: ControlInputs, c: Config, s: ControlState)
    ensures var (lower, upper), out, p := Window(inputs, c.battery), Compute(inputs, c, s), c.params;
      var e := inputs.pccSetpoint - inputs.pccMeas;
      var asked := p.kp * e + p.ki * (s.integral + e * p.updatePeriod);
      && (out.frozen <==> (e > 0.0 && asked - upper > 0.000000001) || (e < 0.0 && lower - asked > 0.000000001))
      && (out.frozen ==> out.state.integral == s.integral && out.piOutput == p.kp * e + p.ki * s.integral)
      && (!out.frozen ==> out.state.integral == s.integral + e * p.updatePeriod && out.piOutput == asked)
  {
    hide Curtail, Slew, DerateTarget, Window, Deadband;
  }

  /** The battery is reported saturated when the demand the cycle ends up with is outside the window by more
      than that. */
  lemma SaturatedExactly(inputs: ControlInputs, c: Config, s: ControlState)
    requires ValidConfig(c)
    ensures var (lower, upper), out := Window(inputs, c.battery), Compute(inputs, c, s);
      out.saturated <==> out.piOutput - upper > 0.000000001 || lower - out.piOutput > 0.000000001
  {
    WindowWithinLimits(inputs, c.battery);
    hide Curtail, Slew, DerateTarget, Window, Deadband, Pi;
  }

  /** State every cycle of every mode keeps: the command inside the static limits, the
      integral contribution inside them up to the saturation tolerance, both factors above
      their floors. */
  ghost predicate Bounded(c: Config, s: ControlState) {
    && Between(-c.battery.maxDischarge, s.lastSetpoint, c.battery.maxCharge)
    && IntegralBounded(c, s)
    && Between(c.derate.loadMinDerate, s.derate, 1.0)
    && Between(c.derate.pvMinDerate, s.curtail, 1.0)
  }

  ghost predicate IntegralBounded(c: Config, s: ControlState) {
    Between(-c.battery.maxDischarge - SAT_EPS, Contribution(c.params, s.integral), c.battery.maxCharge + SAT_EPS)
  }

  /** What the integral adds to the demand. */
  ghost function Contribution(p: ControlParams, integral: real): real { p.ki * integral }

  /** The integral gain per cycle. */
  ghost function GainPerCycle(p: ControlParams): real { p.ki * p.updatePeriod }

  /** The law has no preferred direction: mirroring the window mirrors the result. */
  lemma PiIsOdd(p: ControlParams, integral: real, error: real, lower: real, upper: real)
    ensures var r, m := Pi(p, integral, error, lower, upper), Pi(p, -integral, -error, -upper, -lower);
      m.output == -r.output && m.integral == -r.integral && m.frozen == r.frozen
  {
    var cand := integral + error * p.updatePeriod;
    assert -integral + -error * p.updatePeriod == -cand;
    assert p.kp * -error == -(p.kp * error) && p.ki * -integral == -(p.ki * integral);
    assert p.ki * -cand == -(p.ki * cand);
  }

  /** The anti-windup keeps the integral contribution in any window that contains the cycle's own. */
  lemma IntegralStaysIn(p: ControlParams, integral: real, error: real, lower: real, upper: real,
                        lo: real, up: real, next: real)
    requires p.updatePeriod > 0.0 && ValidGains(p)
    requires lo <= lower && upper <= up && next == Pi(p, integral, error, lower, upper).integral
    requires Between(lo - SAT_EPS, Contribution(p, integral), up + SAT_EPS)
    ensures Between(lo - SAT_EPS, Contribution(p, next), up + SAT_EPS)
  {
    if error < 0.0 {
      PiIsOdd(p, integral, error, lower, upper);
      ContributionIsOdd(p, integral);
      ContributionIsOdd(p, next);
      hide Pi, Contribution;
      PositiveErrorStaysIn(p, -integral, -error, -upper, -lower, -up, -lo);
    } else {
      PositiveErrorStaysIn(p, integral, error, lower, upper, lo, up);
    }
  }

  lemma ContributionIsOdd(p: ControlParams, integral: real)
    ensures Contribution(p, -integral) == -Contribution(p, integral)
  {}

  lemma PositiveErrorStaysIn(p: ControlParams, integral: real, error: real, lower: real, upper: real, lo: real,
                             up: real)
    requires p.updatePeriod > 0.0 && ValidGains(p) && error >= 0.0
    requires lo <= lower && upper <= up
    requires Between(lo - SAT_EPS, Contribution(p, integral), up + SAT_EPS)
    ensures Between(lo - SAT_EPS, Contribution(p, Pi(p, integral, error, lower, upper).integral), up + SAT_EPS)
  {
    var increment := error * p.updatePeriod;
    MulLe(p.updatePeriod, 0.0, error);
    MulLe(p.ki, integral, integral + increment);
    MulLe(p.kp, 0.0, error);
  }

  /** Everything but the integral stays bounded whatever the gains are; the derate tracks its target
      within the deadband and moves by no less than that. */
  lemma CommandStaysBounded(inputs: ControlInputs, c: Config, s: ControlState)
    requires ValidConfig(c)
    requires Between(-c.battery.maxDischarge, s.lastSetpoint, c.battery.maxCharge)
    requires Between(c.derate.loadMinDerate, s.derate, 1.0) && Between(c.derate.pvMinDerate, s.curtail, 1.0)
    ensures var out := Compute(inputs, c, s);
      && Between(-c.battery.maxDischarge, out.setpoint, c.battery.maxCharge)
      && Between(c.derate.loadMinDerate, out.derate, 1.0)
      && Between(c.derate.pvMinDerate, out.curtail, 1.0)
      && Abs(out.derate - DerateTarget(inputs.soc, c.battery, c.derate)) < DERATE_DEADBAND
      && (out.derate == s.derate || Abs(out.derate - s.derate) >= DERATE_DEADBAND)
  {
    WindowWithinLimits(inputs, c.battery);
    var out := Compute(inputs, c, s);
    var (lower, upper) := Window(inputs, c.battery);
    SlewBetween(c, Clamp(out.piOutput, lower, upper), s.lastSetpoint);
  }

  /** The slew limiter moves from the previous command toward the target by at most one step and
      stops early only at the target. */
  lemma SlewBetween(c: Config, target: real, prev: real)
    requires ValidConfig(c)
    ensures Toward(Slew(c.params, target, prev) - prev, target - prev)
    ensures match c.params.slewLimit
      case None => Slew(c.params, target, prev) == target
      case Some(slew) =>
        var next, step := Slew(c.params, target, prev), slew * c.params.updatePeriod;
        step > 0.0 && Abs(next - prev) == Min(step, Abs(target - prev))
  {
    if c.params.slewLimit.Some? {
      MulLt(c.params.slewLimit.value, 0.0, c.params.updatePeriod);
    }
  }

  lemma ComputeKeepsBounded(inputs: ControlInputs, c: Config, s: ControlState)
    requires ValidConfig(c) && ValidGains(c.params) && Bounded(c, s)
    ensures Bounded(c, Compute(inputs, c, s).state)
  {
    var (lower, upper) := Window(inputs, c.battery);
    hide Curtail, Slew, DerateTarget, Pi, Window, Contribution;
    WindowWithinLimits(inputs, c.battery);
    CommandStaysBounded(inputs, c, s);
    IntegralStaysIn(c.params, s.integral, inputs.pccSetpoint - inputs.pccMeas, lower, upper,
                    -c.battery.maxDischarge, c.battery.maxCharge, Compute(inputs, c, s).state.integral);
  }

  // ------------------------------------------------------------ many cycles

  ghost function Cycles(inputs: seq<ControlInputs>, c: Config, s: ControlState): ControlState {
    if inputs == [] then s
    else Compute(inputs[|inputs| - 1], c, Cycles(inputs[..|inputs| - 1], c, s)).state
  }

  ghost predicate WindowIs(inputs: seq<ControlInputs>, battery: BatteryLimits, lo: real, up: real) {
    forall i | 0 <= i < |inputs| :: Window(inputs[i], battery) == (lo, up)
  }

  /** Once the band is left the factor is 1, and stays there for as long as the band is not entered. */
  lemma ReleasedWhileOutside(inputs: seq<ControlInputs>, after: seq<ControlInputs>, c: Config, s: ControlState)
    requires after != [] && forall i | 0 <= i < |after| :: !Curtailing(after[i], c.battery)
    ensures Cycles(inputs + after, c, s).curtail == 1.0
  {
    var all := inputs + after;
    assert all[|all| - 1] == after[|after| - 1];
    hide Compute, Curtailing;
    CurtailReleases(all[|all| - 1], c, Cycles(all[..|all| - 1], c, s));
    CurtailIsState(all[|all| - 1], c, Cycles(all[..|all| - 1], c, s));
  }

  lemma CurtailIsState(i: ControlInputs, c: Config, s: ControlState)
    ensures Compute(i, c, s).state.curtail == Compute(i, c, s).curtail
  {}

  /** How far a command is outside a window. */
  ghost function Outside(x: real, lo: real, up: real): real { Abs(x - Clamp(x, lo, up)) }

  /** The slew limiter is on and allows this much per cycle. */
  ghost predicate SlewStepIs(p: ControlParams, step: real) {
    p.slewLimit.Some? && step == p.slewLimit.value * p.updatePeriod
  }

  /** A distance d after k cycles that each take a whole step off it. */
  ghost function Remaining(d: real, k: nat, step: real): real { Max(0.0, d - k as real * step) }

  lemma RemainingStep(d: real, k: nat, step: real)
    requires 0.0 < step
    ensures Remaining(d, 0, step) == Max(0.0, d)
    ensures Max(0.0, Remaining(d, k, step) - step) == Remaining(d, k + 1, step)
  {
    assert (k + 1) as real * step == k as real * step + step;
  }

  /** Recovery from a window the command is outside of (a gate closed, the headroom shrank):
      with any inputs that keep the window, the distance shrinks by exactly a slew step each cycle
      until the command is inside; it never leaves again. */
  lemma {:induction false} WindowReached(inputs: seq<ControlInputs>, c: Config, s: ControlState,
                                         lo: real, up: real, step: real)
    requires ValidConfig(c) && SlewStepIs(c.params, step)
    requires lo <= up && WindowIs(inputs, c.battery, lo, up)
    ensures Outside(Cycles(inputs, c, s).lastSetpoint, lo, up)
         == Remaining(Outside(s.lastSetpoint, lo, up), |inputs|, step)
  {
    hide Compute, Remaining, Outside, SlewStepIs, ValidConfig, Window;
    var d := Outside(s.lastSetpoint, lo, up);
    StepPositive(c, step);
    if inputs != [] {
      var rest := inputs[..|inputs| - 1];
      WindowReached(rest, c, s, lo, up, step);
      OneCycleApproaches(inputs[|inputs| - 1], c, Cycles(rest, c, s), lo, up, step);
      RemainingStep(d, |rest|, step);
      assert |inputs| == |rest| + 1;
    } else {
      RemainingStep(d, 0, step);
      OutsideNonNegative(s.lastSetpoint, lo, up);
    }
  }

  /** After a run with one window the command is inside it exactly when the run was long enough. */
  lemma InsideExactly(inputs: seq<ControlInputs>, c: Config, s: ControlState, lo: real, up: real, step: real)
    requires ValidConfig(c) && SlewStepIs(c.params, step)
    requires lo <= up && WindowIs(inputs, c.battery, lo, up)
    ensures Between(lo, Cycles(inputs, c, s).lastSetpoint, up)
       <==> |inputs| as real * step >= Outside(s.lastSetpoint, lo, up)
  {
    WindowReached(inputs, c, s, lo, up, step);
    hide Cycles, WindowIs, SlewStepIs, ValidConfig;
  }

  lemma OutsideNonNegative(x: real, lo: real, up: real)
    ensures Outside(x, lo, up) >= 0.0
  {}

  lemma StepPositive(c: Config, step: real)
    requires ValidConfig(c) && SlewStepIs(c.params, step)
    ensures step > 0.0
  {
    MulLt(c.params.slewLimit.value, 0.0, c.params.updatePeriod);
  }

  lemma OneCycleApproaches(i: ControlInputs, c: Config, s: ControlState, lo: real, up: real, step: real)
    requires ValidConfig(c) && SlewStepIs(c.params, step)
    requires lo <= up && Window(i, c.battery) == (lo, up)
    ensures Outside(Compute(i, c, s).state.lastSetpoint, lo, up)
         == Max(0.0, Outside(s.lastSetpoint, lo, up) - step)
  {
    hide Curtail, DerateTarget, Pi, Window;
    StepPositive(c, step);
  }
}
