/** What conditional integration achieves over whole runs, and where it stops short. */
module AntiWindup {
  import opened Common
  import opened EdgeController

  // ------------------------------------------- the gains for which the integral is bounded

  ghost predicate AlwaysBounded(c: Config) {
    forall inputs: seq<ControlInputs> :: IntegralBounded(c, Cycles(inputs, c, INITIAL))
  }

  /** The configuration does not check the signs of the gains. The integral contribution stays
      within the battery limits on every run exactly when the integral gain is zero or both gains
      are non-negative. */
  lemma IntegralBoundedExactly(c: Config)
    requires ValidConfig(c)
    ensures AlwaysBounded(c) <==> c.params.ki == 0.0 || ValidGains(c.params)
  {
    if c.params.ki == 0.0 || ValidGains(c.params) {
      forall inputs: seq<ControlInputs> ensures IntegralBounded(c, Cycles(inputs, c, INITIAL)) {
        GoodGainsBounded(c, inputs);
      }
    } else if c.params.ki > 0.0 {
      NegativeProportionalGainEscapes(c);
    } else {
      NegativeGainPerCycleEscapes(c);
    }
  }

  lemma {:induction false} GoodGainsBounded(c: Config, inputs: seq<ControlInputs>)
    requires ValidConfig(c) && (c.params.ki == 0.0 || ValidGains(c.params))
    ensures IntegralBounded(c, Cycles(inputs, c, INITIAL))
  {
    hide Compute, Cycles;
    if c.params.ki == 0.0 {
      assert Contribution(c.params, Cycles(inputs, c, INITIAL).integral) == 0.0;
    } else if inputs == [] {
      assert Contribution(c.params, INITIAL.integral) == 0.0;
      NoCycles(c);
    } else {
      hide Contribution;
      GoodGainsBounded(c, inputs[..|inputs| - 1]);
      WindowWithinLimits(inputs[|inputs| - 1], c.battery);
      RunIntegralStaysIn(c, inputs, -c.battery.maxDischarge, c.battery.maxCharge);
    }
  }

  lemma NoCycles(c: Config)
    ensures Cycles([], c, INITIAL) == INITIAL
  {}

  /** One more cycle of a run. */
  lemma RunIntegralStaysIn(c: Config, inputs: seq<ControlInputs>, lo: real, up: real)
    requires ValidConfig(c) && ValidGains(c.params) && inputs != []
    requires var (lower, upper) := Window(inputs[|inputs| - 1], c.battery); lo <= lower && upper <= up
    requires Between(lo - SAT_EPS, Contribution(c.params, Cycles(inputs[..|inputs| - 1], c, INITIAL).integral),
                     up + SAT_EPS)
    ensures Between(lo - SAT_EPS, Contribution(c.params, Cycles(inputs, c, INITIAL).integral), up + SAT_EPS)
  {
    var i, s := inputs[|inputs| - 1], Cycles(inputs[..|inputs| - 1], c, INITIAL);
    var (lower, upper) := Window(i, c.battery);
    hide Curtail, Slew, DerateTarget, Pi, Window, Contribution;
    IntegralStaysIn(c.params, s.integral, i.pccSetpoint - i.pccMeas, lower, upper, lo, up,
                    Cycles(inputs, c, INITIAL).integral);
  }

  /** A cycle with error e, below the charge gate and with full charging headroom. */
  ghost function ErrorInput(c: Config, e: real): ControlInputs {
    ControlInputs(-e, 0.0, c.battery.maxSoc - 1.0, c.battery.maxCharge, c.battery.maxDischarge, 0.0, None)
  }

  ghost function SameInput(i: ControlInputs, n: nat): seq<ControlInputs> { seq(n, _ => i) }

  /** The demand a positive error e would have produced after k unfrozen cycles. */
  ghost function DemandAfter(c: Config, e: real, k: nat): real {
    c.params.kp * e + c.params.ki * Wound(c, e, k)
  }

  ghost function Wound(c: Config, e: real, k: nat): real { k as real * (e * c.params.updatePeriod) }

  /** A positive error that never trips the freeze test integrates on every cycle. */
  lemma {:induction false} Unfrozen(c: Config, i: ControlInputs, e: real, up: real, n: nat)
    requires ValidConfig(c) && e > 0.0 && i.pccSetpoint - i.pccMeas == e && Window(i, c.battery).1 == up
    requires forall k: nat | 0 < k <= n :: DemandAfter(c, e, k) <= up + SAT_EPS
    ensures Cycles(SameInput(i, n), c, INITIAL).integral == Wound(c, e, n)
  {
    if n > 0 {
      hide Compute, Wound, DemandAfter, Window;
      Unfrozen(c, i, e, up, n - 1);
      assert SameInput(i, n)[..n - 1] == SameInput(i, n - 1);
      var s := Cycles(SameInput(i, n - 1), c, INITIAL);
      WoundStep(c, e, n);
      UnfrozenStep(c, i, e, up, n, s);
    }
  }

  lemma WoundStep(c: Config, e: real, n: nat)
    requires n > 0
    ensures Wound(c, e, n) == Wound(c, e, n - 1) + e * c.params.updatePeriod
  {}

  lemma UnfrozenStep(c: Config, i: ControlInputs, e: real, up: real, n: nat, s: ControlState)
    requires ValidConfig(c) && e > 0.0 && i.pccSetpoint - i.pccMeas == e && Window(i, c.battery).1 == up
    requires n > 0 && s.integral == Wound(c, e, n - 1)
    requires DemandAfter(c, e, n) <= up + SAT_EPS
    ensures Compute(i, c, s).state.integral == Wound(c, e, n)
  {
    hide Curtail, Slew, DerateTarget, Window;
    WoundStep(c, e, n);
    assert DemandAfter(c, e, n) == c.params.kp * e + c.params.ki * (s.integral + e * c.params.updatePeriod);
  }

  /** With a negative proportional gain one cycle is enough: the error is large enough for the
      integral to pass the charge limit while the proportional term keeps the demand below it. */
  lemma NegativeProportionalGainEscapes(c: Config)
    requires ValidConfig(c) && c.params.kp < 0.0 < c.params.ki
    ensures !AlwaysBounded(c)
  {
    hide Compute, Cycles, IntegralBounded;
    var p, m := c.params, c.battery.maxCharge + SAT_EPS;
    var b := p.ki * p.updatePeriod;
    MulLt(p.ki, 0.0, p.updatePeriod);
    var e := EscapingError(-p.kp, b, m);
    assert p.ki * Wound(c, e, 1) == b * e;
    assert p.kp * e == -(-p.kp * e);
    Unfrozen(c, ErrorInput(c, e), e, c.battery.maxCharge, 1);
    EscapeWitness(c, e, 1);
  }

  lemma EscapingError(q: real, b: real, m: real) returns (e: real)
    requires 0.0 < q && 0.0 < b && 0.0 < m
    ensures 0.0 < e && m < b * e && b * e - q * e <= m
  {
    var d := m / b;
    MulLt(q, 0.0, d);
    e := d + q * d / b;
    assert b * e == m + q * d;
    MulLe(q, d, e);
  }

  lemma EscapeWitness(c: Config, e: real, n: nat)
    requires Cycles(SameInput(ErrorInput(c, e), n), c, INITIAL).integral == Wound(c, e, n)
    requires var x := c.params.ki * Wound(c, e, n);
      x > c.battery.maxCharge + SAT_EPS || x < -c.battery.maxDischarge - SAT_EPS
    ensures !AlwaysBounded(c)
  {
    hide Compute, Cycles, Wound;
    assert !IntegralBounded(c, Cycles(SameInput(ErrorInput(c, e), n), c, INITIAL));
  }

  /** With a negative integral gain a tiny constant error winds the contribution past the discharge limit. */
  lemma NegativeGainPerCycleEscapes(c: Config)
    requires ValidConfig(c) && c.params.ki < 0.0
    ensures !AlwaysBounded(c)
  {
    hide Compute, Cycles, IntegralBounded;
    var p, m := c.params, c.battery.maxDischarge + SAT_EPS;
    var e := TinyError(p.kp);
    MulLt(p.updatePeriod, 0.0, e);
    var step := -p.ki * (e * p.updatePeriod);
    MulLt(-p.ki, 0.0, e * p.updatePeriod);
    var n := Archimedes(m, step);
    forall k: nat ensures p.ki * Wound(c, e, k) == -(k as real * step) <= 0.0 {
      MulLe(k as real, 0.0, step);
    }
    forall k: nat | 0 < k <= n ensures DemandAfter(c, e, k) <= c.battery.maxCharge + SAT_EPS {
      assert p.ki * Wound(c, e, k) <= 0.0;
    }
    Unfrozen(c, ErrorInput(c, e), e, c.battery.maxCharge, n);
    EscapeWitness(c, e, n);
  }

  lemma TinyError(kp: real) returns (e: real)
    ensures 0.0 < e && kp * e <= SAT_EPS
  {
    var d := Abs(kp) + 1.0;
    e := SAT_EPS / d;
    assert d * e == SAT_EPS;
    if kp > 0.0 {
      MulLe(e, kp, d);
    } else {
      MulLe(-kp, 0.0, e);
    }
  }

  // ------------------------------------------- unwinding when the error reverses

  /** The increment of a reversed error is rejected: taken whole, it would have carried the demand
      through the window and past its other end. */
  ghost predicate Rejected(p: ControlParams, integral: real, error: real, lower: real) {
    p.kp * error + p.ki * (integral + error * p.updatePeriod) < lower - SAT_EPS
  }

  /** How much a cycle with this error takes off the demand at an unchanged integral. */
  ghost function Relief(p: ControlParams, integral: real, error: real, lower: real): real {
    if Rejected(p, integral, error, lower) then p.kp * -error
    else p.kp * -error + p.ki * (-error * p.updatePeriod)
  }

  /** The demand of an integral that sits at the upper limit (the bound above) when the error turns
      negative: it is back inside the window in that very cycle exactly when the relief reaches the
      excess. A rejected increment leaves only the proportional relief and an unmoved integral. */
  lemma ReversalUnwinds(p: ControlParams, integral: real, error: real, lower: real, upper: real)
    requires error < 0.0
    ensures var r := Pi(p, integral, error, lower, upper);
      && (r.frozen <==> Rejected(p, integral, error, lower))
      && r.integral == (if Rejected(p, integral, error, lower) then integral else integral + error * p.updatePeriod)
      && r.output == Contribution(p, integral) - Relief(p, integral, error, lower)
      && (r.output <= upper <==> Contribution(p, integral) - upper <= Relief(p, integral, error, lower))
  {
    var d := error * p.updatePeriod;
    assert -error * p.updatePeriod == -d && p.ki * -d == -(p.ki * d);
    assert p.ki * (integral + d) == p.ki * integral + p.ki * d;
    assert p.kp * -error == -(p.kp * error);
  }

  /** Along any run with one window the excess is at most the tolerance, so a reversed error whose
      relief is larger than that brings the demand strictly below the limit at once. */
  lemma ReliefUnwinds(inputs: seq<ControlInputs>, i: ControlInputs, c: Config, lo: real, up: real)
    requires ValidConfig(c) && ValidGains(c.params) && lo <= 0.0 <= up
    requires WindowIs(inputs + [i], c.battery, lo, up)
    requires var error := i.pccSetpoint - i.pccMeas;
      error < 0.0 && Relief(c.params, Cycles(inputs, c, INITIAL).integral, error, lo) > SAT_EPS
    ensures Compute(i, c, Cycles(inputs, c, INITIAL)).piOutput < up
  {
    var s := Cycles(inputs, c, INITIAL);
    hide Cycles, Relief, Rejected, Curtail, Slew, DerateTarget, Pi, Contribution;
    RunBeforeStaysInWindow(inputs, i, c, lo, up);
    ReversalUnwinds(c.params, s.integral, i.pccSetpoint - i.pccMeas, lo, up);
  }

  lemma RunBeforeStaysInWindow(inputs: seq<ControlInputs>, i: ControlInputs, c: Config, lo: real, up: real)
    requires ValidConfig(c) && ValidGains(c.params) && lo <= 0.0 <= up
    requires WindowIs(inputs + [i], c.battery, lo, up)
    ensures Window(i, c.battery) == (lo, up)
    ensures Between(lo - SAT_EPS, Contribution(c.params, Cycles(inputs, c, INITIAL).integral), up + SAT_EPS)
  {
    hide Cycles, Compute, Contribution, Window, ValidConfig;
    assert (inputs + [i])[|inputs|] == i;
    forall k | 0 <= k < |inputs| ensures Window(inputs[k], c.battery) == (lo, up) {
      assert (inputs + [i])[k] == inputs[k];
    }
    RunStaysInWindow(inputs, c, lo, up);
  }

  /** A gain applied to an amount. */
  ghost function Applied(gain: real, x: real): real { gain * x }

  /** What one cycle's error moves the demand by. */
  ghost function Response(p: ControlParams, error: real): real {
    Applied(p.kp, Abs(error)) + Applied(GainPerCycle(p), Abs(error))
  }

  /** The proportional gain across the window with its tolerance is worth the integral gain of the
      tolerance. */
  ghost predicate ProportionalSuffices(p: ControlParams, lo: real, up: real) {
    Applied(p.kp, up - lo + SAT_EPS) >= Applied(GainPerCycle(p), SAT_EPS)
  }

  /** The demand leaves the limit its error points away from. */
  ghost predicate LeavesLimit(error: real, demand: real, lo: real, up: real) {
    (error < 0.0 ==> demand < up) && (error > 0.0 ==> demand > lo)
  }

  /** In terms of the configuration and the error alone: along any run with one window, any error whose
      response exceeds the tolerance takes the demand off the limit it points away from in that very
      cycle, at both limits, when the proportional gain suffices. */
  lemma NoWindup(inputs: seq<ControlInputs>, i: ControlInputs, c: Config, lo: real, up: real)
    requires ValidConfig(c) && ValidGains(c.params) && lo <= 0.0 <= up
    requires WindowIs(inputs + [i], c.battery, lo, up)
    requires ProportionalSuffices(c.params, lo, up) && Response(c.params, i.pccSetpoint - i.pccMeas) > SAT_EPS
    ensures var error, demand := i.pccSetpoint - i.pccMeas, Compute(i, c, Cycles(inputs, c, INITIAL)).piOutput;
      LeavesLimit(error, demand, lo, up)
  {
    var s, error := Cycles(inputs, c, INITIAL), i.pccSetpoint - i.pccMeas;
    RunBeforeStaysInWindow(inputs, i, c, lo, up);
    assert Compute(i, c, s).piOutput == Pi(c.params, s.integral, error, lo, up).output by {
      hide Cycles, Curtail, Slew, DerateTarget, Pi, Contribution;
    }
    hide *;
    if error < 0.0 {
      UnwindsFromUpper(c, s.integral, error, lo, up);
    } else if error > 0.0 {
      UnwindsFromLower(c, s.integral, error, lo, up);
    }
  }

  lemma UnwindsFromUpper(c: Config, integral: real, error: real, lo: real, up: real)
    requires ValidConfig(c) && ValidGains(c.params) && lo <= up && error < 0.0
    requires Between(lo - SAT_EPS, Contribution(c.params, integral), up + SAT_EPS)
    requires ProportionalSuffices(c.params, lo, up) && Response(c.params, error) > SAT_EPS
    ensures Pi(c.params, integral, error, lo, up).output < up
  {
    var p, x := c.params, Contribution(c.params, integral);
    ReversalUnwinds(p, integral, error, lo, up);
    ReliefIs(p, integral, error, lo);
    GainNonNegative(c);
    hide Pi, Contribution, Relief, Rejected, Applied, GainPerCycle;
    if Rejected(p, integral, error, lo) {
      ReliefReaches(p.kp, GainPerCycle(p), -error, x - up, up - lo);
    }
  }

  lemma GainNonNegative(c: Config)
    requires ValidConfig(c) && ValidGains(c.params)
    ensures GainPerCycle(c.params) >= 0.0
  {
    MulLe(c.params.ki, 0.0, c.params.updatePeriod);
  }

  /** The relief is the whole response, or its proportional part when the response would carry the
      demand through the window. */
  lemma ReliefIs(p: ControlParams, integral: real, error: real, lo: real)
    requires error < 0.0
    ensures Rejected(p, integral, error, lo) <==> Contribution(p, integral) - Response(p, error) < lo - SAT_EPS
    ensures Relief(p, integral, error, lo)
         == if Rejected(p, integral, error, lo) then Applied(p.kp, -error) else Response(p, error)
  {
    var d := error * p.updatePeriod;
    IncrementIs(p, error);
    assert p.ki * (integral + d) == p.ki * integral + p.ki * d;
    assert p.kp * -error == -(p.kp * error);
  }

  lemma IncrementIs(p: ControlParams, error: real)
    ensures p.ki * (-error * p.updatePeriod) == GainPerCycle(p) * -error
    ensures p.ki * (error * p.updatePeriod) == -(GainPerCycle(p) * -error)
  {}

  /** Pure arithmetic of a rejected increment: it was so large that its proportional part suffices. */
  lemma ReliefReaches(q: real, b: real, e: real, excess: real, width: real)
    requires 0.0 <= q && 0.0 <= b && 0.0 < e && excess <= SAT_EPS
    requires Applied(q, width + SAT_EPS) >= Applied(b, SAT_EPS) && Applied(q, e) + Applied(b, e) > SAT_EPS
    requires Applied(q, e) + Applied(b, e) > excess + width + SAT_EPS
    ensures excess < Applied(q, e)
  {
    ProportionalPositive(q, b, e, width);
    var r, i := Applied(q, e), Applied(b, e);
    Crossing(q, b, e);
    assert Applied(q, excess + width + SAT_EPS) < Applied(q, r + i) by { MulLt(q, excess + width + SAT_EPS, r + i); }
    Spread(q, excess, width + SAT_EPS);
    Spread(q, r, i);
    assert Applied(b, excess) <= Applied(b, SAT_EPS) by { MulLe(b, excess, SAT_EPS); }
    hide Applied;
    Cancel(q, b, excess, r);
  }

  lemma ProportionalPositive(q: real, b: real, e: real, width: real)
    requires 0.0 <= q && 0.0 <= b && 0.0 < e
    requires Applied(q, width + SAT_EPS) >= Applied(b, SAT_EPS) && Applied(q, e) + Applied(b, e) > SAT_EPS
    ensures q > 0.0
  {}

  lemma Crossing(q: real, b: real, e: real)
    ensures Applied(q, Applied(b, e)) == Applied(b, Applied(q, e))
  {}

  lemma Spread(q: real, x: real, y: real)
    ensures Applied(q, x + y) == Applied(q, x) + Applied(q, y)
  {}

  lemma Cancel(q: real, b: real, x: real, y: real)
    requires 0.0 <= q && 0.0 <= b && Applied(q, x) + Applied(b, x) < Applied(q, y) + Applied(b, y)
    ensures x < y
  {
    if y <= x {
      MulLe(q, y, x);
      MulLe(b, y, x);
    }
  }

  lemma UnwindsFromLower(c: Config, integral: real, error: real, lo: real, up: real)
    requires ValidConfig(c) && ValidGains(c.params) && lo <= up && error > 0.0
    requires Between(lo - SAT_EPS, Contribution(c.params, integral), up + SAT_EPS)
    requires ProportionalSuffices(c.params, lo, up) && Response(c.params, error) > SAT_EPS
    ensures Pi(c.params, integral, error, lo, up).output > lo
  {
    hide Pi, Contribution, Applied, GainPerCycle, ValidConfig;
    PiIsOdd(c.params, integral, error, lo, up);
    ContributionIsOdd(c.params, integral);
    assert -lo - -up == up - lo;
    UnwindsFromUpper(c, -integral, -error, -up, -lo);
  }

  // ------------------------------------------- exactly when no error leaves the demand at its limit

  /** Along every run with this window, every error whose response exceeds the tolerance takes the demand
      off the limit it points away from. */
  ghost predicate AlwaysUnwinds(c: Config, lo: real, up: real) {
    forall inputs: seq<ControlInputs>, i: ControlInputs |
      WindowIs(inputs + [i], c.battery, lo, up) && Response(c.params, i.pccSetpoint - i.pccMeas) > SAT_EPS ::
        LeavesLimit(i.pccSetpoint - i.pccMeas, Compute(i, c, Cycles(inputs, c, INITIAL)).piOutput, lo, up)
  }

  /** Some cycle has this window. */
  ghost predicate Realisable(battery: BatteryLimits, lo: real, up: real) {
    exists i :: Window(i, battery) == (lo, up)
  }

  /** The condition of NoWindup is exact: with any smaller proportional gain small errors wind the demand
      up to within the tolerance, and a large reversed error then leaves it at the limit. */
  lemma NoWindupExactly(c: Config, lo: real, up: real)
    requires ValidConfig(c) && ValidGains(c.params) && lo <= 0.0 <= up && Realisable(c.battery, lo, up)
    ensures AlwaysUnwinds(c, lo, up) <==> ProportionalSuffices(c.params, lo, up)
  {
    hide Compute, Cycles, WindowIs, Window, Response, LeavesLimit;
    if ProportionalSuffices(c.params, lo, up) {
      hide ProportionalSuffices;
      forall inputs: seq<ControlInputs>, i: ControlInputs |
        WindowIs(inputs + [i], c.battery, lo, up) && Response(c.params, i.pccSetpoint - i.pccMeas) > SAT_EPS
        ensures LeavesLimit(i.pccSetpoint - i.pccMeas, Compute(i, c, Cycles(inputs, c, INITIAL)).piOutput, lo, up)
      {
        NoWindup(inputs, i, c, lo, up);
      }
    } else {
      hide ProportionalSuffices;
      var any :| Window(any, c.battery) == (lo, up);
      var inputs, i := StuckRun(c, any, lo, up);
      assert !LeavesLimit(i.pccSetpoint - i.pccMeas, Compute(i, c, Cycles(inputs, c, INITIAL)).piOutput, lo, up);
    }
  }

  /** The cycle with another error. */
  ghost function WithError(i: ControlInputs, e: real): ControlInputs { i.(pccMeas := -e, pccSetpoint := 0.0) }

  lemma StuckRun(c: Config, any: ControlInputs, lo: real, up: real)
    returns (inputs: seq<ControlInputs>, i: ControlInputs)
    requires ValidConfig(c) && ValidGains(c.params) && lo <= 0.0 <= up && Window(any, c.battery) == (lo, up)
    requires !ProportionalSuffices(c.params, lo, up)
    ensures WindowIs(inputs + [i], c.battery, lo, up) && Response(c.params, i.pccSetpoint - i.pccMeas) > SAT_EPS
    ensures !LeavesLimit(i.pccSetpoint - i.pccMeas, Compute(i, c, Cycles(inputs, c, INITIAL)).piOutput, lo, up)
  {
    GainNonNegative(c);
    var p := c.params;
    var q, b, width := p.kp, GainPerCycle(p), up - lo;
    var n, d := WindingError(q, b, width, up);
    var excess := SAT_EPS - Applied(q, d);
    var e := ReversedError(q, b, excess, width);
    hide *;
    inputs := SameInput(WithError(any, d), n);
    i := WithError(any, -e);
    WindowKept(any, c.battery, d, n, e, lo, up);
    WoundUp(c, any, d, lo, up, n);
    StaysAtLimit(p, Cycles(inputs, c, INITIAL).integral, e, excess, lo, up);
    DemandIs(i, c, Cycles(inputs, c, INITIAL), lo, up);
    NotLeft(-e, Compute(i, c, Cycles(inputs, c, INITIAL)).piOutput, lo, up);
  }

  lemma NotLeft(error: real, demand: real, lo: real, up: real)
    requires error < 0.0 && demand >= up
    ensures !LeavesLimit(error, demand, lo, up)
  {}

  lemma DemandIs(i: ControlInputs, c: Config, s: ControlState, lo: real, up: real)
    requires Window(i, c.battery) == (lo, up)
    ensures Compute(i, c, s).piOutput == Pi(c.params, s.integral, i.pccSetpoint - i.pccMeas, lo, up).output
  {
    hide Curtail, Slew, DerateTarget, Pi, Window;
  }

  lemma WindowKept(any: ControlInputs, battery: BatteryLimits, d: real, n: nat, e: real, lo: real, up: real)
    requires Window(any, battery) == (lo, up)
    ensures WindowIs(SameInput(WithError(any, d), n) + [WithError(any, -e)], battery, lo, up)
    ensures Window(WithError(any, d), battery) == Window(WithError(any, -e), battery) == (lo, up)
    ensures WithError(any, d).pccSetpoint - WithError(any, d).pccMeas == d
    ensures WithError(any, -e).pccSetpoint - WithError(any, -e).pccMeas == -e
  {}

  /** An error so small, over so many cycles, that the integral ends within the tolerance of the excess
      from which the proportional gain cannot unwind. */
  lemma WindingError(q: real, b: real, width: real, up: real) returns (n: nat, d: real)
    requires 0.0 <= q && 0.0 <= b && 0.0 <= width && 0.0 <= up
    requires Applied(q, width + SAT_EPS) < Applied(b, SAT_EPS)
    ensures 0.0 < d && Applied(n as real, Applied(b, d)) + Applied(q, d) == up + SAT_EPS
    ensures Applied(b, SAT_EPS - Applied(q, d)) > Applied(q, width + SAT_EPS)
    ensures b > 0.0
  {
    assert Applied(q, width + SAT_EPS) >= 0.0 by { MulLe(q, 0.0, width + SAT_EPS); }
    assert b > 0.0;
    var room := Applied(b, SAT_EPS) - Applied(q, width + SAT_EPS);
    MulLe(q, 0.0, up + SAT_EPS);
    n := Archimedes(q * (up + SAT_EPS), room);
    assert n as real > 0.0;
    MulLt(b, 0.0, n as real);
    var whole := n as real * b + q;
    d := (up + SAT_EPS) / whole;
    assert d * whole == up + SAT_EPS;
    SmallShare(q, b, n as real, d, up + SAT_EPS, room);
  }

  lemma SmallShare(q: real, b: real, n: real, d: real, total: real, room: real)
    requires 0.0 <= q && 0.0 < b && 0.0 < n && 0.0 < d && d * (n * b + q) == total && q * total < n * room
    ensures Applied(n, Applied(b, d)) + Applied(q, d) == total
    ensures Applied(b, Applied(q, d)) < room
  {
    MulLe(d, 0.0, q);
    assert n * (b * d) + q * d == total;
    MulLe(q, n * (b * d), total);
    assert n * (b * (q * d)) == q * (n * (b * d));
    if b * (q * d) >= room {
      MulLe(n, room, b * (q * d));
    }
  }

  /** A reversed error whose proportional part does not exceed the excess although its response crosses
      the window. */
  lemma ReversedError(q: real, b: real, excess: real, width: real) returns (e: real)
    requires 0.0 <= q && 0.0 < b && 0.0 <= width && Applied(b, excess) > Applied(q, width + SAT_EPS)
    ensures 0.0 < e && Applied(q, e) <= excess && 0.0 < excess
    ensures Applied(q, e) + Applied(b, e) > excess + width + SAT_EPS
  {
    MulLe(q, 0.0, width + SAT_EPS);
    SignOfProduct(excess, b);
    if q == 0.0 {
      e := (excess + width + SAT_EPS + 1.0) / b;
      assert b * e == excess + width + SAT_EPS + 1.0;
    } else {
      e := excess / q;
      assert q * e == excess;
      Crossing(q, b, e);
      if b * e <= width + SAT_EPS {
        MulLe(q, b * e, width + SAT_EPS);
      }
    }
  }

  /** Small errors wind the integral up to the tolerance less their own proportional part. */
  lemma WoundUp(c: Config, any: ControlInputs, d: real, lo: real, up: real, n: nat)
    requires ValidConfig(c) && ValidGains(c.params) && 0.0 < d && Window(WithError(any, d), c.battery) == (lo, up)
    requires WithError(any, d).pccSetpoint - WithError(any, d).pccMeas == d
    requires Applied(n as real, Applied(GainPerCycle(c.params), d)) + Applied(c.params.kp, d) == up + SAT_EPS
    ensures Contribution(c.params, Cycles(SameInput(WithError(any, d), n), c, INITIAL).integral)
         == up + SAT_EPS - Applied(c.params.kp, d)
  {
    hide Cycles, SameInput, WithError, Window;
    forall k: nat ensures c.params.ki * Wound(c, d, k) == Applied(k as real, Applied(GainPerCycle(c.params), d)) {
      WoundContribution(c, d, k);
    }
    GainNonNegative(c);
    MulLe(d, 0.0, GainPerCycle(c.params));
    forall k: nat | 0 < k <= n ensures DemandAfter(c, d, k) <= up + SAT_EPS {
      MulLe(Applied(GainPerCycle(c.params), d), k as real, n as real);
    }
    Unfrozen(c, WithError(any, d), d, up, n);
  }

  lemma WoundContribution(c: Config, d: real, k: nat)
    ensures c.params.ki * Wound(c, d, k) == Applied(k as real, Applied(GainPerCycle(c.params), d))
  {
    assert c.params.ki * (d * c.params.updatePeriod) == GainPerCycle(c.params) * d;
  }

  /** A rejected increment whose proportional part does not reach the excess leaves the demand at the
      limit. */
  lemma StaysAtLimit(p: ControlParams, integral: real, e: real, excess: real, lo: real, up: real)
    requires 0.0 < e && Contribution(p, integral) == up + excess && 0.0 < excess && lo <= up
    requires Applied(p.kp, e) <= excess
    requires Applied(p.kp, e) + Applied(GainPerCycle(p), e) > excess + (up - lo) + SAT_EPS
    ensures Response(p, -e) > SAT_EPS
    ensures Pi(p, integral, -e, lo, up).output >= up
  {
    ReversalUnwinds(p, integral, -e, lo, up);
    ReliefIs(p, integral, -e, lo);
    hide Pi, Contribution, Relief, Rejected, Applied, GainPerCycle;
    assert Abs(-e) == e && -(-e) == e;
  }

  lemma {:induction false} RunStaysInWindow(inputs: seq<ControlInputs>, c: Config, lo: real, up: real)
    requires ValidConfig(c) && ValidGains(c.params) && lo <= 0.0 <= up && WindowIs(inputs, c.battery, lo, up)
    ensures Between(lo - SAT_EPS, Contribution(c.params, Cycles(inputs, c, INITIAL).integral), up + SAT_EPS)
  {
    hide Compute, Cycles;
    if inputs == [] {
      NoCycles(c);
      assert Contribution(c.params, 0.0) == 0.0;
    } else {
      hide Contribution;
      assert Window(inputs[|inputs| - 1], c.battery) == (lo, up);
      RunStaysInWindow(inputs[..|inputs| - 1], c, lo, up);
      RunIntegralStaysIn(c, inputs, lo, up);
    }
  }

  /** Every cycle of a run has window (lo, up) and an error whose increment would be rejected. */
  ghost predicate KeepsRejecting(inputs: seq<ControlInputs>, c: Config, integral: real, lo: real, up: real) {
    && WindowIs(inputs, c.battery, lo, up)
    && forall i | 0 <= i < |inputs| ::
         inputs[i].pccSetpoint - inputs[i].pccMeas < 0.0
         && Rejected(c.params, integral, inputs[i].pccSetpoint - inputs[i].pccMeas, lo)
  }

  /** With no proportional gain a large reversed error never unwinds the integral: however long it
      lasts, the demand stays where it was. */
  lemma {:induction false} LargeReversalSticks(inputs: seq<ControlInputs>, c: Config, s: ControlState, lo: real,
                                               up: real)
    requires ValidConfig(c) && c.params.kp == 0.0 && lo <= up && KeepsRejecting(inputs, c, s.integral, lo, up)
    ensures Cycles(inputs, c, s).integral == s.integral
    ensures inputs != [] ==>
      Compute(inputs[|inputs| - 1], c, Cycles(inputs[..|inputs| - 1], c, s)).piOutput == c.params.ki * s.integral
  {
    if inputs != [] {
      var n := |inputs| - 1;
      LargeReversalSticks(inputs[..n], c, s, lo, up);
      assert Window(inputs[n], c.battery) == (lo, up);
      StickOnce(inputs[n], c, Cycles(inputs[..n], c, s), lo, up);
    }
  }

  lemma StickOnce(i: ControlInputs, c: Config, s: ControlState, lo: real, up: real)
    requires c.params.kp == 0.0 && Window(i, c.battery) == (lo, up)
    requires i.pccSetpoint - i.pccMeas < 0.0 && Rejected(c.params, s.integral, i.pccSetpoint - i.pccMeas, lo)
    ensures Compute(i, c, s).state.integral == s.integral
    ensures Compute(i, c, s).piOutput == c.params.ki * s.integral
  {
    hide Curtail, Slew, DerateTarget, Window, Pi, Rejected;
    ReversalUnwinds(c.params, s.integral, i.pccSetpoint - i.pccMeas, lo, up);
    assert Relief(c.params, s.integral, i.pccSetpoint - i.pccMeas, lo) == 0.0;
  }

  /** A concrete stuck run: an integral-only controller at its charge limit meets an import of 5 MW
      and keeps commanding 100 kW of charge for as many cycles as the import lasts. */
  lemma StuckExample(n: nat)
    ensures var c := Config(ControlParams(0.0, 0.1, 1.0, None), BatteryLimits(100.0, 100.0, 5.0, 95.0, 0.0, 0.0),
                            DerateLimits(0.0, 0.0));
      var i := ControlInputs(5000.0, 0.0, 50.0, 100.0, 100.0, 0.0, None);
      Compute(i, c, Cycles(SameInput(i, n), c, ControlState(1000.0, 100.0, 1.0, 1.0))).setpoint == 100.0
  {
    var c := Config(ControlParams(0.0, 0.1, 1.0, None), BatteryLimits(100.0, 100.0, 5.0, 95.0, 0.0, 0.0),
                    DerateLimits(0.0, 0.0));
    var i, s := ControlInputs(5000.0, 0.0, 50.0, 100.0, 100.0, 0.0, None), ControlState(1000.0, 100.0, 1.0, 1.0);
    assert Window(i, c.battery) == (-100.0, 100.0);
    LargeReversalSticks(SameInput(i, n + 1), c, s, -100.0, 100.0);
    assert SameInput(i, n + 1)[..n] == SameInput(i, n);
  }
}
