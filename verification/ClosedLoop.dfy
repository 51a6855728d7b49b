/** The control law in feedback with the plants of the unit tests: convergence over whole runs. */
module ClosedLoop {
  import opened Common
  import opened EdgeController

  // ------------------------------------------------------------ PCC = load + battery

  /** What the controller measures when the plant applies the last command at once. */
  ghost function Measured(env: ControlInputs, load: real, target: real, s: ControlState): ControlInputs {
    env.(pccMeas := load + s.lastSetpoint, pccSetpoint := target)
  }

  /** The state after one cycle per element of envs, from the initial state. Each element supplies
      the state of charge and the headrooms of its cycle. */
  ghost function Tracking(envs: seq<ControlInputs>, c: Config, load: real, target: real): ControlState {
    if envs == [] then INITIAL
    else
      var s := Tracking(envs[..|envs| - 1], c, load, target);
      Compute(Measured(envs[|envs| - 1], load, target, s), c, s).state
  }

  ghost function Error(envs: seq<ControlInputs>, c: Config, load: real, target: real): real {
    target - load - Tracking(envs, c, load, target).lastSetpoint
  }

  ghost function PrevError(envs: seq<ControlInputs>, c: Config, load: real, target: real): real {
    if envs == [] then 0.0 else Error(envs[..|envs| - 1], c, load, target)
  }

  ghost predicate StableGains(p: ControlParams) {
    && p.slewLimit.None?
    && p.kp >= 0.0
    && GainPerCycle(p) > 0.0
    && p.kp + GainPerCycle(p) <= 1.0
  }

  /** Every cycle's window contains the command that closes the gap, and zero. */
  ghost predicate Room(envs: seq<ControlInputs>, battery: BatteryLimits, gap: real) {
    forall i | 0 <= i < |envs| ::
      Window(envs[i], battery).0 <= Min(0.0, gap) && Max(0.0, gap) <= Window(envs[i], battery).1
  }

  /** Second-order recurrence of the error. */
  ghost function NextError(p: ControlParams, e: real, prev: real): real {
    (1.0 - p.kp - GainPerCycle(p)) * e + p.kp * prev
  }

  lemma NextErrorToward(p: ControlParams, e: real, prev: real, gap: real)
    requires StableGains(p) && Toward(e, gap) && Toward(prev, gap)
    ensures Toward(NextError(p, e, prev), gap)
  {
    var b, lo, up := GainPerCycle(p), Min(0.0, gap), Max(0.0, gap);
    NextBelow(p.kp, b, e, prev, up);
    NextBelow(p.kp, b, -e, -prev, -lo);
    NextIsOdd(p.kp, b, e, prev);
    hide GainPerCycle;
  }

  lemma NextBelow(a: real, b: real, e: real, prev: real, up: real)
    requires 0.0 <= a && 0.0 <= b && a + b <= 1.0 && e <= up && prev <= up && 0.0 <= up
    ensures (1.0 - a - b) * e + a * prev <= up
  {
    BlendBelow(1.0 - a - b, a, e, prev, up);
    MulLe(up, 1.0 - b, 1.0);
  }

  lemma NextIsOdd(a: real, b: real, e: real, prev: real)
    ensures (1.0 - a - b) * -e + a * -prev == -((1.0 - a - b) * e + a * prev)
  {}

  /** The demand of a cycle, given that the last command was the unsaturated one. */
  lemma DemandClosesIn(p: ControlParams, integral: real, e: real, prev: real, gap: real)
    requires e == gap - (p.kp * prev + Contribution(p, integral))
    ensures p.kp * e + p.ki * (integral + e * p.updatePeriod) == gap - NextError(p, e, prev)
    ensures p.kp * e + Contribution(p, integral + e * p.updatePeriod) == gap - NextError(p, e, prev)
  {
    assert p.ki * (integral + e * p.updatePeriod) == p.ki * integral + GainPerCycle(p) * e;
    assert NextError(p, e, prev) == e - p.kp * e - GainPerCycle(p) * e + p.kp * prev;
  }

  lemma PiUnsaturated(p: ControlParams, integral: real, e: real, prev: real, gap: real, lower: real, upper: real)
    requires StableGains(p) && Toward(e, gap) && Toward(prev, gap)
    requires e == gap - (p.kp * prev + Contribution(p, integral))
    requires lower <= Min(0.0, gap) && Max(0.0, gap) <= upper
    ensures var r := Pi(p, integral, e, lower, upper);
      !r.frozen && r.output == gap - NextError(p, e, prev) && Between(lower, r.output, upper)
      && r.output == p.kp * e + Contribution(p, r.integral)
  {
    NextErrorToward(p, e, prev, gap);
    hide StableGains, NextError, Contribution;
    DemandClosesIn(p, integral, e, prev, gap);
  }

  /** The command is the unsaturated one for the error before last. */
  ghost predicate OnLine(p: ControlParams, s: ControlState, prev: real) {
    s.lastSetpoint == p.kp * prev + Contribution(p, s.integral)
  }

  lemma LoopStep(i: ControlInputs, c: Config, s: ControlState, e: real, prev: real, gap: real)
    requires StableGains(c.params) && OnLine(c.params, s, prev)
    requires Toward(e, gap) && Toward(prev, gap)
    requires e == gap - s.lastSetpoint && e == i.pccSetpoint - i.pccMeas
    requires Window(i, c.battery).0 <= Min(0.0, gap) && Max(0.0, gap) <= Window(i, c.battery).1
    ensures var out := Compute(i, c, s);
      && !out.frozen && !out.saturated
      && gap - out.setpoint == NextError(c.params, e, prev)
      && Toward(NextError(c.params, e, prev), gap)
      && OnLine(c.params, out.state, e)
  {
    var (lower, upper) := Window(i, c.battery);
    assert e == gap - (c.params.kp * prev + Contribution(c.params, s.integral));
    assert c.params.slewLimit.None?;
    hide StableGains, NextError, Pi, Curtail, DerateTarget, Window, Contribution;
    PiUnsaturated(c.params, s.integral, e, prev, gap, lower, upper);
    NextErrorToward(c.params, e, prev, gap);
  }

  lemma LoopStart(p: ControlParams)
    ensures OnLine(p, INITIAL, 0.0)
  {}

  /** Nothing ever saturates, the error never changes sign and never exceeds the initial one, and
      it obeys the linear recurrence exactly. */
  lemma {:induction false} NoOvershoot(envs: seq<ControlInputs>, c: Config, load: real, target: real)
    requires StableGains(c.params) && Room(envs, c.battery, target - load)
    ensures OnLine(c.params, Tracking(envs, c, load, target), PrevError(envs, c, load, target))
    ensures Toward(Error(envs, c, load, target), target - load)
    ensures Toward(PrevError(envs, c, load, target), target - load)
    ensures envs != [] ==>
      var rest := envs[..|envs| - 1];
      var s := Tracking(rest, c, load, target);
      var out := Compute(Measured(envs[|envs| - 1], load, target, s), c, s);
      && !out.frozen && !out.saturated
      && Error(envs, c, load, target) == NextError(c.params, Error(rest, c, load, target),
                                                   PrevError(rest, c, load, target))
  {
    hide StableGains, NextError, OnLine;
    LoopStart(c.params);
    if envs != [] {
      var rest, env, gap := envs[..|envs| - 1], envs[|envs| - 1], target - load;
      assert Room(rest, c.battery, gap);
      NoOvershoot(rest, c, load, target);
      var s := Tracking(rest, c, load, target);
      var i := Measured(env, load, target, s);
      assert Window(i, c.battery) == Window(env, c.battery);
      hide Compute, Window;
      LoopStep(i, c, s, Error(rest, c, load, target), PrevError(rest, c, load, target), gap);
    }
  }

  /** The bound on the error after n cycles. */
  ghost function Envelope(p: ControlParams, gap: real, k: nat): real {
    Power(1.0 - GainPerCycle(p), k) * Abs(gap)
  }

  lemma GainInUnit(p: ControlParams)
    requires StableGains(p)
    ensures 0.0 < GainPerCycle(p) <= 1.0
  {}

  lemma EnvelopeShrinks(p: ControlParams, gap: real, k: nat, m: nat)
    requires StableGains(p) && k <= m
    ensures 0.0 <= Envelope(p, gap, m) <= Envelope(p, gap, k)
  {
    var b := 1.0 - GainPerCycle(p);
    GainInUnit(p);
    hide GainPerCycle, StableGains;
    PowerInUnit(b, m);
    PowerAntitone(b, k, m);
    MulLe(Abs(gap), 0.0, Power(b, m));
    MulLe(Abs(gap), Power(b, m), Power(b, k));
  }

  lemma EnvelopeStep(p: ControlParams, gap: real, k: nat)
    ensures Envelope(p, gap, k + 1) == (1.0 - GainPerCycle(p)) * Envelope(p, gap, k)
    ensures Envelope(p, gap, 0) == Abs(gap)
  {
    hide GainPerCycle;
  }

  lemma NextErrorWithin(p: ControlParams, e: real, prev: real, bound: real)
    requires StableGains(p) && Abs(e) <= bound && Abs(prev) <= bound
    ensures Abs(NextError(p, e, prev)) <= (1.0 - GainPerCycle(p)) * bound
  {
    var b := GainPerCycle(p);
    BlendBelow(1.0 - p.kp - b, p.kp, e, prev, bound);
    BlendBelow(1.0 - p.kp - b, p.kp, -e, -prev, bound);
    NextIsOdd(p.kp, b, e, prev);
    hide GainPerCycle;
  }

  /** The error shrinks by the factor 1 - ki*dt at least every second cycle. */
  lemma {:induction false} ErrorDecays(envs: seq<ControlInputs>, c: Config, load: real, target: real)
    requires StableGains(c.params) && Room(envs, c.battery, target - load)
    ensures Abs(Error(envs, c, load, target)) <= Envelope(c.params, target - load, (|envs| + 1) / 2)
    ensures Abs(PrevError(envs, c, load, target)) <= Envelope(c.params, target - load, |envs| / 2)
  {
    hide StableGains, NextError, Envelope, Compute, Window;
    var p, gap, n := c.params, target - load, |envs|;
    EnvelopeStep(p, gap, 0);
    if envs != [] {
      var rest := envs[..n - 1];
      assert Room(rest, c.battery, gap);
      ErrorDecays(rest, c, load, target);
      NoOvershoot(envs, c, load, target);
      var k := (n - 1) / 2;
      EnvelopeStep(p, gap, k);
      EnvelopeShrinks(p, gap, k, n / 2);
      NextErrorWithin(p, Error(rest, c, load, target), PrevError(rest, c, load, target), Envelope(p, gap, k));
      assert (n + 1) / 2 == k + 1;
    }
  }

  /** Self-consumption tracking converges: for every tolerance there is a cycle count after which
      the error stays below it, for all environments that leave room. */
  lemma TrackingConverges(c: Config, gap: real, eps: real) returns (settled: nat)
    requires StableGains(c.params) && eps > 0.0
    ensures forall envs: seq<ControlInputs>, load: real, target: real {:trigger Error(envs, c, load, target)} |
      |envs| >= settled && target - load == gap && Room(envs, c.battery, gap) ::
      Abs(Error(envs, c, load, target)) < eps
  {
    GainInUnit(c.params);
    var k := GeometricVanishes(GainPerCycle(c.params), Abs(gap), eps);
    settled := 2 * k;
    hide StableGains, Error;
    assert Envelope(c.params, gap, k) < eps;
    forall envs: seq<ControlInputs>, load: real, target: real |
      |envs| >= settled && target - load == gap && Room(envs, c.battery, gap)
      ensures Abs(Error(envs, c, load, target)) < eps
    {
      ErrorDecays(envs, c, load, target);
      EnvelopeShrinks(c.params, gap, k, (|envs| + 1) / 2);
    }
  }

  /** The bound on the gains is exact: with room for the first demand, the very first cycle
      overshoots exactly when kp + ki*dt exceeds one. */
  lemma OvershootExactly(env: ControlInputs, c: Config, load: real, target: real)
    requires c.params.slewLimit.None? && target != load
    requires Window(env, c.battery).0 <= FirstDemand(c.params, target - load) <= Window(env, c.battery).1
    ensures Error([env], c, load, target) * (target - load) < 0.0 <==> c.params.kp + GainPerCycle(c.params) > 1.0
  {
    var p, e, i := c.params, target - load, Measured(env, load, target, INITIAL);
    var (lower, upper) := Window(env, c.battery);
    assert Window(i, c.battery) == (lower, upper);
    FirstCycle(env, c, load, target);
    FirstOutput(p, e, lower, upper);
    hide Compute, Tracking, GainPerCycle, Pi, Window, FirstDemand;
    assert Error([env], c, load, target) == e - FirstDemand(p, e) by {
      assert i.pccSetpoint - i.pccMeas == e;
      UnslewedSetpoint(i, c, INITIAL);
    }
    FirstSign(p, e);
  }

  /** What the first cycle asks for. */
  ghost function FirstDemand(p: ControlParams, e: real): real { (p.kp + GainPerCycle(p)) * e }

  lemma FirstSign(p: ControlParams, e: real)
    requires e != 0.0
    ensures (e - FirstDemand(p, e)) * e < 0.0 <==> p.kp + GainPerCycle(p) > 1.0
  {
    var k := 1.0 - (p.kp + GainPerCycle(p));
    hide GainPerCycle;
    assert e - FirstDemand(p, e) == k * e;
    OppositeSign(k, e);
  }

  lemma FirstCycle(env: ControlInputs, c: Config, load: real, target: real)
    ensures Tracking([env], c, load, target) == Compute(Measured(env, load, target, INITIAL), c, INITIAL).state
  {
    hide Compute;
    assert [env][..0] == [];
    assert Tracking([], c, load, target) == INITIAL;
  }

  lemma UnslewedSetpoint(i: ControlInputs, c: Config, s: ControlState)
    requires c.params.slewLimit.None?
    ensures var (lower, upper) := Window(i, c.battery);
      Compute(i, c, s).setpoint == Clamp(Pi(c.params, s.integral, i.pccSetpoint - i.pccMeas, lower, upper).output,
                                         lower, upper)
  {
    hide Curtail, DerateTarget, Window, Pi;
  }

  lemma FirstOutput(p: ControlParams, e: real, lower: real, upper: real)
    requires lower <= FirstDemand(p, e) <= upper
    ensures Pi(p, 0.0, e, lower, upper).output == FirstDemand(p, e)
  {
    assert p.ki * (0.0 + e * p.updatePeriod) == GainPerCycle(p) * e;
  }

  lemma OppositeSign(k: real, e: real)
    requires e != 0.0
    ensures (k * e) * e < 0.0 <==> k < 0.0
  {
    SignOfProduct(k, Abs(e));
    SignOfProduct(k * e, Abs(e));
  }

  // ------------------------------------------------------------ curtailed PV behind a feed limit

  /** A PV plant that delivers the commanded share of what is available, next to a constant load. */
  datatype PvPlant = PvPlant(available: real, load: real, feedLimit: real)

  ghost predicate ValidPlant(plant: PvPlant) {
    plant.available > 0.0 && plant.load >= 0.0 && plant.feedLimit >= 0.0
  }

  ghost function Export(plant: PvPlant, curtail: real): real { curtail * plant.available - plant.load }

  /** env supplies the rest of the cycle's inputs. */
  ghost function PvMeasured(env: ControlInputs, plant: PvPlant, curtail: real): ControlInputs {
    env.(pccMeas := -Export(plant, curtail), pvPower := -(curtail * plant.available), maxFeed := Some(plant.feedLimit))
  }

  ghost predicate HighBand(envs: seq<ControlInputs>, battery: BatteryLimits) {
    battery.maxWarningSoc > 0.0 && forall i | 0 <= i < |envs| :: envs[i].soc >= battery.maxWarningSoc
  }

  ghost function Curtailing(envs: seq<ControlInputs>, c: Config, plant: PvPlant, s: ControlState): ControlState {
    if envs == [] then s
    else
      var before := Curtailing(envs[..|envs| - 1], c, plant, s);
      Compute(PvMeasured(envs[|envs| - 1], plant, before.curtail), c, before).state
  }

  /** The share that puts the export on the limit. */
  ghost function IdealShare(plant: PvPlant): real
    requires plant.available > 0.0
  { (plant.feedLimit + plant.load) / plant.available }

  ghost function Resting(c: Config, plant: PvPlant): real
    requires plant.available > 0.0
  { Clamp(IdealShare(plant), c.derate.pvMinDerate, 1.0) }

  ghost predicate CurtailRange(c: Config, x: real) { 0.0 < x && Between(c.derate.pvMinDerate, x, 1.0) }

  /** In this feedback the integrating regulator is an average with the ideal share. */
  lemma CurtailAverages(env: ControlInputs, c: Config, plant: PvPlant, x: real)
    requires ValidPlant(plant) && CurtailRange(c, x)
    requires c.battery.maxWarningSoc > 0.0 && env.soc >= c.battery.maxWarningSoc
    ensures Curtail(PvMeasured(env, plant, x), c.battery, c.derate, x)
         == Clamp((x + IdealShare(plant)) / 2.0, c.derate.pvMinDerate, 1.0)
  {
    MulLt(x, 0.0, plant.available);
    NudgeIsHalfGap(x, plant);
    hide Export, IdealShare, Nudge;
    var i := PvMeasured(env, plant, x);
    assert Abs(i.pvPower) == x * plant.available;
    assert -i.pccMeas - plant.feedLimit == Export(plant, x) - plant.feedLimit;
  }

  lemma NudgeIsHalfGap(x: real, plant: PvPlant)
    requires ValidPlant(plant) && 0.0 < x && 0.0 < x * plant.available
    ensures Nudge(Export(plant, x) - plant.feedLimit, x, x * plant.available) == (x - IdealShare(plant)) / 2.0
  {
    var over, half := Export(plant, x) - plant.feedLimit, (x - IdealShare(plant)) / 2.0;
    IdealShareExact(plant);
    assert CURTAIL_GAIN * over == half * plant.available;
    assert CURTAIL_GAIN * over * x == half * (x * plant.available);
    QuotientOf(CURTAIL_GAIN * over * x, half, x * plant.available);
  }

  lemma IdealShareExact(plant: PvPlant)
    requires ValidPlant(plant)
    ensures IdealShare(plant) * plant.available == plant.feedLimit + plant.load
    ensures 0.0 <= IdealShare(plant)
  {
    SignOfProduct(IdealShare(plant), plant.available);
  }

  lemma QuotientOf(x: real, q: real, d: real)
    requires x == q * d && 0.0 < d
    ensures x / d == q
  {
    var r := x / d;
    assert r * d == x;
    assert (r - q) * d == 0.0;
    SignOfProduct(r - q, d);
  }

  /** Pure arithmetic of one averaging step toward a clamped ideal. */
  lemma AverageStep(x: real, ideal: real, floor: real)
    requires 0.0 < x && 0.0 <= floor <= x <= 1.0 && 0.0 <= ideal
    ensures var next, rest := Clamp((x + ideal) / 2.0, floor, 1.0), Clamp(ideal, floor, 1.0);
      && 0.0 < next && floor <= next <= 1.0
      && Toward(next - rest, x - rest) && Abs(next - rest) <= Abs(x - rest) / 2.0
  {}

  ghost function Halved(d: real, k: nat): real { Power(0.5, k) * d }

  lemma HalvedStep(d: real, k: nat)
    ensures Halved(d, 0) == d && Halved(d, k + 1) == Halved(d, k) / 2.0
  {}

  /** One cycle of the plant and the controller. */
  lemma CurtailCycle(env: ControlInputs, c: Config, plant: PvPlant, s: ControlState)
    requires ValidConfig(c) && ValidPlant(plant) && CurtailRange(c, s.curtail)
    requires c.battery.maxWarningSoc > 0.0 && env.soc >= c.battery.maxWarningSoc
    ensures var next, rest := Compute(PvMeasured(env, plant, s.curtail), c, s).state.curtail, Resting(c, plant);
      && CurtailRange(c, next)
      && Toward(next - rest, s.curtail - rest) && Abs(next - rest) <= Abs(s.curtail - rest) / 2.0
  {
    CurtailAverages(env, c, plant, s.curtail);
    IdealShareExact(plant);
    hide IdealShare, Curtail, Pi, Slew, DerateTarget, Window, Export;
    AverageStep(s.curtail, IdealShare(plant), c.derate.pvMinDerate);
  }

  /** The curtailment factor approaches its resting value from one side, at least halving the
      distance every cycle, and never reaches zero. */
  lemma {:induction false} CurtailmentConverges(envs: seq<ControlInputs>, c: Config, plant: PvPlant, s: ControlState)
    requires ValidConfig(c) && ValidPlant(plant) && CurtailRange(c, s.curtail) && HighBand(envs, c.battery)
    ensures var x, rest := Curtailing(envs, c, plant, s).curtail, Resting(c, plant);
      && CurtailRange(c, x)
      && Toward(x - rest, s.curtail - rest)
      && Abs(x - rest) <= Halved(Abs(s.curtail - rest), |envs|)
  {
    hide Compute, Halved, Resting, ValidConfig, PvMeasured;
    var d := Abs(s.curtail - Resting(c, plant));
    HalvedStep(d, 0);
    if envs != [] {
      var n := |envs| - 1;
      CurtailmentConverges(envs[..n], c, plant, s);
      CurtailCycle(envs[n], c, plant, Curtailing(envs[..n], c, plant, s));
      HalvedStep(d, n);
    }
  }

  /** After how many cycles the export is within eps of the feed limit, for good. */
  ghost predicate Settles(c: Config, plant: PvPlant, s: ControlState, eps: real, settled: nat) {
    forall envs: seq<ControlInputs> | |envs| >= settled && HighBand(envs, c.battery) ::
      Abs(Export(plant, Curtailing(envs, c, plant, s).curtail) - plant.feedLimit) < eps
  }

  ghost predicate EventuallySettles(c: Config, plant: PvPlant, s: ControlState, eps: real) {
    exists n: nat :: Settles(c, plant, s, eps, n)
  }

  /** The export settles at the feed limit, whatever tolerance is asked, exactly when the limit is
      reachable: the ideal share lies between the floor and full power. */
  lemma ExportReachesLimitExactly(c: Config, plant: PvPlant, s: ControlState)
    requires ValidConfig(c) && ValidPlant(plant) && CurtailRange(c, s.curtail) && c.battery.maxWarningSoc > 0.0
    ensures (forall eps: real | eps > 0.0 :: EventuallySettles(c, plant, s, eps))
       <==> c.derate.pvMinDerate <= IdealShare(plant) <= 1.0
  {
    var rest, ideal := Resting(c, plant), IdealShare(plant);
    if c.derate.pvMinDerate <= ideal <= 1.0 {
      forall eps: real | eps > 0.0 ensures EventuallySettles(c, plant, s, eps) {
        ReachableSettles(c, plant, s, eps);
      }
    } else {
      UnreachableStays(c, plant, s);
    }
  }

  /** The export's distance from the limit is the factor's distance from the ideal share, scaled. */
  lemma ExportGap(plant: PvPlant, x: real, y: real)
    requires ValidPlant(plant)
    ensures Export(plant, x) - plant.feedLimit == (x - IdealShare(plant)) * plant.available
    ensures Abs(x - IdealShare(plant)) <= y ==> Abs(Export(plant, x) - plant.feedLimit) <= y * plant.available
    ensures 0.0 <= y <= Abs(x - IdealShare(plant)) ==> y * plant.available <= Abs(Export(plant, x) - plant.feedLimit)
  {
    IdealShareExact(plant);
    var a, g := plant.available, x - IdealShare(plant);
    assert g * a == x * a - (plant.feedLimit + plant.load);
    hide IdealShare;
    if Abs(g) <= y {
      MulLe(a, g, y);
      MulLe(a, -y, g);
    }
    if 0.0 <= y <= Abs(g) {
      if g >= 0.0 {
        MulLe(a, y, g);
      } else {
        MulLe(a, y, -g);
      }
    }
  }

  lemma ReachableSettles(c: Config, plant: PvPlant, s: ControlState, eps: real)
    requires ValidConfig(c) && ValidPlant(plant) && CurtailRange(c, s.curtail) && eps > 0.0
    requires c.derate.pvMinDerate <= IdealShare(plant) <= 1.0
    ensures EventuallySettles(c, plant, s, eps)
  {
    assert Resting(c, plant) == IdealShare(plant);
    var d := Abs(s.curtail - IdealShare(plant));
    var k := EnoughCycles(plant, d, eps);
    hide IdealShare, Halved, Compute, Resting, Export;
    forall envs: seq<ControlInputs> | |envs| >= k && HighBand(envs, c.battery)
      ensures Abs(Export(plant, Curtailing(envs, c, plant, s).curtail) - plant.feedLimit) < eps
    {
      var x := Curtailing(envs, c, plant, s).curtail;
      CurtailmentConverges(envs, c, plant, s);
      HalvedAntitone(d, k, |envs|);
      ExportGap(plant, x, Halved(d, k));
    }
    assert Settles(c, plant, s, eps, k);
  }

  lemma EnoughCycles(plant: PvPlant, d: real, eps: real) returns (k: nat)
    requires ValidPlant(plant) && 0.0 <= d && 0.0 < eps
    ensures Halved(d, k) * plant.available < eps
  {
    var small := eps / plant.available;
    QuotientPositive(eps, plant.available);
    k := GeometricVanishes(0.5, d, small);
    var y := Halved(d, k);
    MulLt(plant.available, y, small);
  }

  lemma QuotientPositive(x: real, d: real)
    requires 0.0 < x && 0.0 < d
    ensures 0.0 < x / d && d * (x / d) == x
  {}

  lemma HalvedAntitone(d: real, k: nat, m: nat)
    requires 0.0 <= d && k <= m
    ensures Halved(d, m) <= Halved(d, k)
  {
    PowerAntitone(0.5, k, m);
    MulLe(d, Power(0.5, m), Power(0.5, k));
  }

  /** An unreachable limit leaves a permanent export gap. */
  lemma UnreachableStays(c: Config, plant: PvPlant, s: ControlState)
    requires ValidConfig(c) && ValidPlant(plant) && CurtailRange(c, s.curtail) && c.battery.maxWarningSoc > 0.0
    requires !(c.derate.pvMinDerate <= IdealShare(plant) <= 1.0)
    ensures exists eps: real | eps > 0.0 :: !EventuallySettles(c, plant, s, eps)
  {
    var miss := Abs(Resting(c, plant) - IdealShare(plant));
    var eps := miss * plant.available;
    SignOfProduct(miss, plant.available);
    forall n: nat ensures !Settles(c, plant, s, eps, n) {
      var env := ControlInputs(0.0, 0.0, c.battery.maxWarningSoc, 0.0, 0.0, 0.0, None);
      var envs := seq(n, _ => env);
      CurtailmentConverges(envs, c, plant, s);
      var x := Curtailing(envs, c, plant, s).curtail;
      assert Abs(x - IdealShare(plant)) >= miss;
      ExportGap(plant, x, miss);
    }
    assert !EventuallySettles(c, plant, s, eps);
  }
}
