/** Frequency and voltage droop: piecewise-linear corrections of the PCC setpoint. */
module Droop {
  import opened Common

  // ------------------------------------------------------------ curves

  ghost predicate StrictlyIncreasing(xs: seq<real>) { forall i | 0 < i < |xs| :: xs[i - 1] < xs[i] }

  ghost predicate NonDecreasing(ys: seq<real>) { forall i | 0 < i < |ys| :: ys[i - 1] <= ys[i] }

  ghost predicate ValidCurve(xs: seq<real>, ys: seq<real>) {
    |xs| == |ys| > 0 && StrictlyIncreasing(xs) && NonDecreasing(ys)
  }

  /** The line through two knots. */
  function Segment(x: real, x0: real, x1: real, y0: real, y1: real): real
    requires x0 < x1
  {
    var t := (x - x0) / (x1 - x0);
    y0 + t * (y1 - y0)
  }

  /** Reference definition: flat before the first knot, a segment up to the second, then the rest. */
  ghost function Interp(x: real, xs: seq<real>, ys: seq<real>): real
    requires |xs| == |ys| > 0 && StrictlyIncreasing(xs)
    decreases |xs|
  {
    if x <= xs[0] || |xs| == 1 then ys[0]
    else if x <= xs[1] then Segment(x, xs[0], xs[1], ys[0], ys[1])
    else Interp(x, Tail(xs), Tail(ys))
  }

  ghost function Tail(xs: seq<real>): (t: seq<real>)
    requires |xs| > 0
    ensures StrictlyIncreasing(xs) ==> StrictlyIncreasing(t)
    ensures NonDecreasing(xs) ==> NonDecreasing(t)
    ensures |t| == |xs| - 1 && forall i | 0 <= i < |t| :: t[i] == xs[i + 1]
  {
    xs[1..]
  }

  datatype CurveError = MismatchedArrays

  /** The scan over the segments. */
  method InterpClamped(x: real, xs: seq<real>, ys: seq<real>) returns (r: Result<real, CurveError>)
    requires StrictlyIncreasing(xs)
    ensures r.Err? <==> |xs| != |ys| || |xs| < 2
    ensures r.Ok? ==> r.value == Interp(x, xs, ys)
  {
    if |xs| != |ys| || |xs| < 2 {
      return Err(MismatchedArrays);
    }
    if x <= xs[0] {
      return Ok(ys[0]);
    }
    if x >= xs[|xs| - 1] {
      AtOrAfterLast(x, xs, ys);
      return Ok(ys[|ys| - 1]);
    }
    assert xs[0..] == xs && ys[0..] == ys;
    for i := 1 to |xs|
      invariant xs[i - 1] < x
      invariant StrictlyIncreasing(xs[i - 1..])
      invariant Interp(x, xs, ys) == Interp(x, xs[i - 1..], ys[i - 1..])
    {
      assert Tail(xs[i - 1..]) == xs[i..] && Tail(ys[i - 1..]) == ys[i..];
      if x <= xs[i] {
        return Ok(Segment(x, xs[i - 1], xs[i], ys[i - 1], ys[i]));
      }
    }
    assert false;
  }

  lemma {:induction false} AtOrAfterLast(x: real, xs: seq<real>, ys: seq<real>)
    requires |xs| == |ys| > 0 && StrictlyIncreasing(xs) && x >= xs[|xs| - 1]
    ensures Interp(x, xs, ys) == ys[|ys| - 1]
    decreases |xs|
  {
    if |xs| > 1 {
      FirstBelowLast(xs);
      if x <= xs[1] {
        assert |xs| == 2 by { if |xs| > 2 { FirstBelowLast(Tail(xs)); } }
        SegmentEnds(xs[0], xs[1], ys[0], ys[1]);
      } else {
        AtOrAfterLast(x, Tail(xs), Tail(ys));
      }
    }
  }

  lemma {:induction false} FirstBelowLast(xs: seq<real>)
    requires |xs| > 1 && StrictlyIncreasing(xs)
    ensures xs[0] < xs[|xs| - 1]
    decreases |xs|
  {
    assert xs[0] < xs[1];
    if |xs| > 2 {
      FirstBelowLast(Tail(xs));
    }
  }

  lemma SegmentEnds(x0: real, x1: real, y0: real, y1: real)
    requires x0 < x1
    ensures Segment(x0, x0, x1, y0, y1) == y0 && Segment(x1, x0, x1, y0, y1) == y1
  {}

  /** What a slope gains over a run. */
  ghost function Rise(slope: real, run: real): real { slope * run }

  lemma RiseAdds(slope: real, a: real, b: real)
    ensures Rise(slope, a + b) == Rise(slope, a) + Rise(slope, b)
  {}

  lemma RiseOrder(slope: real, a: real, b: real)
    requires 0.0 <= slope && a <= b
    ensures Rise(slope, a) <= Rise(slope, b) && Rise(slope, 0.0) == 0.0
  {}

  /** On one segment: monotone and between the ends. */
  lemma SegmentMonotone(x: real, x': real, x0: real, x1: real, y0: real, y1: real)
    requires x0 < x1 && x0 <= x <= x' <= x1 && y0 <= y1
    ensures y0 <= Segment(x, x0, x1, y0, y1) <= Segment(x', x0, x1, y0, y1) <= y1
  {
    var t, t' := (x - x0) / (x1 - x0), (x' - x0) / (x1 - x0);
    RatioOrder(x - x0, x' - x0, x1 - x0);
    hide Segment;
    SegmentIs(x, x0, x1, y0, y1, t);
    SegmentIs(x', x0, x1, y0, y1, t');
    var h := y1 - y0;
    ShareOrder(0.0, t, h);
    ShareOrder(t, t', h);
    ShareOrder(t', 1.0, h);
    var part, part' := t * h, t' * h;
    assert 0.0 <= part <= part' <= h;
  }

  lemma SegmentIs(x: real, x0: real, x1: real, y0: real, y1: real, t: real)
    requires x0 < x1 && t == (x - x0) / (x1 - x0)
    ensures Segment(x, x0, x1, y0, y1) == y0 + t * (y1 - y0)
  {}

  lemma ShareOrder(t: real, t': real, h: real)
    requires t <= t' && 0.0 <= h
    ensures t * h <= t' * h
  {}

  /** On one segment: no steeper than the chord. */
  lemma SegmentSlope(x: real, x': real, x0: real, x1: real, y0: real, y1: real, slope: real)
    requires x0 < x1 && x0 <= x <= x' <= x1 && y1 - y0 <= Rise(slope, x1 - x0)
    ensures Segment(x', x0, x1, y0, y1) - Segment(x, x0, x1, y0, y1) <= Rise(slope, x' - x)
  {
    var w, h := x1 - x0, y1 - y0;
    var t, t' := (x - x0) / w, (x' - x0) / w;
    RatioOrder(x - x0, x' - x0, w);
    assert (t' - t) * w == x' - x;
    ChordBound(t' - t, h, slope, w);
    assert t' * h - t * h == (t' - t) * h;
  }

  lemma RatioOrder(a: real, b: real, w: real)
    requires 0.0 <= a <= b <= w && 0.0 < w
    ensures 0.0 <= a / w <= b / w <= 1.0
  {}

  lemma ChordBound(dt: real, h: real, slope: real, w: real)
    requires 0.0 <= dt && h <= slope * w
    ensures dt * h <= slope * (dt * w)
  {
    MulLe(dt, h, slope * w);
  }

  ghost predicate SlopesAtMost(xs: seq<real>, ys: seq<real>, slope: real)
    requires |xs| == |ys|
  {
    forall i | 0 < i < |xs| :: ys[i] - ys[i - 1] <= Rise(slope, xs[i] - xs[i - 1])
  }

  // ------------------------------------------------------------ shape of the whole curve

  /** Flat outside the knots, so between the first and the last correction everywhere. */
  lemma {:induction false} InterpBetweenEnds(x: real, xs: seq<real>, ys: seq<real>)
    requires ValidCurve(xs, ys)
    ensures ys[0] <= Interp(x, xs, ys) <= ys[|ys| - 1]
    decreases |xs|
  {
    if |xs| > 1 {
      assert ys[0] <= ys[1];
      InterpBetweenEnds(x, Tail(xs), Tail(ys));
      if xs[0] < x <= xs[1] {
        InterpBetweenEnds(xs[1], Tail(xs), Tail(ys));
        SegmentMonotone(x, x, xs[0], xs[1], ys[0], ys[1]);
      }
    }
  }

  /** Every knot is hit. */
  lemma {:induction false} InterpHitsKnots(xs: seq<real>, ys: seq<real>, i: nat)
    requires ValidCurve(xs, ys) && i < |xs|
    ensures Interp(xs[i], xs, ys) == ys[i]
    decreases |xs|
  {
    if i == 1 {
      assert xs[0] < xs[1];
      SegmentEnds(xs[0], xs[1], ys[0], ys[1]);
    } else if i > 1 {
      assert xs[0] < xs[1];
      FirstBelowLast(xs[1..i + 1]);
      assert xs[1] < xs[i];
      InterpHitsKnots(Tail(xs), Tail(ys), i - 1);
    }
  }

  /** Monotone across segment boundaries, and Lipschitz in any bound on the segment slopes. */
  lemma {:induction false} InterpMonotoneLipschitz(x: real, x': real, xs: seq<real>, ys: seq<real>, slope: real)
    requires ValidCurve(xs, ys) && x <= x' && 0.0 <= slope && SlopesAtMost(xs, ys, slope)
    ensures 0.0 <= Interp(x', xs, ys) - Interp(x, xs, ys) <= Rise(slope, x' - x)
    decreases |xs|
  {
    hide Rise, Segment;
    if x' <= xs[0] || |xs| == 1 {
      RiseOrder(slope, 0.0, x' - x);
    } else {
      assert xs[0] < xs[1] && ys[0] <= ys[1] && ys[1] - ys[0] <= Rise(slope, xs[1] - xs[0]);
      var u := Max(x, xs[0]);
      SegmentEnds(xs[0], xs[1], ys[0], ys[1]);
      RiseOrder(slope, x' - u, x' - x);
      if x' <= xs[1] {
        SegmentMonotone(u, x', xs[0], xs[1], ys[0], ys[1]);
        SegmentSlope(u, x', xs[0], xs[1], ys[0], ys[1], slope);
      } else {
        TailSlopes(xs, ys, slope);
        InterpMonotoneLipschitz(Max(u, xs[1]), x', Tail(xs), Tail(ys), slope);
        if u <= xs[1] {
          SegmentMonotone(u, xs[1], xs[0], xs[1], ys[0], ys[1]);
          SegmentSlope(u, xs[1], xs[0], xs[1], ys[0], ys[1], slope);
          RiseAdds(slope, x' - xs[1], xs[1] - u);
        }
      }
    }
  }

  lemma TailSlopes(xs: seq<real>, ys: seq<real>, slope: real)
    requires |xs| == |ys| > 0 && SlopesAtMost(xs, ys, slope)
    ensures SlopesAtMost(Tail(xs), Tail(ys), slope)
  {
    hide Rise;
    forall i | 0 < i < |xs| - 1
      ensures Tail(ys)[i] - Tail(ys)[i - 1] <= Rise(slope, Tail(xs)[i] - Tail(xs)[i - 1])
    {
      assert ys[i + 1] - ys[i + 1 - 1] <= Rise(slope, xs[i + 1] - xs[i + 1 - 1]);
    }
  }

  /** Some slope bounds them all, so a valid curve is always monotone. */
  lemma {:induction false} SlopeExists(xs: seq<real>, ys: seq<real>) returns (slope: real)
    requires ValidCurve(xs, ys)
    ensures 0.0 <= slope && SlopesAtMost(xs, ys, slope)
    decreases |xs|
  {
    hide Rise;
    if |xs| == 1 {
      slope := 0.0;
    } else {
      assert xs[0] < xs[1] && ys[0] <= ys[1];
      var rest := SlopeExists(Tail(xs), Tail(ys));
      var first := ChordSlope(xs[1] - xs[0], ys[1] - ys[0]);
      slope := Max(rest, first);
      forall i | 0 < i < |xs| ensures ys[i] - ys[i - 1] <= Rise(slope, xs[i] - xs[i - 1]) {
        assert xs[i - 1] < xs[i];
        SteeperRise(if i == 1 then first else rest, slope, xs[i] - xs[i - 1]);
        if i > 1 {
          assert Tail(ys)[i - 1] - Tail(ys)[i - 2] <= Rise(rest, Tail(xs)[i - 1] - Tail(xs)[i - 2]);
        }
      }
    }
  }

  lemma ChordSlope(run: real, rise: real) returns (slope: real)
    requires 0.0 < run && 0.0 <= rise
    ensures 0.0 <= slope && Rise(slope, run) == rise
  {
    slope := rise / run;
    assert slope * run == rise;
    SignOfProduct(slope, run);
  }

  lemma SteeperRise(a: real, b: real, run: real)
    requires a <= b && 0.0 < run
    ensures Rise(a, run) <= Rise(b, run)
  {}

  lemma InterpMonotone(x: real, x': real, xs: seq<real>, ys: seq<real>)
    requires ValidCurve(xs, ys) && x <= x'
    ensures Interp(x, xs, ys) <= Interp(x', xs, ys)
  {
    var slope := SlopeExists(xs, ys);
    InterpMonotoneLipschitz(x, x', xs, ys, slope);
  }

  // ------------------------------------------------------------ the controller

  datatype PfDroop = PfDroop(enabled: bool, f: seq<real>, dP: seq<real>, dQ: seq<real>)
  datatype QvDroop = QvDroop(enabled: bool, v: seq<real>, dP: seq<real>, dQ: seq<real>)
  datatype DroopConfig = DroopConfig(enabled: bool, pf: PfDroop, qv: QvDroop)
  datatype DroopController = DroopController(cfg: DroopConfig, base: real)
  datatype DroopCorrection = DroopCorrection(dp: real, dq: real)

  /** What the constructor and the configuration model check together. */
  ghost predicate ValidDroop(d: DroopController) {
    var pf, qv := d.cfg.pf, d.cfg.qv;
    && d.base > 0.0
    && |pf.f| >= 2 && ValidCurve(pf.f, pf.dP) && ValidCurve(pf.f, pf.dQ)
    && |qv.v| >= 2 && ValidCurve(qv.v, qv.dP) && ValidCurve(qv.v, qv.dQ)
  }

  predicate DroopEnabled(d: DroopController) { d.cfg.enabled && (d.cfg.pf.enabled || d.cfg.qv.enabled) }

  ghost function PerUnit(on: bool, x: real, xs: seq<real>, ys: seq<real>): real
    requires ValidCurve(xs, ys)
  {
    if on then Interp(x, xs, ys) else 0.0
  }

  ghost function CorrectionOf(d: DroopController, frequency: real, voltage: real): DroopCorrection
    requires ValidDroop(d)
  {
    var pf, qv := d.cfg.pf, d.cfg.qv;
    var onF, onV := d.cfg.enabled && pf.enabled, d.cfg.enabled && qv.enabled;
    DroopCorrection(Scaled(PerUnit(onF, frequency, pf.f, pf.dP) + PerUnit(onV, voltage, qv.v, qv.dP), d.base),
                    Scaled(PerUnit(onF, frequency, pf.f, pf.dQ) + PerUnit(onV, voltage, qv.v, qv.dQ), d.base))
  }

  /** Per unit to SI. */
  ghost function Scaled(perUnit: real, base: real): real { perUnit * base }

  method Correction(d: DroopController, frequency: real, voltage: real) returns (r: DroopCorrection)
    requires ValidDroop(d)
    ensures r == CorrectionOf(d, frequency, voltage)
  {
    var dp, dq := 0.0, 0.0;
    if d.cfg.enabled && d.cfg.pf.enabled {
      var p := InterpClamped(frequency, d.cfg.pf.f, d.cfg.pf.dP);
      var q := InterpClamped(frequency, d.cfg.pf.f, d.cfg.pf.dQ);
      dp, dq := dp + p.value, dq + q.value;
    }
    if d.cfg.enabled && d.cfg.qv.enabled {
      var p := InterpClamped(voltage, d.cfg.qv.v, d.cfg.qv.dP);
      var q := InterpClamped(voltage, d.cfg.qv.v, d.cfg.qv.dQ);
      dp, dq := dp + p.value, dq + q.value;
    }
    r := DroopCorrection(dp * d.base, dq * d.base);
  }

  /** The combined correction is monotone in frequency and in voltage, and zero when disabled. */
  lemma CorrectionMonotone(d: DroopController, f: real, f': real, v: real, v': real)
    requires ValidDroop(d) && f <= f' && v <= v'
    ensures CorrectionOf(d, f, v).dp <= CorrectionOf(d, f', v').dp
    ensures CorrectionOf(d, f, v).dq <= CorrectionOf(d, f', v').dq
    ensures !DroopEnabled(d) ==> CorrectionOf(d, f, v) == DroopCorrection(0.0, 0.0)
  {
    var pf, qv := d.cfg.pf, d.cfg.qv;
    hide Interp;
    InterpMonotone(f, f', pf.f, pf.dP);
    InterpMonotone(f, f', pf.f, pf.dQ);
    InterpMonotone(v, v', qv.v, qv.dP);
    InterpMonotone(v, v', qv.v, qv.dQ);
    hide ValidCurve, Scaled;
    var onF, onV := d.cfg.enabled && pf.enabled, d.cfg.enabled && qv.enabled;
    ScaledOrder(PerUnit(onF, f, pf.f, pf.dP) + PerUnit(onV, v, qv.v, qv.dP),
                PerUnit(onF, f', pf.f, pf.dP) + PerUnit(onV, v', qv.v, qv.dP), d.base);
    ScaledOrder(PerUnit(onF, f, pf.f, pf.dQ) + PerUnit(onV, v, qv.v, qv.dQ),
                PerUnit(onF, f', pf.f, pf.dQ) + PerUnit(onV, v', qv.v, qv.dQ), d.base);
  }

  /** Frequency alone: at a breakpoint of the P-f curve the active correction is the curve's own dP there,
      and the reactive one its dQ, in per unit of the base. */
  lemma PfAtBreakpoint(d: DroopController, i: nat, v: real)
    requires ValidDroop(d) && d.cfg.enabled && d.cfg.pf.enabled && !d.cfg.qv.enabled && i < |d.cfg.pf.f|
    ensures CorrectionOf(d, d.cfg.pf.f[i], v).dp == d.cfg.pf.dP[i] * d.base
    ensures CorrectionOf(d, d.cfg.pf.f[i], v).dq == d.cfg.pf.dQ[i] * d.base
  {
    InterpHitsKnots(d.cfg.pf.f, d.cfg.pf.dP, i);
    InterpHitsKnots(d.cfg.pf.f, d.cfg.pf.dQ, i);
    hide Interp;
  }

  /** Voltage alone, likewise. */
  lemma QvAtBreakpoint(d: DroopController, i: nat, f: real)
    requires ValidDroop(d) && d.cfg.enabled && d.cfg.qv.enabled && !d.cfg.pf.enabled && i < |d.cfg.qv.v|
    ensures CorrectionOf(d, f, d.cfg.qv.v[i]).dp == d.cfg.qv.dP[i] * d.base
    ensures CorrectionOf(d, f, d.cfg.qv.v[i]).dq == d.cfg.qv.dQ[i] * d.base
  {
    InterpHitsKnots(d.cfg.qv.v, d.cfg.qv.dP, i);
    InterpHitsKnots(d.cfg.qv.v, d.cfg.qv.dQ, i);
    hide Interp;
  }

  /** The controller with these curves switched on. */
  ghost function Switched(d: DroopController, pf: bool, qv: bool): DroopController {
    d.(cfg := d.cfg.(pf := d.cfg.pf.(enabled := pf), qv := d.cfg.qv.(enabled := qv)))
  }

  /** Both curves together add up, and neither sees the other's measurement. */
  lemma CurvesAdd(d: DroopController, f: real, v: real, f': real, v': real)
    requires ValidDroop(d)
    ensures ValidDroop(Switched(d, true, true)) && ValidDroop(Switched(d, true, false))
      && ValidDroop(Switched(d, false, true))
    ensures var both := CorrectionOf(Switched(d, true, true), f, v);
      var byF, byV := CorrectionOf(Switched(d, true, false), f, v'), CorrectionOf(Switched(d, false, true), f', v);
      both.dp == byF.dp + byV.dp && both.dq == byF.dq + byV.dq
  {
    hide Interp, ValidCurve;
    var pf, qv := d.cfg.pf, d.cfg.qv;
    if d.cfg.enabled {
      ScaledAdds(PerUnit(true, f, pf.f, pf.dP), PerUnit(true, v, qv.v, qv.dP), d.base);
      ScaledAdds(PerUnit(true, f, pf.f, pf.dQ), PerUnit(true, v, qv.v, qv.dQ), d.base);
    }
  }

  lemma ScaledAdds(a: real, b: real, base: real)
    ensures Scaled(a + b, base) == Scaled(a, base) + Scaled(b, base)
  {}

  /** Active power comes from the dP arrays alone, reactive power from the dQ arrays. */
  lemma ArraysDoNotMix(d: DroopController, e: DroopController, f: real, v: real)
    requires ValidDroop(d) && ValidDroop(e) && e.base == d.base && d.cfg.enabled == e.cfg.enabled
    requires d.cfg.pf.f == e.cfg.pf.f && d.cfg.pf.enabled == e.cfg.pf.enabled
    requires d.cfg.qv.v == e.cfg.qv.v && d.cfg.qv.enabled == e.cfg.qv.enabled
    ensures d.cfg.pf.dP == e.cfg.pf.dP && d.cfg.qv.dP == e.cfg.qv.dP ==>
      CorrectionOf(d, f, v).dp == CorrectionOf(e, f, v).dp
    ensures d.cfg.pf.dQ == e.cfg.pf.dQ && d.cfg.qv.dQ == e.cfg.qv.dQ ==>
      CorrectionOf(d, f, v).dq == CorrectionOf(e, f, v).dq
  {
    hide Interp, ValidCurve;
  }

  lemma ScaledOrder(a: real, b: real, base: real)
    requires a <= b && 0.0 < base
    ensures Scaled(a, base) <= Scaled(b, base) && Scaled(0.0, base) == 0.0
  {}
}
