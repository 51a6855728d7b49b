/** Vocabulary shared by the controller, core and register modules. */
module Common {

  datatype Option<+T> = None | Some(value: T)

  datatype Result<+T, +E> = Ok(value: T) | Err(error: E)

  /** Quality flags of a point: fresh, older than the timeout, or not obtained at all. */
  datatype Quality = Good | Stale | CommFail

  datatype PointValue = PointValue(value: Option<real>, ts: real, quality: Quality)

  /** What was read of an asset, by point name. */
  type PointValues = map<string, PointValue>

  function Min(x: real, y: real): real { if y < x then y else x }

  function Max(x: real, y: real): real { if y > x then y else x }

  function Abs(x: real): real { if x < 0.0 then -x else x }

  function Clamp(x: real, lo: real, hi: real): real {
    if x < lo then lo else if x > hi then hi else x
  }

  ghost predicate Between(lo: real, x: real, hi: real) { lo <= x <= hi }

  /** x lies on the segment joining 0 and d, whichever sign d has. */
  ghost predicate Toward(x: real, d: real) { 0.0 <= x <= d || d <= x <= 0.0 }

  ghost function Power(b: real, n: nat): real { if n == 0 then 1.0 else b * Power(b, n - 1) }

  lemma {:induction false} PowerInUnit(b: real, n: nat)
    requires 0.0 <= b <= 1.0
    ensures 0.0 <= Power(b, n) <= 1.0
    ensures Power(b, n + 1) <= Power(b, n)
  {
    if n > 0 {
      PowerInUnit(b, n - 1);
      MulLe(b, Power(b, n - 1), 1.0);
      MulLe(b, 0.0, Power(b, n - 1));
    }
    MulLe(Power(b, n), b, 1.0);
  }

  lemma {:induction false} PowerAntitone(b: real, m: nat, n: nat)
    requires 0.0 <= b <= 1.0 && m <= n
    ensures Power(b, n) <= Power(b, m)
    decreases n - m
  {
    if m < n {
      PowerAntitone(b, m + 1, n);
      PowerInUnit(b, m);
    }
  }

  /** Bernoulli: a geometric sequence is below a hyperbola, so it tends to zero. */
  lemma {:induction false} Bernoulli(b: real, k: nat)
    requires 0.0 <= b <= 1.0
    ensures Power(1.0 - b, k) * (1.0 + k as real * b) <= 1.0
  {
    if k > 0 {
      var h := 1.0 + (k - 1) as real * b;
      Bernoulli(b, k - 1);
      PowerInUnit(1.0 - b, k - 1);
      BernoulliStep(Power(1.0 - b, k - 1), b, (k - 1) as real);
    }
  }

  lemma BernoulliStep(p: real, b: real, k: real)
    requires 0.0 <= p && 0.0 <= b && 0.0 <= k && p * (1.0 + k * b) <= 1.0
    ensures (1.0 - b) * p * (1.0 + (k + 1.0) * b) <= 1.0
  {
    var kb := k * b;
    assert (k + 1.0) * b == kb + b;
    assert (1.0 - b) * (1.0 + kb + b) == 1.0 + kb - b * (kb + b);
    MulLe(b, 0.0, kb + b);
    MulLe(p, (1.0 - b) * (1.0 + kb + b), 1.0 + kb);
    assert (1.0 - b) * p * (1.0 + kb + b) == p * ((1.0 - b) * (1.0 + kb + b));
  }

  /** A geometric bound reaches any tolerance after finitely many steps. */
  lemma GeometricVanishes(b: real, scale: real, eps: real) returns (k: nat)
    requires 0.0 < b <= 1.0 && 0.0 <= scale && 0.0 < eps
    ensures Power(1.0 - b, k) * scale < eps
  {
    var unit := eps * b;
    MulLt(eps, 0.0, b);
    k := Archimedes(scale, unit);
    Bernoulli(b, k);
    PowerInUnit(1.0 - b, k);
    HyperbolaBelow(Power(1.0 - b, k), k as real, b, scale, eps);
  }

  lemma Archimedes(x: real, unit: real) returns (k: nat)
    requires 0.0 <= x && 0.0 < unit
    ensures x < k as real * unit
  {
    k := (x / unit).Floor + 1;
    DivMulLt(x, unit, k as real);
  }

  lemma HyperbolaBelow(p: real, k: real, b: real, scale: real, eps: real)
    requires 0.0 <= p && 0.0 < eps && scale < k * (eps * b) && p * (1.0 + k * b) <= 1.0
    ensures p * scale < eps
  {
    var x := k * (eps * b);
    MulLe(p, scale, x);
    assert p * x == eps * (p * (k * b));
    assert p * (1.0 + k * b) == p + p * (k * b);
    if p > 0.0 {
      MulLt(eps, p * (k * b), 1.0);
    }
  }

  /** A combination with non-negative weights stays below the weighted bound. */
  lemma BlendBelow(q: real, a: real, x: real, y: real, up: real)
    requires 0.0 <= q && 0.0 <= a && x <= up && y <= up
    ensures q * x + a * y <= (q + a) * up
  {
    MulLe(q, x, up);
    MulLe(a, y, up);
  }

  lemma SignOfProduct(k: real, x: real)
    requires 0.0 < x
    ensures k * x < 0.0 <==> k < 0.0
    ensures k * x > 0.0 <==> k > 0.0
  {}

  lemma DivMulLt(x: real, y: real, k: real)
    requires 0.0 < y && x / y < k
    ensures x < k * y
  {
    MulLt(y, x / y, k);
  }

  lemma MulLe(c: real, x: real, y: real)
    requires 0.0 <= c && x <= y
    ensures c * x <= c * y
  {}

  lemma MulLt(c: real, x: real, y: real)
    requires 0.0 < c && x < y
    ensures c * x < c * y
  {}
}
