/** Sums over sequences of reals and over the values of a map in a given key order. */
module Sums {
  function Sum(xs: seq<real>): real { if xs == [] then 0.0 else Sum(xs[..|xs| - 1]) + xs[|xs| - 1] }

  lemma SumStep(xs: seq<real>, x: real)
    ensures Sum(xs + [x]) == Sum(xs) + x
  {
    assert (xs + [x])[..|xs|] == xs;
  }

  ghost predicate Distinct<T>(xs: seq<T>) { forall i, j | 0 <= i < j < |xs| :: xs[i] != xs[j] }

  /** Values of m along the keys. */
  function ValuesOf(keys: seq<string>, m: map<string, real>): (vs: seq<real>)
    requires forall k | k in keys :: k in m
    ensures |vs| == |keys| && forall i | 0 <= i < |vs| :: vs[i] == m[keys[i]]
  {
    seq(|keys|, i requires 0 <= i < |keys| => m[keys[i]])
  }

  function Total(keys: seq<string>, m: map<string, real>): real
    requires forall k | k in keys :: k in m
  {
    Sum(ValuesOf(keys, m))
  }

  lemma {:induction false} SumScaled(xs: seq<real>, ys: seq<real>, a: real)
    requires |xs| == |ys| && forall i | 0 <= i < |xs| :: ys[i] == a * xs[i]
    ensures Sum(ys) == a * Sum(xs)
  {
    if xs != [] {
      SumScaled(xs[..|xs| - 1], ys[..|ys| - 1], a);
      Distribute(a, Sum(xs[..|xs| - 1]), xs[|xs| - 1]);
    }
  }

  lemma Distribute(a: real, x: real, y: real)
    ensures a * (x + y) == a * x + a * y
  {}

  lemma {:induction false} SumConstant(xs: seq<real>, c: real)
    requires forall i | 0 <= i < |xs| :: xs[i] == c
    ensures Sum(xs) == |xs| as real * c
  {
    if xs != [] {
      SumConstant(xs[..|xs| - 1], c);
      Distribute(c, (|xs| - 1) as real, 1.0);
    }
  }

  lemma {:induction false} SumOrder(xs: seq<real>, ys: seq<real>)
    requires |xs| == |ys| && forall i | 0 <= i < |xs| :: xs[i] <= ys[i]
    ensures Sum(xs) <= Sum(ys)
  {
    if xs != [] {
      SumOrder(xs[..|xs| - 1], ys[..|ys| - 1]);
    }
  }

  lemma {:induction false} SumOfNonNegatives(xs: seq<real>)
    requires forall i | 0 <= i < |xs| :: xs[i] >= 0.0
    ensures Sum(xs) >= 0.0
    ensures forall i | 0 <= i < |xs| :: xs[i] <= Sum(xs)
  {
    if xs != [] {
      SumOfNonNegatives(xs[..|xs| - 1]);
    }
  }

  lemma {:induction false} SumNegated(xs: seq<real>, ys: seq<real>)
    requires |xs| == |ys| && forall i | 0 <= i < |xs| :: ys[i] == -xs[i]
    ensures Sum(ys) == -Sum(xs)
  {
    if xs != [] {
      SumNegated(xs[..|xs| - 1], ys[..|ys| - 1]);
    }
  }
}
