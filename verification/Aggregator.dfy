/** Aggregation of the assets of a class into one virtual asset. */
module Aggregator {
  import opened Common
  import opened Sums
  import opened Setpoints

  /** One asset's reading; a poll is the sequence of them. */
  datatype Reading = Reading(asset: string, points: PointValues)

  datatype AggregateError = NotAggregated

  predicate Contributes(r: Reading, point: string) {
    point in r.points && r.points[point].quality == Good && r.points[point].value.Some?
  }

  function WeightOf(weights: map<string, real>, asset: string): real {
    if asset in weights then weights[asset] else 1.0
  }

  /** The GOOD values of a point, in poll order. */
  function GoodValues(rs: seq<Reading>, point: string): seq<real> {
    if rs == [] then []
    else
      var r := rs[|rs| - 1];
      GoodValues(rs[..|rs| - 1], point) + if Contributes(r, point) then [r.points[point].value.value] else []
  }

  function GoodWeights(rs: seq<Reading>, point: string, weights: map<string, real>): (ws: seq<real>)
    ensures |ws| == |GoodValues(rs, point)|
  {
    if rs == [] then []
    else
      var r := rs[|rs| - 1];
      GoodWeights(rs[..|rs| - 1], point, weights) + if Contributes(r, point) then [WeightOf(weights, r.asset)] else []
  }

  function Times(v: real, w: real): real { v * w }

  function Products(vs: seq<real>, ws: seq<real>): (ps: seq<real>)
    requires |vs| == |ws|
    ensures |ps| == |vs| && forall i | 0 <= i < |ps| :: ps[i] == Times(vs[i], ws[i])
  {
    seq(|vs|, i requires 0 <= i < |vs| => Times(vs[i], ws[i]))
  }

  predicate IsPercentage(point: string) { |point| >= 4 && point[|point| - 4..] == "_pct" }

  function WeightedMean(vs: seq<real>, ws: seq<real>): real
    requires |vs| == |ws| > 0
  {
    var total := Sum(ws);
    Sum(Products(vs, ws)) / (if total != 0.0 then total else |vs| as real)
  }

  function AggregatePoint(rs: seq<Reading>, point: string, weights: map<string, real>, ts: real): PointValue {
    var vs := GoodValues(rs, point);
    if vs == [] then PointValue(None, ts, CommFail)
    else if IsPercentage(point) then PointValue(Some(WeightedMean(vs, GoodWeights(rs, point, weights))), ts, Good)
    else PointValue(Some(Sum(vs)), ts, Good)
  }

  /** catalog lists the aggregated points of each class. */
  method AggregateClass(assetClass: AssetClass, catalog: map<AssetClass, seq<string>>, readings: seq<Reading>,
                        weights: map<string, real>, ts: real)
    returns (r: Result<PointValues, AggregateError>)
    ensures r.Err? <==> assetClass !in catalog
    ensures r.Ok? ==> r.value.Keys == set p | p in catalog[assetClass]
    ensures r.Ok? ==> forall p | p in r.value :: r.value[p] == AggregatePoint(readings, p, weights, ts)
  {
    if assetClass !in catalog {
      return Err(NotAggregated);
    }
    var names := catalog[assetClass];
    var out: PointValues := map[];
    for n := 0 to |names|
      invariant out.Keys == set p | p in names[..n]
      invariant forall p | p in out :: out[p] == AggregatePoint(readings, p, weights, ts)
    {
      var pname, values, ws := names[n], [], [];
      for i := 0 to |readings|
        invariant values == GoodValues(readings[..i], pname)
        invariant ws == GoodWeights(readings[..i], pname, weights)
      {
        var reading := readings[i];
        assert readings[..i + 1][..i] == readings[..i];
        if !(pname in reading.points) || reading.points[pname].quality != Good || reading.points[pname].value.None? {
          continue;
        }
        values := values + [reading.points[pname].value.value];
        ws := ws + [WeightOf(weights, reading.asset)];
      }
      assert readings[..|readings|] == readings;
      if values == [] {
        out := out[pname := PointValue(None, ts, CommFail)];
      } else if IsPercentage(pname) {
        out := out[pname := PointValue(Some(WeightedMean(values, ws)), ts, Good)];
      } else {
        out := out[pname := PointValue(Some(Sum(values)), ts, Good)];
      }
      assert names[..n + 1] == names[..n] + [pname];
    }
    assert names[..|names|] == names;
    return Ok(out);
  }

  // ------------------------------------------------------------ what the mean means

  lemma {:induction false} WeightedBetween(vs: seq<real>, ws: seq<real>, lo: real, up: real)
    requires |vs| == |ws|
    requires forall i | 0 <= i < |vs| :: lo <= vs[i] <= up && ws[i] >= 0.0
    ensures Times(lo, Sum(ws)) <= Sum(Products(vs, ws)) <= Times(up, Sum(ws))
  {
    hide Times;
    if vs == [] {
      TimesZero(lo, up);
    } else {
      var n := |vs| - 1;
      WeightedBetween(vs[..n], ws[..n], lo, up);
      var ps, qs := Products(vs, ws)[..n], Products(vs[..n], ws[..n]);
      assert |ps| == |qs| && forall i | 0 <= i < n :: ps[i] == qs[i];
      assert ps == qs;
      TimesBetween(Sum(ws[..n]), vs[n], ws[n], lo, up);
    }
  }

  /** Adding one weighted value between the bounds. */
  lemma TimesBetween(total: real, v: real, w: real, lo: real, up: real)
    requires lo <= v <= up && w >= 0.0
    ensures Times(lo, total + w) <= Times(lo, total) + Times(v, w)
    ensures Times(up, total) + Times(v, w) <= Times(up, total + w)
  {
    Distribute(lo, total, w);
    Distribute(up, total, w);
    TimesOrder(lo, v, w);
    TimesOrder(v, up, w);
    assert Times(lo, total + w) == Times(lo, total) + Times(lo, w);
    assert Times(up, total + w) == Times(up, total) + Times(up, w);
    hide Times;
  }

  lemma TimesOrder(x: real, y: real, w: real)
    requires x <= y && 0.0 <= w
    ensures Times(x, w) <= Times(y, w)
  {}

  lemma TimesZero(lo: real, up: real)
    ensures Times(lo, 0.0) == 0.0 && Times(up, 0.0) == 0.0
  {}

  /** With non-negative weights the aggregate percentage lies between the smallest and the largest
      contribution exactly when some weight is positive; with only zero weights it is 0, whatever
      was measured. */
  lemma MeanExactly(vs: seq<real>, ws: seq<real>, lo: real, up: real)
    requires |vs| == |ws| > 0
    requires forall i | 0 <= i < |vs| :: lo <= vs[i] <= up && ws[i] >= 0.0
    ensures Sum(ws) > 0.0 ==> lo <= WeightedMean(vs, ws) <= up
    ensures !(Sum(ws) > 0.0) ==> WeightedMean(vs, ws) == 0.0
  {
    hide Times, Products;
    WeightedBetween(vs, ws, lo, up);
    SumOfNonNegatives(ws);
    if Sum(ws) > 0.0 {
      assert WeightedMean(vs, ws) == Sum(Products(vs, ws)) / Sum(ws);
      hide WeightedMean;
      QuotientBetween(Sum(Products(vs, ws)), Sum(ws), lo, up);
    } else {
      TimesZero(lo, up);
      assert Sum(Products(vs, ws)) == 0.0;
      ZeroOver(|vs| as real);
    }
  }

  lemma ZeroOver(d: real)
    requires 0.0 < d
    ensures 0.0 / d == 0.0
  {}

  lemma QuotientBetween(x: real, d: real, lo: real, up: real)
    requires Times(lo, d) <= x <= Times(up, d)
    ensures 0.0 < d ==> lo <= x / d <= up
  {
    if 0.0 < d {
      var q := x / d;
      assert q * d == x;
      assert (q - lo) * d == x - Times(lo, d);
      assert (up - q) * d == Times(up, d) - x;
      SignOfProduct(q - lo, d);
      SignOfProduct(up - q, d);
    }
  }

  // ------------------------------------------------------------ which readings count

  /** The reading has a GOOD value for the point. */
  ghost predicate HasGood(r: Reading, point: string, value: real) {
    point in r.points && r.points[point].quality == Good && r.points[point].value == Some(value)
  }

  ghost predicate HasNoGood(r: Reading, point: string) { forall v :: !HasGood(r, point, v) }

  lemma HasNoGoodExactly(r: Reading, point: string)
    ensures HasNoGood(r, point)
       <==> !(point in r.points && r.points[point].quality == Good && r.points[point].value.Some?)
  {
    if point in r.points && r.points[point].quality == Good && r.points[point].value.Some? {
      assert HasGood(r, point, r.points[point].value.value);
    }
  }

  /** Readings without a GOOD value make no difference, whatever else they hold and whoever they are of. */
  lemma {:induction false} OnlyGoodCounts(rs: seq<Reading>, rs': seq<Reading>, point: string,
                                          weights: map<string, real>, ts: real)
    requires |rs| == |rs'|
    requires forall i | 0 <= i < |rs| :: rs[i] == rs'[i] || (HasNoGood(rs[i], point) && HasNoGood(rs'[i], point))
    ensures GoodValues(rs, point) == GoodValues(rs', point)
    ensures GoodWeights(rs, point, weights) == GoodWeights(rs', point, weights)
    ensures AggregatePoint(rs, point, weights, ts) == AggregatePoint(rs', point, weights, ts)
  {
    if rs != [] {
      var n := |rs| - 1;
      OnlyGoodCounts(rs[..n], rs'[..n], point, weights, ts);
      HasNoGoodExactly(rs[n], point);
      HasNoGoodExactly(rs'[n], point);
      hide HasNoGood, WeightedMean;
    }
  }

  ghost predicate EndsInPct(point: string) { exists stem: string :: point == stem + "_pct" }

  /** With no GOOD value at all the point is lost, like an asset that did not answer. */
  lemma {:induction false} NoneGood(rs: seq<Reading>, point: string, weights: map<string, real>, ts: real)
    requires forall i | 0 <= i < |rs| :: HasNoGood(rs[i], point)
    ensures GoodValues(rs, point) == [] && AggregatePoint(rs, point, weights, ts) == PointValue(None, ts, CommFail)
  {
    if rs != [] {
      NoneGood(rs[..|rs| - 1], point, weights, ts);
      HasNoGoodExactly(rs[|rs| - 1], point);
      hide HasNoGood;
    }
  }

  /** Points named with the suffix are percentages. */
  lemma PercentagesExactly(point: string)
    ensures IsPercentage(point) <==> EndsInPct(point)
  {
    if IsPercentage(point) {
      assert point == point[..|point| - 4] + "_pct";
    }
  }

  ghost function MeanOfTwo(v: real, a: real, u: real, b: real): real
    requires a + b != 0.0
  { (v * a + u * b) / (a + b) }

  /** Two units: their values add up, or for a percentage their mean counts each by its own weight. */
  lemma TwoUnits(r: Reading, q: Reading, point: string, v: real, u: real, weights: map<string, real>, ts: real)
    requires HasGood(r, point, v) && HasGood(q, point, u)
    requires r.asset in weights && q.asset in weights && weights[r.asset] + weights[q.asset] != 0.0
    ensures AggregatePoint([r, q], point, weights, ts)
         == PointValue(Some(if EndsInPct(point)
                            then MeanOfTwo(v, weights[r.asset], u, weights[q.asset])
                            else v + u), ts, Good)
  {
    PercentagesExactly(point);
    TwoValues(r, q, point, v, u, weights);
    TwoMean(v, u, weights[r.asset], weights[q.asset]);
    SumOfTwo(v, u);
    hide IsPercentage, EndsInPct, GoodValues, GoodWeights, WeightedMean, Sum, MeanOfTwo;
    var vs, ws := [v, u], [weights[r.asset], weights[q.asset]];
    assert IsPercentage(point) ==> AggregatePoint([r, q], point, weights, ts).value == Some(WeightedMean(vs, ws));
    assert !IsPercentage(point) ==> AggregatePoint([r, q], point, weights, ts).value == Some(Sum(vs));
  }

  lemma TwoValues(r: Reading, q: Reading, point: string, v: real, u: real, weights: map<string, real>)
    requires HasGood(r, point, v) && HasGood(q, point, u) && r.asset in weights && q.asset in weights
    ensures GoodValues([r, q], point) == [v, u]
    ensures GoodWeights([r, q], point, weights) == [weights[r.asset], weights[q.asset]]
  {
    assert [r, q][..1] == [r] && [r][..0] == [];
    assert GoodValues([r], point) == [v] && GoodWeights([r], point, weights) == [weights[r.asset]];
  }

  lemma TwoMean(v: real, u: real, a: real, b: real)
    requires a + b != 0.0
    ensures WeightedMean([v, u], [a, b]) == MeanOfTwo(v, a, u, b)
  {
    SumOfTwo(a, b);
    SumOfTwo(Times(v, a), Times(u, b));
    hide Sum;
    assert Products([v, u], [a, b]) == [Times(v, a), Times(u, b)];
  }

  lemma SumOfTwo(x: real, y: real)
    ensures Sum([x, y]) == x + y
  {
    assert [x, y][..1] == [x] && [x][..0] == [];
    assert Sum([x]) == Sum([]) + x;
    assert Sum([x, y]) == Sum([x]) + y;
  }

  /** One value more is added to a sum. */
  lemma OneMore(rs: seq<Reading>, r: Reading, point: string, v: real, weights: map<string, real>, ts: real)
    requires HasGood(r, point, v) && !IsPercentage(point)
    ensures var before := AggregatePoint(rs, point, weights, ts).value;
      AggregatePoint(rs + [r], point, weights, ts)
      == PointValue(Some((if before.Some? then before.value else 0.0) + v), ts, Good)
  {
    assert (rs + [r])[..|rs|] == rs;
    SumStep(GoodValues(rs, point), v);
    hide IsPercentage;
  }

  /** A unit without a configured weight counts with 1. */
  lemma Unweighted(r: Reading, q: Reading, point: string, weights: map<string, real>, ts: real)
    requires r.asset !in weights && r.points == q.points && q.asset in weights && weights[q.asset] == 1.0
    ensures forall rs: seq<Reading> :: AggregatePoint(rs + [r], point, weights, ts)
                                    == AggregatePoint(rs + [q], point, weights, ts)
  {
    hide IsPercentage, WeightedMean;
    forall rs: seq<Reading>
      ensures AggregatePoint(rs + [r], point, weights, ts) == AggregatePoint(rs + [q], point, weights, ts)
    {
      assert (rs + [r])[..|rs|] == rs && (rs + [q])[..|rs|] == rs;
      assert GoodValues(rs + [r], point) == GoodValues(rs + [q], point);
      assert GoodWeights(rs + [r], point, weights) == GoodWeights(rs + [q], point, weights);
    }
  }
}
