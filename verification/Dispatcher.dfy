/** Core side of a setpoint message: guards, power sharing, per-device commands. */
module Dispatcher {
  import opened Common
  import opened Sums
  import opened Setpoints

  datatype UnitLimits = UnitLimits(charge: real, discharge: real)

  // ------------------------------------------------------------ power sharing

  datatype Sharing = Sharing(shares: map<string, real>, leftover: real)

  /** Headroom of each unit in the commanded direction. */
  function Caps(total: real, limits: map<string, UnitLimits>): map<string, real> {
    map u | u in limits :: Max(0.0, if total >= 0.0 then limits[u].charge else limits[u].discharge)
  }

  /** One unit's proportional part of the magnitude. */
  function Part(magnitude: real, cap: real, capTotal: real): real
    requires capTotal > 0.0
  {
    magnitude * cap / capTotal
  }

  /** Split of a class command over the units, listed once each in uids. */
  function ShareBatteryPower(total: real, uids: seq<string>, limits: map<string, UnitLimits>): Sharing
    requires forall u | u in uids :: u in limits
  {
    if uids == [] then Sharing(map[], total)
    else
      var caps := Caps(total, limits);
      var capTotal := Total(uids, caps);
      var magnitude := Abs(total);
      if capTotal <= 0.0 then Sharing(map u | u in uids :: 0.0, total)
      else if magnitude >= capTotal then
        Sharing(map u | u in uids :: Signed(total, caps[u]), Signed(total, magnitude - capTotal))
      else
        Sharing(map u | u in uids :: Signed(total, Part(magnitude, caps[u], capTotal)), 0.0)
  }

  /** The magnitude in the direction of the command. */
  function Signed(total: real, magnitude: real): real { if total >= 0.0 then magnitude else -magnitude }

  /** The caps are headrooms: never negative, so no unit's cap exceeds their total. */
  lemma CapsNonNegative(total: real, uids: seq<string>, limits: map<string, UnitLimits>)
    requires forall u | u in uids :: u in limits
    ensures Total(uids, Caps(total, limits)) >= 0.0
    ensures forall u | u in uids :: 0.0 <= Caps(total, limits)[u] <= Total(uids, Caps(total, limits))
  {
    var vs := ValuesOf(uids, Caps(total, limits));
    SumOfNonNegatives(vs);
    forall u | u in uids ensures 0.0 <= Caps(total, limits)[u] <= Sum(vs) {
      var i :| 0 <= i < |uids| && uids[i] == u;
      assert vs[i] == Caps(total, limits)[u];
    }
  }

  /** Nothing is created or lost: shares plus leftover are the command. */
  lemma SharesConserve(total: real, uids: seq<string>, limits: map<string, UnitLimits>)
    requires forall u | u in uids :: u in limits
    ensures var r := ShareBatteryPower(total, uids, limits);
      r.shares.Keys == (set u | u in uids) && Total(uids, r.shares) + r.leftover == total
  {
    var r, caps := ShareBatteryPower(total, uids, limits), Caps(total, limits);
    hide Part, Caps;
    if uids != [] {
      var vs, shares := ValuesOf(uids, caps), ValuesOf(uids, r.shares);
      var capTotal := Sum(vs);
      if capTotal <= 0.0 {
        SumConstant(shares, 0.0);
      } else if Abs(total) >= capTotal {
        SumSigned(vs, shares, total);
      } else {
        var parts := Parts(Abs(total), vs, capTotal);
        SumSigned(parts, shares, total);
        PartsAddUp(Abs(total), vs, capTotal);
        PartOfWhole(Abs(total), capTotal);
      }
    }
  }

  lemma SumSigned(vs: seq<real>, ss: seq<real>, total: real)
    requires |vs| == |ss| && forall i | 0 <= i < |vs| :: ss[i] == Signed(total, vs[i])
    ensures Sum(ss) == Signed(total, Sum(vs))
  {
    if total >= 0.0 {
      assert ss == vs;
    } else {
      SumNegated(vs, ss);
    }
  }

  ghost function Parts(magnitude: real, vs: seq<real>, capTotal: real): (ps: seq<real>)
    requires capTotal > 0.0
    ensures |ps| == |vs| && forall i | 0 <= i < |vs| :: ps[i] == Part(magnitude, vs[i], capTotal)
  {
    seq(|vs|, i requires 0 <= i < |vs| => Part(magnitude, vs[i], capTotal))
  }

  lemma {:induction false} PartsAddUp(magnitude: real, vs: seq<real>, capTotal: real)
    requires capTotal > 0.0
    ensures Sum(Parts(magnitude, vs, capTotal)) == Part(magnitude, Sum(vs), capTotal)
  {
    hide Part;
    if vs == [] {
      PartsOfSum(magnitude, 0.0, 0.0, capTotal);
    } else {
      var n := |vs| - 1;
      PartsAddUp(magnitude, vs[..n], capTotal);
      assert Parts(magnitude, vs, capTotal)[..n] == Parts(magnitude, vs[..n], capTotal);
      PartsOfSum(magnitude, Sum(vs[..n]), vs[n], capTotal);
    }
  }

  lemma PartsOfSum(magnitude: real, x: real, y: real, capTotal: real)
    requires capTotal > 0.0
    ensures Part(magnitude, x + y, capTotal) == Part(magnitude, x, capTotal) + Part(magnitude, y, capTotal)
  {
    PartIsScaled(magnitude, x, capTotal);
    PartIsScaled(magnitude, y, capTotal);
    PartIsScaled(magnitude, x + y, capTotal);
    hide Part;
    Distribute(magnitude / capTotal, x, y);
  }

  lemma PartIsScaled(magnitude: real, cap: real, capTotal: real)
    requires capTotal > 0.0
    ensures Part(magnitude, cap, capTotal) == (magnitude / capTotal) * cap
  {
    var q := magnitude / capTotal;
    assert q * capTotal == magnitude;
    assert magnitude * cap == (q * cap) * capTotal;
    DivideBack(magnitude * cap, q * cap, capTotal);
  }

  lemma DivideBack(x: real, q: real, d: real)
    requires d > 0.0 && x == q * d
    ensures x / d == q
  {}

  lemma PartOfWhole(magnitude: real, capTotal: real)
    requires capTotal > 0.0
    ensures Part(magnitude, capTotal, capTotal) == magnitude
  {
    DivideBack(magnitude * capTotal, magnitude, capTotal);
  }

  /** Every share has the command's sign and stays within that unit's headroom, and the leftover has
      the command's sign. */
  lemma SharesWithinHeadroom(total: real, uids: seq<string>, limits: map<string, UnitLimits>, u: string)
    requires (forall w | w in uids :: w in limits) && u in uids
    ensures var r := ShareBatteryPower(total, uids, limits);
      Toward(r.shares[u], Signed(total, Caps(total, limits)[u])) && Toward(r.leftover, total)
  {
    var caps := Caps(total, limits);
    CapsNonNegative(total, uids, limits);
    var capTotal := Total(uids, caps);
    hide Part, Caps;
    if capTotal > 0.0 && Abs(total) < capTotal {
      PartWithin(Abs(total), caps[u], capTotal);
    }
  }

  lemma PartWithin(magnitude: real, cap: real, capTotal: real)
    requires 0.0 <= magnitude <= capTotal && 0.0 <= cap && 0.0 < capTotal
    ensures 0.0 <= Part(magnitude, cap, capTotal) <= cap
  {
    var q := magnitude / capTotal;
    PartIsScaled(magnitude, cap, capTotal);
    assert q * capTotal == magnitude;
    SignOfProduct(q, capTotal);
    SignOfProduct(1.0 - q, capTotal);
    assert (1.0 - q) * capTotal == capTotal - magnitude;
    MulLe(cap, 0.0, q);
    MulLe(cap, q, 1.0);
  }

  /** A leftover is reported exactly when the command exceeds the fleet's headroom. */
  lemma LeftoverExactly(total: real, uids: seq<string>, limits: map<string, UnitLimits>)
    requires forall u | u in uids :: u in limits
    ensures ShareBatteryPower(total, uids, limits).leftover == 0.0 <==> Abs(total) <= Total(uids, Caps(total, limits))
    ensures ShareBatteryPower(total, uids, limits).leftover != 0.0 ==>
      Abs(ShareBatteryPower(total, uids, limits).leftover) == Abs(total) - Total(uids, Caps(total, limits))
  {
    CapsNonNegative(total, uids, limits);
  }

  lemma LeftoverSign(total: real, uids: seq<string>, limits: map<string, UnitLimits>)
    requires forall u | u in uids :: u in limits
    ensures Toward(ShareBatteryPower(total, uids, limits).leftover, total)
  {
    CapsNonNegative(total, uids, limits);
  }

  /** Every unit is driven at the same fraction of its headroom. */
  lemma SharesProportional(total: real, uids: seq<string>, limits: map<string, UnitLimits>) returns (fraction: real)
    requires (forall x | x in uids :: x in limits) && uids != []
    ensures 0.0 <= fraction <= 1.0
    ensures forall u | u in uids ::
      ShareBatteryPower(total, uids, limits).shares[u] == Signed(total, FractionOf(fraction, Caps(total, limits)[u]))
  {
    var r, caps := ShareBatteryPower(total, uids, limits), Caps(total, limits);
    var capTotal := Total(uids, caps);
    CapsNonNegative(total, uids, limits);
    hide Part, Caps, FractionOf;
    fraction := if capTotal <= 0.0 then 0.0 else if Abs(total) >= capTotal then 1.0 else Abs(total) / capTotal;
    if capTotal > 0.0 {
      UnitFraction(Abs(total), capTotal);
    }
    forall u | u in uids ensures r.shares[u] == Signed(total, FractionOf(fraction, caps[u])) {
      FractionEnds(caps[u]);
      if capTotal > 0.0 {
        FractionIsPart(Abs(total), caps[u], capTotal);
      }
    }
  }

  ghost function FractionOf(k: real, cap: real): real { k * cap }

  lemma FractionEnds(cap: real)
    ensures FractionOf(0.0, cap) == 0.0 && FractionOf(1.0, cap) == cap
  {}

  lemma UnitFraction(magnitude: real, capTotal: real)
    requires 0.0 <= magnitude && 0.0 < capTotal
    ensures magnitude < capTotal ==> 0.0 <= magnitude / capTotal <= 1.0
  {}

  lemma FractionIsPart(magnitude: real, cap: real, capTotal: real)
    requires 0.0 < capTotal
    ensures Part(magnitude, cap, capTotal) == FractionOf(magnitude / capTotal, cap)
  {
    PartIsScaled(magnitude, cap, capTotal);
  }

  // ------------------------------------------------------------ the dispatcher

  datatype Reason = NonConformant | WrongSite | StaleSeq | UnparseableTs | TooOld | NoUnits

  datatype DispatchReport = DispatchReport(
    accepted: bool, reason: Option<Reason>, written: map<string, Points>, leftover: real)

  datatype DispatchConfig = DispatchConfig(dm: DataModel, site: string, assets: seq<(string, AssetClass)>, maxAge: real)

  ghost predicate ValidDispatch(c: DispatchConfig) {
    Distinct(seq(|c.assets|, i requires 0 <= i < |c.assets| => c.assets[i].0))
  }

  /** The units of a class, in configuration order. */
  function UnitsOf(assets: seq<(string, AssetClass)>, assetClass: AssetClass): (us: seq<string>)
    ensures forall u | u in us :: (u, assetClass) in assets
    ensures forall i | 0 <= i < |assets| && assets[i].1 == assetClass :: assets[i].0 in us
  {
    if assets == [] then []
    else
      var a := assets[|assets| - 1];
      UnitsOf(assets[..|assets| - 1], assetClass) + if a.1 == assetClass then [a.0] else []
  }

  function LastSeqOf(lastSeq: map<AssetClass, int>, assetClass: AssetClass): int {
    if assetClass in lastSeq then lastSeq[assetClass] else -1
  }

  /** Why a payload is refused, in the order the guards are tried. */
  function Guard(c: DispatchConfig, lastSeq: map<AssetClass, int>, payload: Payload, now: real): Option<Reason> {
    if payload.Malformed? || !Conformant(payload.message, c.dm) then Some(NonConformant)
    else
      var m := payload.message;
      if m.site != c.site then Some(WrongSite)
      else if m.seqNo <= LastSeqOf(lastSeq, m.assetClass) then Some(StaleSeq)
      else if m.ts.None? then Some(UnparseableTs)
      else if now - m.ts.value > c.maxAge then Some(TooOld)
      else None
  }

  /** Headroom used for a unit; none reported means none. */
  function LimitsOf(uids: seq<string>, limits: map<string, UnitLimits>): (r: map<string, UnitLimits>)
    ensures forall u | u in uids :: u in r
  {
    map u | u in uids :: if u in limits then limits[u] else UnitLimits(0.0, 0.0)
  }

  function SharingOf(m: Message, uids: seq<string>, limits: map<string, UnitLimits>): Sharing {
    if m.assetClass == Battery && ActivePower in m.setpoints then
      ShareBatteryPower(m.setpoints[ActivePower], uids, LimitsOf(uids, limits))
    else Sharing(map[], 0.0)
  }

  function EqualPart(x: real, n: nat): real
    requires n > 0
  {
    x / n as real
  }

  /** What one setpoint of a message becomes for one unit: its share of battery power, an equal part
      of reactive power, anything else unchanged. */
  function UnitValue(m: Message, sharing: Sharing, nUnits: nat, uid: string, name: Field): real
    requires name in m.setpoints && nUnits > 0
  {
    if m.assetClass == Battery && name == ActivePower then (if uid in sharing.shares then sharing.shares[uid] else 0.0)
    else if name == ReactivePower then EqualPart(m.setpoints[name], nUnits)
    else m.setpoints[name]
  }

  /** Reference definition of an accepted message's effect: every unit of the class gets exactly the
      points of the message. */
  function Written(m: Message, uids: seq<string>, limits: map<string, UnitLimits>): map<string, Points> {
    var sharing := SharingOf(m, uids, limits);
    map u | u in uids :: map name | name in m.setpoints :: UnitValue(m, sharing, |uids|, u, name)
  }

  function Dispatched(c: DispatchConfig, lastSeq: map<AssetClass, int>, payload: Payload,
                      limits: map<string, UnitLimits>, now: real): (map<AssetClass, int>, DispatchReport)
  {
    var reason := Guard(c, lastSeq, payload, now);
    if reason.Some? then (lastSeq, DispatchReport(false, reason, map[], 0.0))
    else
      var m := payload.message;
      var uids := UnitsOf(c.assets, m.assetClass);
      (lastSeq[m.assetClass := m.seqNo],
       if uids == [] then DispatchReport(false, Some(NoUnits), map[], 0.0)
       else DispatchReport(true, None, Written(m, uids, limits), SharingOf(m, uids, limits).leftover))
  }

  class SetpointDispatcher {
    const cfg: DispatchConfig
    var lastSeq: map<AssetClass, int>

    constructor (cfg: DispatchConfig)
      ensures this.cfg == cfg && lastSeq == map[]
    {
      this.cfg := cfg;
      lastSeq := map[];
    }

    method Dispatch(payload: Payload, limits: map<string, UnitLimits>, now: real) returns (report: DispatchReport)
      requires ValidDispatch(cfg)
      modifies this
      ensures (lastSeq, report) == Dispatched(cfg, old(lastSeq), payload, limits, now)
    {
      var reason := Guard(cfg, lastSeq, payload, now);
      if reason.Some? {
        return DispatchReport(false, reason, map[], 0.0);
      }
      var m := payload.message;
      lastSeq := lastSeq[m.assetClass := m.seqNo];
      var uids := UnitsOf(cfg.assets, m.assetClass);
      if uids == [] {
        return DispatchReport(false, Some(NoUnits), map[], 0.0);
      }
      var written := PerUnit(m, uids, limits);
      report := DispatchReport(true, None, written, SharingOf(m, uids, limits).leftover);
    }

    /** Fills the per-unit commands point by point. */
    static method PerUnit(m: Message, uids: seq<string>, limits: map<string, UnitLimits>)
      returns (perUnit: map<string, Points>)
      requires uids != []
      ensures perUnit == Written(m, uids, limits)
    {
      hide UnitValue, Filled, ShareBatteryPower, Written, EqualPart, LimitsOf, SharingOf;
      ghost var sharing := SharingOf(m, uids, limits);
      perUnit := map u | u in uids :: map[];
      var rest := m.setpoints;
      FilledNone(uids, m, sharing);
      if m.assetClass == Battery && ActivePower in rest {
        var shared := ShareBatteryPower(rest[ActivePower], uids, LimitsOf(uids, limits));
        SharedColumn(m, uids, limits);
        SharingOfBattery(m, uids, limits);
        perUnit, rest := Place(perUnit, uids, rest, ActivePower, shared.shares, m, sharing);
      }
      if ReactivePower in rest {
        var each := EqualPart(rest[ReactivePower], |uids|);
        ReactiveColumn(m, uids, sharing);
        perUnit, rest := Place(perUnit, uids, rest, ReactivePower, map u | u in uids :: each, m, sharing);
      }
      perUnit := PlaceRest(perUnit, uids, rest, m, sharing);
      FilledAll(perUnit, uids, m, limits);
    }

    /** The remaining points go to every unit unchanged. */
    static method PlaceRest(start: map<string, Points>, uids: seq<string>, points: Points, ghost m: Message,
                            ghost sharing: Sharing)
      returns (perUnit: map<string, Points>)
      requires uids != [] && points.Keys <= m.setpoints.Keys
      requires forall n | n in points :: points[n] == m.setpoints[n] && Broadcast(m, n)
      requires Filled(start, uids, points.Keys, m, sharing)
      ensures Filled(perUnit, uids, {}, m, sharing)
    {
      hide UnitValue, Filled;
      perUnit := start;
      var rest := points;
      while rest != map[]
        invariant rest.Keys <= points.Keys && forall n | n in rest :: rest[n] == points[n]
        invariant Filled(perUnit, uids, rest.Keys, m, sharing)
        decreases |rest|
      {
        var name :| name in rest;
        BroadcastColumn(m, uids, sharing, name);
        ghost var before := rest;
        perUnit, rest := Place(perUnit, uids, rest, name, map u | u in uids :: rest[name], m, sharing);
        Shrinks(before, name);
      }
      assert rest.Keys == {};
    }

    /** Places one point and takes it off the list. */
    static method Place(perUnit: map<string, Points>, uids: seq<string>, rest: Points, name: Field,
                        column: map<string, real>, ghost m: Message, ghost sharing: Sharing)
      returns (filled: map<string, Points>, left: Points)
      requires uids != [] && name in rest && rest.Keys <= m.setpoints.Keys
      requires Filled(perUnit, uids, rest.Keys, m, sharing)
      requires forall u | u in uids :: u in column && column[u] == UnitValue(m, sharing, |uids|, u, name)
      ensures left == rest - {name}
      ensures Filled(filled, uids, left.Keys, m, sharing)
    {
      hide UnitValue, Filled;
      FillOne(perUnit, uids, rest.Keys, m, sharing, name, column);
      filled := SetColumn(perUnit, uids, name, column);
      left := rest - {name};
      assert left.Keys == rest.Keys - {name};
    }

    /** One point for every unit. */
    static method SetColumn(perUnit: map<string, Points>, uids: seq<string>, name: Field, column: map<string, real>)
      returns (r: map<string, Points>)
      requires perUnit.Keys == (set u | u in uids) && forall u | u in uids :: u in column
      ensures r == WithColumn(perUnit, name, column)
    {
      r := perUnit;
      for i := 0 to |uids|
        invariant r.Keys == perUnit.Keys
        invariant forall u | u in perUnit ::
          r[u] == if u in uids[..i] then perUnit[u][name := column[u]] else perUnit[u]
      {
        var u := uids[i];
        r := r[u := r[u][name := column[u]]];
        assert uids[..i + 1] == uids[..i] + [u];
      }
      assert uids[..|uids|] == uids;
    }
  }

  ghost function WithColumn(perUnit: map<string, Points>, name: Field, column: map<string, real>)
    : map<string, Points>
    requires forall u | u in perUnit :: u in column
  {
    map u | u in perUnit :: perUnit[u][name := column[u]]
  }

  /** Every unit has exactly the points that are not left, at their final values. */
  ghost predicate Filled(perUnit: map<string, Points>, uids: seq<string>, left: set<Field>, m: Message,
                         sharing: Sharing)
    requires uids != []
  {
    && perUnit.Keys == (set u | u in uids)
    && forall u | u in uids ::
         perUnit[u] == map n | n in m.setpoints && n !in left :: UnitValue(m, sharing, |uids|, u, n)
  }

  lemma FilledNone(uids: seq<string>, m: Message, sharing: Sharing)
    requires uids != []
    ensures Filled(map u | u in uids :: map[], uids, m.setpoints.Keys, m, sharing)
  {
    hide UnitValue;
  }

  lemma FillOne(perUnit: map<string, Points>, uids: seq<string>, left: set<Field>, m: Message,
                sharing: Sharing, name: Field, column: map<string, real>)
    requires uids != [] && name in m.setpoints && name in left
    requires Filled(perUnit, uids, left, m, sharing)
    requires forall u | u in uids :: u in column && column[u] == UnitValue(m, sharing, |uids|, u, name)
    ensures perUnit.Keys == (set u | u in uids)
    ensures Filled(WithColumn(perUnit, name, column), uids, left - {name}, m, sharing)
  {
    hide UnitValue;
    var next := WithColumn(perUnit, name, column);
    forall u | u in uids
      ensures next[u] == map n | n in m.setpoints && n !in left - {name} :: UnitValue(m, sharing, |uids|, u, n)
    {
      assert next[u] == perUnit[u][name := column[u]];
    }
  }

  lemma FilledAll(perUnit: map<string, Points>, uids: seq<string>, m: Message, limits: map<string, UnitLimits>)
    requires uids != [] && Filled(perUnit, uids, {}, m, SharingOf(m, uids, limits))
    ensures perUnit == Written(m, uids, limits)
  {
    hide UnitValue, SharingOf;
    forall u | u in uids ensures perUnit[u] == Written(m, uids, limits)[u] {}
  }

  lemma SharedColumn(m: Message, uids: seq<string>, limits: map<string, UnitLimits>)
    requires uids != [] && m.assetClass == Battery && ActivePower in m.setpoints
    ensures var sharing := SharingOf(m, uids, limits);
      forall u | u in uids :: u in sharing.shares && sharing.shares[u] == UnitValue(m, sharing, |uids|, u, ActivePower)
  {
    SharesConserve(m.setpoints[ActivePower], uids, LimitsOf(uids, limits));
    hide ShareBatteryPower;
  }

  lemma SharingOfBattery(m: Message, uids: seq<string>, limits: map<string, UnitLimits>)
    requires m.assetClass == Battery && ActivePower in m.setpoints
    ensures SharingOf(m, uids, limits) == ShareBatteryPower(m.setpoints[ActivePower], uids, LimitsOf(uids, limits))
  {
    hide ShareBatteryPower, LimitsOf;
  }

  lemma ReactiveColumn(m: Message, uids: seq<string>, sharing: Sharing)
    requires uids != [] && ReactivePower in m.setpoints
    ensures forall u | u in uids ::
      UnitValue(m, sharing, |uids|, u, ReactivePower) == EqualPart(m.setpoints[ReactivePower], |uids|)
  {
    hide EqualPart;
  }

  lemma BroadcastColumn(m: Message, uids: seq<string>, sharing: Sharing, name: Field)
    requires uids != [] && name in m.setpoints && Broadcast(m, name)
    ensures forall u | u in uids :: UnitValue(m, sharing, |uids|, u, name) == m.setpoints[name]
  {}

  predicate Broadcast(m: Message, name: Field) {
    !(m.assetClass == Battery && name == ActivePower) && name != ReactivePower
  }

  lemma Shrinks(m: Points, k: Field)
    requires k in m
    ensures m.Keys == (m - {k}).Keys + {k} && |m| == |m - {k}| + 1
  {
    assert m.Keys == (m - {k}).Keys + {k};
    assert |m| == |m.Keys| && |m - {k}| == |(m - {k}).Keys|;
  }

  // ------------------------------------------------------------ what an accepted message does

  /** Everything that must hold of a payload for its number to be taken. */
  ghost predicate Admissible(c: DispatchConfig, lastSeq: map<AssetClass, int>, payload: Payload, now: real) {
    && payload.Payload? && Conformant(payload.message, c.dm) && payload.message.site == c.site
    && (payload.message.assetClass in lastSeq ==> payload.message.seqNo > lastSeq[payload.message.assetClass])
    && payload.message.ts.Some? && payload.message.ts.value >= now - c.maxAge
  }

  /** A message takes effect exactly when it is admissible and its class has units. Its number is taken
      even without units; any other payload changes nothing. */
  lemma AcceptedExactly(c: DispatchConfig, lastSeq: map<AssetClass, int>, payload: Payload,
                        limits: map<string, UnitLimits>, now: real)
    ensures var (next, r) := Dispatched(c, lastSeq, payload, limits, now);
      && (r.accepted <==> Admissible(c, lastSeq, payload, now)
                          && exists a | a in c.assets :: a.1 == payload.message.assetClass)
      && (if Admissible(c, lastSeq, payload, now)
          then next == lastSeq[payload.message.assetClass := payload.message.seqNo]
          else next == lastSeq)
      && (!r.accepted ==> r.written == map[] && r.leftover == 0.0)
  {
    hide Written, SharingOf, Conformant;
    if payload.Payload? {
      var cls := payload.message.assetClass;
      UnitsExactly(c.assets, cls);
      NumbersNonNegative(payload.message, c.dm);
    }
  }

  /** Which messages take effect, condition by condition: of the configured site and data model version, a
      fresh non-negative number, a timestamp within the age limit, and at least one point, all of them
      outputs of a class that has units. */
  lemma TakesEffectExactly(c: DispatchConfig, lastSeq: map<AssetClass, int>, m: Message,
                           limits: map<string, UnitLimits>, now: real)
    ensures Dispatched(c, lastSeq, Payload(m), limits, now).1.accepted <==>
      && m.version == c.dm.version && m.site == c.site
      && m.seqNo >= 0 && (m.assetClass in lastSeq ==> m.seqNo > lastSeq[m.assetClass])
      && m.ts.Some? && now - m.ts.value <= c.maxAge
      && m.setpoints.Keys != {} && m.assetClass in c.dm.outputs && m.setpoints.Keys <= c.dm.outputs[m.assetClass]
      && exists a | a in c.assets :: a.1 == m.assetClass
  {
    AcceptedExactly(c, lastSeq, Payload(m), limits, now);
    hide Dispatched;
    assert m.setpoints == map[] <==> m.setpoints.Keys == {};
  }

  /** Which refusal is reported: the first of these that applies. */
  lemma RefusalExactly(c: DispatchConfig, lastSeq: map<AssetClass, int>, payload: Payload,
                       limits: map<string, UnitLimits>, now: real)
    ensures var reason := Dispatched(c, lastSeq, payload, limits, now).1.reason;
      && (reason == Some(NonConformant) <==> payload.Malformed? || !Conformant(payload.message, c.dm))
      && (payload.Payload? && Conformant(payload.message, c.dm) ==>
            var m := payload.message;
            var number := if m.assetClass in lastSeq then lastSeq[m.assetClass] else -1;
            && (reason == Some(WrongSite) <==> m.site != c.site)
            && (reason == Some(StaleSeq) <==> m.site == c.site && m.seqNo <= number)
            && (m.site == c.site && m.seqNo > number ==>
                  && (reason == Some(UnparseableTs) <==> m.ts.None?)
                  && (reason == Some(TooOld) <==> m.ts.Some? && now - m.ts.value > c.maxAge)
                  && (m.ts.Some? && now - m.ts.value <= c.maxAge ==>
                        (reason == Some(NoUnits) <==> forall a | a in c.assets :: a.1 != m.assetClass)
                        && (reason == None <==> exists a | a in c.assets :: a.1 == m.assetClass))))
  {
    hide Written, SharingOf, Conformant;
    if payload.Payload? {
      UnitsExactly(c.assets, payload.message.assetClass);
    }
  }

  /** A unit without a reported headroom takes no part of the power. */
  lemma UnreportedTakesNone(m: Message, uids: seq<string>, limits: map<string, UnitLimits>, u: string)
    requires m.assetClass == Battery && ActivePower in m.setpoints && u in uids && u !in limits
    ensures Written(m, uids, limits)[u][ActivePower] == 0.0
  {
    SharesWithinHeadroom(m.setpoints[ActivePower], uids, LimitsOf(uids, limits), u);
    hide ShareBatteryPower;
  }

  lemma NumbersNonNegative(m: Message, dm: DataModel)
    ensures Conformant(m, dm) ==> m.seqNo >= 0
  {}

  lemma UnitsExactly(assets: seq<(string, AssetClass)>, cls: AssetClass)
    ensures UnitsOf(assets, cls) != [] <==> exists a | a in assets :: a.1 == cls
  {
    var us := UnitsOf(assets, cls);
    if us != [] {
      assert us[0] in us;
      assert (us[0], cls) in assets;
    }
    if exists a | a in assets :: a.1 == cls {
      var a :| a in assets && a.1 == cls;
      var i :| 0 <= i < |assets| && assets[i] == a;
      assert assets[i].0 in us;
    }
  }

  /** The commands a report wrote for one point, unit by unit. */
  ghost function Column(written: map<string, Points>, uids: seq<string>, name: Field): seq<real>
    requires forall u | u in uids :: u in written && name in written[u]
  {
    seq(|uids|, i requires 0 <= i < |uids| => written[uids[i]][name])
  }

  /** Conservation across dispatch: the units' active powers and the leftover add up to the commanded
      battery power, the reactive parts add up to the commanded reactive power, every other point
      reaches every unit unchanged, and nothing else is written. */
  lemma DispatchConserves(c: DispatchConfig, lastSeq: map<AssetClass, int>, payload: Payload,
                          limits: map<string, UnitLimits>, now: real)
    requires Dispatched(c, lastSeq, payload, limits, now).1.accepted
    ensures payload.Payload?
    ensures var r, m := Dispatched(c, lastSeq, payload, limits, now).1, payload.message;
      var uids := UnitsOf(c.assets, m.assetClass);
      && r.written.Keys == (set u | u in uids)
      && (forall u | u in uids :: r.written[u].Keys == m.setpoints.Keys)
      && (m.assetClass == Battery && ActivePower in m.setpoints ==>
            Sum(Column(r.written, uids, ActivePower)) + r.leftover == m.setpoints[ActivePower])
      && (ReactivePower in m.setpoints ==> Sum(Column(r.written, uids, ReactivePower)) == m.setpoints[ReactivePower])
      && (forall u, n | u in uids && n in m.setpoints && Broadcast(m, n) :: r.written[u][n] == m.setpoints[n])
  {
    var m := payload.message;
    WrittenConserves(m, UnitsOf(c.assets, m.assetClass), limits);
    hide Written, SharingOf, Guard;
  }

  lemma WrittenConserves(m: Message, uids: seq<string>, limits: map<string, UnitLimits>)
    requires uids != []
    ensures var written, leftover := Written(m, uids, limits), SharingOf(m, uids, limits).leftover;
      && written.Keys == (set u | u in uids)
      && (forall u | u in uids :: written[u].Keys == m.setpoints.Keys)
      && (m.assetClass == Battery && ActivePower in m.setpoints ==>
            Sum(Column(written, uids, ActivePower)) + leftover == m.setpoints[ActivePower])
      && (ReactivePower in m.setpoints ==> Sum(Column(written, uids, ReactivePower)) == m.setpoints[ReactivePower])
      && (forall u, n | u in uids && n in m.setpoints && Broadcast(m, n) :: written[u][n] == m.setpoints[n])
  {
    WrittenShape(m, uids, limits);
    if m.assetClass == Battery && ActivePower in m.setpoints {
      ActiveConserved(m, uids, limits);
    }
    if ReactivePower in m.setpoints {
      ReactiveConserved(m, uids, limits);
    }
    hide Written, SharingOf, UnitValue, Sum, Column;
    forall n | n in m.setpoints && Broadcast(m, n)
      ensures forall u | u in uids :: Written(m, uids, limits)[u][n] == m.setpoints[n]
    {
      BroadcastColumn(m, uids, SharingOf(m, uids, limits), n);
    }
  }

  lemma WrittenShape(m: Message, uids: seq<string>, limits: map<string, UnitLimits>)
    requires uids != []
    ensures Written(m, uids, limits).Keys == (set u | u in uids)
    ensures forall u | u in uids :: Written(m, uids, limits)[u].Keys == m.setpoints.Keys
    ensures forall u, n | u in uids && n in m.setpoints ::
      Written(m, uids, limits)[u][n] == UnitValue(m, SharingOf(m, uids, limits), |uids|, u, n)
  {
    hide UnitValue, SharingOf;
  }

  lemma ActiveConserved(m: Message, uids: seq<string>, limits: map<string, UnitLimits>)
    requires uids != [] && m.assetClass == Battery && ActivePower in m.setpoints
    requires forall u | u in uids :: u in Written(m, uids, limits) && ActivePower in Written(m, uids, limits)[u]
    ensures Sum(Column(Written(m, uids, limits), uids, ActivePower)) + SharingOf(m, uids, limits).leftover
         == m.setpoints[ActivePower]
  {
    hide Written, UnitValue, Sum, ShareBatteryPower, LimitsOf;
    var sharing := SharingOf(m, uids, limits);
    WrittenShape(m, uids, limits);
    SharedColumn(m, uids, limits);
    SharesConserve(m.setpoints[ActivePower], uids, LimitsOf(uids, limits));
    assert forall i | 0 <= i < |uids| :: Written(m, uids, limits)[uids[i]][ActivePower] == sharing.shares[uids[i]];
    assert Column(Written(m, uids, limits), uids, ActivePower) == ValuesOf(uids, sharing.shares);
  }

  lemma ReactiveConserved(m: Message, uids: seq<string>, limits: map<string, UnitLimits>)
    requires uids != [] && ReactivePower in m.setpoints
    requires forall u | u in uids :: u in Written(m, uids, limits) && ReactivePower in Written(m, uids, limits)[u]
    ensures Sum(Column(Written(m, uids, limits), uids, ReactivePower)) == m.setpoints[ReactivePower]
  {
    WrittenShape(m, uids, limits);
    ReactiveColumn(m, uids, SharingOf(m, uids, limits));
    hide Written, UnitValue, Sum, SharingOf, EqualPart;
    EqualParts(Column(Written(m, uids, limits), uids, ReactivePower), m.setpoints[ReactivePower]);
  }

  lemma EqualParts(xs: seq<real>, x: real)
    requires xs != [] && forall i | 0 <= i < |xs| :: xs[i] == EqualPart(x, |xs|)
    ensures Sum(xs) == x
  {
    SumConstant(xs, EqualPart(x, |xs|));
  }
}
