/** Comparing the dump of a device with the dump expected of a map. */
module DumpDiff {
  import opened Common
  import opened Codec
  import opened SunSpecImage
  import opened SunSpecWalk
  import M = RegisterMap

  datatype Issue =
    | NoMarker
    | ModelMissing(position: nat, id: int)
    | ModelExtra(position: nat, id: int)
    | OrderDiffers(position: nat, id: int, deviceId: int)
    | VersionDiffers(id: int, length: int, deviceLength: int)
    | PointMissing(id: int, name: PointName, offset: int)
    | PointType(id: int, name: PointName, offset: int, typ: RegType, deviceTyp: RegType)
    | SfMissing(id: int, name: PointName)
    | SfDiffers(id: int, name: PointName, exponent: int, deviceExponent: int)
    | CanonicalAbsent(point: string, address: int)
    | CanonicalType(point: string, address: int, typ: RegType, deviceTyp: RegType)

  datatype Status = Confirmed | Manual | Mismatch

  datatype EntryNote =
    | VendorPoint | NotOnDevice | TypesDiffer(typ: RegType, deviceTyp: RegType)
    | ExponentsDiffer(name: PointName, exponent: int, deviceExponent: int) | NoLiveRegister

  /** The scale factor reported for a canonical point: of a register, or a constant of the map. */
  datatype SfCheck = LiveSf(name: PointName, exponent: Option<int>, deviceExponent: Option<int>) | FixedSf(value: int)

  datatype Entry = Entry(point: string, address: int, mapType: RegType, status: Status,
                         bound: Option<(int, PointName)>, sf: Option<SfCheck>, notes: seq<EntryNote>)

  /** A formatted exponent that is missing. */
  datatype DiffError = BadFormat

  datatype Report = Report(discrepancies: seq<Issue>, canonical: seq<Entry>)

  /** A point of a register map, by name. */
  type MapPoint = M.Entry

  // ------------------------------------------------------------ indexes

  function ByOffset(points: seq<PointDump>): map<int, PointDump> {
    if points == [] then map[]
    else
      var last := points[|points| - 1];
      ByOffset(points[..|points| - 1])[last.offset := last]
  }

  /** A point and the model it was dumped in. */
  datatype Sited = Sited(model: ModelDump, point: PointDump)

  /** The last point at each address, over the models in order. */
  function IndexedPoints(acc: map<int, Sited>, m: ModelDump, n: nat): map<int, Sited>
    requires n <= |m.points|
  {
    if n == 0 then acc else IndexedPoints(acc, m, n - 1)[m.points[n - 1].address := Sited(m, m.points[n - 1])]
  }

  function Indexed(models: seq<ModelDump>): map<int, Sited> {
    if models == [] then map[]
    else
      var last := models[|models| - 1];
      IndexedPoints(Indexed(models[..|models| - 1]), last, |last.points|)
  }

  method IndexAddresses(models: seq<ModelDump>) returns (index: map<int, Sited>)
    ensures index == Indexed(models)
  {
    index := map[];
    for i := 0 to |models|
      invariant index == Indexed(models[..i])
    {
      var m := models[i];
      assert models[..i + 1][..i] == models[..i];
      for k := 0 to |m.points|
        invariant index == IndexedPoints(Indexed(models[..i]), m, k)
      {
        index := index[m.points[k].address := Sited(m, m.points[k])];
      }
    }
    assert models[..|models|] == models;
  }

  function Find<K, V>(m: map<K, V>, k: K): Option<V> { if k in m then Some(m[k]) else None }

  function FirstModel(models: seq<ModelDump>, id: int): Option<ModelDump> {
    if models == [] then None else if models[0].id == id then Some(models[0]) else FirstModel(models[1..], id)
  }

  function FirstAt(points: seq<PointDump>, address: int): Option<PointDump> {
    if points == [] then None
    else if points[0].address == address then Some(points[0])
    else FirstAt(points[1..], address)
  }

  // ------------------------------------------------------------ model pass

  ghost predicate PointIssue(x: Issue, id: int, p: PointDump, device: map<int, PointDump>) {
    if p.offset !in device then x == PointMissing(id, p.name, p.offset)
    else x == PointType(id, p.name, p.offset, p.typ, device[p.offset].typ) && device[p.offset].typ != p.typ
  }

  ghost predicate SfIssue(x: Issue, id: int, name: PointName, exponent: int, device: ScaleFactors) {
    if name !in device then x == SfMissing(id, name)
    else x == SfDiffers(id, name, exponent, device[name]) && device[name] != exponent
  }

  /** What the comparison of two models with one id reports. */
  ghost predicate ModelIssue(x: Issue, e: ModelDump, d: ModelDump) {
    || (e.headerLength != d.headerLength && x == VersionDiffers(e.id, e.headerLength, d.headerLength))
    || (exists k | 0 <= k < |e.points| :: PointIssue(x, e.id, e.points[k], ByOffset(d.points)))
    || (exists n | n in e.scaleFactors :: SfIssue(x, e.id, n, e.scaleFactors[n], d.scaleFactors))
  }

  ghost predicate PositionIssue(x: Issue, es: seq<ModelDump>, ds: seq<ModelDump>, i: nat)
    requires i < |es| || i < |ds|
  {
    if i >= |ds| then x == ModelMissing(i, es[i].id)
    else if i >= |es| then x == ModelExtra(i, ds[i].id)
    else if es[i].id != ds[i].id then x == OrderDiffers(i, es[i].id, ds[i].id)
    else ModelIssue(x, es[i], ds[i])
  }

  ghost predicate ChainIssue(x: Issue, es: seq<ModelDump>, ds: seq<ModelDump>) {
    exists i: nat | i < |es| || i < |ds| :: PositionIssue(x, es, ds, i)
  }

  method ComparePoints(e: ModelDump, d: ModelDump) returns (issues: seq<Issue>)
    ensures forall x :: x in issues <==> exists k | 0 <= k < |e.points| ::
      PointIssue(x, e.id, e.points[k], ByOffset(d.points))
  {
    hide ByOffset;
    issues := [];
    var device := ByOffset(d.points);
    for i := 0 to |e.points|
      invariant forall x :: x in issues <==> exists k | 0 <= k < i :: PointIssue(x, e.id, e.points[k], device)
    {
      ghost var before := issues;
      var p := e.points[i];
      if p.offset !in device {
        issues := issues + [PointMissing(e.id, p.name, p.offset)];
      } else if device[p.offset].typ != p.typ {
        issues := issues + [PointType(e.id, p.name, p.offset, p.typ, device[p.offset].typ)];
      }
      assert forall x :: x in issues <==> x in before || PointIssue(x, e.id, p, device);
    }
  }

  /** The dictionary's order decides only the order of the issues; it is left open. */
  method CompareSfs(e: ModelDump, d: ModelDump) returns (issues: seq<Issue>)
    ensures forall x ::
      x in issues <==> exists n | n in e.scaleFactors :: SfIssue(x, e.id, n, e.scaleFactors[n], d.scaleFactors)
  {
    issues := [];
    var todo := e.scaleFactors.Keys;
    while todo != {}
      invariant todo <= e.scaleFactors.Keys
      invariant forall x :: x in issues <==>
        exists n | n in e.scaleFactors.Keys - todo :: SfIssue(x, e.id, n, e.scaleFactors[n], d.scaleFactors)
      decreases |todo|
    {
      ghost var before, done := issues, e.scaleFactors.Keys - todo;
      var n :| n in todo;
      todo := todo - {n};
      var exponent := e.scaleFactors[n];
      if n !in d.scaleFactors {
        issues := issues + [SfMissing(e.id, n)];
      } else if d.scaleFactors[n] != exponent {
        issues := issues + [SfDiffers(e.id, n, exponent, d.scaleFactors[n])];
      }
      assert forall x :: x in issues <==> x in before || SfIssue(x, e.id, n, exponent, d.scaleFactors);
      assert e.scaleFactors.Keys - todo == done + {n};
    }
    assert e.scaleFactors.Keys - todo == e.scaleFactors.Keys;
  }

  method CompareModels(es: seq<ModelDump>, ds: seq<ModelDump>) returns (issues: seq<Issue>)
    ensures forall x :: x in issues <==> ChainIssue(x, es, ds)
  {
    issues := [];
    var n := if |es| > |ds| then |es| else |ds|;
    for i := 0 to n
      invariant forall x :: x in issues <==> exists j: nat | j < i :: PositionIssue(x, es, ds, j)
    {
      ghost var before := issues;
      if i >= |ds| {
        issues := issues + [ModelMissing(i, es[i].id)];
      } else if i >= |es| {
        issues := issues + [ModelExtra(i, ds[i].id)];
      } else if es[i].id != ds[i].id {
        issues := issues + [OrderDiffers(i, es[i].id, ds[i].id)];
      } else {
        var points := ComparePoints(es[i], ds[i]);
        var sfs := CompareSfs(es[i], ds[i]);
        if es[i].headerLength != ds[i].headerLength {
          issues := issues + [VersionDiffers(es[i].id, es[i].headerLength, ds[i].headerLength)];
        }
        issues := issues + points + sfs;
        hide PointIssue, SfIssue, ByOffset;
        assert forall x :: x in issues <==> x in before || ModelIssue(x, es[i], ds[i]);
      }
      hide ModelIssue;
      assert forall x :: x in issues <==> x in before || PositionIssue(x, es, ds, i);
    }
  }

  // ------------------------------------------------------------ canonical pass

  /** The live scale factor of a canonical point: looked up by its register's address in the first
      expected model of the point's id, and by its name in the first such model of the device. */
  function LiveCheck(reg: RegisterDef, id: int, es: seq<ModelDump>, ds: seq<ModelDump>): (c: Option<SfCheck>)
    ensures c.Some? ==> reg.sfAddress.Some? && c.value.LiveSf?
  {
    match (reg.sfAddress, FirstModel(es, id))
    case (Some(a), Some(e)) =>
      (match FirstAt(e.points, a)
       case None => None
       case Some(sf) =>
         var device := match FirstModel(ds, id) case Some(d) => Find(d.scaleFactors, sf.name) case None => None;
         Some(LiveSf(sf.name, Find(e.scaleFactors, sf.name), device)))
    case _ => None
  }

  predicate Contradicts(c: Option<SfCheck>) {
    c.Some? && c.value.LiveSf? && c.value.deviceExponent.Some? && c.value.deviceExponent != c.value.exponent
  }

  /** The entry of a canonical point. */
  function EntryFor(p: MapPoint, es: seq<ModelDump>, ds: seq<ModelDump>): Entry {
    var reg, site, device := p.reg, Find(Indexed(es), p.reg.address), Find(Indexed(ds), p.reg.address);
    var blank := Entry(p.name, reg.address, reg.typ, Confirmed, None, None, []);
    if site.None? then blank.(status := Manual, notes := [VendorPoint])
    else
      var id, e := site.value.model.id, blank.(bound := Some((site.value.model.id, site.value.point.name)));
      if device.None? then e.(status := Mismatch, notes := [NotOnDevice])
      else
        var typ, live := device.value.point.typ, LiveCheck(reg, id, es, ds);
        var typed := if typ != reg.typ then [TypesDiffer(reg.typ, typ)] else [];
        var scaled :=
          if Contradicts(live) && live.value.exponent.Some?
          then [ExponentsDiffer(live.value.name, live.value.exponent.value, live.value.deviceExponent.value)]
          else if reg.sfAddress.None? && reg.sfValue.Some? then [NoLiveRegister]
          else [];
        e.(status := if typ != reg.typ || Contradicts(live) then Mismatch else Confirmed,
           sf := if reg.sfAddress.None? && reg.sfValue.Some? then Some(FixedSf(reg.sfValue.value)) else live,
           notes := typed + scaled)
  }

  /** The report cannot print a point whose scale factor only the device has. */
  predicate Unprintable(p: MapPoint, es: seq<ModelDump>, ds: seq<ModelDump>) {
    var site, a := Find(Indexed(es), p.reg.address), p.reg.address;
    && site.Some? && a in Indexed(ds)
    && var live := LiveCheck(p.reg, site.value.model.id, es, ds);
    Contradicts(live) && live.value.exponent.None?
  }

  /** What the canonical pass itself adds to the discrepancies; a scale factor is not among it. */
  ghost predicate CanonicalIssue(x: Issue, p: MapPoint, es: seq<ModelDump>, ds: seq<ModelDump>) {
    var a := p.reg.address;
    && a in Indexed(es)
    && if a !in Indexed(ds) then x == CanonicalAbsent(p.name, a)
       else var typ := Indexed(ds)[a].point.typ; typ != p.reg.typ && x == CanonicalType(p.name, a, p.reg.typ, typ)
  }

  predicate Canonical(p: MapPoint, names: set<string>) { p.name in names }

  function Entries(points: seq<MapPoint>, names: set<string>, es: seq<ModelDump>, ds: seq<ModelDump>): seq<Entry> {
    if points == [] then []
    else
      var last := points[|points| - 1];
      Entries(points[..|points| - 1], names, es, ds) + if Canonical(last, names) then [EntryFor(last, es, ds)] else []
  }

  ghost predicate PointsIssue(x: Issue, points: seq<MapPoint>, names: set<string>, es: seq<ModelDump>,
                              ds: seq<ModelDump>)
  {
    exists i | 0 <= i < |points| :: Canonical(points[i], names) && CanonicalIssue(x, points[i], es, ds)
  }

  ghost predicate SomeUnprintable(points: seq<MapPoint>, names: set<string>, es: seq<ModelDump>, ds: seq<ModelDump>) {
    exists i | 0 <= i < |points| :: Canonical(points[i], names) && Unprintable(points[i], es, ds)
  }

  method CompareCanonical(points: seq<MapPoint>, names: set<string>, es: seq<ModelDump>, ds: seq<ModelDump>)
    returns (r: Result<Report, DiffError>)
    ensures r.Err? <==> SomeUnprintable(points, names, es, ds)
    ensures r.Ok? ==>
      && (forall x :: x in r.value.discrepancies <==> PointsIssue(x, points, names, es, ds))
      && r.value.canonical == Entries(points, names, es, ds)
  {
    hide Indexed, LiveCheck, Contradicts;
    var expected := IndexAddresses(es);
    var device := IndexAddresses(ds);
    var issues, canonical := [], [];
    for i := 0 to |points|
      invariant forall j | 0 <= j < i :: !(Canonical(points[j], names) && Unprintable(points[j], es, ds))
      invariant forall x :: x in issues <==>
        exists j | 0 <= j < i :: Canonical(points[j], names) && CanonicalIssue(x, points[j], es, ds)
      invariant canonical == Entries(points[..i], names, es, ds)
    {
      ghost var before := issues;
      var p := points[i];
      assert points[..i + 1][..i] == points[..i];
      if Canonical(p, names) {
        var entry, added := CompareOne(p, es, ds, expected, device);
        if entry.Err? {
          return Err(BadFormat);
        }
        issues := issues + added;
        canonical := canonical + [entry.value];
      }
      hide CanonicalIssue, Canonical, Unprintable, EntryFor, Entries;
      assert forall x :: x in issues <==> x in before || (Canonical(p, names) && CanonicalIssue(x, p, es, ds));
    }
    assert points[..|points|] == points;
    r := Ok(Report(issues, canonical));
  }

  /** One canonical point: the entry is edited as the checks go. */
  method CompareOne(p: MapPoint, es: seq<ModelDump>, ds: seq<ModelDump>,
                    expected: map<int, Sited>, device: map<int, Sited>)
    returns (r: Result<Entry, DiffError>, issues: seq<Issue>)
    requires expected == Indexed(es) && device == Indexed(ds)
    ensures r.Err? <==> Unprintable(p, es, ds)
    ensures r.Ok? ==> r.value == EntryFor(p, es, ds) && forall x :: x in issues <==> CanonicalIssue(x, p, es, ds)
  {
    hide Indexed, LiveCheck;
    issues := [];
    var reg, a := p.reg, p.reg.address;
    var entry := Entry(p.name, a, reg.typ, Confirmed, None, None, []);
    if a !in expected {
      return Ok(entry.(status := Manual, notes := [VendorPoint])), issues;
    }
    var site := expected[a];
    entry := entry.(bound := Some((site.model.id, site.point.name)));
    if a !in device {
      issues := [CanonicalAbsent(p.name, a)];
      return Ok(entry.(status := Mismatch, notes := [NotOnDevice])), issues;
    }
    var typ := device[a].point.typ;
    if typ != reg.typ {
      entry := entry.(status := Mismatch, notes := [TypesDiffer(reg.typ, typ)]);
      issues := [CanonicalType(p.name, a, reg.typ, typ)];
    }
    if reg.sfAddress.Some? {
      var live := LiveCheck(reg, site.model.id, es, ds);
      entry := entry.(sf := live);
      if Contradicts(live) {
        if live.value.exponent.None? {
          return Err(BadFormat), issues;
        }
        entry := entry.(status := Mismatch,
                        notes := entry.notes + [ExponentsDiffer(live.value.name, live.value.exponent.value,
                                                                live.value.deviceExponent.value)]);
      }
    } else if reg.sfValue.Some? {
      entry := entry.(sf := Some(FixedSf(reg.sfValue.value)), notes := entry.notes + [NoLiveRegister]);
    }
    r := Ok(entry);
  }

  /** The whole comparison: the model pass, then the canonical points. */
  method Diff(device: Dump, markerOk: bool, expected: Dump, points: seq<MapPoint>, names: set<string>)
    returns (r: Result<Report, DiffError>)
    ensures !markerOk ==> r == Ok(Report([NoMarker], []))
    ensures markerOk ==> (r.Err? <==> SomeUnprintable(points, names, expected.models, device.models))
    ensures markerOk && r.Ok? ==>
      && (forall x :: x in r.value.discrepancies <==>
            ChainIssue(x, expected.models, device.models)
              || PointsIssue(x, points, names, expected.models, device.models))
      && r.value.canonical == Entries(points, names, expected.models, device.models)
      && (r.value.discrepancies == [] <==> Clean(expected.models, device.models, points, names))
  {
    if !markerOk {
      return Ok(Report([NoMarker], []));
    }
    var es, ds := expected.models, device.models;
    var issues := CompareModels(es, ds);
    var canonical := CompareCanonical(points, names, es, ds);
    if canonical.Err? {
      return Err(BadFormat);
    }
    var found := canonical.value.discrepancies;
    CleanExactly(es, ds, points, names, issues + found);
    r := Ok(Report(issues + found, canonical.value.canonical));
  }

  // ------------------------------------------------------------ what no discrepancy means

  ghost predicate PointsAgree(e: ModelDump, d: ModelDump) {
    forall k | 0 <= k < |e.points| ::
      e.points[k].offset in ByOffset(d.points) && ByOffset(d.points)[e.points[k].offset].typ == e.points[k].typ
  }

  ghost predicate SfsAgree(e: ModelDump, d: ModelDump) {
    forall n | n in e.scaleFactors :: n in d.scaleFactors && d.scaleFactors[n] == e.scaleFactors[n]
  }

  ghost predicate ModelsAgree(e: ModelDump, d: ModelDump) {
    e.id == d.id && e.headerLength == d.headerLength && PointsAgree(e, d) && SfsAgree(e, d)
  }

  ghost predicate ChainsAgree(es: seq<ModelDump>, ds: seq<ModelDump>) {
    |es| == |ds| && forall i | 0 <= i < |es| :: ModelsAgree(es[i], ds[i])
  }

  /** The device has a point of the map's type wherever a canonical point is a walked one. */
  ghost predicate Typed(p: MapPoint, es: seq<ModelDump>, ds: seq<ModelDump>) {
    p.reg.address in Indexed(es) ==> p.reg.address in Indexed(ds) && Indexed(ds)[p.reg.address].point.typ == p.reg.typ
  }

  ghost predicate AllTyped(points: seq<MapPoint>, names: set<string>, es: seq<ModelDump>, ds: seq<ModelDump>) {
    forall i | 0 <= i < |points| && Canonical(points[i], names) :: Typed(points[i], es, ds)
  }

  ghost predicate Clean(es: seq<ModelDump>, ds: seq<ModelDump>, points: seq<MapPoint>, names: set<string>) {
    ChainsAgree(es, ds) && AllTyped(points, names, es, ds)
  }

  lemma ModelCleanExactly(e: ModelDump, d: ModelDump)
    requires e.id == d.id
    ensures ModelsAgree(e, d) <==> forall x :: !ModelIssue(x, e, d)
  {
    var device := ByOffset(d.points);
    hide ByOffset;
    if !ModelsAgree(e, d) {
      if e.headerLength != d.headerLength {
        assert ModelIssue(VersionDiffers(e.id, e.headerLength, d.headerLength), e, d);
      } else if !PointsAgree(e, d) {
        var k :| 0 <= k < |e.points|
          && !(e.points[k].offset in device && device[e.points[k].offset].typ == e.points[k].typ);
        var p := e.points[k];
        var x := if p.offset !in device then PointMissing(e.id, p.name, p.offset)
                 else PointType(e.id, p.name, p.offset, p.typ, device[p.offset].typ);
        assert PointIssue(x, e.id, e.points[k], device);
        assert ModelIssue(x, e, d);
      } else {
        var n :| n in e.scaleFactors && !(n in d.scaleFactors && d.scaleFactors[n] == e.scaleFactors[n]);
        var x := if n !in d.scaleFactors then SfMissing(e.id, n)
                 else SfDiffers(e.id, n, e.scaleFactors[n], d.scaleFactors[n]);
        assert SfIssue(x, e.id, n, e.scaleFactors[n], d.scaleFactors);
        assert ModelIssue(x, e, d);
      }
    }
  }

  lemma ChainCleanExactly(es: seq<ModelDump>, ds: seq<ModelDump>)
    ensures ChainsAgree(es, ds) <==> forall x :: !ChainIssue(x, es, ds)
  {
    hide ModelIssue, ModelsAgree, PositionIssue;
    if forall x :: !ChainIssue(x, es, ds) {
      if |es| > |ds| {
        NoIssueAt(es, ds, |ds|);
      } else if |ds| > |es| {
        NoIssueAt(es, ds, |es|);
      }
      forall i | 0 <= i < |es| ensures ModelsAgree(es[i], ds[i]) {
        NoIssueAt(es, ds, i);
      }
    } else {
      var x :| ChainIssue(x, es, ds);
      var i: nat :| (i < |es| || i < |ds|) && PositionIssue(x, es, ds, i);
      PositionCleanExactly(es, ds, i);
    }
  }

  lemma NoIssueAt(es: seq<ModelDump>, ds: seq<ModelDump>, i: nat)
    requires (forall x :: !ChainIssue(x, es, ds)) && (i < |es| || i < |ds|)
    ensures i < |es| && i < |ds| && ModelsAgree(es[i], ds[i])
  {
    hide PositionIssue, ModelsAgree;
    forall x ensures !PositionIssue(x, es, ds, i) {
      assert !ChainIssue(x, es, ds);
    }
    PositionCleanExactly(es, ds, i);
  }

  lemma PositionCleanExactly(es: seq<ModelDump>, ds: seq<ModelDump>, i: nat)
    requires i < |es| || i < |ds|
    ensures (i < |es| && i < |ds| && ModelsAgree(es[i], ds[i])) <==> forall x :: !PositionIssue(x, es, ds, i)
  {
    if i >= |ds| {
      assert PositionIssue(ModelMissing(i, es[i].id), es, ds, i);
    } else if i >= |es| {
      assert PositionIssue(ModelExtra(i, ds[i].id), es, ds, i);
    } else if es[i].id != ds[i].id {
      assert PositionIssue(OrderDiffers(i, es[i].id, ds[i].id), es, ds, i);
    } else {
      ModelCleanExactly(es[i], ds[i]);
      hide ModelIssue, ModelsAgree;
      assert forall x :: PositionIssue(x, es, ds, i) <==> ModelIssue(x, es[i], ds[i]);
    }
  }

  lemma PointsCleanExactly(es: seq<ModelDump>, ds: seq<ModelDump>, points: seq<MapPoint>, names: set<string>)
    ensures AllTyped(points, names, es, ds) <==> forall x :: !PointsIssue(x, points, names, es, ds)
  {
    hide Indexed;
    if !AllTyped(points, names, es, ds) {
      var i :| 0 <= i < |points| && Canonical(points[i], names) && !Typed(points[i], es, ds);
      var p, a := points[i], points[i].reg.address;
      var x := if a !in Indexed(ds) then CanonicalAbsent(p.name, a)
               else CanonicalType(p.name, a, p.reg.typ, Indexed(ds)[a].point.typ);
      assert CanonicalIssue(x, p, es, ds);
      assert PointsIssue(x, points, names, es, ds);
    }
  }

  /** A report without discrepancies is one of dumps that agree. */
  lemma CleanExactly(es: seq<ModelDump>, ds: seq<ModelDump>, points: seq<MapPoint>, names: set<string>, all: seq<Issue>)
    requires forall x :: x in all <==> ChainIssue(x, es, ds) || PointsIssue(x, points, names, es, ds)
    ensures all == [] <==> Clean(es, ds, points, names)
  {
    ChainCleanExactly(es, ds);
    PointsCleanExactly(es, ds, points, names);
    hide ChainIssue, PointsIssue, ChainsAgree, AllTyped;
    if all != [] {
      assert all[0] in all;
    }
  }
}
