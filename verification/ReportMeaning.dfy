/** What the issues and entries of a comparison say about the two dumps, point by point. */
module ReportMeaning {
  import opened Common
  import opened Codec
  import opened SunSpecImage
  import opened SunSpecWalk
  import opened DumpDiff

  // ------------------------------------------------------------ where points are found

  ghost predicate NoneAtOffset(points: seq<PointDump>, offset: int) {
    forall k | 0 <= k < |points| :: points[k].offset != offset
  }

  /** The k-th point is the last of its model at the offset. */
  ghost predicate LastAtOffset(points: seq<PointDump>, k: int, offset: int) {
    0 <= k < |points| && points[k].offset == offset && forall l | k < l < |points| :: points[l].offset != offset
  }

  lemma {:induction false} OffsetLookup(points: seq<PointDump>, offset: int)
    ensures offset !in ByOffset(points) <==> NoneAtOffset(points, offset)
    ensures offset in ByOffset(points) ==> exists k :: LastAtOffset(points, k, offset)
    ensures forall k | LastAtOffset(points, k, offset) ::
      offset in ByOffset(points) && ByOffset(points)[offset] == points[k]
  {
    if points != [] {
      var n := |points| - 1;
      OffsetLookup(points[..n], offset);
      if points[n].offset == offset {
        assert LastAtOffset(points, n, offset);
      } else {
        forall k ensures LastAtOffset(points, k, offset) <==> LastAtOffset(points[..n], k, offset) {}
      }
    }
  }

  /** The k-th point of the i-th model is the last of all at the address. */
  ghost predicate LastAtAddress(models: seq<ModelDump>, i: int, k: int, address: int) {
    && 0 <= i < |models| && LastInModel(models[i].points, k, address)
    && forall j | i < j < |models| :: NoneAtAddress(models[j].points, address)
  }

  ghost predicate LastInModel(points: seq<PointDump>, k: int, address: int) {
    0 <= k < |points| && points[k].address == address && forall l | k < l < |points| :: points[l].address != address
  }

  ghost predicate NoneAtAddress(points: seq<PointDump>, address: int) {
    forall k | 0 <= k < |points| :: points[k].address != address
  }

  ghost predicate Nowhere(models: seq<ModelDump>, address: int) {
    forall i | 0 <= i < |models| :: NoneAtAddress(models[i].points, address)
  }

  lemma {:induction false} ModelLookup(acc: map<int, Sited>, m: ModelDump, n: nat, address: int)
    requires n <= |m.points|
    ensures var index := IndexedPoints(acc, m, n);
      && (NoneAtAddress(m.points[..n], address) ==>
            (address in index <==> address in acc) && (address in acc ==> index[address] == acc[address]))
      && (!NoneAtAddress(m.points[..n], address) ==>
            address in index && exists k :: LastInModel(m.points[..n], k, address))
      && forall k | LastInModel(m.points[..n], k, address) ::
           address in index && index[address] == Sited(m, m.points[k])
  {
    if n > 0 {
      var p := m.points[n - 1];
      ModelLookup(acc, m, n - 1, address);
      assert m.points[..n][..n - 1] == m.points[..n - 1] && m.points[..n][n - 1] == p;
      if p.address == address {
        assert LastInModel(m.points[..n], n - 1, address);
      } else {
        forall k ensures LastInModel(m.points[..n], k, address) <==> LastInModel(m.points[..n - 1], k, address) {}
        assert NoneAtAddress(m.points[..n], address) <==> NoneAtAddress(m.points[..n - 1], address);
        if !NoneAtAddress(m.points[..n - 1], address) {
          var k :| LastInModel(m.points[..n - 1], k, address);
          assert LastInModel(m.points[..n], k, address);
        }
      }
    }
  }

  lemma {:induction false} AddressLookup(models: seq<ModelDump>, address: int)
    ensures address !in Indexed(models) <==> Nowhere(models, address)
    ensures address in Indexed(models) ==> exists i, k :: LastAtAddress(models, i, k, address)
    ensures forall i, k | LastAtAddress(models, i, k, address) ::
      address in Indexed(models) && Indexed(models)[address] == Sited(models[i], models[i].points[k])
  {
    if models != [] {
      var n := |models| - 1;
      var m := models[n];
      AddressLookup(models[..n], address);
      ModelLookup(Indexed(models[..n]), m, |m.points|, address);
      assert m.points[..|m.points|] == m.points;
      hide NoneAtAddress, LastInModel, IndexedPoints;
      LookupStep(models, address);
      if !NoneAtAddress(m.points, address) {
        var k :| LastInModel(m.points, k, address);
        assert LastAtAddress(models, n, k, address);
      } else if address in Indexed(models[..n]) {
        var i, k :| LastAtAddress(models[..n], i, k, address);
        assert LastAtAddress(models, i, k, address);
      }
    }
  }

  lemma LookupStep(models: seq<ModelDump>, address: int)
    requires models != []
    ensures var n := |models| - 1;
      && (NoneAtAddress(models[n].points, address) ==>
            (Nowhere(models, address) <==> Nowhere(models[..n], address))
            && forall i, k :: LastAtAddress(models, i, k, address) <==> LastAtAddress(models[..n], i, k, address))
      && (!NoneAtAddress(models[n].points, address) ==>
            !Nowhere(models, address)
            && forall i, k :: LastAtAddress(models, i, k, address)
                 <==> i == n && LastInModel(models[n].points, k, address))
  {
    var n := |models| - 1;
    hide NoneAtAddress;
    if NoneAtAddress(models[n].points, address) {
      NoneIsLast(models[n].points, address);
      assert forall i | 0 <= i < n :: models[..n][i] == models[i];
    }
  }

  lemma NoneIsLast(points: seq<PointDump>, address: int)
    requires NoneAtAddress(points, address)
    ensures forall k :: !LastInModel(points, k, address)
  {}

  // ------------------------------------------------------------ the model pass

  ghost predicate PointHere(points: seq<PointDump>, k: int, name: PointName, offset: int) {
    0 <= k < |points| && points[k].name == name && points[k].offset == offset
  }

  /** A point of the expected model that the device does not have at its offset. */
  ghost predicate Unanswered(e: ModelDump, d: ModelDump, name: PointName, offset: int) {
    NoneAtOffset(d.points, offset) && exists k :: PointHere(e.points, k, name, offset)
  }

  /** A point of the expected model that is another type on the device. */
  ghost predicate Retyped(e: ModelDump, d: ModelDump, name: PointName, offset: int, typ: RegType, deviceTyp: RegType) {
    && typ != deviceTyp
    && (exists k :: PointHere(e.points, k, name, offset) && e.points[k].typ == typ)
    && exists l :: LastAtOffset(d.points, l, offset) && d.points[l].typ == deviceTyp
  }

  /** What an issue says of the models at one position that have the same id. */
  ghost predicate ModelSays(x: Issue, e: ModelDump, d: ModelDump) {
    match x
    case VersionDiffers(id, length, deviceLength) =>
      id == e.id && length == e.headerLength && deviceLength == d.headerLength && length != deviceLength
    case PointMissing(id, name, offset) => id == e.id && Unanswered(e, d, name, offset)
    case PointType(id, name, offset, typ, deviceTyp) => id == e.id && Retyped(e, d, name, offset, typ, deviceTyp)
    case SfMissing(id, name) => id == e.id && name in e.scaleFactors && name !in d.scaleFactors
    case SfDiffers(id, name, exponent, deviceExponent) =>
      && id == e.id && name in e.scaleFactors && e.scaleFactors[name] == exponent
      && name in d.scaleFactors && d.scaleFactors[name] == deviceExponent && exponent != deviceExponent
    case _ => false
  }

  /** What an issue of the model pass says of the chains. */
  ghost predicate ChainSays(x: Issue, es: seq<ModelDump>, ds: seq<ModelDump>) {
    match x
    case ModelMissing(i, id) => |ds| <= i < |es| && es[i].id == id
    case ModelExtra(i, id) => |es| <= i < |ds| && ds[i].id == id
    case OrderDiffers(i, id, deviceId) =>
      i < |es| && i < |ds| && es[i].id == id && ds[i].id == deviceId && id != deviceId
    case _ => exists i :: 0 <= i < |es| && i < |ds| && es[i].id == ds[i].id && ModelSays(x, es[i], ds[i])
  }

  lemma PointsSay(x: Issue, e: ModelDump, d: ModelDump)
    ensures (exists k | 0 <= k < |e.points| :: PointIssue(x, e.id, e.points[k], ByOffset(d.points)))
       <==> (x.PointMissing? || x.PointType?) && ModelSays(x, e, d)
  {
    if exists k | 0 <= k < |e.points| :: PointIssue(x, e.id, e.points[k], ByOffset(d.points)) {
      var k :| 0 <= k < |e.points| && PointIssue(x, e.id, e.points[k], ByOffset(d.points));
      var p := e.points[k];
      OffsetLookup(d.points, p.offset);
      hide ByOffset, NoneAtOffset, LastAtOffset;
      assert PointHere(e.points, k, p.name, p.offset);
    }
    if x.PointMissing? && ModelSays(x, e, d) {
      OffsetLookup(d.points, x.offset);
      hide ByOffset, NoneAtOffset;
      var k :| PointHere(e.points, k, x.name, x.offset);
      assert PointIssue(x, e.id, e.points[k], ByOffset(d.points));
    }
    if x.PointType? && ModelSays(x, e, d) {
      OffsetLookup(d.points, x.offset);
      hide ByOffset, LastAtOffset;
      var k :| PointHere(e.points, k, x.name, x.offset) && e.points[k].typ == x.typ;
      assert PointIssue(x, e.id, e.points[k], ByOffset(d.points));
    }
  }

  lemma ModelIssueMeans(x: Issue, e: ModelDump, d: ModelDump)
    ensures ModelIssue(x, e, d) <==> ModelSays(x, e, d)
  {
    PointsSay(x, e, d);
    hide PointIssue, ByOffset, Unanswered, Retyped;
    if x.SfMissing? && ModelSays(x, e, d) {
      assert SfIssue(x, e.id, x.name, e.scaleFactors[x.name], d.scaleFactors);
    }
    if x.SfDiffers? && ModelSays(x, e, d) {
      assert SfIssue(x, e.id, x.name, e.scaleFactors[x.name], d.scaleFactors);
    }
  }

  /** Every issue of the model pass says what it reports: the position, the ids, the lengths, the point that is
      missing or of another type, the scale factor that is missing or has another exponent. */
  lemma ChainIssueMeans(x: Issue, es: seq<ModelDump>, ds: seq<ModelDump>)
    ensures ChainIssue(x, es, ds) <==> ChainSays(x, es, ds)
  {
    hide ModelIssue, ModelSays;
    forall i | 0 <= i < |es| && i < |ds| ensures ModelIssue(x, es[i], ds[i]) <==> ModelSays(x, es[i], ds[i]) {
      ModelIssueMeans(x, es[i], ds[i]);
    }
    OnlyModelIssues(x, es, ds);
    if ChainIssue(x, es, ds) {
      var i: nat :| (i < |es| || i < |ds|) && PositionIssue(x, es, ds, i);
    }
    if ChainSays(x, es, ds) {
      if x.ModelMissing? || x.ModelExtra? || x.OrderDiffers? {
        assert PositionIssue(x, es, ds, x.position);
      } else {
        var i :| 0 <= i < |es| && i < |ds| && es[i].id == ds[i].id && ModelSays(x, es[i], ds[i]);
        assert PositionIssue(x, es, ds, i);
      }
    }
  }

  lemma OnlyModelIssues(x: Issue, es: seq<ModelDump>, ds: seq<ModelDump>)
    ensures x.ModelMissing? || x.ModelExtra? || x.OrderDiffers? ==> forall e, d :: !ModelSays(x, e, d)
  {}

  // ------------------------------------------------------------ the canonical pass

  /** What an issue of the canonical pass says: a walked point of the map that the device has not, or has with
      another type than the map's, at the address. */
  ghost predicate CanonicalSays(x: Issue, p: MapPoint, es: seq<ModelDump>, ds: seq<ModelDump>) {
    match x
    case CanonicalAbsent(point, address) =>
      point == p.name && address == p.reg.address && !Nowhere(es, address) && Nowhere(ds, address)
    case CanonicalType(point, address, typ, deviceTyp) =>
      && point == p.name && address == p.reg.address && !Nowhere(es, address)
      && typ == p.reg.typ && typ != deviceTyp
      && exists i, k :: LastAtAddress(ds, i, k, address) && ds[i].points[k].typ == deviceTyp
    case _ => false
  }

  lemma CanonicalIssueMeans(x: Issue, p: MapPoint, es: seq<ModelDump>, ds: seq<ModelDump>)
    ensures CanonicalIssue(x, p, es, ds) <==> CanonicalSays(x, p, es, ds)
  {
    AddressLookup(es, p.reg.address);
    AddressLookup(ds, p.reg.address);
    hide Indexed, Nowhere, LastAtAddress;
  }

  /** The scale factor a walked point of the map refers to, found the way the report does: by its address in
      the first expected model of the point's id, and by its name in the first such model of the device. */
  ghost predicate RefersTo(p: MapPoint, id: int, es: seq<ModelDump>, name: PointName, i: int, k: int) {
    && p.reg.sfAddress.Some? && 0 <= i < |es| && es[i].id == id && (forall j | 0 <= j < i :: es[j].id != id)
    && 0 <= k < |es[i].points| && es[i].points[k].address == p.reg.sfAddress.value && es[i].points[k].name == name
    && forall l | 0 <= l < k :: es[i].points[l].address != p.reg.sfAddress.value
  }

  /** The exponent a name has in the first model of an id. */
  ghost function ExponentIn(models: seq<ModelDump>, id: int, name: PointName): Option<int> {
    if models == [] then None
    else if models[0].id != id then ExponentIn(models[1..], id, name)
    else if name in models[0].scaleFactors then Some(models[0].scaleFactors[name])
    else None
  }

  lemma {:induction false} ExponentFound(models: seq<ModelDump>, id: int, name: PointName)
    ensures ExponentIn(models, id, name)
         == match FirstModel(models, id) case Some(m) => Find(m.scaleFactors, name) case None => None
    decreases |models|
  {
    if models != [] && models[0].id != id {
      ExponentFound(models[1..], id, name);
    }
  }

  lemma {:induction false} FirstModelAt(models: seq<ModelDump>, id: int, i: int)
    requires 0 <= i < |models| && models[i].id == id && forall j | 0 <= j < i :: models[j].id != id
    ensures FirstModel(models, id) == Some(models[i])
    decreases |models|
  {
    if i > 0 {
      assert models[0].id != id;
      forall j | 0 <= j < i - 1 ensures models[1..][j].id != id { assert models[1..][j] == models[j + 1]; }
      FirstModelAt(models[1..], id, i - 1);
    }
  }

  lemma {:induction false} FirstPointAt(points: seq<PointDump>, address: int, k: int)
    requires 0 <= k < |points| && points[k].address == address && forall l | 0 <= l < k :: points[l].address != address
    ensures FirstAt(points, address) == Some(points[k])
    decreases |points|
  {
    if k > 0 {
      assert points[0].address != address;
      forall l | 0 <= l < k - 1 ensures points[1..][l].address != address { assert points[1..][l] == points[l + 1]; }
      FirstPointAt(points[1..], address, k - 1);
    }
  }

  lemma LiveCheckMeans(p: MapPoint, id: int, es: seq<ModelDump>, ds: seq<ModelDump>, name: PointName, i: int, k: int)
    requires RefersTo(p, id, es, name, i, k)
    ensures LiveCheck(p.reg, id, es, ds) == Some(LiveSf(name, ExponentIn(es, id, name), ExponentIn(ds, id, name)))
  {
    FirstModelAt(es, id, i);
    FirstPointAt(es[i].points, p.reg.sfAddress.value, k);
    ExponentFound(es, id, name);
    ExponentFound(ds, id, name);
    hide FirstModel, FirstAt, ExponentIn;
  }

  /** The entry of a map point no expected point answers: a vendor point for the manual check. */
  lemma VendorEntry(p: MapPoint, es: seq<ModelDump>, ds: seq<ModelDump>)
    ensures EntryFor(p, es, ds).status == Manual <==> Nowhere(es, p.reg.address)
    ensures Nowhere(es, p.reg.address) ==>
      EntryFor(p, es, ds) == Entry(p.name, p.reg.address, p.reg.typ, Manual, None, None, [VendorPoint])
  {
    AddressLookup(es, p.reg.address);
    hide Indexed, Nowhere, LiveCheck, LastAtAddress;
  }

  /** Of one the device does not have. */
  lemma AbsentEntry(p: MapPoint, es: seq<ModelDump>, ds: seq<ModelDump>, i: int, k: int)
    requires LastAtAddress(es, i, k, p.reg.address) && Nowhere(ds, p.reg.address)
    ensures var bound := Some((es[i].id, es[i].points[k].name));
      EntryFor(p, es, ds) == Entry(p.name, p.reg.address, p.reg.typ, Mismatch, bound, None, [NotOnDevice])
  {
    AddressLookup(es, p.reg.address);
    AddressLookup(ds, p.reg.address);
    hide Indexed, Nowhere, LiveCheck, LastAtAddress;
  }

  /** Of one that both have: bound to the expected point, with a note when the types differ, then one on its
      scale factor; a mismatch exactly when the types differ or the device contradicts the exponent. */
  lemma FoundEntry(p: MapPoint, es: seq<ModelDump>, ds: seq<ModelDump>, i: int, k: int, j: int, l: int)
    requires LastAtAddress(es, i, k, p.reg.address) && LastAtAddress(ds, j, l, p.reg.address)
    ensures var e, typ := EntryFor(p, es, ds), ds[j].points[l].typ;
      && e.(status := Confirmed, sf := None, notes := [])
         == Entry(p.name, p.reg.address, p.reg.typ, Confirmed, Some((es[i].id, es[i].points[k].name)), None, [])
      && (TypesDiffer(p.reg.typ, typ) in e.notes <==> typ != p.reg.typ)
      && (NoLiveRegister in e.notes <==> p.reg.sfAddress.None? && p.reg.sfValue.Some?)
      && (p.reg.sfAddress.None? ==>
            && e.sf == (if p.reg.sfValue.Some? then Some(FixedSf(p.reg.sfValue.value)) else None)
            && e.status == if typ != p.reg.typ then Mismatch else Confirmed)
  {
    AddressLookup(es, p.reg.address);
    AddressLookup(ds, p.reg.address);
    hide Indexed, LastAtAddress, Nowhere;
  }

  lemma ScaledEntry(p: MapPoint, es: seq<ModelDump>, ds: seq<ModelDump>, i: int, k: int, j: int, l: int,
                    name: PointName, m: int, n: int)
    requires LastAtAddress(es, i, k, p.reg.address) && LastAtAddress(ds, j, l, p.reg.address)
    requires RefersTo(p, es[i].id, es, name, m, n)
    ensures var e, typ := EntryFor(p, es, ds), ds[j].points[l].typ;
      var x, y := ExponentIn(es, es[i].id, name), ExponentIn(ds, es[i].id, name);
      && e.sf == Some(LiveSf(name, x, y))
      && (e.status == Confirmed <==> typ == p.reg.typ && (y == None || x == y))
      && (Unprintable(p, es, ds) <==> x == None && y.Some?)
      && (x.Some? && y.Some? ==> (ExponentsDiffer(name, x.value, y.value) in e.notes <==> x != y))
  {
    AddressLookup(es, p.reg.address);
    AddressLookup(ds, p.reg.address);
    LiveCheckMeans(p, es[i].id, es, ds, name, m, n);
    hide Indexed, LastAtAddress, Nowhere, LiveCheck, ExponentIn, RefersTo;
  }

  ghost function CountCanonical(points: seq<MapPoint>, names: set<string>): nat {
    if points == [] then 0
    else CountCanonical(points[..|points| - 1], names) + if Canonical(points[|points| - 1], names) then 1 else 0
  }

  /** The report has one entry per point of the data model, in the order of the map. */
  lemma {:induction false} EntriesInOrder(points: seq<MapPoint>, names: set<string>, es: seq<ModelDump>,
                                          ds: seq<ModelDump>, i: nat)
    requires i < |points| && points[i].name in names
    ensures var at, entries := CountCanonical(points[..i], names), Entries(points, names, es, ds);
      at < |entries| == CountCanonical(points, names) && entries[at] == EntryFor(points[i], es, ds)
  {
    hide EntryFor;
    var n := |points| - 1;
    EntriesCounted(points[..n], names, es, ds);
    EntriesCounted(points, names, es, ds);
    if i < n {
      assert points[..n][..i] == points[..i];
      EntriesInOrder(points[..n], names, es, ds, i);
    }
  }

  lemma {:induction false} EntriesCounted(points: seq<MapPoint>, names: set<string>, es: seq<ModelDump>,
                                          ds: seq<ModelDump>)
    ensures |Entries(points, names, es, ds)| == CountCanonical(points, names)
  {
    hide EntryFor;
    if points != [] {
      EntriesCounted(points[..|points| - 1], names, es, ds);
    }
  }
}
