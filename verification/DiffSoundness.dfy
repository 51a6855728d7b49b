/** What a clean comparison of dumps does and does not establish. */
module DiffSoundness {
  import opened Common
  import opened Codec
  import opened SunSpecImage
  import opened SunSpecWalk
  import opened DumpShape
  import opened DumpDiff

  // ------------------------------------------------------------ no mismatch in a clean report

  lemma {:induction false} FirstModelsAgree(es: seq<ModelDump>, ds: seq<ModelDump>, id: int)
    requires ChainsAgree(es, ds)
    ensures FirstModel(es, id).Some? <==> FirstModel(ds, id).Some?
    ensures FirstModel(es, id).Some? ==> ModelsAgree(FirstModel(es, id).value, FirstModel(ds, id).value)
  {
    if es != [] {
      assert ModelsAgree(es[0], ds[0]);
      assert es[0].id == ds[0].id;
      hide ModelsAgree;
      forall i | 0 <= i < |es[1..]| ensures ModelsAgree(es[1..][i], ds[1..][i]) {
        assert ModelsAgree(es[i + 1], ds[i + 1]);
      }
      FirstModelsAgree(es[1..], ds[1..], id);
    }
  }

  /** The two passes agree: the canonical pass does not report a scale factor that contradicts the map,
      but the model pass has, whenever the map's own exponent is known. */
  lemma ContradictionIsReported(p: MapPoint, id: int, es: seq<ModelDump>, ds: seq<ModelDump>)
    requires ChainsAgree(es, ds) && Contradicts(LiveCheck(p.reg, id, es, ds))
    ensures LiveCheck(p.reg, id, es, ds).value.exponent.None?
  {
    FirstModelsAgree(es, ds, id);
    hide ChainsAgree, FirstModel, FirstAt, PointsAgree;
  }

  /** No report without discrepancies has a mismatch: each walked canonical point is confirmed and each
      other one left to manual confirmation. */
  lemma OkMeansNoMismatch(es: seq<ModelDump>, ds: seq<ModelDump>, points: seq<MapPoint>, names: set<string>, i: nat)
    requires Clean(es, ds, points, names) && !SomeUnprintable(points, names, es, ds)
    requires i < |points| && Canonical(points[i], names)
    ensures EntryFor(points[i], es, ds).status == if points[i].reg.address in Indexed(es) then Confirmed else Manual
  {
    var p := points[i];
    assert Typed(p, es, ds) && !Unprintable(p, es, ds);
    hide Indexed, LiveCheck, ChainsAgree;
    if p.reg.address in Indexed(es) {
      var id := Indexed(es)[p.reg.address].model.id;
      if Contradicts(LiveCheck(p.reg, id, es, ds)) {
        ContradictionIsReported(p, id, es, ds);
      }
    }
  }

  // ------------------------------------------------------------ the indexes

  lemma {:induction false} ByOffsetFinds(points: seq<PointDump>, k: nat)
    requires k < |points|
    ensures points[k].offset in ByOffset(points)
  {
    if k < |points| - 1 {
      ByOffsetFinds(points[..|points| - 1], k);
    }
  }

  lemma {:induction false} ByOffsetFrom(points: seq<PointDump>, offset: int) returns (k: nat)
    requires offset in ByOffset(points)
    ensures k < |points| && points[k].offset == offset && ByOffset(points)[offset] == points[k]
  {
    var n := |points| - 1;
    if points[n].offset == offset {
      k := n;
    } else {
      k := ByOffsetFrom(points[..n], offset);
    }
  }

  lemma {:induction false} IndexedPointsIs(acc: map<int, Sited>, m: ModelDump, n: nat, a: int) returns (k: nat)
    requires n <= |m.points|
    ensures a in IndexedPoints(acc, m, n) <==> a in acc || exists j | 0 <= j < n :: m.points[j].address == a
    ensures a in IndexedPoints(acc, m, n) ==>
      (a in acc && IndexedPoints(acc, m, n)[a] == acc[a] && forall j | 0 <= j < n :: m.points[j].address != a)
      || (k < n && m.points[k].address == a && IndexedPoints(acc, m, n)[a] == Sited(m, m.points[k]))
  {
    k := 0;
    if n > 0 {
      if m.points[n - 1].address == a {
        k := n - 1;
      } else {
        k := IndexedPointsIs(acc, m, n - 1, a);
      }
    }
  }

  /** The address index holds exactly the dumped points' addresses. */
  lemma {:induction false} IndexedFinds(models: seq<ModelDump>, i: nat, k: nat)
    requires i < |models| && k < |models[i].points|
    ensures models[i].points[k].address in Indexed(models)
  {
    var n := |models| - 1;
    var a := models[i].points[k].address;
    if i < n {
      IndexedFinds(models[..n], i, k);
    }
    hide Indexed;
    var _ := IndexedPointsIs(Indexed(models[..n]), models[n], |models[n].points|, a);
    IndexedLast(models);
  }

  lemma IndexedLast(models: seq<ModelDump>)
    requires models != []
    ensures var n := |models| - 1; Indexed(models) == IndexedPoints(Indexed(models[..n]), models[n], |models[n].points|)
  {}

  lemma {:induction false} IndexedFrom(models: seq<ModelDump>, a: int) returns (i: nat, k: nat)
    requires a in Indexed(models)
    ensures i < |models| && k < |models[i].points| && models[i].points[k].address == a
    ensures Indexed(models)[a] == Sited(models[i], models[i].points[k])
  {
    var n := |models| - 1;
    var before := Indexed(models[..n]);
    k := IndexedPointsIs(before, models[n], |models[n].points|, a);
    IndexedLast(models);
    i := n;
    if && a in before && Indexed(models)[a] == before[a]
       && forall j | 0 <= j < |models[n].points| :: models[n].points[j].address != a
    {
      i, k := IndexedFrom(models[..n], a);
    }
  }

  // ------------------------------------------------------------ addresses of walked points

  /** No point of the catalog is empty. */
  ghost predicate PositiveWidths(cat: Catalog) {
    forall id | id in cat :: PositivePoints(cat[id])
  }

  ghost predicate PositivePoints(pts: seq<PointSpec>) { forall i | 0 <= i < |pts| :: PointWidth(pts[i]) > 0 }

  /** Laid out points lie between the bounds, at their offset from the base. */
  lemma {:induction false} LayoutBounds(pts: seq<PointSpec>, base: int, at: int, end: int, k: nat)
    requires k < |Layout(pts, base, at, end)|
    ensures var p := Layout(pts, base, at, end)[k]; p.address == base + p.offset && at <= p.address <= end
    ensures PositivePoints(pts) ==> Layout(pts, base, at, end)[k].address < end
  {
    if k > 0 {
      LayoutBounds(pts[1..], base, at + PointWidth(pts[0]), end, k - 1);
      assert PositivePoints(pts) ==> PositivePoints(pts[1..]);
    }
  }

  lemma {:induction false} LayoutIncreases(pts: seq<PointSpec>, base: int, at: int, end: int, j: nat, k: nat)
    requires PositivePoints(pts) && j < k < |Layout(pts, base, at, end)|
    ensures Layout(pts, base, at, end)[j].address < Layout(pts, base, at, end)[k].address
  {
    assert PositivePoints(pts[1..]);
    var next := at + PointWidth(pts[0]);
    if j == 0 {
      LayoutBounds(pts[1..], base, next, end, k - 1);
    } else {
      LayoutIncreases(pts[1..], base, next, end, j - 1, k - 1);
    }
  }

  lemma {:induction false} HeadersIncrease(base: int, models: seq<ModelDump>, cat: Catalog, i: nat, j: nat)
    requires i < j <= |models| && forall m | 0 <= m < |models| :: ShapedAt(base, models, m, cat)
    ensures HeaderAt(base, models, i) + 2 + models[i].headerLength <= HeaderAt(base, models, j)
  {
    hide ShapedModel;
    if i < j - 1 {
      HeadersIncrease(base, models, cat, i, j - 1);
      assert ShapedAt(base, models, j - 1, cat);
      assert models[j - 1].headerLength >= 0 by {
        assert ShapedModel(models[j - 1], cat);
        NonNegative(models[j - 1], cat);
      }
    }
  }

  lemma NonNegative(m: ModelDump, cat: Catalog)
    requires ShapedModel(m, cat)
    ensures m.headerLength >= 0
  {}

  /** A walked point lies in its model's stretch, at its offset. */
  lemma PointLies(m: ModelDump, cat: Catalog, k: nat)
    requires ShapedModel(m, cat) && k < |m.points|
    ensures m.id in cat && m.points[k].address == m.base + m.points[k].offset
    ensures m.base <= m.points[k].address <= m.base + 2 + m.headerLength
    ensures PositiveWidths(cat) ==> m.points[k].address < m.base + 2 + m.headerLength
  {
    hide Layout, PositivePoints;
    LayoutBounds(cat[m.id], m.base, m.base, m.base + 2 + m.headerLength, k);
    assert m.points[k].(value := None) == Layout(cat[m.id], m.base, m.base, m.base + 2 + m.headerLength)[k];
  }

  /** In a dump over a catalog without empty points no two points share an address. */
  lemma AddressesDistinct(d: Dump, cat: Catalog, i: nat, k: nat, j: nat, l: nat)
    requires Shaped(d, cat) && PositiveWidths(cat)
    requires i < |d.models| && k < |d.models[i].points| && j < |d.models| && l < |d.models[j].points|
    requires d.models[i].points[k].address == d.models[j].points[l].address
    ensures i == j && k == l
  {
    var ms := d.models;
    assert ShapedAt(d.base, ms, i, cat) && ShapedAt(d.base, ms, j, cat);
    PointLies(ms[i], cat, k);
    PointLies(ms[j], cat, l);
    hide ShapedModel, HeaderAt;
    if i < j {
      HeadersIncrease(d.base, ms, cat, i, j);
    } else if j < i {
      HeadersIncrease(d.base, ms, cat, j, i);
    } else {
      OffsetsDistinct(ms[i], cat, k, l);
    }
  }

  lemma OffsetsDistinct(m: ModelDump, cat: Catalog, k: nat, l: nat)
    requires ShapedModel(m, cat) && PositiveWidths(cat) && k < |m.points| && l < |m.points|
    requires m.points[k].address == m.points[l].address
    ensures k == l
  {
    var end := m.base + 2 + m.headerLength;
    var layout := Layout(cat[m.id], m.base, m.base, end);
    assert m.points[k].(value := None) == layout[k] && m.points[l].(value := None) == layout[l];
    hide Layout;
    if k < l {
      LayoutIncreases(cat[m.id], m.base, m.base, end, k, l);
    } else if l < k {
      LayoutIncreases(cat[m.id], m.base, m.base, end, l, k);
    }
  }

  // ------------------------------------------------------------ a dump against itself

  /** The map gives every walked point it binds the walked type. */
  ghost predicate MapMatches(points: seq<MapPoint>, names: set<string>, models: seq<ModelDump>) {
    forall p, i, k | p in points && Canonical(p, names) && 0 <= i < |models| && 0 <= k < |models[i].points|
      && models[i].points[k].address == p.reg.address :: models[i].points[k].typ == p.reg.typ
  }

  /** Points of a model at one offset have one type; only an empty point shares its offset. */
  ghost predicate OffsetsTyped(m: ModelDump) {
    forall k, l | 0 <= k < |m.points| && 0 <= l < |m.points| && m.points[k].offset == m.points[l].offset ::
      m.points[k].typ == m.points[l].typ
  }

  lemma AgreesWithItselfExactly(m: ModelDump)
    ensures ModelsAgree(m, m) <==> OffsetsTyped(m)
  {
    hide ByOffset;
    if OffsetsTyped(m) {
      forall k | 0 <= k < |m.points|
        ensures m.points[k].offset in ByOffset(m.points)
          && ByOffset(m.points)[m.points[k].offset].typ == m.points[k].typ
      {
        ByOffsetFinds(m.points, k);
        var l := ByOffsetFrom(m.points, m.points[k].offset);
      }
    }
  }

  /** Comparing any dump at all with itself never fails to print, and finds nothing if and only if no
      two types share an offset and the map has the type indexed at each address it binds. */
  lemma SelfDiffOfAnyDump(ms: seq<ModelDump>, points: seq<MapPoint>, names: set<string>)
    ensures !SomeUnprintable(points, names, ms, ms)
    ensures Clean(ms, ms, points, names) <==>
      (forall i | 0 <= i < |ms| :: OffsetsTyped(ms[i])) && AllTyped(points, names, ms, ms)
  {
    forall i | 0 <= i < |ms| ensures ModelsAgree(ms[i], ms[i]) <==> OffsetsTyped(ms[i]) {
      AgreesWithItselfExactly(ms[i]);
    }
    hide ModelsAgree, AllTyped, Indexed, OffsetsTyped;
  }

  lemma OffsetsTypedWhenPositive(m: ModelDump, cat: Catalog)
    requires ShapedModel(m, cat) && PositiveWidths(cat)
    ensures OffsetsTyped(m)
  {
    hide ShapedModel, PositiveWidths;
    forall k, l | 0 <= k < |m.points| && 0 <= l < |m.points| && m.points[k].offset == m.points[l].offset
      ensures m.points[k].typ == m.points[l].typ
    {
      PointLies(m, cat, k);
      PointLies(m, cat, l);
      OffsetsDistinct(m, cat, k, l);
    }
  }

  lemma IndexedIs(d: Dump, cat: Catalog, i: nat, k: nat)
    requires Shaped(d, cat) && PositiveWidths(cat) && i < |d.models| && k < |d.models[i].points|
    ensures var a := d.models[i].points[k].address;
      a in Indexed(d.models) && Indexed(d.models)[a] == Sited(d.models[i], d.models[i].points[k])
  {
    hide Indexed, Shaped, PositiveWidths;
    IndexedFinds(d.models, i, k);
    var j, l := IndexedFrom(d.models, d.models[i].points[k].address);
    AddressesDistinct(d, cat, i, k, j, l);
  }

  /** Over a catalog without empty points that is: the map's types are those of the walked points it
      binds. */
  lemma SelfDiffExactly(mem: Memory, cat: Catalog, base: int, limit: nat, points: seq<MapPoint>, names: set<string>)
    requires PositiveWidths(cat) && WalkFrom(mem, cat, base, limit).Ok?
    ensures var ms := WalkFrom(mem, cat, base, limit).value.models;
      && !SomeUnprintable(points, names, ms, ms)
      && (Clean(ms, ms, points, names) <==> MapMatches(points, names, ms))
  {
    WalkSound(mem, cat, base, limit);
    hide WalkFrom, GroundedDump;
    var d := WalkFrom(mem, cat, base, limit).value;
    var ms := d.models;
    forall i | 0 <= i < |ms| ensures OffsetsTyped(ms[i]) {
      assert ShapedAt(d.base, ms, i, cat);
      OffsetsTypedWhenPositive(ms[i], cat);
    }
    SelfTyped(d, cat, points, names);
    hide Shaped, PositiveWidths, OffsetsTyped, AllTyped, Clean, MapMatches;
    SelfDiffOfAnyDump(ms, points, names);
  }

  lemma SelfTyped(d: Dump, cat: Catalog, points: seq<MapPoint>, names: set<string>)
    requires Shaped(d, cat) && PositiveWidths(cat)
    ensures AllTyped(points, names, d.models, d.models) <==> MapMatches(points, names, d.models)
  {
    hide Indexed, Shaped, PositiveWidths;
    var ms := d.models;
    if AllTyped(points, names, ms, ms) {
      forall p, i, k | p in points && Canonical(p, names) && 0 <= i < |ms| && 0 <= k < |ms[i].points|
        && ms[i].points[k].address == p.reg.address ensures ms[i].points[k].typ == p.reg.typ
      {
        IndexedIs(d, cat, i, k);
        var n :| 0 <= n < |points| && points[n] == p;
        assert Typed(points[n], ms, ms);
      }
    }
    if MapMatches(points, names, ms) {
      forall n | 0 <= n < |points| && Canonical(points[n], names) ensures Typed(points[n], ms, ms) {
        var p := points[n];
        if p.reg.address in Indexed(ms) {
          var i, k := IndexedFrom(ms, p.reg.address);
        }
      }
    }
  }

  // ------------------------------------------------------------ printing

  lemma {:induction false} FirstModelIs(models: seq<ModelDump>, id: int)
    requires FirstModel(models, id).Some?
    ensures exists i :: 0 <= i < |models| && models[i] == FirstModel(models, id).value
  {
    if models[0].id != id {
      FirstModelIs(models[1..], id);
      var i :| 0 <= i < |models[1..]| && models[1..][i] == FirstModel(models[1..], id).value;
      assert models[i + 1] == models[1..][i];
    }
  }

  lemma {:induction false} FirstAtIs(points: seq<PointDump>, a: int)
    requires FirstAt(points, a).Some?
    ensures exists k :: 0 <= k < |points| && points[k] == FirstAt(points, a).value && points[k].address == a
  {
    if points[0].address != a {
      FirstAtIs(points[1..], a);
      var k :| 0 <= k < |points[1..]| && points[1..][k] == FirstAt(points[1..], a).value && points[1..][k].address == a;
      assert points[k + 1] == points[1..][k];
    }
  }

  /** Against a walked map, whatever the device dump, a report fails to print only if a scale-factor
      address of the map hits a walked point that is not a scale factor. */
  lemma ScaleFactorsPrint(e: Dump, cat: Catalog, ds: seq<ModelDump>, p: MapPoint)
    requires Shaped(e, cat)
    requires forall i, k | 0 <= i < |e.models| && 0 <= k < |e.models[i].points| ::
      p.reg.sfAddress == Some(e.models[i].points[k].address) ==> e.models[i].points[k].typ == SunSsf
    ensures !Unprintable(p, e.models, ds)
  {
    hide Indexed, FirstModel, FirstAt, HeaderAt, Fills;
    var site := Find(Indexed(e.models), p.reg.address);
    if site.Some? && p.reg.sfAddress.Some? && FirstModel(e.models, site.value.model.id).Some? {
      FirstModelIs(e.models, site.value.model.id);
      var m := FirstModel(e.models, site.value.model.id).value;
      var i :| 0 <= i < |e.models| && e.models[i] == m;
      assert ShapedAt(e.base, e.models, i, cat);
      if FirstAt(m.points, p.reg.sfAddress.value).Some? {
        FirstAtIs(m.points, p.reg.sfAddress.value);
        var k :| 0 <= k < |m.points| && m.points[k] == FirstAt(m.points, p.reg.sfAddress.value).value
          && m.points[k].address == p.reg.sfAddress.value;
        assert e.models[i].points[k].typ == SunSsf;
        assert m.points[k].name in SfNames(m.points);
      }
    }
  }

  // ------------------------------------------------------------ generated maps

  /** A canonical entry of the generator: the address and type of a register of the chain, or an
      address of the vendor block behind the end marker. */
  ghost predicate BoundToChain(p: MapPoint, cat: Catalog, sf: ScaleFactors, chain: seq<int>)
    requires Buildable(cat, sf, chain)
  {
    exists r :: r in ChainRegs(cat, sf, chain, BASE + 2) && p.reg.address == r.addr && p.reg.typ == r.typ
  }

  ghost predicate BoundToVendor(p: MapPoint, cat: Catalog, sf: ScaleFactors, chain: seq<int>)
    requires Buildable(cat, sf, chain)
  {
    p.reg.address >= BASE + 4 + ChainSize(cat, chain)
  }

  ghost predicate Generated(points: seq<MapPoint>, names: set<string>, cat: Catalog, sf: ScaleFactors, chain: seq<int>)
    requires Buildable(cat, sf, chain)
  {
    forall p | p in points && Canonical(p, names) :: BoundToChain(p, cat, sf, chain) || BoundToVendor(p, cat, sf, chain)
  }

  lemma {:induction false} EntryAt(regs: seq<Reg>, base: int, k: nat)
    requires k < |regs|
    ensures |EntriesOf(regs, base)| == |regs| && EntriesOf(regs, base)[k] == EntryOf(regs[k], base)
  {
    if k > 0 {
      EntryAt(regs[1..], base, k - 1);
    } else if |regs| > 1 {
      EntryAt(regs[1..], base, 0);
    }
  }

  lemma {:induction false} ChainRegDumped(cat: Catalog, sf: ScaleFactors, chain: seq<int>, at: int, index: nat, r: Reg)
    returns (j: nat, l: nat)
    requires Buildable(cat, sf, chain) && r in ChainRegs(cat, sf, chain, at)
    ensures var ms := ExpectedModels(cat, sf, chain, at, index);
      j < |ms| && l < |ms[j].points| && ms[j].points[l].address == r.addr && ms[j].points[l].typ == r.typ
  {
    hide ModelRegs, ModelLength, SumSizes, Covers, EntriesOf, PublishedSfs;
    var pts := cat[chain[0]];
    var regs := ModelRegs(pts, chain[0], ModelLength(pts), sf, at);
    if r in regs {
      var k :| 0 <= k < |regs| && regs[k] == r;
      EntryAt(regs, at, k);
      j, l := 0, k;
    } else {
      j, l := ChainRegDumped(cat, sf, chain[1..], at + SumSizes(pts), index + 1, r);
      j := j + 1;
    }
  }

  /** Walked addresses stay below the end. */
  lemma BelowEnd(d: Dump, cat: Catalog, i: nat, k: nat)
    requires Shaped(d, cat) && PositiveWidths(cat) && d.endAddress.Some?
    requires i < |d.models| && k < |d.models[i].points|
    ensures d.models[i].points[k].address < d.endAddress.value
  {
    assert ShapedAt(d.base, d.models, i, cat);
    PointLies(d.models[i], cat, k);
    hide ShapedModel, HeaderAt, PositiveWidths;
    HeadersIncrease(d.base, d.models, cat, i, |d.models|);
  }

  lemma GeneratedMatches(d: Dump, cat: Catalog, sf: ScaleFactors, chain: seq<int>, points: seq<MapPoint>,
                         names: set<string>)
    requires Buildable(cat, sf, chain) && Generated(points, names, cat, sf, chain)
    requires Shaped(d, cat) && PositiveWidths(cat)
    requires d.models == ExpectedModels(cat, sf, chain, BASE + 2, 0)
      && d.endAddress == Some(BASE + 2 + ChainSize(cat, chain))
    ensures MapMatches(points, names, d.models)
    ensures forall p | p in points && Canonical(p, names) && BoundToChain(p, cat, sf, chain) ::
      p.reg.address in Indexed(d.models)
    ensures forall p | p in points && Canonical(p, names) && BoundToVendor(p, cat, sf, chain) ::
      p.reg.address !in Indexed(d.models)
  {
    hide Shaped, PositiveWidths, Indexed, ExpectedModels, ChainRegs, Buildable, ChainSize;
    var ms := d.models;
    forall p, i, k | p in points && Canonical(p, names) && 0 <= i < |ms| && 0 <= k < |ms[i].points|
      && ms[i].points[k].address == p.reg.address ensures ms[i].points[k].typ == p.reg.typ
    {
      BelowEnd(d, cat, i, k);
      assert BoundToChain(p, cat, sf, chain);
      var r :| r in ChainRegs(cat, sf, chain, BASE + 2) && p.reg.address == r.addr && p.reg.typ == r.typ;
      var j, l := ChainRegDumped(cat, sf, chain, BASE + 2, 0, r);
      AddressesDistinct(d, cat, i, k, j, l);
    }
    forall p | p in points && Canonical(p, names) && BoundToChain(p, cat, sf, chain)
      ensures p.reg.address in Indexed(ms)
    {
      var r :| r in ChainRegs(cat, sf, chain, BASE + 2) && p.reg.address == r.addr && p.reg.typ == r.typ;
      var j, l := ChainRegDumped(cat, sf, chain, BASE + 2, 0, r);
      IndexedFinds(ms, j, l);
    }
    forall p | p in points && Canonical(p, names) && BoundToVendor(p, cat, sf, chain)
      ensures p.reg.address !in Indexed(ms)
    {
      if p.reg.address in Indexed(ms) {
        var i, k := IndexedFrom(ms, p.reg.address);
        BelowEnd(d, cat, i, k);
      }
    }
  }

  /** End to end: for every catalog and chain the generator can publish, the self-dump of the generated
      map compares clean, with every canonical point of the chain confirmed and every vendor point left
      to manual confirmation. */
  lemma GeneratedMapDiffsClean(mem: Memory, cat: Catalog, sf: ScaleFactors, chain: seq<int>, limit: nat,
                               points: seq<MapPoint>, names: set<string>)
    requires ValidChain(cat, sf, chain) && PositiveWidths(cat)
    requires ServesStructure(mem, Walkable(cat, sf, chain)) && |chain| < limit
    requires Generated(points, names, cat, sf, chain)
    ensures WalkFrom(mem, cat, BASE, limit).Ok?
    ensures var ms := WalkFrom(mem, cat, BASE, limit).value.models;
      && Clean(ms, ms, points, names) && !SomeUnprintable(points, names, ms, ms)
      && forall i | 0 <= i < |points| && Canonical(points[i], names) ::
           EntryFor(points[i], ms, ms).status == if BoundToChain(points[i], cat, sf, chain) then Confirmed else Manual
  {
    hide *;
    WalkInvertsBuild(mem, cat, sf, chain, limit);
    WalkSound(mem, cat, BASE, limit);
    var d := WalkFrom(mem, cat, BASE, limit).value;
    GeneratedMatches(d, cat, sf, chain, points, names);
    SelfDiffExactly(mem, cat, BASE, limit, points, names);
    forall i | 0 <= i < |points| && Canonical(points[i], names)
      ensures EntryFor(points[i], d.models, d.models).status
           == if BoundToChain(points[i], cat, sf, chain) then Confirmed else Manual
    {
      OkMeansNoMismatch(d.models, d.models, points, names, i);
      GeneratedKind(points, names, cat, sf, chain, i);
    }
  }

  lemma GeneratedKind(points: seq<MapPoint>, names: set<string>, cat: Catalog, sf: ScaleFactors, chain: seq<int>,
                      i: nat)
    requires Buildable(cat, sf, chain) && Generated(points, names, cat, sf, chain)
    requires i < |points| && Canonical(points[i], names)
    ensures points[i] in points && (BoundToChain(points[i], cat, sf, chain) || BoundToVendor(points[i], cat, sf, chain))
  {}

  // ------------------------------------------------------------ a device dump that compares clean

  /** The same model, moved. */
  ghost predicate Moved(e: ModelDump, d: ModelDump, shift: int) {
    && e.index == d.index && e.id == d.id && e.headerLength == d.headerLength && e.known == d.known
    && d.base == e.base + shift && e.scaleFactors == d.scaleFactors && MovedPoints(e.points, d.points, shift)
  }

  ghost predicate MovedPoints(e: seq<PointDump>, d: seq<PointDump>, shift: int) {
    && |e| == |d|
    && forall k | 0 <= k < |e| :: d[k].(value := None) == e[k].(value := None, address := e[k].address + shift)
  }

  lemma {:induction false} LayoutMoves(pts: seq<PointSpec>, base: int, at: int, end: int, shift: int)
    ensures MovedPoints(Layout(pts, base, at, end), Layout(pts, base + shift, at + shift, end + shift), shift)
  {
    if pts != [] && at + PointWidth(pts[0]) <= end {
      LayoutMoves(pts[1..], base, at + PointWidth(pts[0]), end, shift);
    }
  }

  lemma {:induction false} HeadersMove(b: int, es: seq<ModelDump>, c: int, ds: seq<ModelDump>, i: nat)
    requires ChainsAgree(es, ds) && i <= |es|
    ensures HeaderAt(c, ds, i) == HeaderAt(b, es, i) + (c - b)
  {
    if i > 0 {
      HeadersMove(b, es, c, ds, i - 1);
      assert ModelsAgree(es[i - 1], ds[i - 1]);
    }
  }

  lemma ModelMoves(e: ModelDump, d: ModelDump, cat: Catalog)
    requires ShapedModel(e, cat) && ShapedModel(d, cat) && ModelsAgree(e, d) && e.index == d.index
    ensures Moved(e, d, d.base - e.base)
  {
    hide PointsAgree, Layout, ByOffset;
    if e.known {
      var shift, end := d.base - e.base, e.base + 2 + e.headerLength;
      var le, ld := Layout(cat[e.id], e.base, e.base, end), Layout(cat[e.id], d.base, d.base, end + shift);
      LayoutMoves(cat[e.id], e.base, e.base, end, shift);
      forall k | 0 <= k < |e.points|
        ensures d.points[k].(value := None) == e.points[k].(value := None, address := e.points[k].address + shift)
      {
        assert e.points[k].(value := None) == le[k] && d.points[k].(value := None) == ld[k];
      }
      SameSfs(e, d);
    }
  }

  lemma SameSfs(e: ModelDump, d: ModelDump)
    requires MovedPoints(e.points, d.points, d.base - e.base) && SfsAgree(e, d)
    requires e.scaleFactors.Keys == SfNames(e.points) && d.scaleFactors.Keys == SfNames(d.points)
    ensures e.scaleFactors == d.scaleFactors
  {
    forall n | n in SfNames(d.points) ensures n in SfNames(e.points) {
      var k :| 0 <= k < |d.points| && d.points[k].typ == SunSsf && d.points[k].name == n;
      assert d.points[k].(value := None)
          == e.points[k].(value := None, address := e.points[k].address + (d.base - e.base));
      assert e.points[k].typ == SunSsf && e.points[k].name == n;
    }
    assert e.scaleFactors.Keys == d.scaleFactors.Keys;
  }

  /** Dumps of one catalog whose chains agree are the same dump up to its base: every model, point
      and scale factor, moved by one distance. */
  lemma CleanMeansMoved(e: Dump, d: Dump, cat: Catalog)
    requires Shaped(e, cat) && Shaped(d, cat) && ChainsAgree(e.models, d.models)
    ensures |e.models| == |d.models| && forall i | 0 <= i < |e.models| ::
      Moved(e.models[i], d.models[i], d.base - e.base)
  {
    hide ModelsAgree, Moved, ShapedModel;
    forall i | 0 <= i < |e.models| ensures Moved(e.models[i], d.models[i], d.base - e.base) {
      assert ShapedAt(e.base, e.models, i, cat) && ShapedAt(d.base, d.models, i, cat);
      HeadersMove(e.base, e.models, d.base, d.models, i);
      assert ModelsAgree(e.models[i], d.models[i]);
      ModelMoves(e.models[i], d.models[i], cat);
    }
  }

  /** One place of the chain: the same model, the same offset in it. */
  ghost predicate SamePlace(x: Sited, y: Sited) {
    x.model.index == y.model.index && x.point.offset == y.point.offset
  }

  /** Two indexes of the same addresses with the same places. */
  ghost predicate SamePlaces(x: map<int, Sited>, y: map<int, Sited>) {
    x.Keys == y.Keys && forall a | a in x :: SamePlace(x[a], y[a])
  }

  lemma {:induction false} PointsIndexAlike(x: map<int, Sited>, y: map<int, Sited>, e: ModelDump, d: ModelDump, n: nat)
    requires SamePlaces(x, y) && Moved(e, d, 0) && n <= |e.points|
    ensures SamePlaces(IndexedPoints(x, e, n), IndexedPoints(y, d, n))
  {
    if n > 0 {
      PointsIndexAlike(x, y, e, d, n - 1);
      assert d.points[n - 1].(value := None) == e.points[n - 1].(value := None, address := e.points[n - 1].address + 0);
    }
  }

  lemma {:induction false} IndexAlike(es: seq<ModelDump>, ds: seq<ModelDump>)
    requires |es| == |ds| && forall i | 0 <= i < |es| :: Moved(es[i], ds[i], 0)
    ensures SamePlaces(Indexed(es), Indexed(ds))
  {
    if es != [] {
      var n := |es| - 1;
      IndexAlike(es[..n], ds[..n]);
      IndexedLast(es);
      IndexedLast(ds);
      hide Indexed, IndexedPoints, SamePlaces;
      PointsIndexAlike(Indexed(es[..n]), Indexed(ds[..n]), es[n], ds[n], |es[n].points|);
    }
  }

  /** An indexed point of a shaped dump sits at its model's base plus its offset. */
  lemma SitesLie(d: Dump, cat: Catalog, a: int) returns (i: nat)
    requires Shaped(d, cat) && a in Indexed(d.models)
    ensures i < |d.models| && Indexed(d.models)[a].model == d.models[i] && d.models[i].index == i
    ensures a == d.models[i].base + Indexed(d.models)[a].point.offset
  {
    hide Indexed, ShapedModel, HeaderAt;
    var k;
    i, k := IndexedFrom(d.models, a);
    assert ShapedAt(d.base, d.models, i, cat);
    PointLies(d.models[i], cat, k);
  }

  /** Exactly when a clean comparison identifies the points: the device's point at an address bound by
      the map is the map's own point if and only if both images start at the same base. The base is not
      compared, so a device whose image is shifted can pass with other points at the bound addresses. */
  lemma CleanIdentifiesExactly(e: Dump, d: Dump, cat: Catalog, a: int)
    requires Shaped(e, cat) && Shaped(d, cat) && ChainsAgree(e.models, d.models)
    requires a in Indexed(e.models) && a in Indexed(d.models)
    ensures SamePlace(Indexed(e.models)[a], Indexed(d.models)[a]) <==> e.base == d.base
  {
    hide Indexed, Shaped, ChainsAgree, MovedPoints;
    CleanMeansMoved(e, d, cat);
    var i := SitesLie(e, cat, a);
    var j := SitesLie(d, cat, a);
    if e.base == d.base {
      IndexAlike(e.models, d.models);
    } else {
      assert Moved(e.models[i], d.models[i], d.base - e.base);
    }
  }

  /** The converse: moved models compare clean. */
  lemma MovedAgree(e: ModelDump, d: ModelDump, cat: Catalog, shift: int)
    requires ShapedModel(d, cat) && PositiveWidths(cat) && Moved(e, d, shift)
    ensures ModelsAgree(e, d)
  {
    hide ByOffset, ShapedModel, PositiveWidths;
    forall k | 0 <= k < |e.points|
      ensures e.points[k].offset in ByOffset(d.points) && ByOffset(d.points)[e.points[k].offset].typ == e.points[k].typ
    {
      assert d.points[k].(value := None) == e.points[k].(value := None, address := e.points[k].address + shift);
      ByOffsetFinds(d.points, k);
      var l := ByOffsetFrom(d.points, d.points[k].offset);
      PointLies(d, cat, k);
      PointLies(d, cat, l);
      OffsetsDistinct(d, cat, k, l);
    }
  }

  ghost function PairCatalog(): Catalog {
    map[1 := [PointSpec(Id, Uint16, 1, None), PointSpec(Length, Uint16, 1, None),
              PointSpec(Named("A"), Uint16, 1, None), PointSpec(Named("B"), Uint16, 1, None)]]
  }

  ghost function PairDump(base: int): Dump {
    var m := ModelDump(0, 1, base + 2, 2, true, Some(2), Some(true),
                       Layout(PairCatalog()[1], base + 2, base + 2, base + 6), map[]);
    Dump(base, [m], Some(base + 6), [])
  }

  lemma PairLayout(base: int)
    ensures var ps := PairDump(base).models[0].points;
      |ps| == 4 && (forall k | 0 <= k < 4 :: ps[k].offset == k && ps[k].address == base + 2 + k && ps[k].typ == Uint16)
    ensures Shaped(PairDump(base), PairCatalog()) && PositiveWidths(PairCatalog())
  {
    var pts, b, end := PairCatalog()[1], base + 2, base + 6;
    assert Layout(pts[4..], b, b + 4, end) == [];
    assert Layout(pts[3..], b, b + 3, end) == [Blank(pts[3], b, b + 3)] by { assert pts[3..][1..] == pts[4..]; }
    assert Layout(pts[2..], b, b + 2, end) == [Blank(pts[2], b, b + 2), Blank(pts[3], b, b + 3)] by {
      assert pts[2..][1..] == pts[3..];
    }
    assert Layout(pts[1..], b, b + 1, end)
      == [Blank(pts[1], b, b + 1), Blank(pts[2], b, b + 2), Blank(pts[3], b, b + 3)] by {
      assert pts[1..][1..] == pts[2..];
    }
    var ps := Layout(pts, b, b, end);
    assert ps == [Blank(pts[0], b, b), Blank(pts[1], b, b + 1), Blank(pts[2], b, b + 2), Blank(pts[3], b, b + 3)];
    assert SfNames(ps) == {};
    assert CatalogBodyLen(pts) == 2 by {
      assert pts[2..][1..] == pts[3..] && pts[3..][1..] == [];
    }
    var d := PairDump(base);
    assert HeaderAt(base, d.models, 1) == HeaderAt(base, d.models, 0) + 4;
    assert ShapedAt(base, d.models, 0, PairCatalog());
  }

  /** A device whose image starts one register early passes the comparison with its canonical point
      confirmed, although the register at that address is another point of the model. */
  lemma ShiftedImagePasses(p: MapPoint)
    requires p.reg.address == 40005 && p.reg.typ == Uint16 && p.reg.sfAddress == None
    ensures var es, ds := PairDump(40001).models, PairDump(40000).models;
      && Clean(es, ds, [p], {p.name}) && EntryFor(p, es, ds).status == Confirmed
      && 40005 in Indexed(es) && 40005 in Indexed(ds) && !SamePlace(Indexed(es)[40005], Indexed(ds)[40005])
  {
    hide *;
    var e, d, cat := PairDump(40001), PairDump(40000), PairCatalog();
    PairLayout(40001);
    PairLayout(40000);
    PairAgrees();
    PairIs(40001);
    PairIs(40000);
    IndexedIs(e, cat, 0, 2);
    IndexedIs(d, cat, 0, 3);
    CleanIdentifiesExactly(e, d, cat, 40005);
    PairEntry(p);
  }

  lemma PairIs(base: int)
    ensures |PairDump(base).models| == 1 && PairDump(base).base == base
  {}

  lemma PairAgrees()
    ensures ChainsAgree(PairDump(40001).models, PairDump(40000).models)
  {
    PairLayout(40001);
    PairLayout(40000);
    LayoutMoves(PairCatalog()[1], 40003, 40003, 40007, -1);
    var e, d := PairDump(40001).models[0], PairDump(40000).models[0];
    assert Moved(e, d, -1);
    assert ShapedAt(40000, PairDump(40000).models, 0, PairCatalog());
    hide Moved, ModelsAgree, PairDump;
    MovedAgree(e, d, PairCatalog(), -1);
  }

  lemma PairEntry(p: MapPoint)
    requires p.reg.address == 40005 && p.reg.typ == Uint16 && p.reg.sfAddress == None
    requires var es, ds := PairDump(40001).models, PairDump(40000).models;
      && ChainsAgree(es, ds) && 40005 in Indexed(es) && 40005 in Indexed(ds) && Indexed(ds)[40005].point.typ == Uint16
    ensures var es, ds := PairDump(40001).models, PairDump(40000).models;
      Clean(es, ds, [p], {p.name}) && EntryFor(p, es, ds).status == Confirmed
  {
    hide Indexed, PairDump, ChainsAgree;
  }

  /** A model with an empty pad in front of a point does not compare clean even with itself. */
  lemma EmptyPointBreaksSelfDiff(base: int, points: seq<MapPoint>, names: set<string>)
    ensures var cat: Catalog :=
        map[1 := [PointSpec(Named("Pad"), Pad, 0, None), PointSpec(Named("A"), Uint16, 1, None)]];
      var m := ModelDump(0, 1, base, 1, true, Some(0), Some(false), Layout(cat[1], base, base, base + 3), map[]);
      ShapedModel(m, cat) && !Clean([m], [m], points, names)
  {
    var cat: Catalog := map[1 := [PointSpec(Named("Pad"), Pad, 0, None), PointSpec(Named("A"), Uint16, 1, None)]];
    var pts := cat[1];
    assert pts[1..][1..] == [] && pts[2..] == [];
    assert Layout(pts[1..], base, base, base + 3) == [Blank(pts[1], base, base)];
    assert Layout(pts, base, base, base + 3) == [Blank(pts[0], base, base), Blank(pts[1], base, base)];
    var m := ModelDump(0, 1, base, 1, true, Some(0), Some(false), Layout(pts, base, base, base + 3), map[]);
    assert SfNames(m.points) == {};
    assert m.points[0].offset == m.points[1].offset && m.points[0].typ != m.points[1].typ;
    assert !OffsetsTyped([m][0]);
    hide Clean, Layout, OffsetsTyped;
    SelfDiffOfAnyDump([m], points, names);
  }
}
