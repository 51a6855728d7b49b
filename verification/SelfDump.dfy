/** The self-dump of a generated map, end to end: generate, emit, load, serve, walk, compare. */
module SelfDump {
  import opened Common
  import opened Codec
  import opened SunSpecImage
  import opened SunSpecWalk
  import opened GeneratedMap
  import opened GeneratedDevice
  import opened DumpDiff
  import DS = DiffSoundness
  import M = RegisterMap

  // ------------------------------------------------------------ a map that makes a device

  lemma {:induction false} TilesAbove(regs: seq<Reg>, lo: int, hi: int, i: nat)
    requires Tiles(regs, lo, hi) && i < |regs|
    ensures lo <= regs[i].addr
  {
    if i > 0 {
      TilesAbove(regs[1..], lo + regs[0].size, hi, i - 1);
    }
  }

  /** A map emitted with distinct names makes a device. */
  lemma EmittedIsServable(es: seq<M.Entry>, regs: seq<Reg>, hi: int)
    requires Emitted(es, regs) && SizesMatch(regs) && Tiles(regs, BASE, hi) && NamesDistinct(es) && es != []
    ensures M.Servable(es)
  {
    EmittedEntriesFor(es, regs);
    TiledAreDisjoint(es, regs, BASE, hi);
    forall i | 0 <= i < |es| ensures HasWidth(es[i].reg) && Width(es[i].reg) >= 0 && HOLDING_BASE <= es[i].reg.address {
      TilesAbove(regs, BASE, hi, i);
    }
    hide Tiles, SizesMatch;
    forall e | e in es && e.reg.sfAddress.Some?
      ensures HOLDING_BASE <= e.reg.sfAddress.value < HOLDING_BASE + M.BlockSize(es)
    {
      var i :| 0 <= i < |es| && es[i] == e;
      assert EmittedAs(es[i], regs[i], regs);
      var q :| q in regs && q.addr == e.reg.sfAddress.value;
      var j :| 0 <= j < |regs| && regs[j] == q;
      assert es[j] in es;
    }
  }

  // ------------------------------------------------------------ the self-dump

  /** Bindings that the generator makes: canonical names used for one register each and for nothing
      else, data or vendor registers only. */
  ghost predicate Bindings(canon: Canon, regs: seq<Reg>) {
    CanonFits(canon, regs) && OthersDistinct(Emission(regs, canon), regs)
  }

  /** What a generated map needs to be dumped: models with numbers and distinct point names, none of
      them repeated, no empty register. */
  ghost predicate Dumpable(cat: Catalog, sf: ScaleFactors, chain: seq<int>, vendor: seq<Vendor>) {
    && ValidChain(cat, sf, chain) && VendorTyped(vendor) && ProperChain(cat, chain) && DistinctModels(chain)
    && NoEmptyRegs(ImageRegs(cat, sf, chain, vendor))
  }

  /** Builds the image, emits and loads its map, makes a device of it and walks the device: the dump is
      the generated chain. */
  method DumpFromMap(cat: Catalog, sf: ScaleFactors, chain: seq<int>, vendor: seq<Vendor>, canon: Canon, limit: nat)
    returns (r: Result<Dump, WalkError>)
    requires Dumpable(cat, sf, chain, vendor) && |chain| < limit
    requires Bindings(canon, ImageRegs(cat, sf, chain, vendor))
    ensures r == Ok(ExpectedDump(cat, sf, chain))
  {
    hide *;
    DumpableParts(cat, sf, chain, vendor);
    var regs := Build(cat, sf, chain, vendor);
    var es := Emit(regs, canon);
    var loaded := Loaded(es);
    EmissionReady(cat, sf, chain, vendor, canon);
    var device := new M.SimulatedDevice(loaded);
    var block := device.block[..];
    IsDeviceBlock(block, loaded);
    r := Walk(MemoryOf(block), cat, BASE, limit);
    DistinctWalks(cat, sf, chain, vendor, es, block, limit);
  }

  lemma IsDeviceBlock(block: seq<int>, es: seq<M.Entry>)
    requires AreWords(block) && M.Serves(block, es) && M.ZeroElsewhere(block, es)
    ensures DeviceBlock(block, es)
  {}

  lemma DumpableParts(cat: Catalog, sf: ScaleFactors, chain: seq<int>, vendor: seq<Vendor>)
    requires Dumpable(cat, sf, chain, vendor)
    ensures ValidChain(cat, sf, chain) && VendorTyped(vendor) && ProperChain(cat, chain) && DistinctModels(chain)
    ensures Buildable(cat, sf, chain) && NoEmptyRegs(ImageRegs(cat, sf, chain, vendor))
    ensures forall i | 0 <= i < |chain| :: chain[i] in cat
  {}

  /** What is emitted loads as it is and makes a device. */
  lemma EmissionReady(cat: Catalog, sf: ScaleFactors, chain: seq<int>, vendor: seq<Vendor>, canon: Canon)
    requires Dumpable(cat, sf, chain, vendor) && Bindings(canon, ImageRegs(cat, sf, chain, vendor))
    ensures var regs := ImageRegs(cat, sf, chain, vendor);
      var es := Emission(regs, canon);
      && Emitted(es, regs) && SizesMatch(regs) && OthersDistinct(es, regs)
      && NamesDistinct(es) && Loaded(es) == es && M.Servable(es)
  {
    hide *;
    DumpableParts(cat, sf, chain, vendor);
    var regs := ImageRegs(cat, sf, chain, vendor);
    var es, hi := Emission(regs, canon), BASE + 4 + ChainSize(cat, chain) + VendorSize(vendor);
    BindingsParts(canon, regs);
    ImageTiles(cat, sf, chain, vendor);
    ImageSizes(cat, sf, chain, vendor);
    EmissionFits(regs, canon, BASE, hi, |regs|);
    assert regs[..|regs|] == regs;
    IsEmitted(es, regs);
    DistinctChainDistinctNames(cat, sf, chain, vendor, es);
    LoadedIs(es);
    ChainWithin(cat, sf, chain, vendor);
    EmittedIsServable(es, regs, hi);
  }

  /** The data model's points are bound to registers that allow their direction, and no image register has
      the name of one. */
  ghost predicate BoundRightly(es: seq<M.Entry>, regs: seq<Reg>, canonical: map<string, M.Direction>) {
    && |es| == |regs|
    && forall i | 0 <= i < |es| ::
         if es[i] == RawEntry(regs[i]) then es[i].name !in canonical
         else es[i].name in canonical && M.Directed(es[i].reg, canonical[es[i].name])
  }

  /** What is emitted passes the loader's check: image registers have a role, no two entries overlap. */
  lemma EmissionLoads(cat: Catalog, sf: ScaleFactors, chain: seq<int>, vendor: seq<Vendor>, canon: Canon,
                      canonical: map<string, M.Direction>)
    requires Dumpable(cat, sf, chain, vendor) && Bindings(canon, ImageRegs(cat, sf, chain, vendor))
    requires var regs := ImageRegs(cat, sf, chain, vendor); BoundRightly(Emission(regs, canon), regs, canonical)
    ensures M.ValidEntries(Emission(ImageRegs(cat, sf, chain, vendor), canon), canonical)
  {
    hide *;
    DumpableParts(cat, sf, chain, vendor);
    EmissionReady(cat, sf, chain, vendor, canon);
    RightlyBoundLoads(Emission(ImageRegs(cat, sf, chain, vendor), canon), ImageRegs(cat, sf, chain, vendor), canonical);
  }

  lemma RightlyBoundLoads(es: seq<M.Entry>, regs: seq<Reg>, canonical: map<string, M.Direction>)
    requires M.Servable(es) && BoundRightly(es, regs, canonical)
    ensures M.ValidEntries(es, canonical)
  {
    hide M.Disjoint, M.BlockSize, NameOf;
  }

  lemma BindingsParts(canon: Canon, regs: seq<Reg>)
    requires Bindings(canon, regs)
    ensures CanonFits(canon, regs) && OthersDistinct(Emission(regs, canon), regs)
  {}

  lemma IsEmitted(es: seq<M.Entry>, regs: seq<Reg>)
    requires |es| == |regs| && forall i | 0 <= i < |es| :: EmittedAs(es[i], regs[i], regs)
    ensures Emitted(es, regs)
  {}

  // ------------------------------------------------------------ and its comparison

  /** Only entries of bound registers carry names of the data model. */
  ghost predicate BoundOnly(es: seq<M.Entry>, regs: seq<Reg>, names: set<string>) {
    && |es| == |regs|
    && forall i | 0 <= i < |es| && es[i].name in names :: regs[i].role == Data || regs[i].role == Extension
  }

  lemma EmittedIsGenerated(cat: Catalog, sf: ScaleFactors, chain: seq<int>, vendor: seq<Vendor>, es: seq<M.Entry>,
                           names: set<string>)
    requires Buildable(cat, sf, chain) && VendorTyped(vendor)
    requires var regs := ImageRegs(cat, sf, chain, vendor); Emitted(es, regs) && BoundOnly(es, regs, names)
    ensures DS.Generated(es, names, cat, sf, chain)
  {
    hide *;
    var regs := ImageRegs(cat, sf, chain, vendor);
    EmittedCount(es, regs);
    forall i | 0 <= i < |es| && Canonical(es[i], names)
      ensures DS.BoundToChain(es[i], cat, sf, chain) || DS.BoundToVendor(es[i], cat, sf, chain)
    {
      BoundRole(es, regs, names, i);
      EntryKeepsRegister(es[i], regs[i], regs);
      if regs[i].role == Data {
        DataInChain(cat, sf, chain, vendor, es[i], i);
      } else {
        VendorAboveEnd(cat, sf, chain, vendor, es[i], i);
      }
    }
    AllGenerated(es, names, cat, sf, chain);
  }

  lemma BoundRole(es: seq<M.Entry>, regs: seq<Reg>, names: set<string>, i: nat)
    requires BoundOnly(es, regs, names) && i < |es| && Canonical(es[i], names)
    ensures |es| == |regs| && (regs[i].role == Data || regs[i].role == Extension)
  {}

  lemma EntryKeepsRegister(e: M.Entry, r: Reg, regs: seq<Reg>)
    requires EmittedAs(e, r, regs)
    ensures e.reg.address == r.addr && e.reg.typ == r.typ
  {}

  lemma DataInChain(cat: Catalog, sf: ScaleFactors, chain: seq<int>, vendor: seq<Vendor>, e: M.Entry, i: nat)
    requires Buildable(cat, sf, chain) && VendorTyped(vendor) && i < |ImageRegs(cat, sf, chain, vendor)|
    requires var r := ImageRegs(cat, sf, chain, vendor)[i];
      r.role == Data && e.reg.address == r.addr && e.reg.typ == r.typ
    ensures DS.BoundToChain(e, cat, sf, chain)
  {
    hide ImageRegs, ChainRegs;
    ChainWithin(cat, sf, chain, vendor);
    assert ChainRegs(cat, sf, chain, BASE + 2)[i - 2] in ChainRegs(cat, sf, chain, BASE + 2);
  }

  lemma VendorAboveEnd(cat: Catalog, sf: ScaleFactors, chain: seq<int>, vendor: seq<Vendor>, e: M.Entry, i: nat)
    requires Buildable(cat, sf, chain) && VendorTyped(vendor) && i < |ImageRegs(cat, sf, chain, vendor)|
    requires var r := ImageRegs(cat, sf, chain, vendor)[i]; r.role == Extension && e.reg.address == r.addr
    ensures DS.BoundToVendor(e, cat, sf, chain)
  {
    var c, end := ChainRegs(cat, sf, chain, BASE + 2), BASE + 2 + ChainSize(cat, chain);
    ChainWithin(cat, sf, chain, vendor);
    ImageIs(cat, sf, chain, vendor);
    VendorSizes(vendor, end + 2);
    ChainRoles(cat, sf, chain, BASE + 2);
    hide ImageRegs, ChainRegs, VendorRegs, ChainSize, SizesMatch;
    VendorIndex(ImageRegs(cat, sf, chain, vendor), c, VendorRegs(vendor, end + 2), end, i);
  }

  lemma ChainRoles(cat: Catalog, sf: ScaleFactors, chain: seq<int>, addr: int)
    requires Buildable(cat, sf, chain)
    ensures forall k | 0 <= k < |ChainRegs(cat, sf, chain, addr)| :: OfModel(ChainRegs(cat, sf, chain, addr)[k])
  {
    hide ChainRegs, Buildable, StartOf;
    forall k | 0 <= k < |ChainRegs(cat, sf, chain, addr)| ensures OfModel(ChainRegs(cat, sf, chain, addr)[k]) {
      var i, l := ChainRegAt(cat, sf, chain, addr, k);
    }
  }

  lemma AllGenerated(es: seq<M.Entry>, names: set<string>, cat: Catalog, sf: ScaleFactors, chain: seq<int>)
    requires Buildable(cat, sf, chain)
    requires forall i | 0 <= i < |es| && Canonical(es[i], names) ::
      DS.BoundToChain(es[i], cat, sf, chain) || DS.BoundToVendor(es[i], cat, sf, chain)
    ensures DS.Generated(es, names, cat, sf, chain)
  {
    hide DS.BoundToChain, DS.BoundToVendor;
    forall p | p in es && Canonical(p, names)
      ensures DS.BoundToChain(p, cat, sf, chain) || DS.BoundToVendor(p, cat, sf, chain)
    {
      var i :| 0 <= i < |es| && es[i] == p;
    }
  }

  lemma VendorIndex(regs: seq<Reg>, c: seq<Reg>, v: seq<Reg>, end: int, i: nat)
    requires regs == MarkerRegs() + c + EndRegs(end) + v && i < |regs| && regs[i].role == Extension
    requires forall k | 0 <= k < |c| :: OfModel(c[k])
    ensures i >= |c| + 4 && regs[i] == v[i - |c| - 4]
  {
    assert |regs| == |c| + 4 + |v|;
    assert regs[0] == MarkerRegs()[0] && regs[1] == MarkerRegs()[1];
    assert forall k | 2 <= k < 2 + |c| :: regs[k] == c[k - 2];
    assert regs[2 + |c|] == EndRegs(end)[0] && regs[3 + |c|] == EndRegs(end)[1];
  }

  /** The self-dump of a generated map, served by a device of that map, compares clean against the same
      map: every canonical point of the chain is confirmed and every vendor point left to hand. */
  lemma SelfDumpIsClean(cat: Catalog, sf: ScaleFactors, chain: seq<int>, vendor: seq<Vendor>, canon: Canon,
                        block: seq<int>, limit: nat, names: set<string>)
    requires Dumpable(cat, sf, chain, vendor) && |chain| < limit && DS.PositiveWidths(cat)
    requires Bindings(canon, ImageRegs(cat, sf, chain, vendor))
    requires var regs := ImageRegs(cat, sf, chain, vendor);
      BoundOnly(Emission(regs, canon), regs, names) && DeviceBlock(block, Loaded(Emission(regs, canon)))
    ensures WalkFrom(MemoryOf(block), cat, BASE, limit).Ok?
    ensures var ms := WalkFrom(MemoryOf(block), cat, BASE, limit).value.models;
      var es := Loaded(Emission(ImageRegs(cat, sf, chain, vendor), canon));
      && Clean(ms, ms, es, names) && !SomeUnprintable(es, names, ms, ms)
      && forall i | 0 <= i < |es| && Canonical(es[i], names) ::
           EntryFor(es[i], ms, ms).status == if DS.BoundToChain(es[i], cat, sf, chain) then Confirmed else Manual
  {
    hide *;
    DumpableParts(cat, sf, chain, vendor);
    EmissionReady(cat, sf, chain, vendor, canon);
    var regs := ImageRegs(cat, sf, chain, vendor);
    var es := Emission(regs, canon);
    BindingsParts(canon, regs);
    DistinctServes(cat, sf, chain, vendor, es, block);
    EmittedIsGenerated(cat, sf, chain, vendor, es, names);
    DS.GeneratedMapDiffsClean(MemoryOf(block), cat, sf, chain, limit, es, names);
  }
}
