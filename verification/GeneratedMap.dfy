/** A generated image as a register map: the loader's overlap check passes on every one of them. */
module GeneratedMap {
  import opened Codec
  import opened SunSpecImage
  import M = RegisterMap

  /** The registers fill lo up to hi in order, without a hole or an overlap. */
  ghost predicate Tiles(regs: seq<Reg>, lo: int, hi: int) {
    if regs == [] then lo == hi
    else regs[0].addr == lo && Tiles(regs[1..], lo + regs[0].size, hi)
  }

  lemma {:induction false} TilesConcat(a: seq<Reg>, b: seq<Reg>, lo: int, mid: int, hi: int)
    requires Tiles(a, lo, mid) && Tiles(b, mid, hi)
    ensures Tiles(a + b, lo, hi)
    decreases |a|
  {
    if a == [] {
      assert a + b == b;
    } else {
      assert (a + b)[1..] == a[1..] + b;
      TilesConcat(a[1..], b, lo + a[0].size, mid, hi);
    }
  }

  lemma {:induction false} ModelTiles(pts: seq<PointSpec>, mid: int, length: int, sf: ScaleFactors, addr: int)
    requires Covers(sf, pts)
    ensures Tiles(ModelRegs(pts, mid, length, sf, addr), addr, addr + SumSizes(pts))
  {
    if pts != [] {
      assert Covers(sf, pts[1..]);
      ModelTiles(pts[1..], mid, length, sf, addr + pts[0].size);
    }
  }

  lemma {:induction false} ChainTiles(cat: Catalog, sf: ScaleFactors, chain: seq<int>, addr: int)
    requires Buildable(cat, sf, chain)
    ensures Tiles(ChainRegs(cat, sf, chain, addr), addr, addr + ChainSize(cat, chain))
  {
    if chain != [] {
      var pts := cat[chain[0]];
      var next := addr + SumSizes(pts);
      assert Buildable(cat, sf, chain[1..]);
      ModelTiles(pts, chain[0], ModelLength(pts), sf, addr);
      ChainTiles(cat, sf, chain[1..], next);
      hide Tiles, ModelRegs, Covers, ModelLength, SumSizes;
      TilesConcat(ModelRegs(pts, chain[0], ModelLength(pts), sf, addr), ChainRegs(cat, sf, chain[1..], next),
                  addr, next, addr + ChainSize(cat, chain));
    }
  }

  ghost function VendorSize(vendor: seq<Vendor>): nat
    requires VendorTyped(vendor)
  {
    if vendor == [] then 0 else TypeWidth(vendor[0].typ) + VendorSize(vendor[1..])
  }

  lemma {:induction false} VendorTiles(vendor: seq<Vendor>, addr: int)
    requires VendorTyped(vendor)
    ensures Tiles(VendorRegs(vendor, addr), addr, addr + VendorSize(vendor))
  {
    if vendor != [] {
      VendorTiles(vendor[1..], addr + TypeWidth(vendor[0].typ));
    }
  }

  lemma ImageIs(cat: Catalog, sf: ScaleFactors, chain: seq<int>, vendor: seq<Vendor>)
    requires Buildable(cat, sf, chain) && VendorTyped(vendor)
    ensures forall i | 0 <= i < |chain| :: chain[i] in cat
    ensures ImageRegs(cat, sf, chain, vendor)
         == MarkerRegs() + ChainRegs(cat, sf, chain, BASE + 2) + EndRegs(BASE + 2 + ChainSize(cat, chain))
            + VendorRegs(vendor, BASE + 4 + ChainSize(cat, chain))
  {
    hide ChainRegs, ChainSize, MarkerRegs, EndRegs, VendorRegs;
  }

  /** What Build emits occupies one contiguous stretch from the base. */
  lemma ImageTiles(cat: Catalog, sf: ScaleFactors, chain: seq<int>, vendor: seq<Vendor>)
    requires Buildable(cat, sf, chain) && VendorTyped(vendor)
    ensures Tiles(ImageRegs(cat, sf, chain, vendor), BASE, BASE + 4 + ChainSize(cat, chain) + VendorSize(vendor))
  {
    hide *;
    ImageIs(cat, sf, chain, vendor);
    var end := BASE + 2 + ChainSize(cat, chain);
    var c, v := ChainRegs(cat, sf, chain, BASE + 2), VendorRegs(vendor, end + 2);
    MarkersTile(end);
    ChainTiles(cat, sf, chain, BASE + 2);
    VendorTiles(vendor, end + 2);
    TilesConcat(MarkerRegs(), c, BASE, BASE + 2, end);
    TilesConcat(MarkerRegs() + c, EndRegs(end), BASE, end, end + 2);
    TilesConcat(MarkerRegs() + c + EndRegs(end), v, BASE, end + 2, end + 2 + VendorSize(vendor));
  }

  lemma MarkersTile(end: int)
    ensures Tiles(MarkerRegs(), BASE, BASE + 2) && Tiles(EndRegs(end), end, end + 2)
  {
    var m, e := MarkerRegs(), EndRegs(end);
    assert m[1..][1..] == [] && e[1..][1..] == [];
    assert Tiles(m[1..], BASE + 1, BASE + 2) && Tiles(e[1..], end + 1, end + 2);
  }

  lemma {:induction false} TilesOrder(regs: seq<Reg>, lo: int, hi: int, i: nat, j: nat)
    requires Tiles(regs, lo, hi) && i < j < |regs|
    ensures lo <= regs[i].addr && regs[i].addr + regs[i].size <= regs[j].addr
  {
    if i > 0 {
      TilesOrder(regs[1..], lo + regs[0].size, hi, i - 1, j - 1);
    } else if j > 1 {
      TilesOrder(regs[1..], lo + regs[0].size, hi, 0, j - 1);
    }
  }

  /** The map's entries are the image's registers, canonical points included: the same addresses and
      as many registers. */
  ghost predicate EntriesFor(es: seq<M.Entry>, regs: seq<Reg>) {
    && |es| == |regs|
    && forall i | 0 <= i < |es| ::
         HasWidth(es[i].reg) && es[i].reg.address == regs[i].addr && Width(es[i].reg) == regs[i].size
  }

  /** The entries of a generated image pass the loader's overlap check, one entry per register. */
  lemma GeneratedMapIsDisjoint(cat: Catalog, sf: ScaleFactors, chain: seq<int>, vendor: seq<Vendor>, es: seq<M.Entry>)
    requires Buildable(cat, sf, chain) && VendorTyped(vendor) && EntriesFor(es, ImageRegs(cat, sf, chain, vendor))
    ensures M.Disjoint(es)
  {
    hide ImageRegs, Tiles;
    ImageTiles(cat, sf, chain, vendor);
    TiledAreDisjoint(es, ImageRegs(cat, sf, chain, vendor), BASE,
                     BASE + 4 + ChainSize(cat, chain) + VendorSize(vendor));
  }

  lemma TiledAreDisjoint(es: seq<M.Entry>, regs: seq<Reg>, lo: int, hi: int)
    requires EntriesFor(es, regs) && Tiles(regs, lo, hi)
    ensures M.Disjoint(es)
  {
    hide Tiles;
    forall i, j, addr | 0 <= i < j < |es| && M.Occupies(es[i].reg, addr) ensures !M.Occupies(es[j].reg, addr) {
      TilesOrder(regs, lo, hi, i, j);
    }
  }
}
