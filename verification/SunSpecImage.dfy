/** SunSpec device images: a marker, a chain of models, an end marker, then vendor registers. */
module SunSpecImage {
  import opened Common
  import opened Codec

  const BASE := 40001
  const SUNS_FIRST := 0x5375
  const SUNS_SECOND := 0x6E53
  const END_MODEL_ID := 0xFFFF

  datatype PointName = Id | Length | Named(s: string)

  /** A point of a model definition; the order of the points is the register order. */
  datatype PointSpec = PointSpec(name: PointName, typ: RegType, size: nat, sfRef: Option<PointName>)

  type Catalog = map<int, seq<PointSpec>>

  type ScaleFactors = map<PointName, int>

  datatype Role = Marker | Header | Sf | Data | End | Extension

  /** One entry of the generated image. */
  datatype Reg = Reg(addr: int, model: int, name: PointName, typ: RegType, size: nat, role: Role, value: int)

  datatype Vendor = Vendor(name: string, typ: RegType)

  function SumSizes(pts: seq<PointSpec>): nat { if pts == [] then 0 else pts[0].size + SumSizes(pts[1..]) }

  /** Body length published in a model's header: everything after ID and L. */
  function ModelLength(pts: seq<PointSpec>): nat { if |pts| < 2 then 0 else SumSizes(pts[2..]) }

  /** "Not implemented" values of points that are not driven. */
  function Sentinel(typ: RegType): int {
    match typ
    case Uint16 | Enum16 => 0xFFFF
    case Int16 => -0x8000
    case Uint32 => 0xFFFF_FFFF
    case Int32 => -0x8000_0000
    case Uint64 | Bitfield32 | String | Pad | Float32 | SunSsf => 0
  }

  /** The published scale factors cover a model's scale-factor points. */
  predicate Covers(sf: ScaleFactors, pts: seq<PointSpec>) {
    forall p | p in pts && p.typ == SunSsf && p.name.Named? :: p.name in sf
  }

  function PointReg(p: PointSpec, mid: int, length: int, sf: ScaleFactors, addr: int): Reg
    requires p.typ == SunSsf && p.name.Named? ==> p.name in sf
  {
    var value := match p.name
      case Id => mid
      case Length => length
      case Named(_) => if p.typ == SunSsf then sf[p.name] else Sentinel(p.typ);
    var role := if !p.name.Named? then Header else if p.typ == SunSsf then Sf else Data;
    Reg(addr, mid, p.name, p.typ, p.size, role, value)
  }

  ghost function ModelRegs(pts: seq<PointSpec>, mid: int, length: int, sf: ScaleFactors, addr: int): seq<Reg>
    requires Covers(sf, pts)
  {
    if pts == [] then []
    else [PointReg(pts[0], mid, length, sf, addr)] + ModelRegs(pts[1..], mid, length, sf, addr + pts[0].size)
  }

  ghost predicate Buildable(cat: Catalog, sf: ScaleFactors, chain: seq<int>) {
    forall i | 0 <= i < |chain| :: chain[i] in cat && Covers(sf, cat[chain[i]])
  }

  ghost function ChainRegs(cat: Catalog, sf: ScaleFactors, chain: seq<int>, addr: int): seq<Reg>
    requires Buildable(cat, sf, chain)
  {
    if chain == [] then []
    else
      var pts := cat[chain[0]];
      ModelRegs(pts, chain[0], ModelLength(pts), sf, addr) + ChainRegs(cat, sf, chain[1..], addr + SumSizes(pts))
  }

  ghost function ChainSize(cat: Catalog, chain: seq<int>): nat
    requires forall i | 0 <= i < |chain| :: chain[i] in cat
  {
    if chain == [] then 0
    else SumSizes(cat[chain[0]]) + ChainSize(cat, chain[1..])
  }

  function MarkerRegs(): seq<Reg> {
    [Reg(BASE, 0, Named("SunS"), Uint16, 1, Marker, SUNS_FIRST),
     Reg(BASE + 1, 0, Named("SunS"), Uint16, 1, Marker, SUNS_SECOND)]
  }

  function EndRegs(addr: int): seq<Reg> {
    [Reg(addr, 0, Named("END"), Uint16, 1, End, END_MODEL_ID), Reg(addr + 1, 0, Named("END"), Uint16, 1, End, 0)]
  }

  /** The generator's width table has the integer types only. */
  ghost predicate VendorTyped(vendor: seq<Vendor>) { forall i | 0 <= i < |vendor| :: IsInteger(vendor[i].typ) }

  ghost function VendorRegs(vendor: seq<Vendor>, addr: int): seq<Reg>
    requires VendorTyped(vendor)
  {
    if vendor == [] then []
    else
      var v := vendor[0];
      [Reg(addr, -1, Named(v.name), v.typ, TypeWidth(v.typ), Extension, Sentinel(v.typ))]
      + VendorRegs(vendor[1..], addr + TypeWidth(v.typ))
  }

  /** The walkable part of the image. */
  ghost function Walkable(cat: Catalog, sf: ScaleFactors, chain: seq<int>): seq<Reg>
    requires Buildable(cat, sf, chain)
  {
    MarkerRegs() + ChainRegs(cat, sf, chain, BASE + 2) + EndRegs(BASE + 2 + ChainSize(cat, chain))
  }

  /** The whole image: the walkable part and, behind the end marker, the vendor block. */
  ghost function ImageRegs(cat: Catalog, sf: ScaleFactors, chain: seq<int>, vendor: seq<Vendor>): seq<Reg>
    requires Buildable(cat, sf, chain) && VendorTyped(vendor)
  {
    Walkable(cat, sf, chain) + VendorRegs(vendor, BASE + 4 + ChainSize(cat, chain))
  }

  /** Emits the registers at advancing addresses. */
  method Build(cat: Catalog, sf: ScaleFactors, chain: seq<int>, vendor: seq<Vendor>) returns (regs: seq<Reg>)
    requires Buildable(cat, sf, chain) && VendorTyped(vendor)
    ensures regs == ImageRegs(cat, sf, chain, vendor)
  {
    var models, addr := BuildChain(cat, sf, chain, BASE + 2);
    var extra := BuildVendor(vendor, addr + 2);
    regs := MarkerRegs() + models + EndRegs(addr) + extra;
  }

  method BuildChain(cat: Catalog, sf: ScaleFactors, chain: seq<int>, start: int) returns (regs: seq<Reg>, addr: int)
    requires Buildable(cat, sf, chain)
    ensures regs == ChainRegs(cat, sf, chain, start) && addr == start + ChainSize(cat, chain)
  {
    hide *;
    regs, addr := [], start;
    NoneBuilt(cat, sf, chain, start);
    for c := 0 to |chain|
      invariant BuiltSoFar(cat, sf, chain, start, c, regs, addr)
    {
      var mid := chain[c];
      StillBuilt(cat, sf, chain, start, c, regs, addr);
      var block := BuildModel(cat[mid], mid, sf, addr);
      regs := regs + block;
      addr := addr + SumSizes(cat[mid]);
    }
    AllBuilt(cat, sf, chain, start, regs, addr);
  }

  /** The first c models were emitted, and addr is where the rest goes. */
  ghost predicate BuiltSoFar(cat: Catalog, sf: ScaleFactors, chain: seq<int>, start: int, c: nat, regs: seq<Reg>,
                             addr: int)
    requires Buildable(cat, sf, chain)
  {
    && c <= |chain| && Buildable(cat, sf, chain[c..])
    && addr + ChainSize(cat, chain[c..]) == start + ChainSize(cat, chain)
    && regs + ChainRegs(cat, sf, chain[c..], addr) == ChainRegs(cat, sf, chain, start)
  }

  lemma NoneBuilt(cat: Catalog, sf: ScaleFactors, chain: seq<int>, start: int)
    requires Buildable(cat, sf, chain)
    ensures BuiltSoFar(cat, sf, chain, start, 0, [], start)
  {
    hide ChainRegs, ChainSize;
    assert chain[0..] == chain;
  }

  lemma StillBuilt(cat: Catalog, sf: ScaleFactors, chain: seq<int>, start: int, c: nat, regs: seq<Reg>, addr: int)
    requires Buildable(cat, sf, chain) && c < |chain| && BuiltSoFar(cat, sf, chain, start, c, regs, addr)
    ensures chain[c] in cat && Covers(sf, cat[chain[c]])
    ensures var pts := cat[chain[c]];
      BuiltSoFar(cat, sf, chain, start, c + 1, regs + ModelRegs(pts, chain[c], ModelLength(pts), sf, addr),
                 addr + SumSizes(pts))
  {
    hide ChainRegs, ChainSize, ModelRegs, ModelLength, SumSizes, Covers;
    ChainStep(cat, sf, chain, c, addr);
  }

  lemma AllBuilt(cat: Catalog, sf: ScaleFactors, chain: seq<int>, start: int, regs: seq<Reg>, addr: int)
    requires Buildable(cat, sf, chain) && BuiltSoFar(cat, sf, chain, start, |chain|, regs, addr)
    ensures regs == ChainRegs(cat, sf, chain, start) && addr == start + ChainSize(cat, chain)
  {
    assert chain[|chain|..] == [];
    assert ChainRegs(cat, sf, [], addr) == [] && ChainSize(cat, []) == 0;
    hide ChainRegs, ChainSize;
  }

  lemma ChainStep(cat: Catalog, sf: ScaleFactors, chain: seq<int>, c: nat, addr: int)
    requires Buildable(cat, sf, chain) && c < |chain|
    ensures chain[c] in cat && Covers(sf, cat[chain[c]]) && Buildable(cat, sf, chain[c..])
      && Buildable(cat, sf, chain[c + 1..])
    ensures var pts := cat[chain[c]];
      && ChainRegs(cat, sf, chain[c..], addr)
         == ModelRegs(pts, chain[c], ModelLength(pts), sf, addr)
            + ChainRegs(cat, sf, chain[c + 1..], addr + SumSizes(pts))
      && ChainSize(cat, chain[c..]) == SumSizes(pts) + ChainSize(cat, chain[c + 1..])
  {
    hide ModelRegs, SumSizes, ModelLength, Covers;
    assert chain[c..][0] == chain[c] && chain[c..][1..] == chain[c + 1..];
  }

  method BuildVendor(vendor: seq<Vendor>, start: int) returns (regs: seq<Reg>)
    requires VendorTyped(vendor)
    ensures regs == VendorRegs(vendor, start)
  {
    regs := [];
    var addr := start;
    for v := 0 to |vendor|
      invariant regs + VendorRegs(vendor[v..], addr) == VendorRegs(vendor, start)
    {
      assert vendor[v..][0] == vendor[v] && vendor[v..][1..] == vendor[v + 1..];
      var typ := vendor[v].typ;
      regs := regs + [Reg(addr, -1, Named(vendor[v].name), typ, TypeWidth(typ), Extension, Sentinel(typ))];
      addr := addr + TypeWidth(typ);
    }
  }

  method BuildModel(pts: seq<PointSpec>, mid: int, sf: ScaleFactors, start: int) returns (regs: seq<Reg>)
    requires Covers(sf, pts)
    ensures regs == ModelRegs(pts, mid, ModelLength(pts), sf, start)
  {
    regs := [];
    var addr, length := start, ModelLength(pts);
    for i := 0 to |pts|
      invariant Covers(sf, pts[i..])
      invariant regs + ModelRegs(pts[i..], mid, length, sf, addr) == ModelRegs(pts, mid, length, sf, start)
    {
      assert pts[i] in pts && pts[i..][0] == pts[i] && pts[i..][1..] == pts[i + 1..];
      regs := regs + [PointReg(pts[i], mid, length, sf, addr)];
      addr := addr + pts[i].size;
    }
  }

  // ------------------------------------------------------------ images in memory

  type Word = w: int | 0 <= w < WORD

  /** Holding registers by their 4xxxx address; absent ones cannot be read. */
  type Memory = map<int, Word>

  /** The memory serves a register's literal value. */
  ghost predicate ServesReg(mem: Memory, r: Reg) {
    forall k | 0 <= k < r.size :: r.addr + k in mem && mem[r.addr + k] == IntToWords(r.value, r.size)[k]
  }

  /** The memory serves the structure of the image: markers, headers, scale factors and the end. What
      data and vendor registers hold, or whether they exist at all, is left open. */
  ghost predicate ServesStructure(mem: Memory, regs: seq<Reg>) {
    forall r | r in regs && r.role != Data && r.role != Extension :: ServesReg(mem, r)
  }

  /** A catalog entry whose sizes match its types and that can be published. */
  ghost predicate ValidModel(cat: Catalog, sf: ScaleFactors, mid: int) {
    && mid in cat && 0 <= mid < END_MODEL_ID
    && var pts := cat[mid];
    && |pts| >= 2
    && pts[0].name == Id && pts[0].typ == Uint16 && pts[1].name == Length && pts[1].typ == Uint16
    && ValidBody(pts[2..], sf)
    && pts[0].size == 1 && pts[1].size == 1 && ModelLength(pts) < WORD
  }

  ghost predicate ValidBody(pts: seq<PointSpec>, sf: ScaleFactors) {
    forall p | p in pts ::
      && p.name.Named?
      && (!Sizeless(p.typ) ==> p.size == TypeWidth(p.typ))
      && (p.typ == SunSsf ==> p.name in sf && InRange(SunSsf, sf[p.name]))
  }

  lemma ValidCovers(cat: Catalog, sf: ScaleFactors, mid: int)
    requires ValidModel(cat, sf, mid)
    ensures Covers(sf, cat[mid])
    ensures SumSizes(cat[mid]) == 2 + ModelLength(cat[mid])
  {
    var pts := cat[mid];
    assert pts == [pts[0], pts[1]] + pts[2..];
    assert pts[1..][0] == pts[1] && pts[1..][1..] == pts[2..];
    assert SumSizes(pts) == pts[0].size + SumSizes(pts[1..]);
  }

  /** A one-word register holds the value itself, modulo sign. */
  lemma OneWord(mem: Memory, r: Reg)
    requires ServesReg(mem, r) && r.size == 1 && IsInteger(r.typ) && TypeWidth(r.typ) == 1 && InRange(r.typ, r.value)
    ensures r.addr in mem && Interpreted(r.typ, BigEndian([mem[r.addr]])) == r.value
  {
    FittingRoundTrip(r.typ, r.value, 1);
    assert r.addr + 0 in mem && mem[r.addr + 0] == IntToWords(r.value, 1)[0];
    assert [mem[r.addr]] == IntToWords(r.value, 1);
  }

  lemma PlainWord(w: Word)
    ensures BigEndian([w]) == w
  {
    assert [w][..0] == [];
  }

  // ------------------------------------------------------------ the served words

  /** The registers of points that are not driven serve the words that mean "not implemented": all ones for
      the unsigned 16 and 32 bit types and enumerations, the smallest number for the signed ones, zeros else. */
  lemma NotImplementedWords(typ: RegType, width: nat, k: nat)
    requires k < width && (!Sizeless(typ) ==> width == TypeWidth(typ))
    ensures IntToWords(Sentinel(typ), width)[k]
         == match typ
            case Uint16 | Enum16 | Uint32 => 0xFFFF
            case Int16 | Int32 => if k == 0 then 0x8000 else 0
            case Uint64 | Bitfield32 | String | Pad | Float32 | SunSsf => 0
  {
    assert Radix(0) == 1 && Radix(1) == WORD && Radix(2) == WORD * Radix(1);
    hide Radix;
    if Sentinel(typ) == 0 {
      QuotientUnique(0, Radix(width), 0, 0);
      QuotientUnique(0, Radix(width - 1 - k), 0, 0);
    }
  }

  /** What any memory that serves a generated image starts and ends with: the letters "SunS", and behind the
      last model 0xFFFF and a length of zero. */
  lemma ImageFrame(mem: Memory, cat: Catalog, sf: ScaleFactors, chain: seq<int>)
    requires Buildable(cat, sf, chain) && ServesStructure(mem, Walkable(cat, sf, chain))
    ensures 40001 in mem && mem[40001] == 'S' as int * 256 + 'u' as int
    ensures 40002 in mem && mem[40002] == 'n' as int * 256 + 'S' as int
    ensures var end := 40003 + ChainSize(cat, chain);
      end in mem && end + 1 in mem && mem[end] == 0xFFFF && mem[end + 1] == 0
  {
    var end := 40003 + ChainSize(cat, chain);
    var regs := Walkable(cat, sf, chain);
    var ms, es := MarkerRegs(), EndRegs(end);
    assert ms[0] in ms && ms[1] in ms && es[0] in es && es[1] in es;
    assert forall r | r in ms || r in es :: r in regs;
    hide ChainRegs, ChainSize, Walkable;
    ServedWord(mem, ms[0]);
    ServedWord(mem, ms[1]);
    ServedWord(mem, es[0]);
    ServedWord(mem, es[1]);
  }

  lemma ServedWord(mem: Memory, r: Reg)
    requires ServesReg(mem, r) && r.size == 1 && r.typ == Uint16 && 0 <= r.value < WORD
    ensures r.addr in mem && mem[r.addr] == r.value
  {
    SpanValues(Uint16);
    OneWord(mem, r);
    PlainWord(mem[r.addr]);
  }

  /** What a point of a model becomes: header points carry the model's number and length, scale factors the
      published exponent of their own name, and anything else its "not implemented" value. */
  lemma {:induction false} ModelRegAt(pts: seq<PointSpec>, mid: int, length: int, sf: ScaleFactors, addr: int, k: nat)
    requires Covers(sf, pts) && k < |pts|
    ensures |ModelRegs(pts, mid, length, sf, addr)| == |pts|
    ensures var r, p := ModelRegs(pts, mid, length, sf, addr)[k], pts[k];
      && r.addr == addr + SumSizes(pts[..k]) && r.model == mid
      && r.name == p.name && r.typ == p.typ && r.size == p.size
      && (p.name == Id ==> r.role == Header && r.value == mid)
      && (p.name == Length ==> r.role == Header && r.value == length)
      && (p.name.Named? && p.typ == SunSsf ==> r.role == Sf && p.name in sf && r.value == sf[p.name])
      && (p.name.Named? && p.typ != SunSsf ==> r.role == Data && r.value == Sentinel(p.typ))
    decreases |pts|
  {
    assert pts[k] in pts;
    if |pts| > 1 {
      assert Covers(sf, pts[1..]);
      ModelRegAt(pts[1..], mid, length, sf, addr + pts[0].size, if k == 0 then 0 else k - 1);
    }
    if k > 0 {
      assert pts[..k][0] == pts[0] && pts[..k][1..] == pts[1..][..k - 1];
    }
  }

  /** Where the i-th model of a chain lies: its registers follow those of the models before it. */
  lemma {:induction false} ChainModelAt(cat: Catalog, sf: ScaleFactors, chain: seq<int>, addr: int, i: nat, k: nat)
    requires Buildable(cat, sf, chain) && i < |chain| && k < |cat[chain[i]]|
    ensures var pts := cat[chain[i]];
      var at := addr + ChainSize(cat, chain[..i]);
      && |ModelRegs(pts, chain[i], ModelLength(pts), sf, at)| == |pts|
      && ModelRegs(pts, chain[i], ModelLength(pts), sf, at)[k] in ChainRegs(cat, sf, chain, addr)
    decreases |chain|
  {
    hide ModelRegs, Covers, SumSizes, ModelLength;
    var pts := cat[chain[i]];
    if i == 0 {
      ModelRegAt(pts, chain[0], ModelLength(pts), sf, addr, k);
    } else {
      var next := addr + SumSizes(cat[chain[0]]);
      assert chain[..i][0] == chain[0] && chain[..i][1..] == chain[1..][..i - 1];
      ChainModelAt(cat, sf, chain[1..], next, i - 1, k);
    }
  }

  /** A vendor register serves the "not implemented" value of its type, at its place behind the end marker. */
  lemma {:induction false} VendorRegAt(vendor: seq<Vendor>, addr: int, k: nat)
    requires VendorTyped(vendor) && k < |vendor|
    ensures |VendorRegs(vendor, addr)| == |vendor|
    ensures var r, v := VendorRegs(vendor, addr)[k], vendor[k];
      && r.name == Named(v.name) && r.typ == v.typ && r.size == TypeWidth(v.typ)
      && r.role == Extension && r.value == Sentinel(v.typ)
      && r.addr == if k == 0 then addr
                   else VendorRegs(vendor, addr)[k - 1].addr + VendorRegs(vendor, addr)[k - 1].size
    decreases |vendor|
  {
    hide Sentinel;
    if |vendor| > 1 {
      VendorRegAt(vendor[1..], addr + TypeWidth(vendor[0].typ), if k == 0 then 0 else k - 1);
    }
  }
}
