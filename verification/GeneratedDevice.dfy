/** From a generated image to a device and back: emitting the map, loading it, serving it, walking it. */
module GeneratedDevice {
  import opened Common
  import opened Codec
  import opened SunSpecImage
  import opened SunSpecWalk
  import opened GeneratedMap
  import DS = DumpShape
  import M = RegisterMap

  // ------------------------------------------------------------ names of image registers

  function Digits(n: nat): string { (if n < 10 then "" else Digits(n / 10)) + [('0' as int + n % 10) as char] }

  function Decimal(n: int): string { if n < 0 then "-" + Digits(-n) else Digits(n) }

  function PointText(name: PointName): string {
    match name
    case Id => "ID"
    case Length => "L"
    case Named(s) => s
  }

  /** Markers carry their address; points their model and name, so a repeated model repeats its names. */
  function NameOf(r: Reg): string {
    match r.role
    case Marker => "_SunS_" + Decimal(r.addr)
    case End => "_END_" + Decimal(r.addr)
    case Extension => "vendor." + PointText(r.name)
    case _ => Decimal(r.model) + "." + PointText(r.name)
  }

  predicate OfModel(r: Reg) { r.role == Header || r.role == Sf || r.role == Data }

  /** Only the header points are called ID and L. */
  ghost predicate Proper(name: PointName) { name.Named? ==> name.s != "ID" && name.s != "L" }

  ghost predicate NoDot(s: string) { '.' !in s }

  lemma {:induction false} DigitsNoDot(n: nat)
    ensures NoDot(Digits(n)) && Digits(n) != []
  {
    if n >= 10 {
      DigitsNoDot(n / 10);
    }
  }

  lemma {:induction false} DigitsInjective(m: nat, n: nat)
    requires Digits(m) == Digits(n)
    ensures m == n
  {
    var a, b := Digits(m), Digits(n);
    assert a[|a| - 1] == b[|b| - 1];
    assert m % 10 == n % 10;
    assert a[..|a| - 1] == b[..|b| - 1];
    DigitsSize(m);
    DigitsSize(n);
    if m >= 10 {
      DigitsInjective(m / 10, n / 10);
    }
  }

  lemma DigitsSize(n: nat)
    ensures |Digits(n)| == 1 <==> n < 10
  {
    if n >= 10 {
      DigitsNoDot(n / 10);
    }
  }

  lemma DotSplit(x: string, y: string, x': string, y': string)
    requires NoDot(x) && NoDot(x') && x + "." + y == x' + "." + y'
    ensures x == x' && y == y'
  {
    var s, s' := x + "." + y, x' + "." + y';
    assert s[|x|] == '.' && s'[|x'|] == '.';
    assert forall k | 0 <= k < |x| :: s[k] == x[k] && s[k] != '.';
    assert forall k | 0 <= k < |x'| :: s'[k] == x'[k] && s'[k] != '.';
    assert s[..|x|] == x && s'[..|x'|] == x';
    assert s[|x| + 1..] == y && s'[|x'| + 1..] == y';
  }

  /** Within a chain a name is its model and its point. */
  lemma NameIsKey(r: Reg, q: Reg)
    requires OfModel(r) && OfModel(q) && r.model >= 0 && q.model >= 0 && Proper(r.name) && Proper(q.name)
    ensures NameOf(r) == NameOf(q) <==> r.model == q.model && r.name == q.name
  {
    DigitsNoDot(r.model);
    DigitsNoDot(q.model);
    if NameOf(r) == NameOf(q) {
      DotSplit(Decimal(r.model), PointText(r.name), Decimal(q.model), PointText(q.name));
      hide Digits;
      DigitsInjective(r.model, q.model);
      TextInjective(r.name, q.name);
    }
  }

  lemma TextInjective(a: PointName, b: PointName)
    requires Proper(a) && Proper(b) && PointText(a) == PointText(b)
    ensures a == b
  {}

  // ------------------------------------------------------------ emitting and loading

  /** The entry of a register no canonical point is bound to: served verbatim. */
  function RawEntry(r: Reg): M.Entry {
    var size := if Sizeless(r.typ) || r.size != 1 then Some(r.size as int) else None;
    M.Entry(NameOf(r), RegisterDef(r.addr, r.typ, size, 1.0, None, None, 1.0, Some(r.value), Some("image"), ReadOnly))
  }

  /** A register of the image is emitted read-only and unscaled, with its literal value, and with a size exactly
      where the loader would not know it. */
  lemma RawEntryIs(r: Reg)
    ensures var e := RawEntry(r).reg;
      && e.address == r.addr && e.typ == r.typ && e.rw == ReadOnly && e.role.Some? && e.value == Some(r.value)
      && e.sfAddress == e.sfValue == None && e.scale == 1.0
      && (e.size.None? <==> r.size == 1 && r.typ != String && r.typ != Pad)
      && (e.size.Some? ==> e.size.value == r.size)
  {
    hide NameOf;
  }

  /** The frame's registers are named by their addresses. */
  lemma FrameNames(end: int)
    ensures NameOf(MarkerRegs()[0]) == "_SunS_40001" && NameOf(MarkerRegs()[1]) == "_SunS_40002"
    ensures NameOf(EndRegs(end)[0]) == "_END_" + Decimal(end) && NameOf(EndRegs(end)[1]) == "_END_" + Decimal(end + 1)
  {
    FrameDigits();
    assert Decimal(40001) == "40001" && Decimal(40002) == "40002";
    hide Digits, Decimal;
  }

  lemma FrameDigits()
    ensures Digits(40001) == "40001" && Digits(40002) == "40002"
  {
    assert Digits(4) == "4";
    assert Digits(40) == "40";
    assert Digits(400) == "400";
    assert Digits(4000) == "4000";
  }

  /** Canonical entries by the address they are bound to. */
  type Canon = map<int, M.Entry>

  function SeenNames(regs: seq<Reg>, canon: Canon): set<string> {
    set r | r in regs && r.addr in canon :: canon[r.addr].name
  }

  /** A register's own entry, or the canonical one at its address, once. */
  function Emission(regs: seq<Reg>, canon: Canon): seq<M.Entry> {
    if regs == [] then []
    else
      var n := |regs| - 1;
      var r := regs[n];
      Emission(regs[..n], canon)
      + if r.addr !in canon then [RawEntry(r)]
        else if canon[r.addr].name in SeenNames(regs[..n], canon) then []
        else [canon[r.addr]]
  }

  method Emit(regs: seq<Reg>, canon: Canon) returns (es: seq<M.Entry>)
    ensures es == Emission(regs, canon)
  {
    es := [];
    var seen: set<string> := {};
    for i := 0 to |regs|
      invariant es == Emission(regs[..i], canon) && seen == SeenNames(regs[..i], canon)
    {
      var r := regs[i];
      assert regs[..i + 1][..i] == regs[..i] && regs[..i + 1] == regs[..i] + [r];
      if r.addr in canon {
        if canon[r.addr].name in seen {
          continue;
        }
        seen := seen + {canon[r.addr].name};
        es := es + [canon[r.addr]];
      } else {
        es := es + [RawEntry(r)];
      }
    }
    assert regs[..|regs|] == regs;
  }

  /** One more key of a mapping: a repeated name takes the place of the earlier one. */
  function Put(d: seq<M.Entry>, e: M.Entry): seq<M.Entry> {
    if d == [] then [e] else if d[0].name == e.name then [e] + d[1..] else [d[0]] + Put(d[1..], e)
  }

  /** The mapping that loading the emitted entries gives. */
  function Loaded(es: seq<M.Entry>): seq<M.Entry> {
    if es == [] then [] else Put(Loaded(es[..|es| - 1]), es[|es| - 1])
  }

  ghost predicate NamesDistinct(es: seq<M.Entry>) { forall i, j | 0 <= i < j < |es| :: es[i].name != es[j].name }

  lemma PutIs(d: seq<M.Entry>, e: M.Entry)
    requires NamesDistinct(d)
    ensures NamesDistinct(Put(d, e))
    ensures forall x :: x in Put(d, e) <==> x == e || (x in d && x.name != e.name)
    ensures (forall x | x in d :: x.name != e.name) ==> Put(d, e) == d + [e]
  {
    hide *;
    PutMembers(d, e);
    PutDistinct(d, e);
    if forall x | x in d :: x.name != e.name {
      PutFresh(d, e);
    }
  }

  lemma TailDistinct(d: seq<M.Entry>)
    requires d != [] && NamesDistinct(d)
    ensures NamesDistinct(d[1..]) && forall x | x in d[1..] :: x in d && x.name != d[0].name
    ensures forall x :: x in d <==> x == d[0] || x in d[1..]
  {
    forall x | x in d[1..] ensures x in d && x.name != d[0].name {
      var i :| 0 <= i < |d[1..]| && d[1..][i] == x;
      assert d[i + 1] == x;
    }
    assert d == [d[0]] + d[1..];
  }

  lemma {:induction false} PutMembers(d: seq<M.Entry>, e: M.Entry)
    requires NamesDistinct(d)
    ensures forall x :: x in Put(d, e) <==> x == e || (x in d && x.name != e.name)
    decreases |d|
  {
    if d != [] {
      TailDistinct(d);
      hide NamesDistinct;
      PutMembers(d[1..], e);
    }
  }

  lemma {:induction false} PutDistinct(d: seq<M.Entry>, e: M.Entry)
    requires NamesDistinct(d)
    ensures NamesDistinct(Put(d, e))
    decreases |d|
  {
    if d != [] {
      TailDistinct(d);
      var rest := if d[0].name == e.name then d[1..] else Put(d[1..], e);
      var first := if d[0].name == e.name then e else d[0];
      PutMembers(d[1..], e);
      PutDistinct(d[1..], e);
      assert Put(d, e) == [first] + rest;
      hide Put;
      ConsDistinct(first, rest);
    }
  }

  lemma ConsDistinct(e: M.Entry, d: seq<M.Entry>)
    requires NamesDistinct(d) && forall x | x in d :: x.name != e.name
    ensures NamesDistinct([e] + d)
  {
    var all := [e] + d;
    forall i, j | 0 <= i < j < |all| ensures all[i].name != all[j].name {
      assert all[j] == d[j - 1] && d[j - 1] in d;
    }
  }

  lemma {:induction false} PutFresh(d: seq<M.Entry>, e: M.Entry)
    requires forall x | x in d :: x.name != e.name
    ensures Put(d, e) == d + [e]
    decreases |d|
  {
    if d != [] {
      PutFresh(d[1..], e);
      assert d == [d[0]] + d[1..];
    }
  }

  /** Loading keeps, of each name, the last entry. */
  lemma {:induction false} LoadedIs(es: seq<M.Entry>)
    ensures NamesDistinct(Loaded(es))
    ensures forall x :: x in Loaded(es) <==> LastOfName(es, x)
    ensures NamesDistinct(es) ==> Loaded(es) == es
  {
    if es != [] {
      var n := |es| - 1;
      var e := es[n];
      LoadedIs(es[..n]);
      PutIs(Loaded(es[..n]), e);
      forall x ensures LastOfName(es, x) <==> x == e || (LastOfName(es[..n], x) && x.name != e.name) {
        LastStep(es, x);
      }
      if NamesDistinct(es) {
        assert es == es[..n] + [e];
      }
    }
  }

  ghost predicate LastOfName(es: seq<M.Entry>, x: M.Entry) {
    exists i :: LastAt(es, x, i)
  }

  ghost predicate LastAt(es: seq<M.Entry>, x: M.Entry, i: int) {
    0 <= i < |es| && es[i] == x && forall j | i < j < |es| :: es[j].name != x.name
  }

  lemma LastStep(es: seq<M.Entry>, x: M.Entry)
    requires es != []
    ensures var n := |es| - 1; LastOfName(es, x) <==> x == es[n] || (LastOfName(es[..n], x) && x.name != es[n].name)
  {
    var n := |es| - 1;
    if LastOfName(es, x) {
      var i :| LastAt(es, x, i);
      assert i < n ==> LastAt(es[..n], x, i);
    }
    if x == es[n] {
      assert LastAt(es, x, n);
    } else if LastOfName(es[..n], x) && x.name != es[n].name {
      var i :| LastAt(es[..n], x, i);
      assert LastAt(es, x, i);
    }
  }

  // ------------------------------------------------------------ what the generator emits

  /** Every register emitted once: by its own entry, or by a canonical one when it holds data. */
  ghost predicate EmittedAs(e: M.Entry, r: Reg, regs: seq<Reg>) {
    e == RawEntry(r) || ((r.role == Data || r.role == Extension) && CanonicalFor(e, r, regs))
  }

  /** A canonical point has its register's type and width, no literal value, and a scale factor that is
      a register of the image, if any. */
  ghost predicate CanonicalFor(e: M.Entry, r: Reg, regs: seq<Reg>) {
    && e.reg.address == r.addr && e.reg.typ == r.typ && HasWidth(e.reg) && Width(e.reg) == r.size && e.reg.value == None
    && (e.reg.sfAddress.Some? ==> exists q :: q in regs && q.addr == e.reg.sfAddress.value)
  }

  ghost predicate Emitted(es: seq<M.Entry>, regs: seq<Reg>) {
    |es| == |regs| && forall i | 0 <= i < |es| :: EmittedAs(es[i], regs[i], regs)
  }

  /** What the bindings must be for that: one register each, a data or vendor one. */
  ghost predicate CanonFits(canon: Canon, regs: seq<Reg>) {
    && (forall a, b | a in canon && b in canon && canon[a].name == canon[b].name :: a == b)
    && forall r | r in regs && r.addr in canon :: (r.role == Data || r.role == Extension)
         && CanonicalFor(canon[r.addr], r, regs)
  }

  ghost predicate NoEmptyRegs(regs: seq<Reg>) { forall i | 0 <= i < |regs| :: regs[i].size >= 1 }

  lemma {:induction false} EmissionFits(regs: seq<Reg>, canon: Canon, lo: int, hi: int, k: nat)
    requires Tiles(regs, lo, hi) && NoEmptyRegs(regs) && CanonFits(canon, regs) && k <= |regs|
    ensures |Emission(regs[..k], canon)| == k
    ensures forall i | 0 <= i < k :: EmittedAs(Emission(regs[..k], canon)[i], regs[i], regs)
  {
    hide *;
    if k == 0 {
      NothingEmitted(canon);
      assert regs[..0] == [];
    } else {
      EmissionFits(regs, canon, lo, hi, k - 1);
      NotSeenYet(regs, canon, lo, hi, k - 1);
      var e := OneMoreEmitted(regs, canon, k);
      forall i | 0 <= i < k ensures EmittedAs(Emission(regs[..k], canon)[i], regs[i], regs) {}
    }
  }

  lemma NothingEmitted(canon: Canon)
    ensures Emission([], canon) == []
  {}

  lemma OneMoreEmitted(regs: seq<Reg>, canon: Canon, k: nat) returns (e: M.Entry)
    requires 0 < k <= |regs| && CanonFits(canon, regs)
    requires regs[k - 1].addr in canon ==> canon[regs[k - 1].addr].name !in SeenNames(regs[..k - 1], canon)
    ensures EmittedAs(e, regs[k - 1], regs) && Emission(regs[..k], canon) == Emission(regs[..k - 1], canon) + [e]
  {
    var r := regs[k - 1];
    assert regs[..k][..k - 1] == regs[..k - 1] && r in regs;
    e := if r.addr in canon then canon[r.addr] else RawEntry(r);
    EmittedOne(r, canon, regs);
    hide EmittedAs, CanonFits, SeenNames, RawEntry;
  }

  /** Addresses increase, so a canonical entry is met once. */
  lemma NotSeenYet(regs: seq<Reg>, canon: Canon, lo: int, hi: int, k: nat)
    requires Tiles(regs, lo, hi) && NoEmptyRegs(regs) && CanonFits(canon, regs) && k < |regs|
    ensures regs[k].addr in canon ==> canon[regs[k].addr].name !in SeenNames(regs[..k], canon)
  {
    hide Tiles;
    forall j | 0 <= j < k && regs[k].addr in canon && regs[j].addr in canon
      ensures canon[regs[j].addr].name != canon[regs[k].addr].name
    {
      TilesOrder(regs, lo, hi, j, k);
      assert regs[j].size >= 1;
    }
  }

  lemma EmittedOne(r: Reg, canon: Canon, regs: seq<Reg>)
    requires CanonFits(canon, regs) && r in regs
    ensures EmittedAs(if r.addr in canon then canon[r.addr] else RawEntry(r), r, regs)
  {}

  /** Registers whose sizes match their types. */
  ghost predicate SizesMatch(regs: seq<Reg>) {
    forall i | 0 <= i < |regs| :: Sizeless(regs[i].typ) || regs[i].size == TypeWidth(regs[i].typ)
  }

  lemma EmittedEntriesFor(es: seq<M.Entry>, regs: seq<Reg>)
    requires Emitted(es, regs) && SizesMatch(regs)
    ensures EntriesFor(es, regs)
  {
    forall i | 0 <= i < |es|
      ensures HasWidth(es[i].reg) && es[i].reg.address == regs[i].addr && Width(es[i].reg) == regs[i].size
    {
      assert EmittedAs(es[i], regs[i], regs);
    }
  }

  // ------------------------------------------------------------ serving

  function WordOf(block: seq<int>, a: int): Word
    requires AreWords(block) && HOLDING_BASE <= a < HOLDING_BASE + |block|
  {
    block[a - HOLDING_BASE]
  }

  /** The block of a device as readable registers. */
  function MemoryOf(block: seq<int>): Memory
    requires AreWords(block)
  {
    map a | HOLDING_BASE <= a < HOLDING_BASE + |block| :: WordOf(block, a)
  }

  /** A device that serves the entries serves the structure of the image. */
  lemma ServedStructure(es: seq<M.Entry>, regs: seq<Reg>, block: seq<int>)
    requires Emitted(es, regs) && SizesMatch(regs) && AreWords(block) && M.Serves(block, es)
    ensures ServesStructure(MemoryOf(block), regs)
  {
    forall r | r in regs && r.role != Data && r.role != Extension ensures ServesReg(MemoryOf(block), r) {
      var i :| 0 <= i < |regs| && regs[i] == r;
      assert EmittedAs(es[i], regs[i], regs);
      assert RawEntry(r) in es;
      assert Sizeless(r.typ) || r.size == TypeWidth(r.typ);
      hide Emitted, SizesMatch, EmittedAs, NameOf, M.Serves;
      ServedOne(r, block, es);
    }
  }

  lemma ServedOne(r: Reg, block: seq<int>, es: seq<M.Entry>)
    requires AreWords(block) && M.Serves(block, es) && RawEntry(r) in es
    requires Sizeless(r.typ) || r.size == TypeWidth(r.typ)
    ensures ServesReg(MemoryOf(block), r)
  {
    hide IntToWords, NameOf;
    var reg, off := RawEntry(r).reg, r.addr - HOLDING_BASE;
    assert Width(reg) == r.size;
    assert M.WordsAt(block, reg) == IntToWords(r.value, r.size);
    forall k | 0 <= k < r.size ensures block[off + k] == IntToWords(r.value, r.size)[k] {
      assert M.WordsAt(block, reg)[k] == block[off + k];
    }
  }

  // ------------------------------------------------------------ positions in the chain

  ghost function StartOf(cat: Catalog, chain: seq<int>, i: nat): nat
    requires i <= |chain| && forall k | 0 <= k < |chain| :: chain[k] in cat
  {
    if i == 0 then 0 else |cat[chain[0]]| + StartOf(cat, chain[1..], i - 1)
  }

  lemma {:induction false} ModelRegAt(pts: seq<PointSpec>, mid: int, length: int, sf: ScaleFactors, addr: int, l: nat)
    requires Covers(sf, pts)
    ensures |ModelRegs(pts, mid, length, sf, addr)| == |pts|
    ensures l < |pts| ==> var r := ModelRegs(pts, mid, length, sf, addr)[l];
      r.model == mid && r.name == pts[l].name && OfModel(r)
  {
    if pts != [] {
      CoversTail(sf, pts);
      ModelRegAt(pts[1..], mid, length, sf, addr + pts[0].size, if l == 0 then 0 else l - 1);
    }
  }

  /** The k-th register of a chain is a point of one of its models. */
  lemma {:induction false} ChainRegAt(cat: Catalog, sf: ScaleFactors, chain: seq<int>, addr: int, k: nat)
    returns (i: nat, l: nat)
    requires Buildable(cat, sf, chain) && k < |ChainRegs(cat, sf, chain, addr)|
    ensures i < |chain| && l < |cat[chain[i]]| && k == StartOf(cat, chain, i) + l
    ensures var r := ChainRegs(cat, sf, chain, addr)[k];
      r.model == chain[i] && r.name == cat[chain[i]][l].name && OfModel(r)
  {
    hide ModelRegs, Covers, ModelLength, SumSizes, OfModel;
    var pts := cat[chain[0]];
    var n, first := |pts|, ModelRegs(pts, chain[0], ModelLength(pts), sf, addr);
    ModelRegAt(pts, chain[0], ModelLength(pts), sf, addr, k);
    if k < n {
      i, l := 0, k;
    } else {
      i, l := ChainRegAt(cat, sf, chain[1..], addr + SumSizes(pts), k - n);
      assert chain[1..][i] == chain[i + 1];
      i := i + 1;
    }
  }

  /** The first model and the rest of a chain, in the image. */
  lemma UnfoldedRegs(cat: Catalog, sf: ScaleFactors, chain: seq<int>, addr: int, i: nat)
    requires Buildable(cat, sf, chain) && 0 < i < |chain|
    ensures Buildable(cat, sf, chain[1..])
    ensures StartOf(cat, chain, i) == |cat[chain[0]]| + StartOf(cat, chain[1..], i - 1)
    ensures |ChainRegs(cat, sf, chain, addr)| >= |cat[chain[0]]|
    ensures ChainRegs(cat, sf, chain, addr)[|cat[chain[0]]|..]
      == ChainRegs(cat, sf, chain[1..], addr + SumSizes(cat[chain[0]]))
  {
    ModelRegAt(cat[chain[0]], chain[0], ModelLength(cat[chain[0]]), sf, addr, 0);
    hide ModelRegs, Covers, ModelLength, SumSizes;
  }

  /** And in the dump. */
  lemma UnfoldedModels(cat: Catalog, sf: ScaleFactors, chain: seq<int>, addr: int, index: nat)
    requires Buildable(cat, sf, chain) && chain != [] && Buildable(cat, sf, chain[1..])
    ensures ExpectedModels(cat, sf, chain, addr, index) != []
    ensures ExpectedModels(cat, sf, chain, addr, index)[1..]
         == ExpectedModels(cat, sf, chain[1..], addr + SumSizes(cat[chain[0]]), index + 1)
  {
    hide ModelRegs, Covers, ModelLength, SumSizes, ExpectedModel;
  }

  /** What the header of a model and its entry in the dump have in common. */
  ghost predicate HeaderOf(r: Reg, m: ModelDump, mid: int) {
    r.role == Header && r.name == Id && r.model == mid && r.size == 1 && m.id == mid && m.base == r.addr
  }

  lemma FirstHeader(cat: Catalog, sf: ScaleFactors, chain: seq<int>, addr: int, index: nat)
    requires Buildable(cat, sf, chain) && chain != [] && ValidModel(cat, sf, chain[0])
    ensures ChainRegs(cat, sf, chain, addr) != [] && ExpectedModels(cat, sf, chain, addr, index) != []
    ensures HeaderOf(ChainRegs(cat, sf, chain, addr)[0], ExpectedModels(cat, sf, chain, addr, index)[0], chain[0])
  {
    var pts := cat[chain[0]];
    assert ModelRegs(pts, chain[0], ModelLength(pts), sf, addr)[0]
      == PointReg(pts[0], chain[0], ModelLength(pts), sf, addr);
    hide ModelRegs, Covers, ModelLength, SumSizes, EntriesOf, PublishedSfs, ValidBody;
  }

  lemma ValidRest(cat: Catalog, sf: ScaleFactors, chain: seq<int>)
    requires ValidChain(cat, sf, chain) && chain != []
    ensures ValidChain(cat, sf, chain[1..]) && ValidModel(cat, sf, chain[0])
  {
    hide ValidModel;
    forall k | 0 <= k < |chain[1..]| ensures ValidModel(cat, sf, chain[1..][k]) {
      assert chain[1..][k] == chain[k + 1];
    }
  }

  /** The header of each model is where the dump expects it. */
  lemma {:induction false} HeaderIn(cat: Catalog, sf: ScaleFactors, chain: seq<int>, addr: int, index: nat, i: nat)
    requires ValidChain(cat, sf, chain) && i < |chain|
    ensures StartOf(cat, chain, i) < |ChainRegs(cat, sf, chain, addr)|
      && i < |ExpectedModels(cat, sf, chain, addr, index)|
    ensures HeaderOf(ChainRegs(cat, sf, chain, addr)[StartOf(cat, chain, i)],
                     ExpectedModels(cat, sf, chain, addr, index)[i], chain[i])
  {
    hide *;
    ValidRest(cat, sf, chain);
    InCatalog(cat, sf, chain);
    if i == 0 {
      FirstHeader(cat, sf, chain, addr, index);
      StartOfFirst(cat, chain);
    } else {
      var next, n := addr + SumSizes(cat[chain[0]]), |cat[chain[0]]|;
      UnfoldedRegs(cat, sf, chain, addr, i);
      UnfoldedModels(cat, sf, chain, addr, index);
      HeaderIn(cat, sf, chain[1..], next, index + 1, i - 1);
      var s := StartOf(cat, chain[1..], i - 1);
      assert ChainRegs(cat, sf, chain, addr)[n + s] == ChainRegs(cat, sf, chain, addr)[n..][s];
      assert ExpectedModels(cat, sf, chain, addr, index)[i] == ExpectedModels(cat, sf, chain, addr, index)[1..][i - 1];
      assert chain[1..][i - 1] == chain[i];
    }
  }

  lemma InCatalog(cat: Catalog, sf: ScaleFactors, chain: seq<int>)
    requires Buildable(cat, sf, chain)
    ensures forall k | 0 <= k < |chain| :: chain[k] in cat
  {}

  lemma StartOfFirst(cat: Catalog, chain: seq<int>)
    requires forall k | 0 <= k < |chain| :: chain[k] in cat
    ensures StartOf(cat, chain, 0) == 0
  {}

  lemma {:induction false} StartGrows(cat: Catalog, chain: seq<int>, i: nat, j: nat)
    requires (forall k | 0 <= k < |chain| :: chain[k] in cat && cat[chain[k]] != []) && i < j <= |chain|
    ensures StartOf(cat, chain, i) < StartOf(cat, chain, j)
  {
    if i > 0 {
      StartGrows(cat, chain[1..], i - 1, j - 1);
    } else if j > 1 {
      StartGrows(cat, chain[1..], 0, j - 1);
    }
  }

  // ------------------------------------------------------------ sizes in the image

  lemma {:induction false} ModelSizes(pts: seq<PointSpec>, mid: int, length: int, sf: ScaleFactors, addr: int)
    requires Covers(sf, pts)
    requires forall i | 0 <= i < |pts| :: Sizeless(pts[i].typ) || pts[i].size == TypeWidth(pts[i].typ)
    ensures SizesMatch(ModelRegs(pts, mid, length, sf, addr))
  {
    if pts != [] {
      CoversTail(sf, pts);
      ModelSizes(pts[1..], mid, length, sf, addr + pts[0].size);
    }
  }

  lemma ValidSizes(cat: Catalog, sf: ScaleFactors, mid: int)
    requires ValidModel(cat, sf, mid)
    ensures forall i | 0 <= i < |cat[mid]| ::
      Sizeless(cat[mid][i].typ) || cat[mid][i].size == TypeWidth(cat[mid][i].typ)
  {
    var pts := cat[mid];
    forall i | 0 <= i < |pts| ensures Sizeless(pts[i].typ) || pts[i].size == TypeWidth(pts[i].typ) {
      if i >= 2 {
        assert pts[i] == pts[2..][i - 2];
      }
    }
  }

  lemma {:induction false} ChainSizes(cat: Catalog, sf: ScaleFactors, chain: seq<int>, addr: int)
    requires ValidChain(cat, sf, chain)
    ensures SizesMatch(ChainRegs(cat, sf, chain, addr))
  {
    if chain != [] {
      var pts := cat[chain[0]];
      ValidRest(cat, sf, chain);
      ValidSizes(cat, sf, chain[0]);
      ModelSizes(pts, chain[0], ModelLength(pts), sf, addr);
      hide ValidModel, ModelRegs, Covers, ModelLength, SumSizes;
      ChainSizes(cat, sf, chain[1..], addr + SumSizes(pts));
    }
  }

  lemma {:induction false} VendorSizes(vendor: seq<Vendor>, addr: int)
    requires VendorTyped(vendor)
    ensures SizesMatch(VendorRegs(vendor, addr))
    ensures forall k | 0 <= k < |VendorRegs(vendor, addr)| :: VendorRegs(vendor, addr)[k].addr >= addr
  {
    if vendor != [] {
      VendorSizes(vendor[1..], addr + TypeWidth(vendor[0].typ));
    }
  }

  /** In an image of valid models every size is that of its type. */
  lemma ImageSizes(cat: Catalog, sf: ScaleFactors, chain: seq<int>, vendor: seq<Vendor>)
    requires ValidChain(cat, sf, chain) && VendorTyped(vendor)
    ensures SizesMatch(ImageRegs(cat, sf, chain, vendor))
  {
    ImageIs(cat, sf, chain, vendor);
    ChainSizes(cat, sf, chain, BASE + 2);
    VendorSizes(vendor, BASE + 4 + ChainSize(cat, chain));
    hide ValidChain, ImageRegs, ChainRegs, VendorRegs, ChainSize;
  }

  // ------------------------------------------------------------ the device of a generated map

  ghost predicate DistinctModels(chain: seq<int>) { forall i, j | 0 <= i < j < |chain| :: chain[i] != chain[j] }

  /** A positive model number, and the model's points under distinct names. */
  ghost predicate ProperModel(cat: Catalog, mid: int) {
    && mid in cat && mid > 0
    && (forall l | 0 <= l < |cat[mid]| :: Proper(cat[mid][l].name))
    && forall l, m | 0 <= l < m < |cat[mid]| :: cat[mid][l].name != cat[mid][m].name
  }

  ghost predicate ProperChain(cat: Catalog, chain: seq<int>) {
    forall i | 0 <= i < |chain| :: ProperModel(cat, chain[i])
  }

  /** Names clash, if at all, among the raw points of the chain: markers carry addresses, and canonical
      and vendor names are chosen apart. */
  ghost predicate OthersDistinct(es: seq<M.Entry>, regs: seq<Reg>) {
    && |es| == |regs|
    && forall i, j | 0 <= i < j < |es| && es[i].name == es[j].name ::
         OfModel(regs[i]) && OfModel(regs[j]) && es[i].name == NameOf(regs[i]) && es[j].name == NameOf(regs[j])
  }

  /** Where the chain lies in the image. */
  lemma ChainWithin(cat: Catalog, sf: ScaleFactors, chain: seq<int>, vendor: seq<Vendor>)
    requires Buildable(cat, sf, chain) && VendorTyped(vendor)
    ensures var regs, c := ImageRegs(cat, sf, chain, vendor), ChainRegs(cat, sf, chain, BASE + 2);
      && |regs| >= 2 + |c|
      && (forall k | 0 <= k < |c| :: regs[2 + k] == c[k])
      && (forall k | 0 <= k < |regs| && OfModel(regs[k]) :: 2 <= k < 2 + |c|)
  {
    hide *;
    ImageIs(cat, sf, chain, vendor);
    var end := BASE + 2 + ChainSize(cat, chain);
    VendorRoles(vendor, end + 2);
    MarkerRoles(end);
    InnerPart(ImageRegs(cat, sf, chain, vendor), MarkerRegs(), ChainRegs(cat, sf, chain, BASE + 2), EndRegs(end),
              VendorRegs(vendor, end + 2));
  }

  lemma InnerPart(regs: seq<Reg>, a: seq<Reg>, c: seq<Reg>, e: seq<Reg>, v: seq<Reg>)
    requires regs == a + c + e + v && |a| == 2
    requires (forall k | 0 <= k < 2 :: !OfModel(a[k])) && forall k | 0 <= k < |e| :: !OfModel(e[k])
    requires forall k | 0 <= k < |v| :: !OfModel(v[k])
    ensures |regs| >= 2 + |c| && forall k | 0 <= k < |c| :: regs[2 + k] == c[k]
    ensures forall k | 0 <= k < |regs| && OfModel(regs[k]) :: 2 <= k < 2 + |c|
  {
    hide OfModel;
    assert forall k | 0 <= k < 2 :: regs[k] == a[k];
    assert forall k | 0 <= k < |e| :: regs[2 + |c| + k] == e[k];
    assert forall k | 2 + |c| + |e| <= k < |regs| :: regs[k] == v[k - 2 - |c| - |e|];
  }

  lemma MarkerRoles(end: int)
    ensures |MarkerRegs()| == 2 && forall k | 0 <= k < 2 :: !OfModel(MarkerRegs()[k])
    ensures forall k | 0 <= k < |EndRegs(end)| :: !OfModel(EndRegs(end)[k])
  {}

  lemma {:induction false} VendorRoles(vendor: seq<Vendor>, addr: int)
    requires VendorTyped(vendor)
    ensures forall k | 0 <= k < |VendorRegs(vendor, addr)| :: !OfModel(VendorRegs(vendor, addr)[k])
  {
    if vendor != [] {
      VendorRoles(vendor[1..], addr + TypeWidth(vendor[0].typ));
    }
  }

  /** Without repetition no names clash. */
  lemma DistinctChainDistinctNames(cat: Catalog, sf: ScaleFactors, chain: seq<int>, vendor: seq<Vendor>,
                                   es: seq<M.Entry>)
    requires Buildable(cat, sf, chain) && VendorTyped(vendor) && ProperChain(cat, chain) && DistinctModels(chain)
    requires OthersDistinct(es, ImageRegs(cat, sf, chain, vendor))
    ensures NamesDistinct(es)
  {
    ChainWithin(cat, sf, chain, vendor);
    var regs, c := ImageRegs(cat, sf, chain, vendor), ChainRegs(cat, sf, chain, BASE + 2);
    hide ImageRegs, ChainRegs, NameOf, Buildable, ProperChain, DistinctModels, StartOf;
    forall a, b | 0 <= a < b < |es| ensures es[a].name != es[b].name {
      if es[a].name == es[b].name {
        assert NameOf(regs[a]) == NameOf(regs[b]) && OfModel(regs[a]) && OfModel(regs[b]);
        KeysDistinct(cat, sf, chain, BASE + 2, a - 2, b - 2);
        assert false;
      }
    }
  }

  lemma KeysDistinct(cat: Catalog, sf: ScaleFactors, chain: seq<int>, addr: int, a: nat, b: nat)
    requires Buildable(cat, sf, chain) && ProperChain(cat, chain) && DistinctModels(chain)
    requires a < b < |ChainRegs(cat, sf, chain, addr)|
    ensures NameOf(ChainRegs(cat, sf, chain, addr)[a]) != NameOf(ChainRegs(cat, sf, chain, addr)[b])
  {
    var i, l := ChainRegAt(cat, sf, chain, addr, a);
    var j, m := ChainRegAt(cat, sf, chain, addr, b);
    assert ProperModel(cat, chain[i]) && ProperModel(cat, chain[j]);
    hide ChainRegs, NameOf, Buildable, Proper;
    assert Proper(cat[chain[i]][l].name) && Proper(cat[chain[j]][m].name);
    NameIsKey(ChainRegs(cat, sf, chain, addr)[a], ChainRegs(cat, sf, chain, addr)[b]);
  }

  /** The dump of a generated chain. */
  ghost function ExpectedDump(cat: Catalog, sf: ScaleFactors, chain: seq<int>): Dump
    requires Buildable(cat, sf, chain)
  {
    Dump(BASE, ExpectedModels(cat, sf, chain, BASE + 2, 0), Some(BASE + 2 + ChainSize(cat, chain)), [])
  }

  /** What the simulated device of a loaded map holds. */
  ghost predicate DeviceBlock(block: seq<int>, es: seq<M.Entry>) {
    AreWords(block) && M.Serves(block, es) && M.ZeroElsewhere(block, es)
  }

  /** From generator to walker through the emitted map and the simulated device: the walk returns the
      generated chain exactly when the chain repeats no model. A repeated model's points overwrite the
      earlier ones of the same name when the map is loaded, so the earlier header is never served. */
  lemma DeviceWalksExactly(cat: Catalog, sf: ScaleFactors, chain: seq<int>, vendor: seq<Vendor>, es: seq<M.Entry>,
                           block: seq<int>, limit: nat)
    requires ValidChain(cat, sf, chain) && VendorTyped(vendor) && ProperChain(cat, chain) && |chain| < limit
    requires var regs := ImageRegs(cat, sf, chain, vendor); Emitted(es, regs) && OthersDistinct(es, regs)
    requires DeviceBlock(block, Loaded(es))
    ensures AreWords(block)
    ensures WalkFrom(MemoryOf(block), cat, BASE, limit) == Ok(ExpectedDump(cat, sf, chain)) <==> DistinctModels(chain)
  {
    hide *;
    BlockParts(block, Loaded(es));
    ImageSizes(cat, sf, chain, vendor);
    if DistinctModels(chain) {
      DistinctWalks(cat, sf, chain, vendor, es, block, limit);
    } else {
      RepeatedIsLost(cat, sf, chain, vendor, es, block, limit);
    }
  }

  /** For instance a chain of one model twice is never walked back. */
  lemma TwiceIsLost(cat: Catalog, sf: ScaleFactors, mid: int, es: seq<M.Entry>, block: seq<int>, limit: nat)
    requires ValidChain(cat, sf, [mid, mid]) && ProperChain(cat, [mid, mid]) && limit > 2
    requires var regs := ImageRegs(cat, sf, [mid, mid], []); Emitted(es, regs) && OthersDistinct(es, regs)
    requires DeviceBlock(block, Loaded(es))
    ensures AreWords(block) && WalkFrom(MemoryOf(block), cat, BASE, limit) != Ok(ExpectedDump(cat, sf, [mid, mid]))
  {
    assert [mid, mid][0] == [mid, mid][1];
    assert !DistinctModels([mid, mid]);
    hide *;
    DeviceWalksExactly(cat, sf, [mid, mid], [], es, block, limit);
  }

  lemma BlockParts(block: seq<int>, es: seq<M.Entry>)
    requires DeviceBlock(block, es)
    ensures AreWords(block) && M.Serves(block, es) && M.ZeroElsewhere(block, es)
  {}

  lemma DistinctServes(cat: Catalog, sf: ScaleFactors, chain: seq<int>, vendor: seq<Vendor>, es: seq<M.Entry>,
                       block: seq<int>)
    requires Buildable(cat, sf, chain) && VendorTyped(vendor) && ProperChain(cat, chain) && DistinctModels(chain)
    requires var regs := ImageRegs(cat, sf, chain, vendor);
      Emitted(es, regs) && SizesMatch(regs) && OthersDistinct(es, regs)
    requires DeviceBlock(block, Loaded(es))
    ensures Loaded(es) == es && NamesDistinct(es) && AreWords(block)
    ensures ServesStructure(MemoryOf(block), Walkable(cat, sf, chain))
  {
    hide *;
    BlockParts(block, Loaded(es));
    EmittedCount(es, ImageRegs(cat, sf, chain, vendor));
    DistinctChainDistinctNames(cat, sf, chain, vendor, es);
    LoadedIs(es);
    ServedStructure(es, ImageRegs(cat, sf, chain, vendor), block);
    StructureOfImage(MemoryOf(block), cat, sf, chain, vendor);
  }

  lemma DistinctWalks(cat: Catalog, sf: ScaleFactors, chain: seq<int>, vendor: seq<Vendor>, es: seq<M.Entry>,
                      block: seq<int>, limit: nat)
    requires ValidChain(cat, sf, chain) && VendorTyped(vendor) && ProperChain(cat, chain) && |chain| < limit
    requires DistinctModels(chain)
    requires var regs := ImageRegs(cat, sf, chain, vendor);
      Emitted(es, regs) && SizesMatch(regs) && OthersDistinct(es, regs)
    requires DeviceBlock(block, Loaded(es))
    ensures WalkFrom(MemoryOf(block), cat, BASE, limit) == Ok(ExpectedDump(cat, sf, chain))
  {
    hide *;
    DistinctServes(cat, sf, chain, vendor, es, block);
    WalkInvertsBuild(MemoryOf(block), cat, sf, chain, limit);
    DumpIs(cat, sf, chain);
  }

  lemma EmittedCount(es: seq<M.Entry>, regs: seq<Reg>)
    requires Emitted(es, regs)
    ensures |es| == |regs| && forall i | 0 <= i < |es| :: EmittedAs(es[i], regs[i], regs)
  {}

  lemma DumpIs(cat: Catalog, sf: ScaleFactors, chain: seq<int>)
    requires Buildable(cat, sf, chain)
    ensures forall i | 0 <= i < |chain| :: chain[i] in cat
    ensures ExpectedDump(cat, sf, chain)
         == Dump(BASE, ExpectedModels(cat, sf, chain, BASE + 2, 0), Some(BASE + 2 + ChainSize(cat, chain)), [])
  {}

  lemma StructureOfImage(mem: Memory, cat: Catalog, sf: ScaleFactors, chain: seq<int>, vendor: seq<Vendor>)
    requires Buildable(cat, sf, chain) && VendorTyped(vendor) && ServesStructure(mem, ImageRegs(cat, sf, chain, vendor))
    ensures ServesStructure(mem, Walkable(cat, sf, chain))
  {
    hide Walkable, VendorRegs, ServesStructure;
    ServesParts(mem, Walkable(cat, sf, chain), VendorRegs(vendor, BASE + 4 + ChainSize(cat, chain)));
  }

  lemma RepeatedIsLost(cat: Catalog, sf: ScaleFactors, chain: seq<int>, vendor: seq<Vendor>, es: seq<M.Entry>,
                       block: seq<int>, limit: nat)
    requires ValidChain(cat, sf, chain) && VendorTyped(vendor) && ProperChain(cat, chain) && !DistinctModels(chain)
    requires var regs := ImageRegs(cat, sf, chain, vendor); Emitted(es, regs) && SizesMatch(regs)
    requires DeviceBlock(block, Loaded(es))
    ensures WalkFrom(MemoryOf(block), cat, BASE, limit) != Ok(ExpectedDump(cat, sf, chain))
  {
    var i: nat, j: nat :| i < j < |chain| && chain[i] == chain[j];
    var mem := MemoryOf(block);
    var r := HeaderLost(cat, sf, chain, vendor, es, block, i, j);
    assert ProperModel(cat, chain[i]);
    hide ImageRegs, SizesMatch, Emitted, M.Serves, M.ZeroElsewhere, WalkFrom, ProperModel, ProperChain, ValidChain,
         Loaded,
         ExpectedModels, MemoryOf, Buildable, DeviceBlock;
    if WalkFrom(mem, cat, BASE, limit) == Ok(ExpectedDump(cat, sf, chain)) {
      DS.WalkSound(mem, cat, BASE, limit);
      assert DS.Grounded(mem, ExpectedDump(cat, sf, chain).models[i]);
      HeaderRead(mem, r.addr);
      assert false;
    }
  }

  lemma HeaderRead(mem: Memory, at: int)
    ensures ReadWords(mem, at, 2).Ok? ==> at in mem && ReadWords(mem, at, 2).value[0] == mem[at]
  {
    if ReadWords(mem, at, 2).Ok? {
      assert at in mem && ReadWords(mem, at, 2).value[0] == mem[at + 0];
    }
  }

  /** The first of two headers of a repeated model is not served. */
  lemma HeaderLost(cat: Catalog, sf: ScaleFactors, chain: seq<int>, vendor: seq<Vendor>, es: seq<M.Entry>,
                   block: seq<int>, i: nat, j: nat) returns (r: Reg)
    requires ValidChain(cat, sf, chain) && VendorTyped(vendor) && i < j < |chain| && chain[i] == chain[j]
    requires var regs := ImageRegs(cat, sf, chain, vendor); Emitted(es, regs) && SizesMatch(regs)
    requires DeviceBlock(block, Loaded(es))
    ensures i < |ExpectedModels(cat, sf, chain, BASE + 2, 0)|
    ensures ExpectedModels(cat, sf, chain, BASE + 2, 0)[i].base == r.addr
    ensures ExpectedModels(cat, sf, chain, BASE + 2, 0)[i].id == chain[i]
    ensures r.addr in MemoryOf(block) ==> MemoryOf(block)[r.addr] == 0
  {
    hide *;
    NonEmptyModels(cat, sf, chain);
    var regs, c := ImageRegs(cat, sf, chain, vendor), ChainRegs(cat, sf, chain, BASE + 2);
    var a, b := StartOf(cat, chain, i), StartOf(cat, chain, j);
    ChainWithin(cat, sf, chain, vendor);
    HeaderIn(cat, sf, chain, BASE + 2, 0, i);
    HeaderIn(cat, sf, chain, BASE + 2, 0, j);
    StartGrows(cat, chain, i, j);
    r := c[a];
    HeaderParts(c[a], ExpectedModels(cat, sf, chain, BASE + 2, 0)[i], chain[i]);
    HeaderParts(c[b], ExpectedModels(cat, sf, chain, BASE + 2, 0)[j], chain[j]);
    assert regs[2 + a] == r && regs[2 + b] == c[b];
    EmittedEntriesFor(es, regs);
    EmittedCount(es, regs);
    GeneratedMapIsDisjoint(cat, sf, chain, vendor, es);
    OverwrittenUnserved(es, regs, 2 + a, 2 + b);
    BlockParts(block, Loaded(es));
    UnservedIsZero(block, Loaded(es), r.addr);
  }

  lemma HeaderParts(r: Reg, m: ModelDump, mid: int)
    requires HeaderOf(r, m, mid)
    ensures r.role == Header && r.name == Id && r.model == mid && r.size == 1 && m.id == mid && m.base == r.addr
  {}

  lemma UnservedIsZero(block: seq<int>, es: seq<M.Entry>, addr: int)
    requires DeviceBlock(block, es) && !M.Valued(es, addr)
    ensures addr in MemoryOf(block) ==> MemoryOf(block)[addr] == 0
  {
    hide M.Valued, M.Serves;
    if addr in MemoryOf(block) {
      assert addr == HOLDING_BASE + (addr - HOLDING_BASE);
    }
  }

  lemma NonEmptyModels(cat: Catalog, sf: ScaleFactors, chain: seq<int>)
    requires ValidChain(cat, sf, chain)
    ensures forall k | 0 <= k < |chain| :: chain[k] in cat && cat[chain[k]] != []
  {
    forall k | 0 <= k < |chain| ensures chain[k] in cat && cat[chain[k]] != [] {
      assert ValidModel(cat, sf, chain[k]);
    }
  }

  /** An entry that a later one of its name replaces leaves its register without a value. */
  lemma OverwrittenUnserved(es: seq<M.Entry>, regs: seq<Reg>, a: nat, b: nat)
    requires |es| == |regs| && a < b < |es| && M.Disjoint(es)
    requires regs[a].role == Header && regs[b].role == Header && regs[a].size == 1
    requires EmittedAs(es[a], regs[a], regs) && EmittedAs(es[b], regs[b], regs)
    requires regs[a].model == regs[b].model && regs[a].name == regs[b].name
    ensures !M.Valued(Loaded(es), regs[a].addr)
  {
    var addr := regs[a].addr;
    LoadedIs(es);
    SameNames(es[a], es[b], regs[a], regs[b], regs);
    assert M.Occupies(es[a].reg, addr);
    hide *;
    forall e | e in Loaded(es) ensures !M.Occupies(e.reg, addr) {
      var k := LastIndex(es, e);
      NotOverwritten(es, e, k, a, b);
      AloneAt(es, a, k, addr);
    }
    NobodyThere(Loaded(es), addr);
  }

  lemma SameNames(e: M.Entry, f: M.Entry, r: Reg, q: Reg, regs: seq<Reg>)
    requires EmittedAs(e, r, regs) && EmittedAs(f, q, regs) && r.role == Header && q.role == Header
    requires r.model == q.model && r.name == q.name
    ensures e.name == f.name && e == RawEntry(r)
  {
    hide Decimal;
  }

  lemma LastIndex(es: seq<M.Entry>, e: M.Entry) returns (k: nat)
    requires LastOfName(es, e)
    ensures LastAt(es, e, k) && k < |es| && es[k] == e
  {
    k :| LastAt(es, e, k);
  }

  lemma NotOverwritten(es: seq<M.Entry>, e: M.Entry, k: nat, a: nat, b: nat)
    requires LastAt(es, e, k) && a < b < |es| && es[a].name == es[b].name
    ensures k != a
  {}

  lemma AloneAt(es: seq<M.Entry>, a: nat, k: nat, addr: int)
    requires M.Disjoint(es) && a < |es| && k < |es| && a != k && M.Occupies(es[a].reg, addr)
    ensures !M.Occupies(es[k].reg, addr)
  {
    hide M.Occupies;
  }

  lemma NobodyThere(es: seq<M.Entry>, addr: int)
    requires forall e | e in es :: !M.Occupies(e.reg, addr)
    ensures !M.Valued(es, addr)
  {}
}
