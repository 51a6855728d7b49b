/** Walking a SunSpec model chain. */
module SunSpecWalk {
  import opened Common
  import opened Codec
  import opened SunSpecImage

  datatype WalkError = NoSunsMarker | MissingWord

  datatype PointDump = PointDump(name: PointName, offset: int, address: int, typ: RegType, size: Option<nat>,
                                 value: Option<int>)

  datatype ModelDump = ModelDump(
    index: nat, id: int, base: int, headerLength: int, known: bool, catalogLength: Option<int>,
    lengthMatches: Option<bool>, points: seq<PointDump>, scaleFactors: ScaleFactors)

  datatype Note =
    | LengthDiffers(id: int, at: int, device: int, catalog: int)
    | PointOmitted(id: int, name: PointName)
    | NotInCatalog(id: int, at: int, device: int)
    | NoEnd(limit: nat)

  datatype Dump = Dump(base: int, models: seq<ModelDump>, endAddress: Option<int>, notes: seq<Note>)

  function PointWidth(p: PointSpec): nat { if Sizeless(p.typ) then p.size else TypeWidth(p.typ) }

  function CatalogBodyLen(pts: seq<PointSpec>): nat {
    if |pts| < 2 then 0 else SumWidths(pts[2..])
  }

  function SumWidths(pts: seq<PointSpec>): nat { if pts == [] then 0 else PointWidth(pts[0]) + SumWidths(pts[1..]) }

  /** One read request; it fails when a word is missing. */
  function ReadWords(mem: Memory, addr: int, count: nat): (r: Result<seq<int>, WalkError>)
    ensures r.Ok? ==> |r.value| == count
  {
    if forall a | addr <= a < addr + count :: a in mem then
      Ok(seq(count, k requires 0 <= k < count && addr + k in mem => mem[addr + k]))
    else
      Err(MissingWord)
  }

  function DecodeInt(typ: RegType, words: seq<int>): int {
    if IsInteger(typ) then Interpreted(typ, BigEndian(words)) else BigEndian(words)
  }

  // ------------------------------------------------------------ one model

  datatype Walked = Walked(points: seq<PointDump>, scaleFactors: ScaleFactors, notes: seq<Note>)

  /** Where a point lies, its value not read. */
  function Blank(p: PointSpec, base: int, at: int): PointDump {
    PointDump(p.name, at - base, at, p.typ, if Sizeless(p.typ) then Some(p.size) else None, None)
  }

  /** The dump entry of a point, its value read only for scale factors and headers. */
  function PointEntry(mem: Memory, p: PointSpec, base: int, at: int): Result<PointDump, WalkError> {
    if p.typ == SunSsf || !p.name.Named? then
      match ReadWords(mem, at, PointWidth(p))
      case Err(e) => Err(e)
      case Ok(words) => Ok(Blank(p, base, at).(value := Some(DecodeInt(p.typ, words))))
    else
      Ok(Blank(p, base, at))
  }

  function Record(acc: Walked, e: PointDump): Walked {
    acc.(points := acc.points + [e],
         scaleFactors := if e.typ == SunSsf && e.value.Some? then acc.scaleFactors[e.name := e.value.value]
                         else acc.scaleFactors)
  }

  /** Lays the remaining catalog points out from at, as far as the declared end. */
  function WalkPoints(mem: Memory, mid: int, pts: seq<PointSpec>, base: int, at: int, end: int, acc: Walked)
    : Result<Walked, WalkError>
  {
    if pts == [] then Ok(acc)
    else if at + PointWidth(pts[0]) > end then Ok(acc.(notes := acc.notes + [PointOmitted(mid, pts[0].name)]))
    else
      match PointEntry(mem, pts[0], base, at)
      case Err(e) => Err(e)
      case Ok(e) => WalkPoints(mem, mid, pts[1..], base, at + PointWidth(pts[0]), end, Record(acc, e))
  }

  /** One model at its header. */
  function WalkModel(mem: Memory, cat: Catalog, index: nat, at: int, id: int, length: int, notes: seq<Note>)
    : Result<(ModelDump, seq<Note>), WalkError>
  {
    if id !in cat then
      Ok((ModelDump(index, id, at, length, false, None, None, [], map[]), notes + [NotInCatalog(id, at, length)]))
    else
      var pts := cat[id];
      var body := CatalogBodyLen(pts);
      var noted := if body != length then notes + [LengthDiffers(id, at, length, body)] else notes;
      match WalkPoints(mem, id, pts, at, at, at + 2 + length, Walked([], map[], noted))
      case Err(e) => Err(e)
      case Ok(w) =>
        Ok((ModelDump(index, id, at, length, true, Some(body), Some(body == length), w.points, w.scaleFactors),
            w.notes))
  }

  /** At most budget more models. */
  function WalkModels(mem: Memory, cat: Catalog, at: int, budget: nat, limit: nat, d: Dump): Result<Dump, WalkError>
    decreases budget
  {
    if budget == 0 then Ok(d.(notes := d.notes + [NoEnd(limit)]))
    else
      match ReadWords(mem, at, 2)
      case Err(e) => Err(e)
      case Ok(header) =>
        if header[0] == END_MODEL_ID then Ok(d.(endAddress := Some(at)))
        else
          match WalkModel(mem, cat, |d.models|, at, header[0], header[1], d.notes)
          case Err(e) => Err(e)
          case Ok(m) =>
            WalkModels(mem, cat, at + 2 + header[1], budget - 1, limit, d.(models := d.models + [m.0], notes := m.1))
  }

  function WalkFrom(mem: Memory, cat: Catalog, base: int, limit: nat): Result<Dump, WalkError> {
    match ReadWords(mem, base, 2)
    case Err(e) => Err(e)
    case Ok(marker) =>
      if marker != [SUNS_FIRST, SUNS_SECOND] then Err(NoSunsMarker)
      else WalkModels(mem, cat, base + 2, limit, limit, Dump(base, [], None, []))
  }

  /** The walk itself: a bounded loop over headers with an inner loop over the catalog's points. */
  method Walk(mem: Memory, cat: Catalog, base: int, limit: nat) returns (r: Result<Dump, WalkError>)
    ensures r == WalkFrom(mem, cat, base, limit)
  {
    var marker := ReadWords(mem, base, 2);
    if marker.Err? {
      return Err(marker.error);
    }
    if marker.value != [SUNS_FIRST, SUNS_SECOND] {
      return Err(NoSunsMarker);
    }
    var d, at := Dump(base, [], None, []), base + 2;
    for i := 0 to limit
      invariant WalkModels(mem, cat, at, limit - i, limit, d) == WalkFrom(mem, cat, base, limit)
    {
      hide WalkFrom, WalkPoints, PointEntry;
      var header := ReadWords(mem, at, 2);
      if header.Err? {
        return Err(header.error);
      }
      var id, length := header.value[0], header.value[1];
      if id == END_MODEL_ID {
        return Ok(d.(endAddress := Some(at)));
      }
      var m, notes := ModelDump(|d.models|, id, at, length, id in cat, None, None, [], map[]), d.notes;
      if id in cat {
        var body := CatalogBodyLen(cat[id]);
        m := m.(catalogLength := Some(body), lengthMatches := Some(body == length));
        if body != length {
          notes := notes + [LengthDiffers(id, at, length, body)];
        }
        var w := LayOut(mem, id, cat[id], at, at + 2 + length, notes);
        if w.Err? {
          return Err(w.error);
        }
        m, notes := m.(points := w.value.points, scaleFactors := w.value.scaleFactors), w.value.notes;
      } else {
        notes := notes + [NotInCatalog(id, at, length)];
      }
      d := d.(models := d.models + [m], notes := notes);
      at := at + 2 + length;
    }
    return Ok(d.(notes := d.notes + [NoEnd(limit)]));
  }

  method LayOut(mem: Memory, mid: int, pts: seq<PointSpec>, base: int, end: int, notes: seq<Note>)
    returns (r: Result<Walked, WalkError>)
    ensures r == WalkPoints(mem, mid, pts, base, base, end, Walked([], map[], notes))
  {
    var acc, at := Walked([], map[], notes), base;
    for i := 0 to |pts|
      invariant WalkPoints(mem, mid, pts[i..], base, at, end, acc)
        == WalkPoints(mem, mid, pts, base, base, end, Walked([], map[], notes))
    {
      var p := pts[i];
      assert pts[i..][0] == p && pts[i..][1..] == pts[i + 1..];
      if at + PointWidth(p) > end {
        return Ok(acc.(notes := acc.notes + [PointOmitted(mid, p.name)]));
      }
      var e := PointEntry(mem, p, base, at);
      if e.Err? {
        return Err(e.error);
      }
      acc := Record(acc, e.value);
      at := at + PointWidth(p);
    }
    return Ok(acc);
  }

  // ------------------------------------------------------------ the walker inverts the generator

  /** What the dump must say of a generated register. */
  ghost function EntryOf(r: Reg, base: int): PointDump {
    PointDump(r.name, r.addr - base, r.addr, r.typ, if Sizeless(r.typ) then Some(r.size) else None,
              if r.role == Header || r.role == Sf then Some(r.value) else None)
  }

  ghost function EntriesOf(regs: seq<Reg>, base: int): seq<PointDump> {
    if regs == [] then [] else [EntryOf(regs[0], base)] + EntriesOf(regs[1..], base)
  }

  /** The published scale factors among some registers. */
  ghost function PublishedSfs(regs: seq<Reg>, acc: ScaleFactors): ScaleFactors {
    if regs == [] then acc
    else PublishedSfs(regs[1..], if regs[0].role == Sf then acc[regs[0].name := regs[0].value] else acc)
  }

  ghost function ExpectedModel(cat: Catalog, sf: ScaleFactors, mid: int, addr: int, index: nat): ModelDump
    requires mid in cat && Covers(sf, cat[mid])
  {
    var pts := cat[mid];
    var regs := ModelRegs(pts, mid, ModelLength(pts), sf, addr);
    ModelDump(index, mid, addr, ModelLength(pts), true, Some(ModelLength(pts)), Some(true),
              EntriesOf(regs, addr), PublishedSfs(regs, map[]))
  }

  ghost function ExpectedModels(cat: Catalog, sf: ScaleFactors, chain: seq<int>, addr: int, index: nat): seq<ModelDump>
    requires Buildable(cat, sf, chain)
  {
    if chain == [] then []
    else
      [ExpectedModel(cat, sf, chain[0], addr, index)]
      + ExpectedModels(cat, sf, chain[1..], addr + SumSizes(cat[chain[0]]), index + 1)
  }

  /** The points of a valid model: a header point that fits one word, or a body point of the right size. */
  ghost predicate ValidPoint(p: PointSpec, mid: int, length: int, sf: ScaleFactors) {
    if p.name.Named? then
      && (!Sizeless(p.typ) ==> p.size == TypeWidth(p.typ))
      && (p.typ == SunSsf ==> p.name in sf && InRange(SunSsf, sf[p.name]))
    else p.typ == Uint16 && p.size == 1 && 0 <= mid < WORD && 0 <= length < WORD
  }

  ghost predicate ValidPoints(pts: seq<PointSpec>, mid: int, length: int, sf: ScaleFactors) {
    forall i | 0 <= i < |pts| :: ValidPoint(pts[i], mid, length, sf)
  }

  lemma PointInverts(mem: Memory, p: PointSpec, mid: int, length: int, sf: ScaleFactors, base: int, at: int)
    requires ValidPoint(p, mid, length, sf)
    requires var r := PointReg(p, mid, length, sf, at); r.role != Data ==> ServesReg(mem, r)
    ensures PointWidth(p) == p.size
    ensures PointEntry(mem, p, base, at) == Ok(EntryOf(PointReg(p, mid, length, sf, at), base))
  {
    var r := PointReg(p, mid, length, sf, at);
    if r.role != Data {
      SpanValues(r.typ);
      OneWord(mem, r);
      hide Interpreted, BigEndian, IntToWords, ServesReg;
      ReadOne(mem, at);
    }
  }

  lemma ReadOne(mem: Memory, at: int)
    requires at in mem
    ensures ReadWords(mem, at, 1) == Ok([mem[at]])
  {
    var r := ReadWords(mem, at, 1);
    assert r.Ok? && |r.value| == 1 && r.value[0] == mem[at + 0];
    assert r.value == [mem[at]];
  }

  /** The accumulator after the entries of some generated registers. */
  ghost function Absorb(acc: Walked, regs: seq<Reg>, base: int): Walked
    decreases |regs|
  {
    if regs == [] then acc else Absorb(Record(acc, EntryOf(regs[0], base)), regs[1..], base)
  }

  /** Scale-factor registers are exactly the ones of the scale-factor type. */
  ghost predicate Tidy(r: Reg) { r.typ == SunSsf <==> r.role == Sf }

  ghost predicate AllTidy(regs: seq<Reg>) { forall i | 0 <= i < |regs| :: Tidy(regs[i]) }

  lemma {:induction false} AbsorbIs(acc: Walked, regs: seq<Reg>, base: int)
    requires AllTidy(regs)
    ensures Absorb(acc, regs, base)
         == Walked(acc.points + EntriesOf(regs, base), PublishedSfs(regs, acc.scaleFactors), acc.notes)
    decreases |regs|
  {
    if regs == [] {
      assert acc.points + [] == acc.points;
    } else {
      var e := EntryOf(regs[0], base);
      AbsorbIs(Record(acc, e), regs[1..], base);
      assert acc.points + ([e] + EntriesOf(regs[1..], base)) == acc.points + [e] + EntriesOf(regs[1..], base);
    }
  }

  lemma {:induction false} RolesMatchTypes(pts: seq<PointSpec>, mid: int, length: int, sf: ScaleFactors, at: int)
    requires ValidPoints(pts, mid, length, sf) && Covers(sf, pts)
    ensures AllTidy(ModelRegs(pts, mid, length, sf, at))
  {
    if pts != [] {
      assert ValidPoint(pts[0], mid, length, sf);
      CoversTail(sf, pts);
      assert ValidPoints(pts[1..], mid, length, sf) by {
        forall i | 0 <= i < |pts[1..]| ensures ValidPoint(pts[1..][i], mid, length, sf) {
          assert ValidPoint(pts[i + 1], mid, length, sf);
        }
      }
      RolesMatchTypes(pts[1..], mid, length, sf, at + pts[0].size);
      var r, rest := PointReg(pts[0], mid, length, sf, at), ModelRegs(pts[1..], mid, length, sf, at + pts[0].size);
      assert Tidy(r);
      hide Tidy;
      forall i | 0 <= i < 1 + |rest| ensures Tidy(([r] + rest)[i]) {
        if i > 0 {
          assert Tidy(rest[i - 1]);
          assert ([r] + rest)[i] == rest[i - 1];
        } else {
          assert ([r] + rest)[0] == r;
        }
      }
      assert ModelRegs(pts, mid, length, sf, at) == [r] + rest;
    }
  }

  lemma {:induction false} PointsAbsorb(mem: Memory, mid: int, length: int, sf: ScaleFactors, pts: seq<PointSpec>,
                                        base: int, at: int, end: int, acc: Walked)
    requires ValidPoints(pts, mid, length, sf) && Covers(sf, pts)
    requires ServesStructure(mem, ModelRegs(pts, mid, length, sf, at)) && at + SumSizes(pts) <= end
    ensures WalkPoints(mem, mid, pts, base, at, end, acc) == Ok(Absorb(acc, ModelRegs(pts, mid, length, sf, at), base))
  {
    hide *;
    if pts == [] {
      NothingToWalk(mem, mid, length, sf, base, at, end, acc);
    } else {
      var p, next := pts[0], at + pts[0].size;
      FirstOfModel(mem, mid, length, sf, pts, at, end);
      var e := EntryOf(PointReg(p, mid, length, sf, at), base);
      PointInverts(mem, p, mid, length, sf, base, at);
      WalkStep(mem, mid, pts, base, at, end, acc, e);
      AbsorbStep(mid, length, sf, pts, base, at, acc);
      PointsAbsorb(mem, mid, length, sf, pts[1..], base, next, end, Record(acc, e));
    }
  }

  lemma NothingToWalk(mem: Memory, mid: int, length: int, sf: ScaleFactors, base: int, at: int, end: int, acc: Walked)
    ensures Covers(sf, [])
    ensures WalkPoints(mem, mid, [], base, at, end, acc) == Ok(Absorb(acc, ModelRegs([], mid, length, sf, at), base))
  {}

  lemma AbsorbStep(mid: int, length: int, sf: ScaleFactors, pts: seq<PointSpec>, base: int, at: int, acc: Walked)
    requires pts != [] && Covers(sf, pts) && Covers(sf, pts[1..])
    requires pts[0].typ == SunSsf && pts[0].name.Named? ==> pts[0].name in sf
    ensures Absorb(acc, ModelRegs(pts, mid, length, sf, at), base)
         == Absorb(Record(acc, EntryOf(PointReg(pts[0], mid, length, sf, at), base)),
                   ModelRegs(pts[1..], mid, length, sf, at + pts[0].size), base)
  {
    hide Record, EntryOf, Covers, PointReg;
    var r, rest := PointReg(pts[0], mid, length, sf, at), ModelRegs(pts[1..], mid, length, sf, at + pts[0].size);
    assert ModelRegs(pts, mid, length, sf, at) == [r] + rest;
    assert ([r] + rest)[1..] == rest;
  }

  lemma FirstOfModel(mem: Memory, mid: int, length: int, sf: ScaleFactors, pts: seq<PointSpec>, at: int, end: int)
    requires pts != [] && Covers(sf, pts) && ServesStructure(mem, ModelRegs(pts, mid, length, sf, at))
    requires ValidPoints(pts, mid, length, sf) && at + SumSizes(pts) <= end
    ensures ValidPoints(pts[1..], mid, length, sf) && ValidPoint(pts[0], mid, length, sf)
    ensures at + pts[0].size <= end && at + pts[0].size + SumSizes(pts[1..]) <= end
    ensures Covers(sf, pts[1..]) && (pts[0].typ == SunSsf && pts[0].name.Named? ==> pts[0].name in sf)
    ensures ServesStructure(mem, ModelRegs(pts[1..], mid, length, sf, at + pts[0].size))
    ensures var r := PointReg(pts[0], mid, length, sf, at); r.role != Data ==> ServesReg(mem, r)
  {
    CoversTail(sf, pts);
    hide ValidPoint;
    var regs := ModelRegs(pts, mid, length, sf, at);
    assert regs[0] == PointReg(pts[0], mid, length, sf, at) && regs[0] in regs;
    assert regs[1..] == ModelRegs(pts[1..], mid, length, sf, at + pts[0].size);
    hide ServesReg;
    assert forall r | r in regs[1..] :: r in regs;
  }

  lemma WalkStep(mem: Memory, mid: int, pts: seq<PointSpec>, base: int, at: int, end: int, acc: Walked, e: PointDump)
    requires pts != [] && at + PointWidth(pts[0]) <= end && PointEntry(mem, pts[0], base, at) == Ok(e)
    ensures WalkPoints(mem, mid, pts, base, at, end, acc)
         == WalkPoints(mem, mid, pts[1..], base, at + PointWidth(pts[0]), end, Record(acc, e))
  {
    hide PointEntry, Record;
  }

  lemma CoversTail(sf: ScaleFactors, pts: seq<PointSpec>)
    requires pts != [] && Covers(sf, pts)
    ensures Covers(sf, pts[1..]) && (pts[0].typ == SunSsf && pts[0].name.Named? ==> pts[0].name in sf)
  {
    assert pts[0] in pts;
  }

  lemma ModelPointsValid(cat: Catalog, sf: ScaleFactors, mid: int)
    requires ValidModel(cat, sf, mid)
    ensures ValidPoints(cat[mid], mid, ModelLength(cat[mid]), sf)
    ensures CatalogBodyLen(cat[mid]) == ModelLength(cat[mid])
  {
    var pts := cat[mid];
    forall i | 0 <= i < |pts| ensures ValidPoint(pts[i], mid, ModelLength(pts), sf) {
      if i >= 2 {
        assert pts[i] == pts[2..][i - 2];
      }
    }
    WidthsAreSizes(pts[2..], sf);
  }

  lemma {:induction false} WidthsAreSizes(pts: seq<PointSpec>, sf: ScaleFactors)
    requires ValidBody(pts, sf)
    ensures SumWidths(pts) == SumSizes(pts)
  {
    if pts != [] {
      assert pts[0] in pts;
      assert forall p | p in pts[1..] :: p in pts;
      WidthsAreSizes(pts[1..], sf);
    }
  }

  lemma ModelInverts(mem: Memory, cat: Catalog, sf: ScaleFactors, mid: int, at: int, index: nat, notes: seq<Note>)
    requires ValidModel(cat, sf, mid) && Covers(sf, cat[mid])
    requires ServesStructure(mem, ModelRegs(cat[mid], mid, ModelLength(cat[mid]), sf, at))
    ensures ReadWords(mem, at, 2) == Ok([mid, ModelLength(cat[mid])])
    ensures WalkModel(mem, cat, index, at, mid, ModelLength(cat[mid]), notes)
         == Ok((ExpectedModel(cat, sf, mid, at, index), notes))
  {
    hide *;
    ValidId(cat, sf, mid);
    var pts, length := cat[mid], ModelLength(cat[mid]);
    var regs, acc := ModelRegs(pts, mid, length, sf, at), Walked([], map[], notes);
    ModelPointsValid(cat, sf, mid);
    HeaderReads(mem, cat, sf, mid, at);
    ValidCovers(cat, sf, mid);
    PointsAbsorb(mem, mid, length, sf, pts, at, at, at + 2 + length, acc);
    RolesMatchTypes(pts, mid, length, sf, at);
    AbsorbIs(acc, regs, at);
    assert [] + EntriesOf(regs, at) == EntriesOf(regs, at);
    KnownModel(mem, cat, sf, mid, at, index, notes);
  }

  lemma KnownModel(mem: Memory, cat: Catalog, sf: ScaleFactors, mid: int, at: int, index: nat, notes: seq<Note>)
    requires mid in cat && Covers(sf, cat[mid]) && CatalogBodyLen(cat[mid]) == ModelLength(cat[mid])
    requires var pts, length := cat[mid], ModelLength(cat[mid]);
      var regs := ModelRegs(pts, mid, length, sf, at);
      WalkPoints(mem, mid, pts, at, at, at + 2 + length, Walked([], map[], notes))
      == Ok(Walked(EntriesOf(regs, at), PublishedSfs(regs, map[]), notes))
    ensures WalkModel(mem, cat, index, at, mid, ModelLength(cat[mid]), notes)
         == Ok((ExpectedModel(cat, sf, mid, at, index), notes))
  {
    hide WalkPoints, EntriesOf, PublishedSfs, ModelRegs, CatalogBodyLen, ModelLength, Covers;
  }

  lemma HeaderReads(mem: Memory, cat: Catalog, sf: ScaleFactors, mid: int, at: int)
    requires ValidModel(cat, sf, mid) && Covers(sf, cat[mid])
    requires ServesStructure(mem, ModelRegs(cat[mid], mid, ModelLength(cat[mid]), sf, at))
    ensures ReadWords(mem, at, 2) == Ok([mid, ModelLength(cat[mid])])
  {
    var pts, length := cat[mid], ModelLength(cat[mid]);
    var regs := ModelRegs(pts, mid, length, sf, at);
    assert regs[0] == PointReg(pts[0], mid, length, sf, at) && regs[0] in regs;
    var rest := ModelRegs(pts[1..], mid, length, sf, at + 1);
    assert regs[1..] == rest && rest[0] == PointReg(pts[1], mid, length, sf, at + 1) && regs[1] == rest[0]
      && regs[1] in regs;
    hide ModelRegs;
    SpanValues(Uint16);
    OneWord(mem, regs[0]);
    OneWord(mem, regs[1]);
    PlainWord(mem[at]);
    PlainWord(mem[at + 1]);
    ReadTwo(mem, at);
  }

  lemma ReadTwo(mem: Memory, at: int)
    requires at in mem && at + 1 in mem
    ensures ReadWords(mem, at, 2) == Ok([mem[at], mem[at + 1]])
  {
    var r := ReadWords(mem, at, 2);
    assert r.Ok? && |r.value| == 2 && r.value[0] == mem[at + 0] && r.value[1] == mem[at + 1];
    assert r.value == [mem[at], mem[at + 1]];
  }

  /** A chain of valid models, which the generator can build. */
  ghost predicate ValidChain(cat: Catalog, sf: ScaleFactors, chain: seq<int>): (valid: bool)
    ensures valid ==> Buildable(cat, sf, chain)
  {
    forall i | 0 <= i < |chain| :: ValidModel(cat, sf, chain[i])
  }

  lemma ServesParts(mem: Memory, a: seq<Reg>, b: seq<Reg>)
    requires ServesStructure(mem, a + b)
    ensures ServesStructure(mem, a) && ServesStructure(mem, b)
  {
    assert forall r | r in a :: r in a + b;
    assert forall r | r in b :: r in a + b;
  }

  /** A dump completed by the generated models of a chain and its end. */
  ghost function Completed(d: Dump, cat: Catalog, sf: ScaleFactors, chain: seq<int>, at: int): Dump
    requires Buildable(cat, sf, chain)
  {
    d.(models := d.models + ExpectedModels(cat, sf, chain, at, |d.models|),
       endAddress := Some(at + ChainSize(cat, chain)))
  }

  ghost function ChainAndEnd(cat: Catalog, sf: ScaleFactors, chain: seq<int>, at: int): seq<Reg>
    requires Buildable(cat, sf, chain)
  {
    ChainRegs(cat, sf, chain, at) + EndRegs(at + ChainSize(cat, chain))
  }

  /** From the first header on: the models the budget allows, in order, and the end exactly when the
      budget outlasts the chain. */
  lemma {:induction false} ChainInverts(mem: Memory, cat: Catalog, sf: ScaleFactors, chain: seq<int>, at: int,
                                        budget: nat, limit: nat, d: Dump)
    requires ValidChain(cat, sf, chain)
    requires ServesStructure(mem, ChainAndEnd(cat, sf, chain, at))
    ensures budget > |chain| ==> WalkModels(mem, cat, at, budget, limit, d) == Ok(Completed(d, cat, sf, chain, at))
    ensures budget <= |chain| ==>
      WalkModels(mem, cat, at, budget, limit, d).Ok?
      && WalkModels(mem, cat, at, budget, limit, d).value.endAddress == d.endAddress
    decreases |chain|
  {
    hide WalkModels, ServesStructure, ValidModel, ChainAndEnd, Completed, Covers, SumSizes, ModelLength, ModelRegs,
         ExpectedModel;
    if budget == 0 {
      BudgetSpent(mem, cat, at, limit, d);
    } else if chain == [] {
      EndOfChain(mem, cat, sf, at, budget, limit, d);
    } else {
      var mid, next := chain[0], at + SumSizes(cat[chain[0]]);
      var d' := d.(models := d.models + [ExpectedModel(cat, sf, mid, at, |d.models|)]);
      assert ValidModel(cat, sf, mid);
      SplitChain(cat, sf, chain, at);
      ServesParts(mem, ModelRegs(cat[mid], mid, ModelLength(cat[mid]), sf, at), ChainAndEnd(cat, sf, chain[1..], next));
      StepOverModel(mem, cat, sf, mid, at, budget, limit, d);
      ChainInverts(mem, cat, sf, chain[1..], next, budget - 1, limit, d');
      CompletedTail(d, cat, sf, chain, at);
    }
  }

  lemma BudgetSpent(mem: Memory, cat: Catalog, at: int, limit: nat, d: Dump)
    ensures WalkModels(mem, cat, at, 0, limit, d) == Ok(d.(notes := d.notes + [NoEnd(limit)]))
  {}

  lemma EndOfChain(mem: Memory, cat: Catalog, sf: ScaleFactors, at: int, budget: nat, limit: nat, d: Dump)
    requires budget > 0 && ServesStructure(mem, ChainAndEnd(cat, sf, [], at))
    ensures WalkModels(mem, cat, at, budget, limit, d) == Ok(Completed(d, cat, sf, [], at))
  {
    assert ChainAndEnd(cat, sf, [], at) == EndRegs(at);
    EndReads(mem, at);
    hide ServesStructure, ReadWords;
    assert d.models + [] == d.models;
  }

  lemma CompletedTail(d: Dump, cat: Catalog, sf: ScaleFactors, chain: seq<int>, at: int)
    requires chain != [] && Buildable(cat, sf, chain)
    ensures var m := ExpectedModel(cat, sf, chain[0], at, |d.models|);
      Completed(d, cat, sf, chain, at)
      == Completed(d.(models := d.models + [m]), cat, sf, chain[1..], at + SumSizes(cat[chain[0]]))
  {
    hide ExpectedModel, SumSizes, Covers;
    var m, next := ExpectedModel(cat, sf, chain[0], at, |d.models|), at + SumSizes(cat[chain[0]]);
    var tail := ExpectedModels(cat, sf, chain[1..], next, |d.models| + 1);
    assert d.models + ([m] + tail) == d.models + [m] + tail;
  }

  lemma SplitChain(cat: Catalog, sf: ScaleFactors, chain: seq<int>, at: int)
    requires chain != [] && Buildable(cat, sf, chain)
    ensures ChainAndEnd(cat, sf, chain, at)
         == ModelRegs(cat[chain[0]], chain[0], ModelLength(cat[chain[0]]), sf, at)
            + ChainAndEnd(cat, sf, chain[1..], at + SumSizes(cat[chain[0]]))
  {
    hide ModelRegs, SumSizes, ModelLength, EndRegs, Covers;
  }

  lemma StepOverModel(mem: Memory, cat: Catalog, sf: ScaleFactors, mid: int, at: int, budget: nat, limit: nat, d: Dump)
    requires ValidModel(cat, sf, mid) && Covers(sf, cat[mid]) && budget > 0
    requires ServesStructure(mem, ModelRegs(cat[mid], mid, ModelLength(cat[mid]), sf, at))
    ensures WalkModels(mem, cat, at, budget, limit, d)
         == WalkModels(mem, cat, at + SumSizes(cat[mid]), budget - 1, limit,
                       d.(models := d.models + [ExpectedModel(cat, sf, mid, at, |d.models|)]))
  {
    hide *;
    ValidId(cat, sf, mid);
    ModelInverts(mem, cat, sf, mid, at, |d.models|, d.notes);
    ValidCovers(cat, sf, mid);
    ModelStep(mem, cat, at, budget, limit, d, mid, ModelLength(cat[mid]), ExpectedModel(cat, sf, mid, at, |d.models|),
              d.notes);
  }

  lemma ValidId(cat: Catalog, sf: ScaleFactors, mid: int)
    requires ValidModel(cat, sf, mid)
    ensures mid in cat && mid != END_MODEL_ID
  {}

  lemma ModelStep(mem: Memory, cat: Catalog, at: int, budget: nat, limit: nat, d: Dump, id: int, length: int,
                  m: ModelDump, notes: seq<Note>)
    requires budget > 0 && id != END_MODEL_ID && ReadWords(mem, at, 2) == Ok([id, length])
    requires WalkModel(mem, cat, |d.models|, at, id, length, d.notes) == Ok((m, notes))
    ensures WalkModels(mem, cat, at, budget, limit, d)
         == WalkModels(mem, cat, at + 2 + length, budget - 1, limit, d.(models := d.models + [m], notes := notes))
  {
    hide WalkModel, ReadWords;
  }

  lemma EndReads(mem: Memory, at: int)
    requires ServesStructure(mem, EndRegs(at))
    ensures ReadWords(mem, at, 2) == Ok([END_MODEL_ID, 0])
  {
    var regs := EndRegs(at);
    assert regs[0] in regs && regs[1] in regs;
    SpanValues(Uint16);
    OneWord(mem, regs[0]);
    OneWord(mem, regs[1]);
    PlainWord(mem[at]);
    PlainWord(mem[at + 1]);
    ReadTwo(mem, at);
  }

  lemma MarkerReads(mem: Memory)
    requires ServesStructure(mem, MarkerRegs())
    ensures ReadWords(mem, BASE, 2) == Ok([SUNS_FIRST, SUNS_SECOND])
  {
    var regs := MarkerRegs();
    assert regs[0] in regs && regs[1] in regs;
    SpanValues(Uint16);
    OneWord(mem, regs[0]);
    OneWord(mem, regs[1]);
    PlainWord(mem[BASE]);
    PlainWord(mem[BASE + 1]);
    ReadTwo(mem, BASE);
  }

  /** The walker inverts the generator: walking any memory that serves the structure of a generated
      image returns exactly its chain, every point at its generated address with its type, every
      published scale factor, no note, and the address of the end marker; nothing past the end is
      needed, and nothing a data register holds matters. */
  lemma WalkInvertsBuild(mem: Memory, cat: Catalog, sf: ScaleFactors, chain: seq<int>, limit: nat)
    requires ValidChain(cat, sf, chain)
    requires ServesStructure(mem, Walkable(cat, sf, chain)) && |chain| < limit
    ensures WalkFrom(mem, cat, BASE, limit)
         == Ok(Dump(BASE, ExpectedModels(cat, sf, chain, BASE + 2, 0), Some(BASE + 2 + ChainSize(cat, chain)), []))
  {
    hide WalkFrom, WalkModels, ReadWords, ChainRegs, ServesStructure, ExpectedModels, ValidChain, Buildable, Walkable;
    WalkOfImage(mem, cat, sf, chain, limit);
    var models := ExpectedModels(cat, sf, chain, BASE + 2, 0);
    assert [] + models == models;
  }

  lemma WalkOfImage(mem: Memory, cat: Catalog, sf: ScaleFactors, chain: seq<int>, limit: nat)
    requires ValidChain(cat, sf, chain) && ServesStructure(mem, Walkable(cat, sf, chain))
    ensures var d := Dump(BASE, [], None, []);
      && WalkFrom(mem, cat, BASE, limit) == WalkModels(mem, cat, BASE + 2, limit, limit, d)
      && (|chain| < limit ==>
            WalkFrom(mem, cat, BASE, limit)
            == Ok(Completed(d, cat, sf, chain, BASE + 2)))
      && (|chain| >= limit ==>
            WalkFrom(mem, cat, BASE, limit).Ok? && WalkFrom(mem, cat, BASE, limit).value.endAddress == None)
  {
    assert Walkable(cat, sf, chain) == MarkerRegs() + ChainAndEnd(cat, sf, chain, BASE + 2);
    ServesParts(mem, MarkerRegs(), ChainAndEnd(cat, sf, chain, BASE + 2));
    MarkerReads(mem);
    hide WalkModels, ReadWords, ChainRegs, ServesStructure, ExpectedModels;
    ChainInverts(mem, cat, sf, chain, BASE + 2, limit, limit, Dump(BASE, [], None, []));
  }

  /** The limit on models is exact: the end of a generated image is found when and only when the chain
      is shorter than the limit, 63 models for the default of 64. */
  lemma EndFoundExactly(mem: Memory, cat: Catalog, sf: ScaleFactors, chain: seq<int>, limit: nat)
    requires ValidChain(cat, sf, chain) && ServesStructure(mem, Walkable(cat, sf, chain))
    ensures WalkFrom(mem, cat, BASE, limit).Ok?
    ensures WalkFrom(mem, cat, BASE, limit).value.endAddress.Some? <==> |chain| < limit
  {
    WalkOfImage(mem, cat, sf, chain, limit);
    hide WalkFrom, ServesStructure;
  }
}
