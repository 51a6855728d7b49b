/** Register maps: cross-validation, and the simulated device that serves one. */
module RegisterMap {
  import opened Common
  import opened Codec

  datatype Direction = Input | Output

  /** A named register, in file order. */
  datatype Entry = Entry(name: string, reg: RegisterDef)

  datatype MapError =
    | UnknownPoint(name: string)
    | ReadOnlyOutput(name: string)
    | WriteOnlyInput(name: string)
    | NoWidth(name: string)
    | Overlap(name: string, at: int, other: string)

  predicate Occupies(reg: RegisterDef, addr: int) {
    HasWidth(reg) && reg.address <= addr < reg.address + Width(reg)
  }

  /** An output point can be written and an input point read. */
  predicate Directed(reg: RegisterDef, d: Direction) {
    !(d == Output && reg.rw == ReadOnly) && !(d == Input && reg.rw == WriteOnly)
  }

  /** The entry's own checks: a canonical point with a register of its direction, or a roled image
      register; and a width. canonical maps the class's points to their directions. */
  predicate WellRoled(e: Entry, canonical: map<string, Direction>) {
    && (if e.name in canonical then Directed(e.reg, canonical[e.name]) else e.reg.role.Some?)
    && HasWidth(e.reg)
  }

  ghost predicate Disjoint(es: seq<Entry>) {
    forall i, j, addr | 0 <= i < j < |es| && Occupies(es[i].reg, addr) :: !Occupies(es[j].reg, addr)
  }

  ghost predicate ValidEntries(es: seq<Entry>, canonical: map<string, Direction>) {
    (forall i | 0 <= i < |es| :: WellRoled(es[i], canonical)) && Disjoint(es)
  }

  /** occupied is exactly the registers of es. */
  ghost predicate Tracks(occupied: map<int, string>, es: seq<Entry>) {
    forall addr :: addr in occupied <==> exists i :: 0 <= i < |es| && Occupies(es[i].reg, addr)
  }

  /** The entry that marked a register last. */
  ghost function OwnerOf(es: seq<Entry>, addr: int): Option<string> {
    if es == [] then None
    else if Occupies(es[|es| - 1].reg, addr) then Some(es[|es| - 1].name)
    else OwnerOf(es[..|es| - 1], addr)
  }

  ghost predicate Owned(occupied: map<int, string>, es: seq<Entry>) {
    forall addr | addr in occupied :: OwnerOf(es, addr) == Some(occupied[addr])
  }

  /** What the check reports of one entry by itself. */
  ghost predicate EntryIssue(x: MapError, e: Entry, canonical: map<string, Direction>) {
    match x
    case UnknownPoint(name) => name == e.name && e.name !in canonical && e.reg.role.None?
    case ReadOnlyOutput(name) =>
      name == e.name && e.name in canonical && canonical[e.name] == Output && e.reg.rw == ReadOnly
    case WriteOnlyInput(name) =>
      name == e.name && e.name in canonical && canonical[e.name] == Input && e.reg.rw == WriteOnly
    case NoWidth(name) => name == e.name && e.reg.size.None? && (e.reg.typ == String || e.reg.typ == Pad)
    case Overlap(_, _, _) => false
  }

  /** Or of its registers, against the entries before it. */
  ghost predicate OverlapIssue(x: MapError, before: seq<Entry>, e: Entry) {
    x.Overlap? && x.name == e.name && Occupies(e.reg, x.at) && OwnerOf(before, x.at) == Some(x.other)
  }

  ghost predicate IssueAt(x: MapError, es: seq<Entry>, canonical: map<string, Direction>, i: int)
    requires 0 <= i < |es|
  {
    EntryIssue(x, es[i], canonical) || OverlapIssue(x, es[..i], es[i])
  }

  /** The loader's check reports exactly the issues of the entries, each overlap with the entry it is with;
      it finds none exactly when every entry is well roled and no two entries share a register. */
  method CheckMap(es: seq<Entry>, canonical: map<string, Direction>) returns (errors: seq<MapError>)
    ensures errors == [] <==> ValidEntries(es, canonical)
    ensures forall x :: x in errors <==> exists i | 0 <= i < |es| :: IssueAt(x, es, canonical, i)
  {
    hide IssueAt, OwnerOf;
    errors := [];
    var occupied: map<int, string> := map[];
    for i := 0 to |es|
      invariant errors == [] <==> ValidEntries(es[..i], canonical)
      invariant Tracks(occupied, es[..i]) && Owned(occupied, es[..i])
      invariant forall x :: x in errors <==> exists j | 0 <= j < i :: IssueAt(x, es, canonical, j)
    {
      ghost var before := errors;
      var own := CheckEntry(es[i], canonical);
      var clashes, next := Occupy(es[i], occupied);
      Extend(es[..i], es[i], canonical, occupied, next);
      OwnersStep(es[..i], es[i], occupied, next);
      IssuesOf(es, canonical, i, occupied, own, clashes);
      assert es[..i + 1] == es[..i] + [es[i]];
      errors := errors + own + clashes;
      assert forall x :: x in errors <==> x in before || IssueAt(x, es, canonical, i);
      occupied := next;
    }
    assert es[..|es|] == es;
  }

  method CheckEntry(e: Entry, canonical: map<string, Direction>) returns (errors: seq<MapError>)
    ensures errors == [] <==> WellRoled(e, canonical)
    ensures forall x :: x in errors <==> EntryIssue(x, e, canonical)
  {
    errors := [];
    if e.name !in canonical {
      if e.reg.role.None? { errors := errors + [UnknownPoint(e.name)]; }
    } else {
      if canonical[e.name] == Output && e.reg.rw == ReadOnly { errors := errors + [ReadOnlyOutput(e.name)]; }
      if canonical[e.name] == Input && e.reg.rw == WriteOnly { errors := errors + [WriteOnlyInput(e.name)]; }
    }
    if !HasWidth(e.reg) { errors := errors + [NoWidth(e.name)]; }
  }

  /** Marks the registers of one entry, reporting those already taken. */
  method Occupy(e: Entry, occupied: map<int, string>) returns (errors: seq<MapError>, next: map<int, string>)
    ensures errors == [] <==> forall addr | Occupies(e.reg, addr) :: addr !in occupied
    ensures forall x :: x in errors <==> TakenBy(x, e, occupied)
    ensures forall addr :: addr in next <==> addr in occupied || Occupies(e.reg, addr)
    ensures forall addr | addr in next ::
      next[addr] == if Occupies(e.reg, addr) then e.name else occupied[addr]
  {
    errors, next := [], occupied;
    if HasWidth(e.reg) && Width(e.reg) > 0 {
      var a := e.reg.address;
      for k := 0 to Width(e.reg)
        invariant errors == [] <==> forall addr | a <= addr < a + k :: addr !in occupied
        invariant forall x :: x in errors <==> TakenBy(x, e, occupied) && x.at < a + k
        invariant forall addr :: addr in next <==> addr in occupied || a <= addr < a + k
        invariant forall addr | addr in next :: next[addr] == if a <= addr < a + k then e.name else occupied[addr]
      {
        if a + k in next {
          errors := errors + [Overlap(e.name, a + k, next[a + k])];
        }
        next := next[a + k := e.name];
      }
    }
  }

  ghost predicate TakenBy(x: MapError, e: Entry, occupied: map<int, string>) {
    x.Overlap? && x.name == e.name && Occupies(e.reg, x.at) && x.at in occupied && occupied[x.at] == x.other
  }

  lemma {:induction false} OwnedExactly(es: seq<Entry>, addr: int)
    ensures OwnerOf(es, addr).Some? <==> exists i :: 0 <= i < |es| && Occupies(es[i].reg, addr)
  {
    if es != [] {
      OwnedExactly(es[..|es| - 1], addr);
      hide Occupies;
    }
  }

  lemma OwnersStep(es: seq<Entry>, e: Entry, occupied: map<int, string>, next: map<int, string>)
    requires Owned(occupied, es)
    requires forall addr :: addr in next <==> addr in occupied || Occupies(e.reg, addr)
    requires forall addr | addr in next :: next[addr] == if Occupies(e.reg, addr) then e.name else occupied[addr]
    ensures Owned(next, es + [e])
  {
    assert (es + [e])[..|es|] == es;
    hide Occupies;
  }

  lemma IssuesOf(es: seq<Entry>, canonical: map<string, Direction>, i: nat, occupied: map<int, string>,
                 own: seq<MapError>, clashes: seq<MapError>)
    requires i < |es| && Tracks(occupied, es[..i]) && Owned(occupied, es[..i])
    requires forall x :: x in own <==> EntryIssue(x, es[i], canonical)
    requires forall x :: x in clashes <==> TakenBy(x, es[i], occupied)
    ensures forall x :: x in own + clashes <==> IssueAt(x, es, canonical, i)
  {
    hide EntryIssue, Occupies, OwnerOf;
    forall x ensures TakenBy(x, es[i], occupied) <==> OverlapIssue(x, es[..i], es[i]) {
      if x.Overlap? {
        OwnedExactly(es[..i], x.at);
      }
    }
  }

  lemma Extend(es: seq<Entry>, e: Entry, canonical: map<string, Direction>, occupied: map<int, string>,
               next: map<int, string>)
    requires Tracks(occupied, es)
    requires forall addr :: addr in next <==> addr in occupied || Occupies(e.reg, addr)
    ensures Tracks(next, es + [e])
    ensures ValidEntries(es + [e], canonical) <==>
      ValidEntries(es, canonical) && WellRoled(e, canonical) && forall addr | Occupies(e.reg, addr) :: addr !in occupied
  {
    var all := es + [e];
    hide Occupies, WellRoled;
    assert forall i | 0 <= i < |es| :: all[i] == es[i];
    assert all[|es|] == e;
    forall addr ensures addr in next <==> exists i :: 0 <= i < |all| && Occupies(all[i].reg, addr) {
      if addr in occupied {
        var i :| 0 <= i < |es| && Occupies(es[i].reg, addr);
        assert Occupies(all[i].reg, addr);
      } else if Occupies(e.reg, addr) {
        assert Occupies(all[|es|].reg, addr);
      }
    }
    if ValidEntries(all, canonical) {
      assert forall i | 0 <= i < |es| :: WellRoled(all[i], canonical);
      assert WellRoled(all[|es|], canonical);
      assert forall addr, i | 0 <= i < |es| && Occupies(all[i].reg, addr) :: !Occupies(all[|es|].reg, addr);
    }
  }

  // ------------------------------------------------------------ the simulated device

  datatype StoreError = UnknownName | CodecFailure(error: CodecError)

  /** A map the loader accepted, with every register inside the holding range. */
  ghost predicate ServedMap(es: seq<Entry>, size: nat) {
    && Disjoint(es)
    && (forall i, j | 0 <= i < j < |es| :: es[i].name != es[j].name)
    && forall e | e in es :: InStore(e.reg, size)
  }

  ghost predicate InStore(reg: RegisterDef, size: nat) {
    && HasWidth(reg) && Width(reg) >= 0
    && HOLDING_BASE <= reg.address && reg.address - HOLDING_BASE + Width(reg) <= size
    && (reg.sfAddress.Some? ==> HOLDING_BASE <= reg.sfAddress.value < HOLDING_BASE + size)
  }

  /** The words of a register. */
  function WordsAt(mem: seq<int>, reg: RegisterDef): seq<int>
    requires InStore(reg, |mem|)
  {
    var off := reg.address - HOLDING_BASE;
    mem[off..off + Width(reg)]
  }

  /** The register at 4xxxx address 40001 is the first word of the store. */
  lemma WordsWhere(mem: seq<int>, reg: RegisterDef)
    requires InStore(reg, |mem|)
    ensures 40001 <= reg.address && WordsAt(mem, reg) == mem[reg.address - 40001..][..Width(reg)]
    ensures reg.sfAddress.Some? ==>
      LiveSf(mem, reg) == Some(Interpreted(SunSsf, BigEndian([mem[reg.sfAddress.value - 40001]])))
  {
    hide Interpreted, BigEndian;
  }

  /** The live scale factor in force for a register. */
  function LiveSf(mem: seq<int>, reg: RegisterDef): Option<int>
    requires InStore(reg, |mem|)
  {
    if reg.sfAddress.None? then None
    else Some(Interpreted(SunSsf, BigEndian([mem[reg.sfAddress.value - HOLDING_BASE]])))
  }

  function ValueAt(mem: seq<int>, reg: RegisterDef): Result<real, CodecError>
    requires InStore(reg, |mem|) && reg.typ != Float32
  {
    Decode(reg, WordsAt(mem, reg), LiveSf(mem, reg))
  }

  /** Memory after words are stored at a register. */
  ghost function Stored(mem: seq<int>, reg: RegisterDef, words: seq<int>): (r: seq<int>)
    requires InStore(reg, |mem|) && |words| == Width(reg)
    ensures |r| == |mem|
    ensures forall k | 0 <= k < |mem| ::
      r[k] == if Occupies(reg, HOLDING_BASE + k) then words[HOLDING_BASE + k - reg.address] else mem[k]
  {
    var off := reg.address - HOLDING_BASE;
    mem[..off] + words + mem[off + Width(reg)..]
  }

  function RegOf(es: seq<Entry>, name: string): (r: Option<RegisterDef>)
    ensures r.Some? ==> Entry(name, r.value) in es
    ensures r.None? ==> forall e | e in es :: e.name != name
  {
    if es == [] then None
    else if es[|es| - 1].name == name then Some(es[|es| - 1].reg)
    else RegOf(es[..|es| - 1], name)
  }

  /** The name is not that of a float32 register, whose coding is not modelled. */
  ghost predicate Coded(es: seq<Entry>, name: string) { forall e | e in es && e.name == name :: e.reg.typ != Float32 }

  /** The outcome of writing a point, and the memory after it: an error leaves the memory as it was. */
  ghost function Written(es: seq<Entry>, mem: seq<int>, name: string, value: real): (Result<(), StoreError>, seq<int>)
    requires ServedMap(es, |mem|) && Coded(es, name)
  {
    var reg := RegOf(es, name);
    if reg.None? then (Err(UnknownName), mem)
    else
      assert InStore(Entry(name, reg.value).reg, |mem|);
      match Encode(reg.value, value, LiveSf(mem, reg.value))
      case Err(e) => (Err(CodecFailure(e)), mem)
      case Ok(words) => (Ok(()), Stored(mem, reg.value, words))
  }

  /** When a write is refused, and as what; a refused one changes nothing. */
  lemma RefusedWrites(es: seq<Entry>, mem: seq<int>, name: string, value: real)
    requires ServedMap(es, |mem|) && Coded(es, name)
    ensures var w := Written(es, mem, name, value);
      && (w.0 == Err(UnknownName) <==> forall e | e in es :: e.name != name)
      && (w.0.Err? ==> w.1 == mem)
      && forall e | e in es && e.name == name ::
           var encoded := Encode(e.reg, value, LiveSf(mem, e.reg));
           w.0 == if encoded.Err? then Err(CodecFailure(encoded.error)) else Ok(())
  {
    var reg := RegOf(es, name);
    if reg.Some? {
      forall e | e in es && e.name == name ensures e.reg == reg.value {
        OneOfAName(es, e, Entry(name, reg.value));
      }
      assert Entry(name, reg.value) in es;
    }
    hide Encode;
  }

  /** Several writes, up to the first that is refused. */
  ghost function AllWritten(es: seq<Entry>, mem: seq<int>, writes: seq<(string, real)>)
    : (r: (Result<(), StoreError>, seq<int>))
    requires ServedMap(es, |mem|) && forall i | 0 <= i < |writes| :: Coded(es, writes[i].0)
    ensures |r.1| == |mem|
  {
    if writes == [] then (Ok(()), mem)
    else
      var n := |writes| - 1;
      var before := AllWritten(es, mem, writes[..n]);
      if before.0.Err? then before else Written(es, before.1, writes[n].0, writes[n].1)
  }

  lemma {:induction false} FirstErrorStays(es: seq<Entry>, mem: seq<int>, writes: seq<(string, real)>, k: nat)
    requires ServedMap(es, |mem|) && (forall i | 0 <= i < |writes| :: Coded(es, writes[i].0)) && k <= |writes|
    requires AllWritten(es, mem, writes[..k]).0.Err?
    ensures AllWritten(es, mem, writes) == AllWritten(es, mem, writes[..k])
    decreases |writes|
  {
    hide Written, Coded, ServedMap;
    if k == |writes| {
      assert writes[..k] == writes;
    } else {
      assert writes[..|writes| - 1][..k] == writes[..k];
      FirstErrorStays(es, mem, writes[..|writes| - 1], k);
    }
  }

  ghost function ReadBack(es: seq<Entry>, mem: seq<int>, name: string): Result<real, StoreError>
    requires ServedMap(es, |mem|) && Coded(es, name)
  {
    var reg := RegOf(es, name);
    if reg.None? then Err(UnknownName)
    else
      assert InStore(Entry(name, reg.value).reg, |mem|);
      match ValueAt(mem, reg.value)
      case Err(e) => Err(CodecFailure(e))
      case Ok(v) => Ok(v)
  }

  /** Every literal value of the image is in place. */
  ghost predicate Serves(mem: seq<int>, es: seq<Entry>) {
    forall e | e in es && e.reg.value.Some? ::
      InStore(e.reg, |mem|) && WordsAt(mem, e.reg) == EncodeRaw(e.reg, e.reg.value.value)
  }

  lemma ServeOne(es: seq<Entry>, i: nat, mem: seq<int>, words: seq<int>)
    requires ServedMap(es, |mem|) && i < |es| && Serves(mem, es[..i])
    requires es[i].reg.value.Some? && InStore(es[i].reg, |mem|) && words == EncodeRaw(es[i].reg, es[i].reg.value.value)
    ensures Serves(Stored(mem, es[i].reg, words), es[..i] + [es[i]])
  {
    var after := Stored(mem, es[i].reg, words);
    StoredReads(mem, es[i].reg, words);
    forall e | e in es[..i] && e.reg.value.Some?
      ensures InStore(e.reg, |after|) && WordsAt(after, e.reg) == WordsAt(mem, e.reg)
    {
      var j :| 0 <= j < i && es[j] == e;
      StoreMissesOther(mem, es[i].reg, words, e.reg);
    }
    hide Stored, WordsAt, IntToWords;
  }

  /** A register of an entry with a literal value. */
  ghost predicate Valued(es: seq<Entry>, addr: int) {
    exists e :: e in es && e.reg.value.Some? && Occupies(e.reg, addr)
  }

  /** Nothing else was ever stored. */
  ghost predicate ZeroElsewhere(mem: seq<int>, es: seq<Entry>) {
    forall k | 0 <= k < |mem| && !Valued(es, HOLDING_BASE + k) :: mem[k] == 0
  }

  lemma ZeroAfterOne(es: seq<Entry>, e: Entry, mem: seq<int>, words: seq<int>)
    requires InStore(e.reg, |mem|) && |words| == Width(e.reg) && e.reg.value.Some?
    requires ZeroElsewhere(mem, es) && AreWords(mem) && AreWords(words)
    ensures ZeroElsewhere(Stored(mem, e.reg, words), es + [e]) && AreWords(Stored(mem, e.reg, words))
  {
    var after := Stored(mem, e.reg, words);
    forall k | 0 <= k < |mem| && !Valued(es + [e], HOLDING_BASE + k) ensures after[k] == 0 {
      assert e in es + [e] && !Occupies(e.reg, HOLDING_BASE + k);
      ValuedGrows(es, e, HOLDING_BASE + k);
    }
  }

  lemma ZeroStays(es: seq<Entry>, e: Entry, mem: seq<int>)
    requires ZeroElsewhere(mem, es)
    ensures ZeroElsewhere(mem, es + [e])
  {
    forall k | 0 <= k < |mem| && !Valued(es + [e], HOLDING_BASE + k) ensures mem[k] == 0 {
      ValuedGrows(es, e, HOLDING_BASE + k);
    }
  }

  lemma ValuedGrows(es: seq<Entry>, e: Entry, addr: int)
    ensures Valued(es, addr) ==> Valued(es + [e], addr)
  {
    if Valued(es, addr) {
      var x :| x in es && x.reg.value.Some? && Occupies(x.reg, addr);
      assert x in es + [e];
    }
  }

  /** The size of the simulated block: one past the last register's end, with two spare registers. */
  function BlockSize(es: seq<Entry>): (size: nat)
    requires es != [] && Placed(es)
    ensures forall e | e in es :: e.reg.address - HOLDING_BASE + Width(e.reg) + 3 <= size
  {
    var e := es[|es| - 1];
    var size := e.reg.address - HOLDING_BASE + Width(e.reg) + 3;
    if |es| == 1 then
      assert forall x | x in es :: x == e;
      size
    else
      var rest := BlockSize(es[..|es| - 1]);
      assert forall x | x in es :: x in es[..|es| - 1] || x == e;
      if size > rest then size else rest
  }

  /** Exactly three past the furthest end. */
  lemma {:induction false} BlockSizeExactly(es: seq<Entry>)
    requires es != [] && Placed(es)
    ensures exists e :: e in es && BlockSize(es) == e.reg.address - 40001 + Width(e.reg) + 3
  {
    var n := |es| - 1;
    if n == 0 || BlockSize(es) != BlockSize(es[..n]) {
      assert es[n] in es;
    } else {
      BlockSizeExactly(es[..n]);
      var e :| e in es[..n] && BlockSize(es[..n]) == e.reg.address - 40001 + Width(e.reg) + 3;
      assert e in es;
    }
  }

  /** Every register has a width and a holding address. */
  ghost predicate Placed(es: seq<Entry>) {
    forall i | 0 <= i < |es| :: HasWidth(es[i].reg) && Width(es[i].reg) >= 0 && HOLDING_BASE <= es[i].reg.address
  }

  /** A map a device can be made of: loaded without errors, with scale factors inside the block. */
  ghost predicate Servable(es: seq<Entry>) {
    && es != [] && Placed(es) && Disjoint(es)
    && (forall i, j | 0 <= i < j < |es| :: es[i].name != es[j].name)
    && forall e | e in es && e.reg.sfAddress.Some? ::
         HOLDING_BASE <= e.reg.sfAddress.value < HOLDING_BASE + BlockSize(es)
  }

  lemma ServableFits(es: seq<Entry>)
    requires Servable(es)
    ensures ServedMap(es, BlockSize(es))
  {
    forall e | e in es ensures InStore(e.reg, BlockSize(es)) {
      var i :| 0 <= i < |es| && es[i] == e;
    }
  }

  class SimulatedDevice {
    const points: seq<Entry>
    const block: array<int>

    /** Zeroed registers with the image's literal values served verbatim. */
    constructor (points: seq<Entry>)
      requires Servable(points)
      ensures this.points == points && fresh(block) && block.Length == BlockSize(points)
      ensures Valid()
      ensures Serves(block[..], points) && ZeroElsewhere(block[..], points) && AreWords(block[..])
    {
      this.points := points;
      block := new int[BlockSize(points)](_ => 0);
      new;
      ServableFits(points);
      ServeImage(block, points);
    }

    /** Stores the literal value of every entry that has one. */
    static method ServeImage(block: array<int>, points: seq<Entry>)
      requires ServedMap(points, block.Length) && forall k | 0 <= k < block.Length :: block[k] == 0
      modifies block
      ensures Serves(block[..], points) && ZeroElsewhere(block[..], points) && AreWords(block[..])
    {
      hide Stored, WordsAt, IntToWords, Valued;
      for i := 0 to |points|
        invariant Serves(block[..], points[..i])
        invariant ZeroElsewhere(block[..], points[..i]) && AreWords(block[..])
      {
        var reg := points[i].reg;
        assert points[i] in points && points[..i + 1] == points[..i] + [points[i]];
        if reg.value.Some? {
          var words := EncodeRaw(reg, reg.value.value);
          ServeOne(points, i, block[..], words);
          ZeroAfterOne(points[..i], points[i], block[..], words);
          Store(block, reg, words);
        } else {
          ZeroStays(points[..i], points[i], block[..]);
        }
      }
      assert points[..|points|] == points;
    }

    /** The initial values, written one after the other until one is refused. */
    method Initialise(initial: seq<(string, real)>) returns (r: Result<(), StoreError>)
      requires Valid() && forall i | 0 <= i < |initial| :: Coded(points, initial[i].0)
      modifies block
      ensures Valid() && (r, block[..]) == AllWritten(points, old(block[..]), initial)
    {
      for i := 0 to |initial|
        invariant Valid() && AllWritten(points, old(block[..]), initial[..i]) == (Ok(()), block[..])
      {
        assert initial[..i + 1][..i] == initial[..i];
        r := SetPoint(initial[i].0, initial[i].1);
        if r.Err? {
          FirstErrorStays(points, old(block[..]), initial, i + 1);
          return;
        }
      }
      assert initial[..|initial|] == initial;
      r := Ok(());
    }

    ghost predicate Valid() { block.Length >= 2 && ServedMap(points, block.Length) }

    /** setValues: the words, one register after the other. */
    static method Store(block: array<int>, reg: RegisterDef, words: seq<int>)
      requires InStore(reg, block.Length) && |words| == Width(reg)
      modifies block
      ensures block[..] == Stored(old(block[..]), reg, words)
    {
      var off := reg.address - HOLDING_BASE;
      for k := 0 to |words|
        invariant block[..] == old(block[..off]) + words[..k] + old(block[off + k..])
      {
        block[off + k] := words[k];
      }
    }

    /** Encodes with the live scale factor and stores. */
    method SetPoint(name: string, value: real) returns (r: Result<(), StoreError>)
      requires Valid() && Coded(points, name)
      modifies block
      ensures Valid() && (r, block[..]) == Written(points, old(block[..]), name, value)
    {
      var reg := RegOf(points, name);
      if reg.None? {
        return Err(UnknownName);
      }
      assert InStore(Entry(name, reg.value).reg, block.Length);
      var words := Encode(reg.value, value, LiveSf(block[..], reg.value));
      if words.Err? {
        return Err(CodecFailure(words.error));
      }
      Store(block, reg.value, words.value);
      return Ok(());
    }

    method GetPoint(name: string) returns (r: Result<real, StoreError>)
      requires Valid() && Coded(points, name)
      ensures r == ReadBack(points, block[..], name)
    {
      var reg := RegOf(points, name);
      if reg.None? {
        return Err(UnknownName);
      }
      assert InStore(Entry(name, reg.value).reg, block.Length);
      var v := ValueAt(block[..], reg.value);
      return if v.Ok? then Ok(v.value) else Err(CodecFailure(v.error));
    }
  }

  // ------------------------------------------------------------ what a write leaves alone

  lemma StoreMissesOther(mem: seq<int>, reg: RegisterDef, words: seq<int>, other: RegisterDef)
    requires InStore(reg, |mem|) && InStore(other, |mem|) && |words| == Width(reg)
    requires forall addr | Occupies(other, addr) :: !Occupies(reg, addr)
    ensures WordsAt(Stored(mem, reg, words), other) == WordsAt(mem, other)
  {
    var r, off := Stored(mem, reg, words), other.address - HOLDING_BASE;
    forall k | off <= k < off + Width(other) ensures r[k] == mem[k] {
      assert Occupies(other, HOLDING_BASE + k);
    }
  }

  lemma DisjointPair(es: seq<Entry>, p: Entry, q: Entry)
    requires Disjoint(es) && p in es && q in es && p != q
    ensures forall addr | Occupies(q.reg, addr) :: !Occupies(p.reg, addr)
  {
    var i :| 0 <= i < |es| && es[i] == p;
    var j :| 0 <= j < |es| && es[j] == q;
  }

  /** On a map without overlaps a write changes no other point: its words, its scale factor and so its
      value stay, as long as its scale-factor register is not one of the written point's own. */
  lemma WriteLeavesOthers(es: seq<Entry>, mem: seq<int>, p: Entry, q: Entry, words: seq<int>)
    requires ServedMap(es, |mem|) && p in es && q in es && p != q && |words| == Width(p.reg) && q.reg.typ != Float32
    requires q.reg.sfAddress.Some? ==> !Occupies(p.reg, q.reg.sfAddress.value)
    ensures var after := Stored(mem, p.reg, words);
      && WordsAt(after, q.reg) == WordsAt(mem, q.reg)
      && LiveSf(after, q.reg) == LiveSf(mem, q.reg)
      && ValueAt(after, q.reg) == ValueAt(mem, q.reg)
  {
    DisjointPair(es, p, q);
    StoreMissesOther(mem, p.reg, words, q.reg);
    hide Interpreted, Decode, Encode;
  }

  /** The overlap check does not look at scale-factor addresses. A point stored on another point's
      scale-factor register becomes that factor. */
  lemma WriteBecomesScaleFactor(mem: seq<int>, p: RegisterDef, q: RegisterDef, words: seq<int>)
    requires InStore(p, |mem|) && InStore(q, |mem|) && |words| == Width(p)
    requires q.sfAddress.Some? && Occupies(p, q.sfAddress.value)
    ensures LiveSf(Stored(mem, p, words), q)
         == Some(Interpreted(SunSsf, BigEndian([words[q.sfAddress.value - p.address]])))
  {
    hide Interpreted, BigEndian;
  }

  /** Some value can be written to the register: it is coded and its scale is not zero. */
  ghost predicate Settable(reg: RegisterDef) {
    reg.typ != Float32 && (if SunspecScaled(reg) then reg.unitScale else reg.scale) != 0.0
  }

  /** A settable entry lies on another entry's scale-factor register. */
  ghost predicate FactorClash(es: seq<Entry>) {
    exists p, q | p in es && q in es && p.name != q.name ::
      Settable(p.reg) && q.reg.sfAddress.Some? && Occupies(p.reg, q.reg.sfAddress.value)
  }

  /** Writing this value to the name leaves the factor in force for q as it was. */
  ghost predicate KeepsFactorOf(es: seq<Entry>, mem: seq<int>, name: string, value: real, q: Entry)
    requires ServedMap(es, |mem|) && Coded(es, name) && q in es
  {
    var after := Written(es, mem, name, value).1;
    |after| == |mem| && LiveSf(after, q.reg) == LiveSf(mem, q.reg)
  }

  /** No write ever changes the scale factor of another entry. */
  ghost predicate FactorsKept(es: seq<Entry>, size: nat)
    requires ServedMap(es, size)
  {
    forall mem, name, value, q |
      |mem| == size && AreWords(mem) && Coded(es, name) && q in es && q.name != name ::
        KeepsFactorOf(es, mem, name, value, q)
  }

  /** On a map that passes the overlap check, writes keep every other entry's live scale factor exactly
      when no settable entry lies on another entry's scale-factor register. */
  lemma FactorsKeptExactly(es: seq<Entry>, size: nat)
    requires ServedMap(es, size)
    ensures FactorsKept(es, size) <==> !FactorClash(es)
  {
    hide ServedMap, Coded, KeepsFactorOf, Settable, Occupies;
    if FactorClash(es) {
      var p, q :| p in es && q in es && p.name != q.name
        && Settable(p.reg) && q.reg.sfAddress.Some? && Occupies(p.reg, q.reg.sfAddress.value);
      var mem := seq(size, _ => 1);
      ZeroOnFactor(es, mem, p, q);
    } else {
      forall mem, name, value, q |
        |mem| == size && AreWords(mem) && Coded(es, name) && q in es && q.name != name
        ensures KeepsFactorOf(es, mem, name, value, q)
      {
        WriteKeepsFactor(es, mem, name, value, q);
      }
    }
  }

  lemma WriteKeepsFactor(es: seq<Entry>, mem: seq<int>, name: string, value: real, q: Entry)
    requires ServedMap(es, |mem|) && Coded(es, name) && q in es && q.name != name && !FactorClash(es)
    ensures KeepsFactorOf(es, mem, name, value, q)
  {
    var reg := RegOf(es, name);
    if reg.Some? && Written(es, mem, name, value).0.Ok? {
      var p := Entry(name, reg.value);
      assert p in es && Settable(p.reg);
      assert q.reg.sfAddress.Some? ==> !Occupies(p.reg, q.reg.sfAddress.value);
      hide Encode, Interpreted, BigEndian;
    }
  }

  /** A zero written onto a factor of one. */
  lemma ZeroOnFactor(es: seq<Entry>, mem: seq<int>, p: Entry, q: Entry)
    requires ServedMap(es, |mem|) && p in es && q in es && p.name != q.name && Settable(p.reg)
    requires q.reg.sfAddress.Some? && Occupies(p.reg, q.reg.sfAddress.value)
    requires forall k | 0 <= k < |mem| :: mem[k] == 1
    ensures Coded(es, p.name) && !KeepsFactorOf(es, mem, p.name, 0.0, q)
  {
    var reg := RegOf(es, p.name).value;
    assert Entry(p.name, reg) in es;
    assert reg == p.reg by { OneOfAName(es, Entry(p.name, reg), p); }
    forall e | e in es && e.name == p.name ensures e.reg.typ != Float32 { OneOfAName(es, e, p); }
    ZeroEncodes(reg, LiveSf(mem, reg));
    var words := IntToWords(0, Width(reg));
    WriteBecomesScaleFactor(mem, reg, q.reg, words);
    assert Written(es, mem, p.name, 0.0).1 == Stored(mem, reg, words);
    FactorWords();
    hide Encode, Interpreted, BigEndian;
  }

  lemma ZeroEncodes(reg: RegisterDef, sf: Option<int>)
    requires HasWidth(reg) && Width(reg) >= 0 && Settable(reg)
    ensures Encode(reg, 0.0, sf) == Ok(IntToWords(0, Width(reg)))
    ensures forall k | 0 <= k < Width(reg) :: IntToWords(0, Width(reg))[k] == 0
  {
    assert Resolution(reg, sf) != 0.0;
    var w := Width(reg);
    hide Radix;
    forall k | 0 <= k < w ensures IntToWords(0, w)[k] == 0 {
      QuotientUnique(0, Radix(w), 0, 0);
      QuotientUnique(0, Radix(w - 1 - k), 0, 0);
    }
  }

  lemma FactorWords()
    ensures Interpreted(SunSsf, BigEndian([0])) == 0 && Interpreted(SunSsf, BigEndian([1])) == 1
  {
    assert [0][..0] == [] && [1][..0] == [];
  }

  /** What was written is read back within half a count, provided the point does not overwrite its own
      scale factor. */
  lemma WriteThenRead(mem: seq<int>, reg: RegisterDef, value: real)
    requires InStore(reg, |mem|) && Numeric(reg)
    requires reg.sfAddress.Some? ==> !Occupies(reg, reg.sfAddress.value)
    requires Encode(reg, value, LiveSf(mem, reg)).Ok?
    ensures var after := Stored(mem, reg, Encode(reg, value, LiveSf(mem, reg)).value);
      && LiveSf(after, reg) == LiveSf(mem, reg)
      && ValueAt(after, reg).Ok?
      && Abs(ValueAt(after, reg).value - value) <= Abs(Resolution(reg, LiveSf(mem, reg))) / 2.0
  {
    var sf := LiveSf(mem, reg);
    var words := Encode(reg, value, sf).value;
    var after := Stored(mem, reg, words);
    DecodeEncode(reg, value, sf);
    hide Encode, Decode, Resolution, Interpreted, BigEndian;
    StoredReads(mem, reg, words);
  }

  /** No scale factor of the map lies on a register of this name. */
  ghost predicate KeepsFactors(es: seq<Entry>, name: string) {
    forall p, q | p in es && p.name == name && q in es && q.reg.sfAddress.Some? ::
      !Occupies(p.reg, q.reg.sfAddress.value)
  }

  ghost predicate InitialOk(es: seq<Entry>, size: nat, writes: seq<(string, real)>) {
    && ServedMap(es, size)
    && (forall i | 0 <= i < |writes| :: Coded(es, writes[i].0) && KeepsFactors(es, writes[i].0))
    && forall i, j | 0 <= i < j < |writes| :: writes[i].0 != writes[j].0
  }

  /** A write of another name leaves a point's value and factor as they were. */
  lemma OtherWritten(es: seq<Entry>, mem: seq<int>, name: string, value: real, q: Entry)
    requires ServedMap(es, |mem|) && Coded(es, name) && KeepsFactors(es, name)
    requires q in es && q.reg.typ != Float32 && InStore(q.reg, |mem|)
    ensures var after := Written(es, mem, name, value).1;
      && |after| == |mem| && LiveSf(after, q.reg) == LiveSf(mem, q.reg)
      && (q.name != name ==> ValueAt(after, q.reg) == ValueAt(mem, q.reg))
  {
    var reg := RegOf(es, name);
    if reg.Some? && Written(es, mem, name, value).0.Ok? {
      var p := Entry(name, reg.value);
      assert p in es && InStore(p.reg, |mem|);
      var words := Encode(p.reg, value, LiveSf(mem, p.reg)).value;
      hide Encode, Decode, Interpreted, BigEndian;
      if p != q {
        WriteLeavesOthers(es, mem, p, q, words);
      } else {
        StoredReads(mem, p.reg, words);
      }
    }
  }

  /** Every initial value reads back within half a count after all of them were written, whatever their
      order, when each name occurs once and none lies on a scale factor. */
  lemma {:induction false} InitialReadBack(es: seq<Entry>, mem: seq<int>, writes: seq<(string, real)>, i: nat, p: Entry)
    requires InitialOk(es, |mem|, writes) && AllWritten(es, mem, writes).0.Ok?
    requires p in es && InStore(p.reg, |mem|) && Numeric(p.reg)
    ensures var after := AllWritten(es, mem, writes).1;
      && LiveSf(after, p.reg) == LiveSf(mem, p.reg)
      && (i < |writes| && p.name == writes[i].0 ==>
            && ValueAt(after, p.reg).Ok?
            && Abs(ValueAt(after, p.reg).value - writes[i].1) <= Abs(Resolution(p.reg, LiveSf(mem, p.reg))) / 2.0)
    decreases |writes|
  {
    hide Resolution, Interpreted, BigEndian, Numeric, ValueAt, LiveSf, Written, KeepsFactors, Coded, ServedMap, InStore;
    if writes != [] {
      var n := |writes| - 1;
      var before := AllWritten(es, mem, writes[..n]).1;
      InitialReadBack(es, mem, writes[..n], i, p);
      NumericCoded(p.reg);
      OtherWritten(es, before, writes[n].0, writes[n].1, p);
      if i == n && p.name == writes[n].0 {
        OneReadBack(es, before, writes[n].0, writes[n].1, p);
      }
    }
  }

  lemma NumericCoded(reg: RegisterDef)
    requires Numeric(reg)
    ensures reg.typ != Float32
  {}

  lemma OneReadBack(es: seq<Entry>, mem: seq<int>, name: string, value: real, p: Entry)
    requires ServedMap(es, |mem|) && Coded(es, name) && KeepsFactors(es, name) && Written(es, mem, name, value).0.Ok?
    requires p in es && p.name == name && InStore(p.reg, |mem|) && Numeric(p.reg)
    ensures var after := Written(es, mem, name, value).1;
      && |after| == |mem| && ValueAt(after, p.reg).Ok?
      && Abs(ValueAt(after, p.reg).value - value) <= Abs(Resolution(p.reg, LiveSf(mem, p.reg))) / 2.0
  {
    var reg := RegOf(es, name).value;
    assert Entry(name, reg) in es;
    assert reg == p.reg by { OneOfAName(es, Entry(name, reg), p); }
    hide Encode, Decode, Resolution, Interpreted, BigEndian;
    WriteThenRead(mem, reg, value);
  }

  lemma OneOfAName(es: seq<Entry>, p: Entry, q: Entry)
    requires (forall i, j | 0 <= i < j < |es| :: es[i].name != es[j].name) && p in es && q in es && p.name == q.name
    ensures p == q
  {
    var i :| 0 <= i < |es| && es[i] == p;
    var j :| 0 <= j < |es| && es[j] == q;
  }

  lemma StoredReads(mem: seq<int>, reg: RegisterDef, words: seq<int>)
    requires InStore(reg, |mem|) && |words| == Width(reg)
    ensures WordsAt(Stored(mem, reg, words), reg) == words
    ensures reg.sfAddress.Some? && !Occupies(reg, reg.sfAddress.value) ==>
      LiveSf(Stored(mem, reg, words), reg) == LiveSf(mem, reg)
  {
    hide Interpreted, BigEndian;
  }
}
