/** What every dump of the walker looks like, whatever the memory held. */
module DumpShape {
  import opened Common
  import opened Codec
  import opened SunSpecImage
  import opened SunSpecWalk

  /** The catalog's points as far as the declared end, values left out. */
  ghost function Layout(pts: seq<PointSpec>, base: int, at: int, end: int): seq<PointDump> {
    if pts == [] || at + PointWidth(pts[0]) > end then []
    else [Blank(pts[0], base, at)] + Layout(pts[1..], base, at + PointWidth(pts[0]), end)
  }

  ghost predicate Fills(points: seq<PointDump>, layout: seq<PointDump>) {
    |points| == |layout| && forall i | 0 <= i < |points| :: points[i].(value := None) == layout[i]
  }

  ghost function SfNames(points: seq<PointDump>): set<PointName> {
    set i | 0 <= i < |points| && points[i].typ == SunSsf :: points[i].name
  }

  /** A dumped scale factor is the register's own value. */
  ghost predicate TrueTo(mem: Memory, p: PointDump) {
    p.typ == SunSsf ==> p.address in mem && p.value == Some(Interpreted(SunSsf, mem[p.address]))
  }

  ghost predicate AllTrue(mem: Memory, points: seq<PointDump>) {
    forall i | 0 <= i < |points| :: TrueTo(mem, points[i])
  }

  ghost predicate ShapedModel(m: ModelDump, cat: Catalog) {
    && m.headerLength >= 0
    && (m.known <==> m.id in cat)
    && (if m.known then
          && Fills(m.points, Layout(cat[m.id], m.base, m.base, m.base + 2 + m.headerLength))
          && m.scaleFactors.Keys == SfNames(m.points)
          && m.catalogLength == Some(CatalogBodyLen(cat[m.id]))
          && m.lengthMatches == Some(CatalogBodyLen(cat[m.id]) == m.headerLength)
        else m.points == [] && m.scaleFactors == map[] && m.catalogLength == None && m.lengthMatches == None)
  }

  /** The header of the i-th model lies behind the bodies before it. */
  ghost function HeaderAt(base: int, models: seq<ModelDump>, i: nat): int
    requires i <= |models|
  {
    if i == 0 then base + 2 else HeaderAt(base, models, i - 1) + 2 + models[i - 1].headerLength
  }

  ghost predicate ShapedAt(base: int, models: seq<ModelDump>, i: nat, cat: Catalog)
    requires i < |models|
  {
    models[i].index == i && models[i].base == HeaderAt(base, models, i) && ShapedModel(models[i], cat)
  }

  ghost predicate Shaped(d: Dump, cat: Catalog) {
    && (forall i | 0 <= i < |d.models| :: ShapedAt(d.base, d.models, i, cat))
    && (d.endAddress.Some? ==> d.endAddress.value == HeaderAt(d.base, d.models, |d.models|))
  }

  /** What was read of a model and what its entry says agree. */
  ghost predicate Grounded(mem: Memory, m: ModelDump) {
    m.id != END_MODEL_ID && ReadWords(mem, m.base, 2) == Ok([m.id, m.headerLength]) && AllTrue(mem, m.points)
  }

  ghost predicate GroundedDump(mem: Memory, d: Dump) {
    && (forall i | 0 <= i < |d.models| :: Grounded(mem, d.models[i]))
    && (d.endAddress.Some? ==> d.endAddress.value in mem && mem[d.endAddress.value] == END_MODEL_ID)
  }

  // ------------------------------------------------------------ points

  /** after extends before by points that fill the layout. */
  ghost predicate Extends(mem: Memory, before: Walked, after: Walked, layout: seq<PointDump>) {
    && |after.points| == |before.points| + |layout| && before.points <= after.points
    && Fills(after.points[|before.points|..], layout) && AllTrue(mem, after.points[|before.points|..])
    && after.scaleFactors.Keys == before.scaleFactors.Keys + SfNames(after.points[|before.points|..])
  }

  lemma EntryFills(mem: Memory, p: PointSpec, base: int, at: int)
    requires PointEntry(mem, p, base, at).Ok?
    ensures var e := PointEntry(mem, p, base, at).value;
      && e.(value := None) == Blank(p, base, at) && TrueTo(mem, e) && (e.typ == SunSsf ==> e.value.Some?)
  {
    if p.typ == SunSsf {
      hide Interpreted;
      var r := ReadWords(mem, at, 1);
      assert at in mem by { assert r.Ok?; }
      ReadOne(mem, at);
      PlainWord(mem[at]);
    }
  }

  lemma {:induction false} PointsExtend(mem: Memory, mid: int, pts: seq<PointSpec>, base: int, at: int, end: int,
                                        acc: Walked)
    requires WalkPoints(mem, mid, pts, base, at, end, acc).Ok?
    ensures Extends(mem, acc, WalkPoints(mem, mid, pts, base, at, end, acc).value, Layout(pts, base, at, end))
    decreases |pts|
  {
    hide *;
    if pts == [] || at + PointWidth(pts[0]) > end {
      NoMorePoints(mem, mid, pts, base, at, end, acc);
    } else {
      var w := PointWidth(pts[0]);
      var e := WalkedOne(mem, mid, pts, base, at, end, acc);
      PointsExtend(mem, mid, pts[1..], base, at + w, end, Record(acc, e));
      ExtendsOneMore(mem, acc, e, WalkPoints(mem, mid, pts, base, at, end, acc).value,
                     Layout(pts[1..], base, at + w, end));
    }
  }

  lemma NoMorePoints(mem: Memory, mid: int, pts: seq<PointSpec>, base: int, at: int, end: int, acc: Walked)
    requires pts == [] || at + PointWidth(pts[0]) > end
    ensures WalkPoints(mem, mid, pts, base, at, end, acc).Ok?
    ensures Extends(mem, acc, WalkPoints(mem, mid, pts, base, at, end, acc).value, Layout(pts, base, at, end))
  {}

  lemma WalkedOne(mem: Memory, mid: int, pts: seq<PointSpec>, base: int, at: int, end: int, acc: Walked)
    returns (e: PointDump)
    requires pts != [] && at + PointWidth(pts[0]) <= end && WalkPoints(mem, mid, pts, base, at, end, acc).Ok?
    ensures e.(value := None) == Blank(pts[0], base, at) && TrueTo(mem, e) && (e.typ == SunSsf ==> e.value.Some?)
    ensures WalkPoints(mem, mid, pts, base, at, end, acc)
         == WalkPoints(mem, mid, pts[1..], base, at + PointWidth(pts[0]), end, Record(acc, e))
    ensures Layout(pts, base, at, end) == [e.(value := None)] + Layout(pts[1..], base, at + PointWidth(pts[0]), end)
  {
    hide PointEntry, Record, Blank, TrueTo, PointWidth;
    e := PointEntry(mem, pts[0], base, at).value;
    EntryFills(mem, pts[0], base, at);
  }

  lemma ExtendsOneMore(mem: Memory, acc: Walked, e: PointDump, after: Walked, rest: seq<PointDump>)
    requires TrueTo(mem, e) && (e.typ == SunSsf ==> e.value.Some?)
    requires Extends(mem, Record(acc, e), after, rest)
    ensures Extends(mem, acc, after, [e.(value := None)] + rest)
  {
    hide TrueTo;
    var n := |acc.points|;
    var tail := after.points[n + 1..];
    assert after.points[n..] == [e] + tail;
    assert acc.points <= after.points by { assert acc.points <= acc.points + [e]; }
    NamesOfOneMore(e, tail);
    assert AllTrue(mem, [e] + tail);
  }

  lemma NamesOfOneMore(e: PointDump, tail: seq<PointDump>)
    ensures SfNames([e] + tail) == (if e.typ == SunSsf then {e.name} else {}) + SfNames(tail)
  {
    var all := [e] + tail;
    forall n | n in SfNames(tail) ensures n in SfNames(all) {
      var i :| 0 <= i < |tail| && tail[i].typ == SunSsf && tail[i].name == n;
      assert all[i + 1] == tail[i];
    }
    if e.typ == SunSsf {
      assert all[0] == e;
    }
  }

  // ------------------------------------------------------------ models

  lemma ModelShaped(mem: Memory, cat: Catalog, index: nat, at: int, id: int, length: int, notes: seq<Note>)
    requires WalkModel(mem, cat, index, at, id, length, notes).Ok? && length >= 0
    ensures var m := WalkModel(mem, cat, index, at, id, length, notes).value.0;
      && ShapedModel(m, cat) && AllTrue(mem, m.points)
      && m.index == index && m.base == at && m.id == id && m.headerLength == length
  {
    hide WalkPoints, Layout, TrueTo, Fills;
    if id in cat {
      var body, end := CatalogBodyLen(cat[id]), at + 2 + length;
      var noted := if body != length then notes + [LengthDiffers(id, at, length, body)] else notes;
      var acc := Walked([], map[], noted);
      PointsExtend(mem, id, cat[id], at, at, end, acc);
      var w := WalkPoints(mem, id, cat[id], at, at, end, acc).value;
      assert w.points[0..] == w.points;
      assert acc.scaleFactors.Keys == {};
    }
  }

  ghost predicate SoundSoFar(mem: Memory, cat: Catalog, d: Dump, at: int) {
    d.endAddress == None && at == HeaderAt(d.base, d.models, |d.models|) && Shaped(d, cat) && GroundedDump(mem, d)
  }

  lemma {:induction false} HeaderAtPrefix(base: int, models: seq<ModelDump>, m: ModelDump, i: nat)
    requires i <= |models|
    ensures HeaderAt(base, models + [m], i) == HeaderAt(base, models, i)
  {
    if i > 0 {
      HeaderAtPrefix(base, models, m, i - 1);
    }
  }

  lemma SoundWithOneMore(mem: Memory, cat: Catalog, d: Dump, at: int, m: ModelDump, notes: seq<Note>)
    requires SoundSoFar(mem, cat, d, at) && Grounded(mem, m)
    requires ShapedModel(m, cat) && m.index == |d.models| && m.base == at
    ensures SoundSoFar(mem, cat, d.(models := d.models + [m], notes := notes), at + 2 + m.headerLength)
  {
    hide Grounded, ShapedModel;
    var all, n := d.models + [m], |d.models|;
    forall i | 0 <= i < |all| ensures ShapedAt(d.base, all, i, cat) {
      HeaderAtPrefix(d.base, d.models, m, i);
      assert i < n ==> all[i] == d.models[i] && ShapedAt(d.base, d.models, i, cat);
    }
    HeaderAtPrefix(d.base, d.models, m, n);
  }

  lemma {:induction false} ModelsSound(mem: Memory, cat: Catalog, at: int, budget: nat, limit: nat, d: Dump)
    requires SoundSoFar(mem, cat, d, at) && WalkModels(mem, cat, at, budget, limit, d).Ok?
    ensures var r := WalkModels(mem, cat, at, budget, limit, d).value;
      Shaped(r, cat) && GroundedDump(mem, r) && r.base == d.base && |r.models| <= |d.models| + budget
    decreases budget
  {
    hide *;
    if budget == 0 || ReadWords(mem, at, 2).Err? || ReadWords(mem, at, 2).value[0] == END_MODEL_ID {
      ModelsEnd(mem, cat, at, budget, limit, d);
    } else {
      var header, m, notes := OneMoreModel(mem, cat, at, budget, limit, d);
      SoundWithOneMore(mem, cat, d, at, m, notes);
      ModelsSound(mem, cat, at + 2 + header[1], budget - 1, limit, d.(models := d.models + [m], notes := notes));
    }
  }

  lemma ModelsEnd(mem: Memory, cat: Catalog, at: int, budget: nat, limit: nat, d: Dump)
    requires SoundSoFar(mem, cat, d, at) && WalkModels(mem, cat, at, budget, limit, d).Ok?
    requires budget == 0 || ReadWords(mem, at, 2).Err? || ReadWords(mem, at, 2).value[0] == END_MODEL_ID
    ensures var r := WalkModels(mem, cat, at, budget, limit, d).value;
      Shaped(r, cat) && GroundedDump(mem, r) && r.base == d.base && |r.models| <= |d.models| + budget
  {
    hide WalkModel, ShapedAt, Grounded;
    if budget > 0 {
      assert at in mem && ReadWords(mem, at, 2).value[0] == mem[at + 0];
    }
  }

  lemma OneMoreModel(mem: Memory, cat: Catalog, at: int, budget: nat, limit: nat, d: Dump)
    returns (header: seq<int>, m: ModelDump, notes: seq<Note>)
    requires budget > 0 && WalkModels(mem, cat, at, budget, limit, d).Ok?
    requires ReadWords(mem, at, 2).Ok? && ReadWords(mem, at, 2).value[0] != END_MODEL_ID
    ensures |header| == 2 && m.headerLength == header[1] && m.index == |d.models| && m.base == at
    ensures ShapedModel(m, cat) && Grounded(mem, m)
    ensures WalkModels(mem, cat, at, budget, limit, d)
         == WalkModels(mem, cat, at + 2 + header[1], budget - 1, limit, d.(models := d.models + [m], notes := notes))
  {
    hide WalkModel, ShapedModel, AllTrue;
    header := ReadWords(mem, at, 2).value;
    assert header[1] >= 0 by {
      assert at + 1 in mem && header[1] == mem[at + 1];
    }
    var r := WalkModel(mem, cat, |d.models|, at, header[0], header[1], d.notes).value;
    m, notes := r.0, r.1;
    ModelShaped(mem, cat, |d.models|, at, header[0], header[1], d.notes);
    assert header == [header[0], header[1]];
  }

  /** For any memory whatever: a successful walk returns contiguous models whose headers are the words
      at their addresses, points laid out from the catalog as far as the header's length allows, the
      scale factors of exactly those points with the registers' own values, and an end address that
      holds the end marker right behind the last model. */
  lemma WalkSound(mem: Memory, cat: Catalog, base: int, limit: nat)
    requires WalkFrom(mem, cat, base, limit).Ok?
    ensures var d := WalkFrom(mem, cat, base, limit).value;
      Shaped(d, cat) && GroundedDump(mem, d) && d.base == base && |d.models| <= limit
  {
    hide WalkModels;
    ModelsSound(mem, cat, base + 2, limit, limit, Dump(base, [], None, []));
  }

  // ------------------------------------------------------------ notes

  /** What is noted of a dumped model: that the catalog does not have it, or that it declares another length,
      and the first catalog point that did not fit. */
  ghost function NotesOf(m: ModelDump, cat: Catalog): seq<Note> {
    if m.id !in cat then [NotInCatalog(m.id, m.base, m.headerLength)]
    else
      (if CatalogBodyLen(cat[m.id]) == m.headerLength then []
       else [LengthDiffers(m.id, m.base, m.headerLength, CatalogBodyLen(cat[m.id]))])
      + (if |m.points| < |cat[m.id]| then [PointOmitted(m.id, cat[m.id][|m.points|].name)] else [])
  }

  ghost function NotesOfAll(models: seq<ModelDump>, cat: Catalog): seq<Note> {
    if models == [] then [] else NotesOfAll(models[..|models| - 1], cat) + NotesOf(models[|models| - 1], cat)
  }

  lemma {:induction false} PointNotes(mem: Memory, mid: int, pts: seq<PointSpec>, base: int, at: int, end: int,
                                      acc: Walked)
    requires WalkPoints(mem, mid, pts, base, at, end, acc).Ok?
    ensures var w := WalkPoints(mem, mid, pts, base, at, end, acc).value;
      var k := |w.points| - |acc.points|;
      && 0 <= k <= |pts|
      && w.notes == acc.notes + if k < |pts| then [PointOmitted(mid, pts[k].name)] else []
    decreases |pts|
  {
    hide PointEntry, PointWidth;
    if pts != [] && at + PointWidth(pts[0]) <= end {
      var e := PointEntry(mem, pts[0], base, at).value;
      PointNotes(mem, mid, pts[1..], base, at + PointWidth(pts[0]), end, Record(acc, e));
    }
  }

  lemma ModelNotes(mem: Memory, cat: Catalog, index: nat, at: int, id: int, length: int, notes: seq<Note>)
    requires WalkModel(mem, cat, index, at, id, length, notes).Ok?
    ensures var r := WalkModel(mem, cat, index, at, id, length, notes).value; r.1 == notes + NotesOf(r.0, cat)
  {
    hide WalkPoints, CatalogBodyLen;
    if id in cat {
      var body := CatalogBodyLen(cat[id]);
      var noted := if body != length then notes + [LengthDiffers(id, at, length, body)] else notes;
      PointNotes(mem, id, cat[id], at, at, at + 2 + length, Walked([], map[], noted));
    }
  }

  lemma {:induction false} ModelsNotes(mem: Memory, cat: Catalog, at: int, budget: nat, limit: nat, d: Dump)
    requires d.endAddress == None && d.notes == NotesOfAll(d.models, cat)
    requires WalkModels(mem, cat, at, budget, limit, d).Ok?
    ensures var r := WalkModels(mem, cat, at, budget, limit, d).value;
      && r.notes == NotesOfAll(r.models, cat) + (if r.endAddress.None? then [NoEnd(limit)] else [])
      && (r.endAddress.None? ==> |r.models| == |d.models| + budget)
    decreases budget
  {
    hide WalkModel, ReadWords, NotesOf;
    if budget > 0 {
      var header := ReadWords(mem, at, 2).value;
      if header[0] != END_MODEL_ID {
        var m := WalkModel(mem, cat, |d.models|, at, header[0], header[1], d.notes).value;
        ModelNotes(mem, cat, |d.models|, at, header[0], header[1], d.notes);
        assert (d.models + [m.0])[..|d.models|] == d.models;
        ModelsNotes(mem, cat, at + 2 + header[1], budget - 1, limit, d.(models := d.models + [m.0], notes := m.1));
      }
    }
  }

  /** The notes of a walk say exactly what can be read off its dump: model by model, and at the end that no
      end marker was found in as many models as the limit allows. */
  lemma NotesTell(mem: Memory, cat: Catalog, base: int, limit: nat)
    requires WalkFrom(mem, cat, base, limit).Ok?
    ensures var d := WalkFrom(mem, cat, base, limit).value;
      && d.notes == NotesOfAll(d.models, cat) + (if d.endAddress.None? then [NoEnd(limit)] else [])
      && (d.endAddress.None? ==> |d.models| == limit)
  {
    hide WalkModels, ReadWords;
    ModelsNotes(mem, cat, base + 2, limit, limit, Dump(base, [], None, []));
  }

  /** A walk starts exactly at the four letters "SunS", big-endian in two registers; without the two it has
      nothing to read. */
  lemma StartsAtSunS(mem: Memory, cat: Catalog, base: int, limit: nat)
    ensures base !in mem || base + 1 !in mem ==> WalkFrom(mem, cat, base, limit) == Err(MissingWord)
    ensures base in mem && base + 1 in mem ==>
      (WalkFrom(mem, cat, base, limit) == Err(NoSunsMarker) <==>
         !(mem[base] == 'S' as int * 256 + 'u' as int && mem[base + 1] == 'n' as int * 256 + 'S' as int))
  {
    hide WalkModels;
    OnlyMissingWords(mem, cat, base + 2, limit, limit, Dump(base, [], None, []));
    var r := ReadWords(mem, base, 2);
    if base in mem && base + 1 in mem {
      ReadTwo(mem, base);
    }
  }

  lemma {:induction false} OnlyMissingWords(mem: Memory, cat: Catalog, at: int, budget: nat, limit: nat, d: Dump)
    ensures WalkModels(mem, cat, at, budget, limit, d).Err? ==>
      WalkModels(mem, cat, at, budget, limit, d) == Err(MissingWord)
    decreases budget
  {
    hide WalkPoints;
    if budget > 0 && ReadWords(mem, at, 2).Ok? {
      var header := ReadWords(mem, at, 2).value;
      var id, length := header[0], header[1];
      if id in cat {
        var body := CatalogBodyLen(cat[id]);
        var noted := if body != length then d.notes + [LengthDiffers(id, at, length, body)] else d.notes;
        OnlyMissingPoints(mem, id, cat[id], at, at, at + 2 + length, Walked([], map[], noted));
      }
      hide ReadWords;
      if id != END_MODEL_ID && WalkModel(mem, cat, |d.models|, at, id, length, d.notes).Ok? {
        var m := WalkModel(mem, cat, |d.models|, at, id, length, d.notes).value;
        hide WalkModel;
        OnlyMissingWords(mem, cat, at + 2 + length, budget - 1, limit, d.(models := d.models + [m.0], notes := m.1));
      }
    }
  }

  lemma {:induction false} OnlyMissingPoints(mem: Memory, mid: int, pts: seq<PointSpec>, base: int, at: int, end: int,
                                             acc: Walked)
    ensures WalkPoints(mem, mid, pts, base, at, end, acc).Err? ==>
      WalkPoints(mem, mid, pts, base, at, end, acc) == Err(MissingWord)
    decreases |pts|
  {
    if pts != [] && at + PointWidth(pts[0]) <= end && PointEntry(mem, pts[0], base, at).Ok? {
      OnlyMissingPoints(mem, mid, pts[1..], base, at + PointWidth(pts[0]), end,
                        Record(acc, PointEntry(mem, pts[0], base, at).value));
    }
  }
}
