/** Grouping of points into read requests, and the batched read. */
module ReadPlan {
  import opened Common
  import C = Codec
  import M = RegisterMap

  /** A requested point: its zero-based holding offset and its width in registers. */
  datatype Item = Item(name: string, off: int, width: int)

  datatype ReadBlock = ReadBlock(start: int, count: int, points: seq<Item>)

  function End(p: Item): int { p.off + p.width }

  ghost predicate Sorted(s: seq<Item>) { forall i, j | 0 <= i < j < |s| :: s[i].off <= s[j].off }

  /** The register at an offset is one of the point's. */
  predicate Holds(p: Item, off: int) { p.off <= off < End(p) }

  /** Two points are the same registers, or neither starts inside the other. An empty point is thus
      apart from everything but the points it sits in. */
  ghost predicate Apart(p: Item, q: Item) {
    (p.off == q.off && p.width == q.width) || (!Holds(p, q.off) && !Holds(q, p.off))
  }

  ghost predicate NonOverlapping(s: seq<Item>) {
    && (forall i | 0 <= i < |s| :: s[i].width >= 0)
    && forall i, j | 0 <= i < |s| && 0 <= j < |s| :: Apart(s[i], s[j])
  }

  // ------------------------------------------------------------ ordering

  function Insert(p: Item, s: seq<Item>): seq<Item> {
    if s == [] then [p]
    else if s[|s| - 1].off <= p.off then s + [p]
    else Insert(p, s[..|s| - 1]) + [s[|s| - 1]]
  }

  /** Stable sort by offset. */
  function SortByOffset(s: seq<Item>): seq<Item> {
    if s == [] then [] else Insert(s[|s| - 1], SortByOffset(s[..|s| - 1]))
  }

  lemma {:induction false} InsertPermutes(p: Item, s: seq<Item>)
    ensures multiset(Insert(p, s)) == multiset(s) + multiset{p}
  {
    if s != [] && s[|s| - 1].off > p.off {
      InsertPermutes(p, s[..|s| - 1]);
      assert s == s[..|s| - 1] + [s[|s| - 1]];
    }
  }

  lemma {:induction false} InsertSorts(p: Item, s: seq<Item>)
    requires Sorted(s)
    ensures Sorted(Insert(p, s))
  {
    if s != [] && s[|s| - 1].off > p.off {
      var rest, last := s[..|s| - 1], s[|s| - 1];
      var r := Insert(p, rest);
      InsertSorts(p, rest);
      InsertPermutes(p, rest);
      hide Insert;
      forall i | 0 <= i < |r| ensures r[i].off <= last.off {
        MemberOfInsert(r, rest, p, r[i]);
      }
    }
  }

  lemma MemberOfInsert(r: seq<Item>, rest: seq<Item>, p: Item, x: Item)
    requires multiset(r) == multiset(rest) + multiset{p} && x in r
    ensures x in rest || x == p
  {
    assert x in multiset(r);
  }

  lemma {:induction false} SortSorts(s: seq<Item>)
    ensures Sorted(SortByOffset(s))
  {
    if s != [] {
      SortSorts(s[..|s| - 1]);
      InsertSorts(s[|s| - 1], SortByOffset(s[..|s| - 1]));
    }
  }

  lemma {:induction false} SortPermutes(s: seq<Item>)
    ensures multiset(SortByOffset(s)) == multiset(s)
    ensures forall p :: p in SortByOffset(s) <==> p in s
  {
    hide Insert;
    if s != [] {
      SortPermutes(s[..|s| - 1]);
      InsertPermutes(s[|s| - 1], SortByOffset(s[..|s| - 1]));
      assert s == s[..|s| - 1] + [s[|s| - 1]];
    }
    forall p ensures p in SortByOffset(s) <==> p in s {
      assert p in SortByOffset(s) <==> p in multiset(SortByOffset(s));
    }
  }

  /** The points at an offset, in their order. */
  ghost function PointsAt(s: seq<Item>, off: int): seq<Item> {
    if s == [] then []
    else PointsAt(s[..|s| - 1], off) + if s[|s| - 1].off == off then [s[|s| - 1]] else []
  }

  lemma PointsAtStep(s: seq<Item>, p: Item, off: int)
    ensures PointsAt(s + [p], off) == PointsAt(s, off) + if p.off == off then [p] else []
  {
    assert (s + [p])[..|s|] == s;
  }

  lemma {:induction false} InsertIsStable(p: Item, s: seq<Item>, off: int)
    ensures PointsAt(Insert(p, s), off) == PointsAt(s, off) + if p.off == off then [p] else []
  {
    if s == [] || s[|s| - 1].off <= p.off {
      PointsAtStep(s, p, off);
    } else {
      var rest, last := s[..|s| - 1], s[|s| - 1];
      InsertIsStable(p, rest, off);
      PointsAtStep(Insert(p, rest), last, off);
    }
  }

  /** Points at one offset keep their order. */
  lemma {:induction false} SortIsStable(s: seq<Item>, off: int)
    ensures PointsAt(SortByOffset(s), off) == PointsAt(s, off)
  {
    if s != [] {
      SortIsStable(s[..|s| - 1], off);
      InsertIsStable(s[|s| - 1], SortByOffset(s[..|s| - 1]), off);
    }
  }

  lemma SortKeepsDisjoint(s: seq<Item>)
    requires NonOverlapping(s)
    ensures NonOverlapping(SortByOffset(s))
  {
    SortPermutes(s);
    hide SortByOffset;
    var t := SortByOffset(s);
    assert forall i | 0 <= i < |t| :: t[i] in s;
  }

  // ------------------------------------------------------------ the plan

  ghost function Flatten(bs: seq<ReadBlock>): seq<Item> {
    if bs == [] then [] else Flatten(bs[..|bs| - 1]) + bs[|bs| - 1].points
  }

  /** A request spans its points from the first to the end of the last, without an inner gap. */
  ghost predicate BlockOk(b: ReadBlock, maxGap: int) {
    && b.points != []
    && b.start == b.points[0].off
    && b.start + b.count == End(b.points[|b.points| - 1])
    && forall k | 0 < k < |b.points| :: b.points[k].off - End(b.points[k - 1]) <= maxGap
  }

  ghost predicate GapAfter(bs: seq<ReadBlock>, k: int, maxGap: int)
    requires 0 < k < |bs|
  {
    bs[k].start - (bs[k - 1].start + bs[k - 1].count) > maxGap
  }

  /** The points in order, each in exactly one request; a new request only across a larger gap. */
  ghost predicate IsPlan(bs: seq<ReadBlock>, s: seq<Item>, maxGap: int) {
    && Flatten(bs) == s
    && (forall k | 0 <= k < |bs| :: BlockOk(bs[k], maxGap))
    && forall k | 0 < k < |bs| :: GapAfter(bs, k, maxGap)
  }

  lemma {:induction false} FlattenSnoc(bs: seq<ReadBlock>, b: ReadBlock)
    ensures Flatten(bs + [b]) == Flatten(bs) + b.points
  {
    assert (bs + [b])[..|bs|] == bs;
  }

  /** The grouping loop. */
  method PlanReads(items: seq<Item>, maxGap: int) returns (blocks: seq<ReadBlock>)
    ensures IsPlan(blocks, SortByOffset(items), maxGap)
  {
    hide *;
    var regs := SortByOffset(items);
    blocks := [];
    var current: seq<Item> := [];
    var start, end := 0, 0;
    EmptyPlan(maxGap);
    for i := 0 to |regs|
      invariant current == [] ==> i == 0 && blocks == []
      invariant IsPlan(blocks, Flatten(blocks), maxGap)
      invariant Flatten(blocks) + current == regs[..i]
      invariant current != [] ==>
        BlockOk(ReadBlock(start, end - start, current), maxGap) && Follows(blocks, start, maxGap)
    {
      var p := regs[i];
      if current != [] && p.off - end > maxGap {
        Append(blocks, ReadBlock(start, end - start, current), maxGap);
        NextFollows(blocks, ReadBlock(start, end - start, current), p.off, maxGap);
        blocks := blocks + [ReadBlock(start, end - start, current)];
        current := [];
      } else if current == [] {
        FirstFollows(p.off, maxGap);
      }
      GrowBlock(current, start, end, p, maxGap);
      if current == [] {
        start := p.off;
      }
      current := current + [p];
      end := End(p);
      assert regs[..i + 1] == regs[..i] + [p];
    }
    assert regs[..|regs|] == regs;
    if current != [] {
      Append(blocks, ReadBlock(start, end - start, current), maxGap);
      blocks := blocks + [ReadBlock(start, end - start, current)];
    }
  }

  /** A request starting there leaves a gap after the requests made. */
  ghost predicate Follows(bs: seq<ReadBlock>, start: int, maxGap: int) {
    bs != [] ==> start - (bs[|bs| - 1].start + bs[|bs| - 1].count) > maxGap
  }

  lemma FirstFollows(start: int, maxGap: int)
    ensures Follows([], start, maxGap)
  {}

  lemma NextFollows(bs: seq<ReadBlock>, b: ReadBlock, start: int, maxGap: int)
    requires start - (b.start + b.count) > maxGap
    ensures Follows(bs + [b], start, maxGap)
  {}

  lemma EmptyPlan(maxGap: int)
    ensures Flatten([]) == [] && IsPlan([], Flatten([]), maxGap)
  {}

  lemma GrowBlock(current: seq<Item>, start: int, end: int, p: Item, maxGap: int)
    requires current != [] ==> BlockOk(ReadBlock(start, end - start, current), maxGap) && p.off - end <= maxGap
    ensures var first := if current == [] then p.off else start;
      BlockOk(ReadBlock(first, End(p) - first, current + [p]), maxGap)
  {
    var b := ReadBlock(start, end - start, current);
    forall k | 0 < k < |current + [p]| ensures (current + [p])[k].off - End((current + [p])[k - 1]) <= maxGap {
      assert k < |current| ==> b.points[k].off - End(b.points[k - 1]) <= maxGap;
    }
  }

  lemma {:induction false} Append(bs: seq<ReadBlock>, b: ReadBlock, maxGap: int)
    requires IsPlan(bs, Flatten(bs), maxGap) && BlockOk(b, maxGap) && Follows(bs, b.start, maxGap)
    ensures IsPlan(bs + [b], Flatten(bs + [b]), maxGap) && Flatten(bs + [b]) == Flatten(bs) + b.points
  {
    var all := bs + [b];
    FlattenSnoc(bs, b);
    hide BlockOk, Flatten;
    forall k | 0 <= k < |all| ensures BlockOk(all[k], maxGap) {}
    forall k | 0 < k < |all| ensures GapAfter(all, k, maxGap) {
      if k < |bs| {
        assert GapAfter(bs, k, maxGap);
      }
    }
  }

  // ------------------------------------------------------------ what a plan guarantees

  /** Where block k's points sit in the sorted request. */
  ghost function FirstIndex(bs: seq<ReadBlock>, k: nat): nat
    requires k <= |bs|
  { |Flatten(bs[..k])| }

  lemma {:induction false} FlattenSplit(bs: seq<ReadBlock>, k: nat)
    requires k < |bs|
    ensures FirstIndex(bs, k) + |bs[k].points| == FirstIndex(bs, k + 1) <= |Flatten(bs)|
    ensures Flatten(bs)[FirstIndex(bs, k)..FirstIndex(bs, k + 1)] == bs[k].points
    decreases |bs|
  {
    assert bs[..k + 1][..k] == bs[..k];
    if k == |bs| - 1 {
      assert bs[..k + 1] == bs;
    } else {
      var rest := bs[..|bs| - 1];
      FlattenSplit(rest, k);
      assert rest[..k] == bs[..k] && rest[..k + 1] == bs[..k + 1];
    }
  }

  /** With sorted points apart from each other the ends are ordered too, so the last end is the largest. */
  lemma EndsOrdered(s: seq<Item>, i: nat, j: nat)
    requires Sorted(s) && NonOverlapping(s) && i <= j < |s|
    ensures s[i].off <= s[j].off && End(s[i]) <= End(s[j])
  {
    if i < j {
      assert s[i].off <= s[j].off && Apart(s[i], s[j]);
    }
  }

  /** Every point's registers lie inside its request. */
  lemma BlockCovers(bs: seq<ReadBlock>, s: seq<Item>, maxGap: int, k: nat, p: Item)
    requires IsPlan(bs, s, maxGap) && Sorted(s) && NonOverlapping(s) && k < |bs| && p in bs[k].points
    ensures bs[k].start <= p.off && End(p) <= bs[k].start + bs[k].count
  {
    hide Sorted, NonOverlapping, Flatten;
    FlattenSplit(bs, k);
    var f, n := FirstIndex(bs, k), |bs[k].points|;
    var j :| 0 <= j < n && bs[k].points[j] == p;
    assert BlockOk(bs[k], maxGap);
    assert s[f..f + n] == bs[k].points;
    assert s[f] == bs[k].points[0] && s[f + j] == p && s[f + n - 1] == bs[k].points[n - 1];
    EndsOrdered(s, f, f + j);
    EndsOrdered(s, f + j, f + n - 1);
  }

  /** Different requests never overlap and keep their order. */
  lemma {:induction false} BlocksApart(bs: seq<ReadBlock>, s: seq<Item>, maxGap: int, a: nat, b: nat)
    requires IsPlan(bs, s, maxGap) && Sorted(s) && NonOverlapping(s) && maxGap >= 0 && a < b < |bs|
    ensures bs[a].start + bs[a].count + maxGap < bs[b].start
    decreases b - a
  {
    assert GapAfter(bs, b, maxGap);
    if a + 1 < b {
      BlocksApart(bs, s, maxGap, a, b - 1);
      BlockCovers(bs, s, maxGap, b - 1, bs[b - 1].points[0]);
      FlattenSplit(bs, b - 1);
      assert BlockOk(bs[b - 1], maxGap);
      assert s[FirstIndex(bs, b - 1)] == bs[b - 1].points[0];
    }
  }

  /** A way to distribute the sorted points over requests: group[i] is the request of point i. It is
      valid when no request spans a gap larger than maxGap between two of its neighbouring points. */
  ghost predicate ValidGrouping(group: seq<int>, s: seq<Item>, maxGap: int) {
    && |group| == |s|
    && forall i, j | 0 <= i < j < |s| && group[i] == group[j] && NoneBetween(group, i, j) ::
         s[j].off - End(s[i]) <= maxGap
  }

  ghost predicate NoneBetween(group: seq<int>, i: int, j: int)
    requires 0 <= i < j < |group|
  {
    forall k | i < k < j :: group[k] != group[i]
  }

  lemma {:induction false} LastBefore(group: seq<int>, i: nat, limit: nat, j: nat) returns (k: nat)
    requires i < limit <= j < |group| && group[i] == group[j]
    requires forall m | limit <= m < j :: group[m] != group[j]
    ensures i <= k < limit && group[k] == group[j] && NoneBetween(group, k, j)
    decreases limit - i
  {
    if forall m | i < m < limit :: group[m] != group[j] {
      k := i;
    } else {
      var m :| i < m < limit && group[m] == group[j];
      k := LastBefore(group, m, limit, j);
    }
  }

  /** The first points of two requests cannot share a request in any valid grouping. */
  lemma LeadersApart(bs: seq<ReadBlock>, s: seq<Item>, maxGap: int, group: seq<int>, a: nat, b: nat)
    requires IsPlan(bs, s, maxGap) && Sorted(s) && NonOverlapping(s) && ValidGrouping(group, s, maxGap)
    requires a < b < |bs|
    ensures FirstIndex(bs, a) < FirstIndex(bs, b) < |s| == |group|
    ensures group[FirstIndex(bs, a)] != group[FirstIndex(bs, b)]
  {
    hide Sorted, NonOverlapping, Flatten, FirstIndex, BlockOk;
    FirstIndexGrows(bs, maxGap, a, b);
    LeaderFollowsGap(bs, s, maxGap, b);
    var i, j := FirstIndex(bs, a), FirstIndex(bs, b);
    if group[i] == group[j] {
      var k := LastBefore(group, i, j, j);
      EndsOrdered(s, k, j - 1);
      assert false;
    }
  }

  /** Between the last point before a request and its first point there is a gap. */
  lemma LeaderFollowsGap(bs: seq<ReadBlock>, s: seq<Item>, maxGap: int, b: nat)
    requires IsPlan(bs, s, maxGap) && 0 < b < |bs|
    ensures 0 < FirstIndex(bs, b) < |s|
    ensures s[FirstIndex(bs, b)].off - End(s[FirstIndex(bs, b) - 1]) > maxGap
  {
    hide Flatten;
    FlattenSplit(bs, b);
    FlattenSplit(bs, b - 1);
    assert BlockOk(bs[b], maxGap) && BlockOk(bs[b - 1], maxGap) && GapAfter(bs, b, maxGap);
    var i, j, prev := FirstIndex(bs, b - 1), FirstIndex(bs, b), bs[b - 1].points;
    hide FirstIndex;
    assert s[j..j + |bs[b].points|][0] == s[j];
    assert s[i..j][|prev| - 1] == s[j - 1];
  }

  lemma {:induction false} FirstIndexGrows(bs: seq<ReadBlock>, maxGap: int, a: nat, b: nat)
    requires (forall k | 0 <= k < |bs| :: BlockOk(bs[k], maxGap)) && a < b < |bs|
    ensures FirstIndex(bs, a) < FirstIndex(bs, b)
    decreases b - a
  {
    FlattenSplit(bs, b - 1);
    assert BlockOk(bs[b - 1], maxGap);
    if a + 1 < b {
      FirstIndexGrows(bs, maxGap, a, b - 1);
    }
  }

  ghost function Image(xs: seq<int>): set<int> { set i | 0 <= i < |xs| :: xs[i] }

  lemma {:induction false} DistinctImage(xs: seq<int>)
    requires forall i, j | 0 <= i < j < |xs| :: xs[i] != xs[j]
    ensures |Image(xs)| == |xs|
  {
    if xs != [] {
      var rest := xs[..|xs| - 1];
      DistinctImage(rest);
      assert Image(xs) == Image(rest) + {xs[|xs| - 1]};
    }
  }

  lemma SubsetSize(a: set<int>, b: set<int>)
    requires a <= b
    ensures |a| <= |b|
  {
    assert b == a + (b - a);
  }

  /** No valid grouping uses fewer requests than the plan. */
  lemma PlanIsMinimal(bs: seq<ReadBlock>, s: seq<Item>, maxGap: int, group: seq<int>)
    requires IsPlan(bs, s, maxGap) && Sorted(s) && NonOverlapping(s) && ValidGrouping(group, s, maxGap)
    ensures |bs| <= |Image(group)|
  {
    forall k | 0 <= k < |bs| ensures FirstIndex(bs, k) < |s| {
      FlattenSplit(bs, k);
      assert BlockOk(bs[k], maxGap);
    }
    var leaders := seq(|bs|, k requires 0 <= k < |bs| => group[FirstIndex(bs, k)]);
    forall a, b | 0 <= a < b < |leaders| ensures leaders[a] != leaders[b] {
      LeadersApart(bs, s, maxGap, group, a, b);
    }
    DistinctImage(leaders);
    SubsetSize(Image(leaders), Image(group));
  }

  // ------------------------------------------------------------ the batched read

  /** What the device answers: count registers from start, or an error past its end. */
  function Read(mem: seq<int>, start: int, count: int): Option<seq<int>> {
    if 0 <= start && 0 <= count && start + count <= |mem| then Some(mem[start..start + count]) else None
  }

  /** Slicing a request gives the words of reading the point alone. */
  lemma SliceIsPointRead(mem: seq<int>, b: ReadBlock, p: Item)
    requires b.start <= p.off && p.width >= 0 && End(p) <= b.start + b.count && Read(mem, b.start, b.count).Some?
    ensures var o := p.off - b.start;
      Read(mem, p.off, p.width) == Some(Read(mem, b.start, b.count).value[o..o + p.width])
  {
    SliceOfSlice(mem, b.start, b.start + b.count, p.off - b.start, p.width);
  }

  lemma SliceOfSlice(mem: seq<int>, lo: nat, hi: nat, o: nat, w: nat)
    requires lo <= hi <= |mem| && o + w <= hi - lo
    ensures mem[lo..hi][o..o + w] == mem[lo + o..lo + o + w]
  {
    var a, b := mem[lo..hi][o..o + w], mem[lo + o..lo + o + w];
    assert |a| == |b|;
    assert forall i | 0 <= i < w :: a[i] == mem[lo..hi][o + i];
    assert forall i | 0 <= i < w :: b[i] == mem[lo + o + i];
  }

  ghost predicate SameNameSameRegister(items: seq<Item>) {
    forall p, q | p in items && q in items && p.name == q.name :: p == q
  }

  /** What a point's reading must be: that of reading it alone, unless its request was refused. */
  ghost predicate ReadAlone(mem: seq<int>, blocks: seq<ReadBlock>, failed: ReadBlock -> bool, p: Item,
                            r: Option<seq<int>>)
  {
    || r == Read(mem, p.off, p.width)
    || (r == None && exists b :: b in blocks && p in b.points && (failed(b) || Read(mem, b.start, b.count) == None))
  }

  /** out holds a faithful reading for exactly the names of the points. */
  ghost predicate Answers(out: map<string, Option<seq<int>>>, points: seq<Item>, mem: seq<int>, blocks: seq<ReadBlock>,
                          failed: ReadBlock -> bool)
  {
    && (forall p | p in points :: p.name in out && ReadAlone(mem, blocks, failed, p, out[p.name]))
    && (forall n | n in out :: exists p :: p in points && p.name == n)
  }

  lemma AnswerOne(out: map<string, Option<seq<int>>>, points: seq<Item>, mem: seq<int>, blocks: seq<ReadBlock>,
                  failed: ReadBlock -> bool, p: Item, r: Option<seq<int>>)
    requires Answers(out, points, mem, blocks, failed) && ReadAlone(mem, blocks, failed, p, r)
    requires forall q | q in points && q.name == p.name :: q == p
    ensures Answers(out[p.name := r], points + [p], mem, blocks, failed)
  {
    hide ReadAlone;
    var next := out[p.name := r];
    forall n | n in next ensures exists q :: q in points + [p] && q.name == n {
      if n != p.name {
        var q :| q in points && q.name == n;
        assert q in points + [p];
      } else {
        assert p in points + [p];
      }
    }
  }

  lemma AnswersSame(out: map<string, Option<seq<int>>>, points: seq<Item>, items: seq<Item>, mem: seq<int>,
                    blocks: seq<ReadBlock>, failed: ReadBlock -> bool)
    requires Answers(out, points, mem, blocks, failed) && forall p :: p in points <==> p in items
    ensures Answers(out, items, mem, blocks, failed)
  {
    hide ReadAlone;
    forall n | n in out ensures exists q :: q in items && q.name == n {
      var q :| q in points && q.name == n;
      assert q in items;
    }
  }

  lemma {:induction false} PrefixFlattens(bs: seq<ReadBlock>, k: nat, p: Item)
    requires k <= |bs| && p in Flatten(bs[..k])
    ensures p in Flatten(bs)
    decreases |bs|
  {
    if k < |bs| {
      assert bs[..|bs| - 1][..k] == bs[..k];
      PrefixFlattens(bs[..|bs| - 1], k, p);
    } else {
      assert bs[..k] == bs;
    }
  }

  /** The facts about the plan the read loop uses at block k. */
  lemma BlockFacts(bs: seq<ReadBlock>, items: seq<Item>, maxGap: int, k: nat)
    requires IsPlan(bs, SortByOffset(items), maxGap) && NonOverlapping(items) && k < |bs|
    ensures forall p | p in bs[k].points :: bs[k].start <= p.off && End(p) <= bs[k].start + bs[k].count
    ensures forall p | p in bs[k].points :: p in items && p.width >= 0
    ensures forall p | p in Flatten(bs[..k]) :: p in items
    ensures Flatten(bs[..k + 1]) == Flatten(bs[..k]) + bs[k].points
  {
    hide *;
    var s := SortByOffset(items);
    SortSorts(items);
    SortKeepsDisjoint(items);
    assert bs[..k + 1] == bs[..k] + [bs[k]];
    FlattenSnoc(bs[..k], bs[k]);
    forall p | p in bs[k].points
      ensures bs[k].start <= p.off && End(p) <= bs[k].start + bs[k].count && p in items && p.width >= 0
    {
      BlockCovers(bs, s, maxGap, k, p);
      PlannedIsRequested(bs, items, maxGap, k + 1, p);
      WidthsNonNegative(items);
    }
    forall p | p in Flatten(bs[..k]) ensures p in items {
      PlannedIsRequested(bs, items, maxGap, k, p);
    }
  }

  lemma PlannedIsRequested(bs: seq<ReadBlock>, items: seq<Item>, maxGap: int, k: nat, p: Item)
    requires IsPlan(bs, SortByOffset(items), maxGap) && k <= |bs| && p in Flatten(bs[..k])
    ensures p in items
  {
    PrefixFlattens(bs, k, p);
    SortPermutes(items);
    hide SortByOffset, Flatten;
  }

  lemma WidthsNonNegative(items: seq<Item>)
    requires NonOverlapping(items)
    ensures forall p | p in items :: p.width >= 0
  {}

  /** The read path: one request per block, then one slice per point. failed says which requests the
      device refuses. Every point's reading is that of reading it alone, except that a refused request
      takes its own points down with it. */
  method ReadPoints(items: seq<Item>, maxGap: int, mem: seq<int>, failed: ReadBlock -> bool)
    returns (out: map<string, Option<seq<int>>>)
    requires NonOverlapping(items) && SameNameSameRegister(items)
    ensures exists blocks :: IsPlan(blocks, SortByOffset(items), maxGap) && Answers(out, items, mem, blocks, failed)
  {
    var plan := PlanReads(items, maxGap);
    out := map[];
    assert Flatten(plan[..0]) == [];
    for k := 0 to |plan|
      invariant Answers(out, Flatten(plan[..k]), mem, plan, failed)
    {
      BlockFacts(plan, items, maxGap, k);
      hide SortByOffset, NonOverlapping, IsPlan, Flatten, Answers;
      out := ReadBlockPoints(plan[k], mem, failed, out, Flatten(plan[..k]), plan, items);
    }
    assert plan[..|plan|] == plan;
    SortPermutes(items);
    hide Answers;
    AnswersSame(out, SortByOffset(items), items, mem, plan, failed);
  }

  /** One request and its slices. */
  method ReadBlockPoints(b: ReadBlock, mem: seq<int>, failed: ReadBlock -> bool, before: map<string, Option<seq<int>>>,
                         ghost done: seq<Item>, ghost plan: seq<ReadBlock>, ghost items: seq<Item>)
    returns (out: map<string, Option<seq<int>>>)
    requires b in plan && SameNameSameRegister(items) && Answers(before, done, mem, plan, failed)
    requires forall p | p in b.points ::
      b.start <= p.off && End(p) <= b.start + b.count && p.width >= 0 && p in items
    requires forall p | p in done :: p in items
    ensures Answers(out, done + b.points, mem, plan, failed)
  {
    hide Answers;
    out := before;
    var words := if failed(b) then None else Read(mem, b.start, b.count);
    assert done + b.points[..0] == done;
    for j := 0 to |b.points|
      invariant Answers(out, done + b.points[..j], mem, plan, failed)
    {
      var p := b.points[j];
      assert p in b.points;
      var r := None;
      if words.Some? {
        SliceIsPointRead(mem, b, p);
        var o := p.off - b.start;
        r := Some(words.value[o..o + p.width]);
      }
      AnswerOne(out, done + b.points[..j], mem, plan, failed, p, r);
      out := out[p.name := r];
      assert done + b.points[..j + 1] == done + b.points[..j] + [p];
    }
    assert b.points[..|b.points|] == b.points;
  }

  // ------------------------------------------------------------ requests against a map

  function ItemOf(e: M.Entry): Item
    requires C.HasWidth(e.reg)
  {
    Item(e.name, e.reg.address - C.HOLDING_BASE, C.Width(e.reg))
  }

  /** Requests for points of a map. */
  ghost predicate RequestFrom(items: seq<Item>, es: seq<M.Entry>) {
    forall p | p in items :: exists e :: e in es && C.HasWidth(e.reg) && p == ItemOf(e)
  }

  /** An empty register of the map sits inside another one. */
  ghost predicate Obstructed(es: seq<M.Entry>) {
    exists e, f | e in es && f in es && C.HasWidth(e.reg) && C.HasWidth(f.reg) ::
      C.Width(e.reg) == 0 && M.Occupies(f.reg, e.reg.address)
  }

  ghost predicate NoNegativeWidth(es: seq<M.Entry>) {
    forall e | e in es && C.HasWidth(e.reg) :: C.Width(e.reg) >= 0
  }

  lemma EntriesApart(es: seq<M.Entry>, e: M.Entry, f: M.Entry)
    requires M.Disjoint(es) && NoNegativeWidth(es) && !Obstructed(es)
    requires e in es && f in es && C.HasWidth(e.reg) && C.HasWidth(f.reg)
    ensures Apart(ItemOf(e), ItemOf(f))
  {
    if e != f {
      M.DisjointPair(es, e, f);
      assert !(C.Width(e.reg) == 0 && M.Occupies(f.reg, e.reg.address));
      assert !(C.Width(f.reg) == 0 && M.Occupies(e.reg, f.reg.address));
      assert !(M.Occupies(e.reg, e.reg.address) && M.Occupies(f.reg, e.reg.address));
      assert !(M.Occupies(e.reg, f.reg.address) && M.Occupies(f.reg, f.reg.address));
    }
  }

  lemma RequestApart(items: seq<Item>, es: seq<M.Entry>)
    requires M.Disjoint(es) && NoNegativeWidth(es) && !Obstructed(es) && RequestFrom(items, es)
    ensures NonOverlapping(items)
  {
    hide Apart, Obstructed;
    forall i, j | 0 <= i < |items| && 0 <= j < |items| ensures items[i].width >= 0 && Apart(items[i], items[j]) {
      var p, q := items[i], items[j];
      assert p in items && q in items;
      var e :| e in es && C.HasWidth(e.reg) && p == ItemOf(e);
      var f :| f in es && C.HasWidth(f.reg) && q == ItemOf(f);
      EntriesApart(es, e, f);
    }
  }

  /** The overlap check is what the planner relies on: on a map that passes it, with names used once and
      no empty register inside another, any request, repeated names included, can be planned. */
  lemma CheckedMapCanBePlanned(items: seq<Item>, es: seq<M.Entry>)
    requires M.Disjoint(es) && NoNegativeWidth(es) && !Obstructed(es) && RequestFrom(items, es)
    requires forall i, j | 0 <= i < j < |es| :: es[i].name != es[j].name
    ensures NonOverlapping(items) && SameNameSameRegister(items)
  {
    RequestApart(items, es);
    hide NonOverlapping, Obstructed, M.Disjoint;
    forall p, q | p in items && q in items && p.name == q.name ensures p == q {
      var e :| e in es && C.HasWidth(e.reg) && p == ItemOf(e);
      var f :| f in es && C.HasWidth(f.reg) && q == ItemOf(f);
    }
  }

  ghost predicate Covered(b: ReadBlock) {
    forall p | p in b.points :: b.start <= p.off && End(p) <= b.start + b.count
  }

  /** Every plan of every request from the map covers its points. */
  ghost predicate AlwaysCovered(es: seq<M.Entry>, maxGap: int) {
    forall items: seq<Item>, bs: seq<ReadBlock>, b: ReadBlock |
      RequestFrom(items, es) && IsPlan(bs, SortByOffset(items), maxGap) && b in bs :: Covered(b)
  }

  /** On a map that passes the overlap check requests always cover their points exactly when no empty
      register sits inside another one: the check does not see empty registers. */
  lemma CoverageExactly(es: seq<M.Entry>, maxGap: int)
    requires M.Disjoint(es) && NoNegativeWidth(es) && maxGap >= 0
    ensures AlwaysCovered(es, maxGap) <==> !Obstructed(es)
  {
    hide IsPlan, SortByOffset, Covered, RequestFrom, M.Disjoint;
    if Obstructed(es) {
      var e, f :| e in es && f in es && C.HasWidth(e.reg) && C.HasWidth(f.reg)
        && C.Width(e.reg) == 0 && M.Occupies(f.reg, e.reg.address);
      var b := EmptyRegisterCutsRequest(ItemOf(f), ItemOf(e), maxGap);
      TwoRequested(es, f, e);
      assert b in [b];
    } else {
      forall items: seq<Item>, bs: seq<ReadBlock>, b: ReadBlock |
        RequestFrom(items, es) && IsPlan(bs, SortByOffset(items), maxGap) && b in bs ensures Covered(b)
      {
        RequestApart(items, es);
        PlanCovers(items, bs, maxGap, b);
      }
    }
  }

  lemma TwoRequested(es: seq<M.Entry>, e: M.Entry, f: M.Entry)
    requires e in es && f in es && C.HasWidth(e.reg) && C.HasWidth(f.reg)
    ensures RequestFrom([ItemOf(e), ItemOf(f)], es)
  {}

  lemma PlanCovers(items: seq<Item>, bs: seq<ReadBlock>, maxGap: int, b: ReadBlock)
    requires NonOverlapping(items) && IsPlan(bs, SortByOffset(items), maxGap) && b in bs
    ensures Covered(b)
  {
    hide IsPlan, SortByOffset, NonOverlapping;
    SortSorts(items);
    SortKeepsDisjoint(items);
    var k :| 0 <= k < |bs| && bs[k] == b;
    forall p | p in b.points ensures b.start <= p.off && End(p) <= b.start + b.count {
      BlockCovers(bs, SortByOffset(items), maxGap, k, p);
    }
  }

  /** An empty register ends the request before the point it sits in: the request is short of the rest
      of that point. */
  lemma EmptyRegisterCutsRequest(whole: Item, empty: Item, maxGap: int) returns (b: ReadBlock)
    requires maxGap >= 0 && empty.width == 0 && Holds(whole, empty.off)
    ensures IsPlan([b], SortByOffset([whole, empty]), maxGap)
    ensures b.points == [whole, empty] && b.count == empty.off - whole.off && !Covered(b)
  {
    var s := [whole, empty];
    b := ReadBlock(whole.off, empty.off - whole.off, s);
    SortKeepsSorted(s);
    assert BlockOk(b, maxGap);
    assert whole in b.points;
    hide SortByOffset, IsPlan, BlockOk;
    OneBlockPlan(b, maxGap);
  }

  lemma OneBlockPlan(b: ReadBlock, maxGap: int)
    requires BlockOk(b, maxGap)
    ensures IsPlan([b], b.points, maxGap)
  {
    hide BlockOk;
    EmptyPlan(maxGap);
    FlattenSnoc([], b);
    assert [] + [b] == [b];
  }

  lemma {:induction false} SortKeepsSorted(s: seq<Item>)
    requires Sorted(s)
    ensures SortByOffset(s) == s
  {
    if s != [] {
      var rest, last := s[..|s| - 1], s[|s| - 1];
      SortKeepsSorted(rest);
      assert rest == [] || rest[|rest| - 1].off <= last.off;
      assert Insert(last, rest) == rest + [last];
      assert s == rest + [last];
    }
  }

  // ------------------------------------------------------------ the length of requests

  /** No larger gap between neighbouring points from i to j. */
  ghost predicate Chained(s: seq<Item>, i: int, j: int, maxGap: int)
    requires 0 <= i <= j < |s|
  {
    forall k | i < k <= j :: s[k].off - End(s[k - 1]) <= maxGap
  }

  /** Every stretch of points without a larger gap spans at most limit registers. */
  ghost predicate StretchesWithin(s: seq<Item>, maxGap: int, limit: int) {
    forall i, j | 0 <= i <= j < |s| && Chained(s, i, j, maxGap) :: End(s[j]) - s[i].off <= limit
  }

  ghost predicate RequestsWithin(bs: seq<ReadBlock>, limit: int) { forall b | b in bs :: b.count <= limit }

  /** The planner does not know the limit of 125 registers a request (section 6.3 of the MODBUS Application
      Protocol Specification V1.1b3). Its requests stay within a limit exactly when no stretch of requested
      points without a larger gap exceeds it. */
  lemma RequestLimitExactly(bs: seq<ReadBlock>, s: seq<Item>, maxGap: int, limit: int)
    requires IsPlan(bs, s, maxGap) && Sorted(s) && NonOverlapping(s)
    ensures RequestsWithin(bs, limit) <==> StretchesWithin(s, maxGap, limit)
  {
    hide IsPlan, Sorted, NonOverlapping, Chained;
    if StretchesWithin(s, maxGap, limit) {
      forall b | b in bs ensures b.count <= limit {
        var k :| 0 <= k < |bs| && bs[k] == b;
        var i, j := RequestIsStretch(bs, s, maxGap, k);
      }
    }
    if RequestsWithin(bs, limit) {
      forall i, j | 0 <= i <= j < |s| && Chained(s, i, j, maxGap) ensures End(s[j]) - s[i].off <= limit {
        var k := StretchInRequest(bs, s, maxGap, i, j);
        assert bs[k] in bs;
      }
    }
  }

  /** A request spans one stretch. */
  lemma RequestIsStretch(bs: seq<ReadBlock>, s: seq<Item>, maxGap: int, k: nat) returns (i: nat, j: nat)
    requires IsPlan(bs, s, maxGap) && k < |bs|
    ensures i <= j < |s| && Chained(s, i, j, maxGap)
    ensures i == FirstIndex(bs, k) && j + 1 == FirstIndex(bs, k + 1)
    ensures s[i].off == bs[k].start && End(s[j]) == bs[k].start + bs[k].count
  {
    FlattenSplit(bs, k);
    i, j := FirstIndex(bs, k), FirstIndex(bs, k + 1) - 1;
    assert BlockOk(bs[k], maxGap);
    var ps := bs[k].points;
    hide FirstIndex, Flatten;
    assert forall m | 0 <= m < |ps| :: ps[m] == s[i + m];
    forall m | i < m <= j ensures s[m].off - End(s[m - 1]) <= maxGap {
      assert ps[m - i].off - End(ps[m - i - 1]) <= maxGap;
    }
  }

  /** The request of a point. */
  lemma {:induction false} RequestOf(bs: seq<ReadBlock>, i: nat, n: nat) returns (k: nat)
    requires n <= |bs| && i < FirstIndex(bs, n)
    ensures k < n && FirstIndex(bs, k) <= i < FirstIndex(bs, k + 1)
  {
    assert bs[..0] == [];
    if FirstIndex(bs, n - 1) <= i {
      k := n - 1;
    } else {
      k := RequestOf(bs, i, n - 1);
    }
  }

  /** A stretch lies in one request. */
  lemma StretchInRequest(bs: seq<ReadBlock>, s: seq<Item>, maxGap: int, i: nat, j: nat) returns (k: nat)
    requires IsPlan(bs, s, maxGap) && Sorted(s) && NonOverlapping(s) && i <= j < |s| && Chained(s, i, j, maxGap)
    ensures k < |bs| && End(s[j]) - s[i].off <= bs[k].count
  {
    assert bs[..|bs|] == bs;
    assert FirstIndex(bs, |bs|) == |s|;
    hide IsPlan, Sorted, NonOverlapping, FirstIndex;
    k := RequestOf(bs, i, |bs|);
    var f, l := RequestIsStretch(bs, s, maxGap, k);
    if k + 1 < |bs| {
      LeaderFollowsGap(bs, s, maxGap, k + 1);
    }
    EndsOrdered(s, f, i);
    EndsOrdered(s, j, l);
  }

  ghost function Row(off: int, n: nat): seq<Item> { seq(n, i requires 0 <= i < n => Item("r", off + i, 1)) }

  /** So a row of n adjacent registers is one request of n, whatever n is. */
  lemma RowIsOneRequest(bs: seq<ReadBlock>, off: int, n: nat, maxGap: int)
    requires n > 0 && maxGap >= 0 && IsPlan(bs, SortByOffset(Row(off, n)), maxGap)
    ensures |bs| == 1 && bs[0].count == n
  {
    var s := Row(off, n);
    SortKeepsSorted(s);
    assert bs[..0] == [] && bs[..|bs|] == bs;
    assert Flatten(bs) == s;
    hide SortByOffset, IsPlan, Flatten;
    RowIsAdjacent(off, n);
    hide Row;
    if |bs| > 1 {
      LeaderFollowsGap(bs, s, maxGap, 1);
      assert false;
    }
    assert bs != [] by { NoRequests(); }
    var i, j := RequestIsStretch(bs, s, maxGap, 0);
    assert FirstIndex(bs, 0) == 0 by { NoRequests(); }
    assert FirstIndex(bs, 1) == n;
  }

  lemma NoRequests()
    ensures Flatten([]) == []
  {}

  lemma RowIsAdjacent(off: int, n: nat)
    ensures |Row(off, n)| == n && forall k | 0 <= k < n :: Row(off, n)[k].off == off + k && Row(off, n)[k].width == 1
  {}
}
