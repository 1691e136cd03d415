/** Which block an allocation takes: the order of the search, and what becomes of a goal. */
module AllocSearch {
  import opened Allocator

  /** A data block that nobody uses. */
  ghost predicate FreeBlock(l: Layout, m: Maps, b: nat)
    requires l.blocksPerGroup > 0
  {
    l.DataBlock(b) && b !in UsedBlocks(l, m)
  }

  ghost predicate InGroup(l: Layout, g: nat, b: nat)
    requires g < |l.groups|
  {
    l.groups[g].start <= b < l.groups[g].start + l.groups[g].blocks
  }

  /** Block `c` is the first free one of group `g` from block `from` on, or, when there is none, the first one of all. */
  ghost predicate FirstFree(l: Layout, m: Maps, g: nat, from: nat, c: nat)
    requires l.blocksPerGroup > 0 && g < |l.groups|
  {
    && InGroup(l, g, c) && FreeBlock(l, m, c)
    && forall b: nat :: InGroup(l, g, b) && FreeBlock(l, m, b) ==>
         if c >= from then b < from || c <= b else c <= b < from
  }

  ghost predicate GroupFull(l: Layout, m: Maps, g: nat)
    requires l.blocksPerGroup > 0 && g < |l.groups|
  {
    forall b: nat :: InGroup(l, g, b) ==> !FreeBlock(l, m, b)
  }

  /** Bits and blocks of a group. */
  lemma {:induction false} BitOf(l: Layout, m: Maps, g: nat, b: nat)
    requires Consistent(l, m) && g < |l.groups| && InGroup(l, g, b)
    ensures l.blocksPerGroup > 0 && |m.bitmaps| == |l.groups| && |m.bitmaps[g]| == l.groups[g].blocks
    ensures FreeBlock(l, m, b) <==> b - l.groups[g].start >= FirstBit(l, g) && !m.bitmaps[g][b - l.groups[g].start]
  {
    hide Clear, Sum, UsedBlocks, Used;
    var i := b - l.groups[g].start;
    DivGroup(g, l.blocksPerGroup, i);
    if l.DataBlock(b) {
      FirstBitLow(l, b);
      UseOfBit(l, m, b);
    }
  }

  /** The two scans of a group. */
  lemma {:induction false} GroupSearched(l: Layout, m: Maps, g: nat, hint: nat)
    requires Consistent(l, m) && g < |l.groups|
    ensures l.blocksPerGroup > 0 && |m.bitmaps| == |m.free| == |l.groups| && |m.bitmaps[g]| == l.groups[g].blocks
    ensures m.free[g] == 0 <==> GroupFull(l, m, g)
    ensures m.free[g] > 0 ==> FirstFree(l, m, g, if InGroup(l, g, hint) then hint else 0, ChosenIn(l, m, g, hint))
  {
    hide *;
    TwoScans(l, m, g, hint);
    ConsistentParts(l, m);
    GroupRange(l, g, hint);
    var row, from, start := m.bitmaps[g], FirstBit(l, g), l.groups[g].start;
    var bit := if start <= hint < start + |row| then hint - start else 0;
    FirstClearFacts(row, from, bit, |row|);
    FirstClearFacts(row, from, 0, bit);
    var d, e := FirstClear(row, from, bit, |row|), FirstClear(row, from, 0, bit);
    var c := ChosenIn(l, m, g, hint);
    forall b: nat | InGroup(l, g, b)
      ensures FreeBlock(l, m, b) <==> from <= b - start < |row| && b >= start && !row[b - start]
    {
      GroupRange(l, g, b);
      BitOf(l, m, g, b);
    }
    ScanMeans(l, m, g, hint, row, from, bit, d, e, c);
  }

  lemma {:induction false} GroupRange(l: Layout, g: nat, b: nat)
    requires g < |l.groups|
    ensures InGroup(l, g, b) <==> l.groups[g].start <= b < l.groups[g].start + l.groups[g].blocks
  {
  }

  lemma {:induction false} ScanMeans(l: Layout, m: Maps, g: nat, hint: nat, row: seq<bool>, from: nat, bit: nat, d: nat,
                                     e: nat, c: nat)
    requires l.blocksPerGroup > 0 && g < |l.groups| && g < |m.free| && |row| == l.groups[g].blocks
    requires bit == if l.groups[g].start <= hint < l.groups[g].start + |row| then hint - l.groups[g].start else 0
    requires bit <= d <= |row| && e <= bit && (d < |row| ==> from <= d && !row[d]) && (e < bit ==> from <= e && !row[e])
    requires (forall i :: bit <= i < d && from <= i ==> row[i]) && forall i :: 0 <= i < e && from <= i ==> row[i]
    requires d == |row| && e == bit <==> m.free[g] == 0
    requires c == l.groups[g].start + if d < |row| then d else e
    requires forall b: nat :: InGroup(l, g, b) ==>
               (FreeBlock(l, m, b) <==> from <= b - l.groups[g].start < |row| && b >= l.groups[g].start
                                        && !row[b - l.groups[g].start])
    ensures m.free[g] == 0 <==> GroupFull(l, m, g)
    ensures m.free[g] > 0 ==> FirstFree(l, m, g, if InGroup(l, g, hint) then hint else 0, c)
  {
    hide FreeBlock;
    var start := l.groups[g].start;
    if m.free[g] > 0 {
      assert InGroup(l, g, c) && FreeBlock(l, m, c);
    } else {
      forall b: nat | InGroup(l, g, b) ensures !FreeBlock(l, m, b) {
        assert b - start < bit || b - start < d;
      }
    }
  }

  /** The group that is looked at after `k` others. */
  ghost function Visited(l: Layout, goalBlock: nat, goalGroup: nat, k: nat): (g: nat)
    requires l.blocksPerGroup > 0 && |l.groups| > 0
    ensures g < |l.groups|
  {
    (StartGroup(l, goalBlock, goalGroup) + k) % |l.groups|
  }

  /** The search stops in the first group, in the order of the search, that has a free block. */
  ghost predicate StopsAt(l: Layout, m: Maps, next: nat, goalBlock: nat, goalGroup: nat, k: nat, c: nat)
    requires l.blocksPerGroup > 0 && |l.groups| > 0
  {
    && (forall j: nat :: j < k ==> GroupFull(l, m, Visited(l, goalBlock, goalGroup, j)))
    && var g := Visited(l, goalBlock, goalGroup, k);
       var hint := HintFor(l, next, goalBlock, goalGroup, k, g);
       FirstFree(l, m, g, if InGroup(l, g, hint) then hint else 0, c)
  }

  lemma {:induction false} SearchFrom(l: Layout, m: Maps, next: nat, goalBlock: nat, goalGroup: nat, k: nat)
    requires Consistent(l, m) && k <= |l.groups| && l.blocksPerGroup > 0 && |l.groups| > 0
    requires forall j: nat :: j < k ==> GroupFull(l, m, Visited(l, goalBlock, goalGroup, j))
    ensures (forall j: nat :: j < |l.groups| ==> GroupFull(l, m, Visited(l, goalBlock, goalGroup, j)))
            || exists i: nat :: i < |l.groups|
                           && StopsAt(l, m, next, goalBlock, goalGroup, i, ChosenFrom(l, m, next, goalBlock, goalGroup, k))
    decreases |l.groups| - k
  {
    hide *;
    if k < |l.groups| {
      var g := Visited(l, goalBlock, goalGroup, k);
      VisitedIs(l, goalBlock, goalGroup, k);
      OneGroup(l, m, next, goalBlock, goalGroup, k);
      NoFreeBlocks(l, m);
      GroupSearched(l, m, g, HintFor(l, next, goalBlock, goalGroup, k, g));
      if m.free[g] == 0 {
        SearchFrom(l, m, next, goalBlock, goalGroup, k + 1);
      } else {
        StopsHere(l, m, next, goalBlock, goalGroup, k, ChosenFrom(l, m, next, goalBlock, goalGroup, k));
      }
    }
  }

  lemma {:induction false} VisitedIs(l: Layout, goalBlock: nat, goalGroup: nat, k: nat)
    requires l.blocksPerGroup > 0 && |l.groups| > 0
    ensures Visited(l, goalBlock, goalGroup, k) == (StartGroup(l, goalBlock, goalGroup) + k) % |l.groups|
  {
  }

  lemma {:induction false} StopsHere(l: Layout, m: Maps, next: nat, goalBlock: nat, goalGroup: nat, k: nat, c: nat)
    requires l.blocksPerGroup > 0 && |l.groups| > 0
    requires forall j: nat :: j < k ==> GroupFull(l, m, Visited(l, goalBlock, goalGroup, j))
    requires var g := Visited(l, goalBlock, goalGroup, k);
             var hint := HintFor(l, next, goalBlock, goalGroup, k, g);
             FirstFree(l, m, g, if InGroup(l, g, hint) then hint else 0, c)
    ensures StopsAt(l, m, next, goalBlock, goalGroup, k, c)
  {
    hide FirstFree, GroupFull, HintFor, Visited, InGroup;
  }

  /** Every group is visited. */
  lemma {:induction false} AllVisited(l: Layout, goalBlock: nat, goalGroup: nat, g: nat)
    requires l.blocksPerGroup > 0 && g < |l.groups|
    ensures exists k: nat :: k < |l.groups| && Visited(l, goalBlock, goalGroup, k) == g
  {
    var n, s := |l.groups|, StartGroup(l, goalBlock, goalGroup);
    hide StartGroup;
    var r := s % n;
    var k := if g >= r then g - r else g + n - r;
    assert s == s / n * n + r;
    assert s + k == (s / n + if g >= r then 0 else 1) * n + g;
    Remainder(s / n + if g >= r then 0 else 1, n, g);
    assert Visited(l, goalBlock, goalGroup, k) == g;
  }

  lemma {:induction false} Remainder(q: nat, n: nat, r: nat)
    requires r < n
    ensures (q * n + r) % n == r
  {
    DivGroup(q, n, r);
  }

  /** Main result on the order of the search: as long as any block is free, the block that is taken is in the first group,
      round from the one the goal asks for, that has a free block; there it is the first one behind the hint, or the
      first one of all. */
  lemma {:induction false} SearchExactly(l: Layout, m: Maps, next: nat, goalBlock: nat, goalGroup: nat)
    requires Consistent(l, m) && m.total > 0
    ensures l.blocksPerGroup > 0 && |l.groups| > 0
    ensures exists k: nat :: k < |l.groups|
                        && StopsAt(l, m, next, goalBlock, goalGroup, k, Chosen(l, m, next, goalBlock, goalGroup))
  {
    ConsistentParts(l, m);
    NoFreeBlocks(l, m);
    hide *;
    ChosenIs(l, m, next, goalBlock, goalGroup);
    SearchFrom(l, m, next, goalBlock, goalGroup, 0);
    if forall j: nat :: j < |l.groups| ==> GroupFull(l, m, Visited(l, goalBlock, goalGroup, j)) {
      forall g | 0 <= g < |l.groups| ensures m.free[g] == 0 {
        AllVisited(l, goalBlock, goalGroup, g);
        GroupSearched(l, m, g, 0);
      }
      assert false;
    }
  }

  lemma {:induction false} ChosenIs(l: Layout, m: Maps, next: nat, goalBlock: nat, goalGroup: nat)
    requires Consistent(l, m)
    ensures Chosen(l, m, next, goalBlock, goalGroup) == ChosenFrom(l, m, next, goalBlock, goalGroup, 0)
  {
  }

  /** What becomes of a goal. With preallocation a free goal block is the one that is taken, unless another group is asked
      for; the group that is asked for is used as long as it has a free block, and then the block behind the last one
      taken, if it is free. Without preallocation that block is taken wherever the search starts. */
  lemma {:induction false} GoalChosen(l: Layout, m: Maps, next: nat, goalBlock: nat, goalGroup: nat)
    requires Consistent(l, m)
    ensures l.blocksPerGroup > 0 && |l.groups| > 0
    ensures var c := Chosen(l, m, next, goalBlock, goalGroup);
            && (l.prealloc && FreeBlock(l, m, goalBlock) && (goalGroup >= |l.groups| || InGroup(l, goalGroup, goalBlock)) ==>
                  c == goalBlock)
            && (l.prealloc && goalGroup < |l.groups| && !GroupFull(l, m, goalGroup) ==> InGroup(l, goalGroup, c))
            && (l.prealloc && goalGroup < |l.groups| && InGroup(l, goalGroup, next) && FreeBlock(l, m, next) ==>
                  c == next || (l.DataBlock(goalBlock) && InGroup(l, goalGroup, goalBlock)))
            && (l.prealloc && goalGroup >= |l.groups| && l.DataBlock(goalBlock) && !GroupFull(l, m, l.GroupOf(goalBlock)) ==>
                  FirstFree(l, m, l.GroupOf(goalBlock), goalBlock, c))
            && (!l.prealloc && InGroup(l, 0, next) && FreeBlock(l, m, next) ==> c == next)
  {
    ConsistentParts(l, m);
    NoFreeBlocks(l, m);
    GroupOfBlock(l, m, goalBlock);
    hide *;
    ChosenIs(l, m, next, goalBlock, goalGroup);
    Starts(l, goalBlock, goalGroup);
    var s := StartGroup(l, goalBlock, goalGroup);
    var c, hint := Chosen(l, m, next, goalBlock, goalGroup), HintFor(l, next, goalBlock, goalGroup, 0, s);
    OneGroup(l, m, next, goalBlock, goalGroup, 0);
    GroupSearched(l, m, s, hint);
    Hints(l, next, goalBlock, goalGroup, s);
    if !GroupFull(l, m, s) {
      FreeFirst(l, m, s, if InGroup(l, s, hint) then hint else 0, c);
    }
    FreeIsData(l, m, goalBlock);
    NotFull(l, m, s, goalBlock);
    NotFull(l, m, s, next);
  }

  /** A data block lies in its group and in no other. */
  lemma {:induction false} GroupOfBlock(l: Layout, m: Maps, b: nat)
    requires Consistent(l, m)
    ensures l.blocksPerGroup > 0
    ensures l.DataBlock(b) ==> && b > 0 && l.GroupOf(b) < |l.groups| && InGroup(l, l.GroupOf(b), b)
                               && forall g :: 0 <= g < |l.groups| && InGroup(l, g, b) ==> g == l.GroupOf(b)
  {
    hide Clear, Sum;
    if l.DataBlock(b) {
      forall g | 0 <= g < |l.groups| && InGroup(l, g, b) ensures g == l.GroupOf(b) {
        DivGroup(g, l.blocksPerGroup, b - l.groups[g].start);
      }
    }
  }

  lemma {:induction false} Starts(l: Layout, goalBlock: nat, goalGroup: nat)
    requires l.blocksPerGroup > 0 && |l.groups| > 0 && l.FirstDataGroup() == 0
    ensures var s := StartGroup(l, goalBlock, goalGroup);
            && s < |l.groups| && (s + 0) % |l.groups| == s
            && (l.prealloc && goalGroup < |l.groups| ==> s == goalGroup)
            && (l.prealloc && goalGroup >= |l.groups| && l.DataBlock(goalBlock) ==> s == l.GroupOf(goalBlock))
            && (!l.prealloc ==> s == 0)
  {
  }

  lemma {:induction false} Hints(l: Layout, next: nat, goalBlock: nat, goalGroup: nat, s: nat)
    requires l.blocksPerGroup > 0 && s < |l.groups|
    ensures var h := HintFor(l, next, goalBlock, goalGroup, 0, s);
            && (l.prealloc && l.DataBlock(goalBlock) && l.GroupOf(goalBlock) == s ==> h == goalBlock)
            && (l.prealloc && s == goalGroup && InGroup(l, s, next) ==>
                  h == next || (l.DataBlock(goalBlock) && l.GroupOf(goalBlock) == s))
            && (!l.prealloc ==> h == next)
  {
  }

  lemma {:induction false} FreeIsData(l: Layout, m: Maps, b: nat)
    requires l.blocksPerGroup > 0
    ensures FreeBlock(l, m, b) ==> l.DataBlock(b)
  {
  }

  lemma {:induction false} NotFull(l: Layout, m: Maps, g: nat, b: nat)
    requires l.blocksPerGroup > 0 && g < |l.groups|
    ensures InGroup(l, g, b) && FreeBlock(l, m, b) ==> !GroupFull(l, m, g)
  {
  }

  lemma {:induction false} FreeFirst(l: Layout, m: Maps, g: nat, from: nat, c: nat)
    requires l.blocksPerGroup > 0 && g < |l.groups| && FirstFree(l, m, g, from, c)
    ensures InGroup(l, g, c) && (InGroup(l, g, from) && FreeBlock(l, m, from) ==> c == from)
  {
    hide FreeBlock;
  }
}
