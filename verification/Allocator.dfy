/** The group-wise block allocator (balloc.c): one bitmap and one free counter per group, and the
    free counter of the superblock. */
module Allocator {
  datatype Errno = Ok | Einval | Enospc | Efbig | Eopnotsupp | Enoent | Eexist | Enametoolong | Enotempty | Euclean

  /** The constant part of a group descriptor. `tableEnd` is the block behind its inode table. */
  datatype Group = Group(start: nat, blocks: nat, tableEnd: nat)

  datatype Layout = Layout(groups: seq<Group>, blocksPerGroup: nat, blocksCount: nat, firstDataBlock: nat, prealloc: bool) {
    /** Groups tile the device, and data starts in the first one, where mkfs puts the root directory. */
    ghost predicate Wf() {
      && blocksPerGroup > 0 && |groups| > 0 && firstDataBlock < groups[0].blocks
      && (forall g :: 0 <= g < |groups| ==>
            && groups[g].start == g * blocksPerGroup && groups[g].blocks <= blocksPerGroup
            && groups[g].start + groups[g].blocks <= blocksCount)
    }

    function GroupOf(b: nat): nat
      requires blocksPerGroup > 0
    {
      b / blocksPerGroup
    }

    function FirstDataGroup(): nat
      requires blocksPerGroup > 0
    {
      firstDataBlock / blocksPerGroup
    }

    /** The allocator's test for a block that may hold file data. */
    predicate DataBlock(b: nat)
      requires blocksPerGroup > 0
    {
      && 0 < b < blocksCount
      && GroupOf(b) < |groups|
      && var g := groups[GroupOf(b)];
         && g.start <= b < g.start + g.blocks
         && b >= if GroupOf(b) == 0 then firstDataBlock else g.tableEnd
    }
  }

  lemma {:induction false} DivGroup(g: nat, size: nat, bit: nat)
    requires bit < size
    ensures (g * size + bit) / size == g
  {
    assert (g * size + bit) / size >= g && (g * size + bit) / size <= g by {
      assert g * size <= g * size + bit < (g + 1) * size;
      DivBounds(g * size + bit, size, g);
    }
  }

  lemma {:induction false} DivBounds(x: nat, size: nat, g: nat)
    requires size > 0 && g * size <= x < (g + 1) * size
    ensures x / size == g
  {
    var q := x / size;
    assert q * size <= x < (q + 1) * size;
    assert q < g ==> (q + 1) * size <= g * size;
    assert q > g ==> (g + 1) * size <= q * size;
  }

  /** Clear bits of a bitmap from bit `from` on. */
  function Clear(row: seq<bool>, from: nat): nat {
    if |row| <= from then 0
    else Clear(row[..|row| - 1], from) + if row[|row| - 1] then 0 else 1
  }

  lemma {:induction false} ClearUpdate(row: seq<bool>, from: nat, bit: nat, value: bool)
    requires from <= bit < |row| && row[bit] != value
    ensures Clear(row[bit := value], from) == Clear(row, from) + if value then -1 else 1
  {
    var last := |row| - 1;
    if bit < last {
      ClearUpdate(row[..last], from, bit, value);
      assert row[bit := value][..last] == row[..last][bit := value];
    } else {
      assert row[bit := value][..last] == row[..last];
    }
  }

  lemma {:induction false} ClearZero(row: seq<bool>, from: nat)
    ensures Clear(row, from) == 0 <==> forall i :: from <= i < |row| ==> row[i]
  {
    if |row| > from {
      ClearZero(row[..|row| - 1], from);
    }
  }

  function Sum(s: seq<nat>): nat {
    if s == [] then 0 else Sum(s[..|s| - 1]) + s[|s| - 1]
  }

  lemma {:induction false} SumUpdate(s: seq<nat>, i: nat, v: nat)
    requires i < |s|
    ensures Sum(s[i := v]) == Sum(s) - s[i] + v
  {
    var last := |s| - 1;
    if i < last {
      SumUpdate(s[..last], i, v);
      assert s[i := v][..last] == s[..last][i := v];
    } else {
      assert s[i := v][..last] == s[..last];
    }
  }

  lemma {:induction false} SumAtLeast(s: seq<nat>, i: nat)
    requires i < |s|
    ensures Sum(s) >= s[i]
  {
    if i < |s| - 1 {
      SumAtLeast(s[..|s| - 1], i);
    }
  }

  // ----- bitmaps and counters as values

  datatype Maps = Maps(bitmaps: seq<seq<bool>>, free: seq<nat>, total: nat)

  /** The first bit of group `g` that may be handed out. */
  function FirstBit(l: Layout, g: nat): nat
    requires g < |l.groups|
  {
    if l.firstDataBlock <= l.groups[g].start then 0 else l.firstDataBlock - l.groups[g].start
  }

  /** Each group's counter is its number of clear bits, the superblock counter is their sum, and a clear
      bit always stands for a data block: metadata is marked used. */
  ghost predicate Consistent(l: Layout, m: Maps) {
    && l.Wf() && |m.bitmaps| == |m.free| == |l.groups|
    && (forall g :: 0 <= g < |l.groups| ==>
          |m.bitmaps[g]| == l.groups[g].blocks && m.free[g] == Clear(m.bitmaps[g], FirstBit(l, g)))
    && m.total == Sum(m.free)
    && (forall g, i :: 0 <= g < |l.groups| && FirstBit(l, g) <= i < |m.bitmaps[g]| && !m.bitmaps[g][i] ==>
          l.DataBlock(l.groups[g].start + i))
  }

  /** The bitmap test of a data block. */
  predicate Used(l: Layout, m: Maps, b: nat) {
    && l.blocksPerGroup > 0 && l.DataBlock(b) && l.GroupOf(b) < |m.bitmaps|
    && b - l.groups[l.GroupOf(b)].start < |m.bitmaps[l.GroupOf(b)]|
    && m.bitmaps[l.GroupOf(b)][b - l.groups[l.GroupOf(b)].start]
  }

  /** All data blocks in use. */
  ghost function UsedBlocks(l: Layout, m: Maps): set<nat> {
    set b: nat | b < l.blocksCount && Used(l, m, b)
  }

  function Mark(m: Maps, g: nat, i: nat): Maps
    requires g < |m.bitmaps| && i < |m.bitmaps[g]| && g < |m.free| && m.free[g] > 0 && m.total > 0
  {
    Maps(m.bitmaps[g := m.bitmaps[g][i := true]], m.free[g := m.free[g] - 1], m.total - 1)
  }

  function Unmark(m: Maps, g: nat, i: nat): Maps
    requires g < |m.bitmaps| && i < |m.bitmaps[g]| && g < |m.free|
  {
    Maps(m.bitmaps[g := m.bitmaps[g][i := false]], m.free[g := m.free[g] + 1], m.total + 1)
  }

  /** A clear bit can be counted down. */
  lemma {:induction false} ClearBitCounted(l: Layout, m: Maps, g: nat, i: nat)
    requires Consistent(l, m) && g < |l.groups| && FirstBit(l, g) <= i < |m.bitmaps[g]| && !m.bitmaps[g][i]
    ensures m.free[g] > 0 && m.total > 0
  {
    hide Layout.DataBlock;
    ClearZero(m.bitmaps[g], FirstBit(l, g));
    SumAtLeast(m.free, g);
  }

  /** Marking a clear bit keeps bitmaps and counters consistent. */
  lemma {:induction false} MarkConsistent(l: Layout, m: Maps, g: nat, i: nat)
    requires Consistent(l, m) && g < |l.groups| && FirstBit(l, g) <= i < |m.bitmaps[g]| && !m.bitmaps[g][i]
    requires m.free[g] > 0 && m.total > 0
    ensures Consistent(l, Mark(m, g, i))
  {
    hide Layout.DataBlock, Clear, Sum;
    ClearUpdate(m.bitmaps[g], FirstBit(l, g), i, true);
    SumUpdate(m.free, g, m.free[g] - 1);
  }

  lemma {:induction false} UnmarkConsistent(l: Layout, m: Maps, g: nat, i: nat)
    requires Consistent(l, m) && g < |l.groups| && FirstBit(l, g) <= i < |m.bitmaps[g]| && m.bitmaps[g][i]
    requires l.DataBlock(l.groups[g].start + i)
    ensures Consistent(l, Unmark(m, g, i))
  {
    hide Layout.DataBlock, Clear, Sum;
    ClearUpdate(m.bitmaps[g], FirstBit(l, g), i, false);
    SumUpdate(m.free, g, m.free[g] + 1);
  }

  /** The block of a bit belongs to the bit's group. */
  lemma {:induction false} BlockOfBit(l: Layout, g: nat, i: nat)
    requires l.Wf() && g < |l.groups| && i < l.groups[g].blocks
    ensures l.GroupOf(l.groups[g].start + i) == g
  {
    DivGroup(g, l.blocksPerGroup, i);
  }

  /** Changing one bit changes the use of exactly its block. */
  lemma {:induction false} BitUse(l: Layout, m: Maps, n: Maps, g: nat, i: nat, value: bool)
    requires Consistent(l, m) && g < |l.groups| && i < |m.bitmaps[g]| && l.DataBlock(l.groups[g].start + i)
    requires n.bitmaps == m.bitmaps[g := m.bitmaps[g][i := value]]
    ensures var b := l.groups[g].start + i;
            && (Used(l, m, b) <==> m.bitmaps[g][i])
            && UsedBlocks(l, n) == if value then UsedBlocks(l, m) + {b} else UsedBlocks(l, m) - {b}
  {
    BlockOfBit(l, g, i);
    hide Layout.GroupOf, Clear, Sum;
    var b := l.groups[g].start + i;
    forall c: nat | c < l.blocksCount
      ensures Used(l, n, c) <==> if c == b then value else Used(l, m, c)
    {
    }
  }

  /** With a zero counter every allocatable bit of the group is set. */
  lemma {:induction false} FullGroup(l: Layout, m: Maps, g: nat)
    requires Consistent(l, m) && g < |l.groups|
    ensures m.free[g] == 0 <==> forall i :: FirstBit(l, g) <= i < |m.bitmaps[g]| ==> m.bitmaps[g][i]
  {
    hide Layout.DataBlock;
    ClearZero(m.bitmaps[g], FirstBit(l, g));
  }

  /** All groups full means that every data block is in use. */
  lemma {:induction false} AllFull(l: Layout, m: Maps)
    requires Consistent(l, m) && forall g :: 0 <= g < |l.groups| ==> m.free[g] == 0
    ensures forall b: nat :: l.DataBlock(b) ==> Used(l, m, b)
  {
    hide Clear, Sum;
    DataAboveFirst(l);
    forall b: nat | l.DataBlock(b)
      ensures Used(l, m, b)
    {
      var g := l.GroupOf(b);
      FullGroup(l, m, g);
      assert m.bitmaps[g][b - l.groups[g].start];
    }
  }

  /** Data blocks lie at or above the first one, and that one is in the first group. */
  lemma {:induction false} DataAboveFirst(l: Layout)
    requires l.Wf()
    ensures l.FirstDataGroup() == 0
    ensures forall b: nat :: l.DataBlock(b) ==> b >= l.firstDataBlock
  {
    DivBounds(l.firstDataBlock, l.blocksPerGroup, 0);
    forall b: nat | l.DataBlock(b)
      ensures b >= l.firstDataBlock
    {
      var g := l.GroupOf(b);
      if g >= 1 {
        assert g * l.blocksPerGroup >= 1 * l.blocksPerGroup;
        assert l.groups[g].start == g * l.blocksPerGroup;
      }
    }
  }

  lemma {:induction false} SumZero(s: seq<nat>)
    ensures Sum(s) == 0 <==> forall i :: 0 <= i < |s| ==> s[i] == 0
  {
    if s != [] {
      SumZero(s[..|s| - 1]);
    }
  }

  /** The superblock counter is zero exactly when no group has a free block, and then every data block is
      in use. */
  lemma {:induction false} NoFreeBlocks(l: Layout, m: Maps)
    requires Consistent(l, m)
    ensures l.FirstDataGroup() == 0
    ensures m.total == 0 <==> forall g :: 0 <= g < |l.groups| ==> m.free[g] == 0
    ensures m.total == 0 ==> forall b: nat :: l.DataBlock(b) ==> b in UsedBlocks(l, m)
  {
    DataAboveFirst(l);
    hide Layout.DataBlock, Layout.FirstDataGroup, Clear, Sum;
    SumZero(m.free);
    if m.total == 0 {
      AllFull(l, m);
      DataInDevice(l, m);
    }
  }

  lemma {:induction false} DataInDevice(l: Layout, m: Maps)
    requires l.Wf()
    ensures forall b: nat :: Used(l, m, b) ==> b in UsedBlocks(l, m)
  {
  }

  lemma {:induction false} UsedIsData(l: Layout, m: Maps, b: nat)
    requires b in UsedBlocks(l, m)
    ensures l.blocksPerGroup > 0 && l.DataBlock(b)
  {
  }

  // ----- which block is handed out

  /** The first bit from `lo` on that is clear and not below `from`; `hi` when there is none. */
  function FirstClear(row: seq<bool>, from: nat, lo: nat, hi: nat): nat
    requires lo <= hi <= |row|
    decreases hi - lo
  {
    if lo == hi then hi else if from <= lo && !row[lo] then lo else FirstClear(row, from, lo + 1, hi)
  }

  lemma {:induction false} FirstClearFacts(row: seq<bool>, from: nat, lo: nat, hi: nat)
    requires lo <= hi <= |row|
    ensures var b := FirstClear(row, from, lo, hi);
            && lo <= b <= hi && (b < hi ==> from <= b && !row[b])
            && forall i :: lo <= i < b && from <= i ==> row[i]
    decreases hi - lo
  {
    if lo < hi && !(from <= lo && !row[lo]) {
      FirstClearFacts(row, from, lo + 1, hi);
    }
  }

  /** The block taken in group `g`: the first free one from the hint on, else the first free one of the group. */
  function ChosenIn(l: Layout, m: Maps, g: nat, hint: nat): nat
    requires g < |l.groups| == |m.bitmaps| && |m.bitmaps[g]| == l.groups[g].blocks
  {
    var start, row := l.groups[g].start, m.bitmaps[g];
    var bit := if start <= hint < start + |row| then hint - start else 0;
    var b := FirstClear(row, FirstBit(l, g), bit, |row|);
    start + if b < |row| then b else FirstClear(row, FirstBit(l, g), 0, bit)
  }

  /** The two scans of a group find nothing exactly when its counter is zero, and otherwise the chosen bit. */
  lemma {:induction false} TwoScans(l: Layout, m: Maps, g: nat, hint: nat)
    requires Consistent(l, m) && g < |l.groups|
    ensures l.Wf() && |m.bitmaps| == |m.free| == |l.groups| && |m.bitmaps[g]| == l.groups[g].blocks
    ensures var row, from, start := m.bitmaps[g], FirstBit(l, g), l.groups[g].start;
            var bit := if start <= hint < start + |row| then hint - start else 0;
            var b, c := FirstClear(row, from, bit, |row|), FirstClear(row, from, 0, bit);
            && bit <= b <= |row| && c <= bit && (b < |row| ==> from <= b && !row[b]) && (c < bit ==> from <= c && !row[c])
            && (b == |row| && c == bit <==> m.free[g] == 0)
            && ChosenIn(l, m, g, hint) == start + if b < |row| then b else c
  {
    RowOf(l, m, g);
    ChosenInIs(l, m, g, hint);
    hide *;
    FullGroup(l, m, g);
    BothScans(m.bitmaps[g], FirstBit(l, g), l.groups[g].start, hint, m.free[g]);
  }

  lemma {:induction false} BothScans(row: seq<bool>, from: nat, start: nat, hint: nat, free: nat)
    requires free == 0 <==> forall i :: from <= i < |row| ==> row[i]
    ensures var bit := if start <= hint < start + |row| then hint - start else 0;
            var b, c := FirstClear(row, from, bit, |row|), FirstClear(row, from, 0, bit);
            && bit <= b <= |row| && c <= bit && (b < |row| ==> from <= b && !row[b]) && (c < bit ==> from <= c && !row[c])
            && (b == |row| && c == bit <==> free == 0)
  {
    hide *;
    TwoParts(row, from, if start <= hint < start + |row| then hint - start else 0);
  }

  lemma {:induction false} RowOf(l: Layout, m: Maps, g: nat)
    requires Consistent(l, m) && g < |l.groups|
    ensures l.Wf() && |m.bitmaps| == |m.free| == |l.groups| && |m.bitmaps[g]| == l.groups[g].blocks
  {
    hide Layout.Wf, Clear, Sum, Layout.DataBlock, FirstBit;
  }

  lemma {:induction false} ChosenInIs(l: Layout, m: Maps, g: nat, hint: nat)
    requires g < |l.groups| == |m.bitmaps| && |m.bitmaps[g]| == l.groups[g].blocks
    ensures var row, from, start := m.bitmaps[g], FirstBit(l, g), l.groups[g].start;
            var bit := if start <= hint < start + |row| then hint - start else 0;
            var b, c := FirstClear(row, from, bit, |row|), FirstClear(row, from, 0, bit);
            ChosenIn(l, m, g, hint) == start + if b < |row| then b else c
  {
    hide FirstClear, FirstBit;
  }

  /** The two scans of a row together find nothing exactly when all its bits from `from` on are set. */
  lemma {:induction false} TwoParts(row: seq<bool>, from: nat, bit: nat)
    requires bit <= |row|
    ensures var b, c := FirstClear(row, from, bit, |row|), FirstClear(row, from, 0, bit);
            && bit <= b <= |row| && c <= bit && (b < |row| ==> from <= b && !row[b]) && (c < bit ==> from <= c && !row[c])
            && (b == |row| && c == bit <==> forall i :: from <= i < |row| ==> row[i])
  {
    FirstClearFacts(row, from, bit, |row|);
    FirstClearFacts(row, from, 0, bit);
    hide FirstClear;
  }

  /** A free hint is taken. */
  lemma {:induction false} HintChosen(l: Layout, m: Maps, g: nat, hint: nat)
    requires g < |l.groups| == |m.bitmaps| && |m.bitmaps[g]| == l.groups[g].blocks
    requires l.groups[g].start + FirstBit(l, g) <= hint < l.groups[g].start + l.groups[g].blocks
    requires !m.bitmaps[g][hint - l.groups[g].start]
    ensures ChosenIn(l, m, g, hint) == hint
  {
  }

  /** Where the search starts. */
  function StartGroup(l: Layout, goalBlock: nat, goalGroup: nat): nat
    requires l.blocksPerGroup > 0
  {
    if l.prealloc && goalGroup < |l.groups| then goalGroup
    else if l.prealloc && goalBlock != 0 && l.DataBlock(goalBlock) then l.GroupOf(goalBlock)
    else l.FirstDataGroup()
  }

  /** The hint for the group that is looked at after `scanned` others; `next` is the block behind the last one taken. */
  function HintFor(l: Layout, next: nat, goalBlock: nat, goalGroup: nat, scanned: nat, group: nat): nat
    requires l.blocksPerGroup > 0 && group < |l.groups|
  {
    if l.prealloc then
      if goalBlock != 0 && l.DataBlock(goalBlock) && l.GroupOf(goalBlock) == group then goalBlock
      else if group == goalGroup && l.groups[group].start <= next < l.groups[group].start + l.groups[group].blocks then next
      else 0
    else if scanned == 0 then next
    else 0
  }

  /** The block that is taken: in the first group of the search with a free one, else in the first such group of all;
      0 when all are full. */
  ghost function ChosenFrom(l: Layout, m: Maps, next: nat, goalBlock: nat, goalGroup: nat, scanned: nat): nat
    requires Consistent(l, m)
    decreases |l.groups| - scanned
  {
    if scanned >= |l.groups| then ChosenAgain(l, m, l.FirstDataGroup())
    else
      var group := (StartGroup(l, goalBlock, goalGroup) + scanned) % |l.groups|;
      if group < l.FirstDataGroup() || m.free[group] == 0 then ChosenFrom(l, m, next, goalBlock, goalGroup, scanned + 1)
      else ChosenIn(l, m, group, HintFor(l, next, goalBlock, goalGroup, scanned, group))
  }

  ghost function ChosenAgain(l: Layout, m: Maps, group: nat): nat
    requires Consistent(l, m)
    decreases |l.groups| - group
  {
    if group >= |l.groups| then 0
    else if m.free[group] == 0 then ChosenAgain(l, m, group + 1)
    else ChosenIn(l, m, group, 0)
  }

  ghost function Chosen(l: Layout, m: Maps, next: nat, goalBlock: nat, goalGroup: nat): nat
    requires Consistent(l, m)
  {
    ChosenFrom(l, m, next, goalBlock, goalGroup, 0)
  }

  lemma {:induction false} ConsistentParts(l: Layout, m: Maps)
    requires Consistent(l, m)
    ensures l.blocksPerGroup > 0 && |m.bitmaps| == |m.free| == |l.groups| > 0
  {
  }

  /** One group of the search. */
  lemma {:induction false} OneGroup(l: Layout, m: Maps, next: nat, goalBlock: nat, goalGroup: nat, scanned: nat)
    requires Consistent(l, m) && scanned < |l.groups|
    ensures l.blocksPerGroup > 0 && |m.bitmaps| == |m.free| == |l.groups|
    ensures var group := (StartGroup(l, goalBlock, goalGroup) + scanned) % |l.groups|;
            && group < |l.groups| && |m.bitmaps[group]| == l.groups[group].blocks
            && ChosenFrom(l, m, next, goalBlock, goalGroup, scanned)
               == if group < l.FirstDataGroup() || m.free[group] == 0 then
                    ChosenFrom(l, m, next, goalBlock, goalGroup, scanned + 1)
                  else ChosenIn(l, m, group, HintFor(l, next, goalBlock, goalGroup, scanned, group))
  {
    hide ChosenIn, StartGroup, HintFor, Layout.FirstDataGroup, Clear, Sum;
  }

  lemma {:induction false} SearchEnds(l: Layout, m: Maps, next: nat, goalBlock: nat, goalGroup: nat)
    requires Consistent(l, m)
    ensures l.blocksPerGroup > 0
    ensures ChosenFrom(l, m, next, goalBlock, goalGroup, |l.groups|) == ChosenAgain(l, m, l.FirstDataGroup())
  {
  }

  /** One group of the second pass. */
  lemma {:induction false} OneMore(l: Layout, m: Maps, group: nat)
    requires Consistent(l, m) && group < |l.groups|
    ensures l.blocksPerGroup > 0 && |m.bitmaps| == |m.free| == |l.groups|
    ensures |m.bitmaps[group]| == l.groups[group].blocks
    ensures ChosenAgain(l, m, group) == if m.free[group] == 0 then ChosenAgain(l, m, group + 1) else ChosenIn(l, m, group, 0)
  {
    hide ChosenIn, Clear, Sum;
  }

  // ----- the allocator object

  class Allocator {
    const l: Layout
    /** Block bitmap and free counter of each group. */
    var bitmaps: array<seq<bool>>
    var free: array<nat>
    /** Free counter of the superblock. */
    var superFree: nat
    var nextDataBlock: nat

    function State(): Maps
      reads this, bitmaps, free
    {
      Maps(bitmaps[..], free[..], superFree)
    }

    ghost predicate Valid()
      reads this, bitmaps, free
    {
      Consistent(l, State())
    }

    ghost function InUse(): set<nat>
      reads this, bitmaps, free
    {
      UsedBlocks(l, State())
    }

    /** Take over bitmaps and counters that are consistent, as mkfs writes them. */
    constructor (l: Layout, bitmaps: array<seq<bool>>, free: array<nat>, superFree: nat)
      requires Consistent(l, Maps(bitmaps[..], free[..], superFree))
      ensures Valid() && this.l == l && this.bitmaps == bitmaps && this.free == free
      ensures State() == Maps(bitmaps[..], free[..], superFree) && nextDataBlock == 0
    {
      this.l, this.bitmaps, this.free, this.superFree, this.nextDataBlock := l, bitmaps, free, superFree, 0;
    }

    /** Set one clear bit and count it. */
    method TakeBit(g: nat, i: nat) returns (block: nat)
      requires Valid() && g < |l.groups| && FirstBit(l, g) <= i < |bitmaps[g]| && !bitmaps[g][i]
      modifies this, bitmaps, free
      ensures bitmaps == old(bitmaps) && free == old(free) && Valid()
      ensures block == l.groups[g].start + i && l.DataBlock(block)
      ensures block !in old(InUse()) && InUse() == old(InUse()) + {block}
      ensures superFree == old(superFree) - 1 && nextDataBlock == old(nextDataBlock)
    {
      hide Layout.DataBlock, Used, Clear, Sum;
      ghost var m := State();
      ClearBitCounted(l, m, g, i);
      MarkConsistent(l, m, g, i);
      block := l.groups[g].start + i;
      bitmaps[g] := bitmaps[g][i := true];
      free[g] := free[g] - 1;
      superFree := superFree - 1;
      assert State() == Mark(m, g, i);
      BitUse(l, m, State(), g, i, true);
      UseOfBit(l, m, block);
    }

    /** Scan a group from the hint to its end, then from its start to the hint. */
    method AllocInGroup(g: nat, hint: nat) returns (err: Errno, block: nat)
      requires Valid() && g < |l.groups|
      modifies this, bitmaps, free
      ensures bitmaps == old(bitmaps) && free == old(free) && Valid() && nextDataBlock == old(nextDataBlock)
      ensures err == Ok || err == Enospc
      ensures err == Ok <==> old(free[g]) > 0
      ensures err != Ok ==> State() == old(State())
      ensures err == Ok ==>
                && l.DataBlock(block)
                && block !in old(InUse()) && InUse() == old(InUse()) + {block} && superFree == old(superFree) - 1
      ensures |old(State()).bitmaps| == |l.groups| && |old(State()).bitmaps[g]| == l.groups[g].blocks
      ensures err == Ok ==> block == ChosenIn(l, old(State()), g, hint)
    {
      var found, bit := FindBit(g, hint);
      hide *;
      if !found {
        return Enospc, 0;
      }
      block := TakeBit(g, bit);
      err := Ok;
    }

    /** The bit that is taken in a group. */
    method FindBit(g: nat, hint: nat) returns (found: bool, bit: nat)
      requires Valid() && g < |l.groups|
      ensures g < |State().bitmaps| == |l.groups| && |State().bitmaps[g]| == l.groups[g].blocks
      ensures State().bitmaps[g] == bitmaps[g]
      ensures g < free.Length && (found <==> free[g] > 0)
      ensures found ==> FirstBit(l, g) <= bit < |bitmaps[g]| && !bitmaps[g][bit]
      ensures found ==> l.groups[g].start + bit == ChosenIn(l, State(), g, hint)
    {
      hide *;
      ValidMaps();
      TwoScans(l, State(), g, hint);
      var first, blocks := l.groups[g].start, l.groups[g].blocks;
      if blocks == 0 {
        return false, 0;
      }
      var startBit := if first <= hint < first + blocks then hint - first else 0;
      bit := ScanBits(g, startBit, blocks);
      found := true;
      if bit == blocks {
        bit := ScanBits(g, 0, startBit);
        found := bit != startBit;
      }
    }

    lemma {:induction false} ValidMaps()
      requires Valid()
      ensures Consistent(l, State()) && State() == Maps(bitmaps[..], free[..], superFree)
    {
    }

    /** The scan for a clear bit. */
    method ScanBits(g: nat, lo: nat, hi: nat) returns (bit: nat)
      requires l.Wf() && g < |l.groups| && g < bitmaps.Length && lo <= hi <= |bitmaps[g]|
      ensures bit == FirstClear(bitmaps[g], FirstBit(l, g), lo, hi)
    {
      hide Layout.Wf;
      for b := lo to hi
        invariant FirstClear(bitmaps[g], FirstBit(l, g), lo, hi) == FirstClear(bitmaps[g], FirstBit(l, g), b, hi)
      {
        if l.groups[g].start + b < l.firstDataBlock {
          continue;
        }
        if !bitmaps[g][b] {
          return b;
        }
      }
      bit := hi;
    }

    /** Scan the groups from a start group on with wraparound; then once more from the first data group. */
    method AllocBlockGoal(goalBlock: nat, goalGroup: nat) returns (err: Errno, block: nat)
      requires Valid()
      modifies this, bitmaps, free
      ensures bitmaps == old(bitmaps) && free == old(free) && Valid()
      ensures err == Ok || err == Enospc
      ensures err == Ok ==>
                && l.DataBlock(block)
                && block !in old(InUse()) && InUse() == old(InUse()) + {block} && superFree == old(superFree) - 1
                && block == old(Choice(goalBlock, goalGroup))
      ensures err != Ok ==> State() == old(State()) && InUse() == old(InUse()) && superFree == old(superFree)
      ensures nextDataBlock == if err == Ok then block + 1 else old(nextDataBlock)
      ensures err == Enospc <==> old(superFree) == 0
      ensures err == Enospc ==> forall b: nat :: l.DataBlock(b) ==> b in InUse()
    {
      ghost var m := State();
      ValidMaps();
      NoFreeBlocks(l, m);
      hide *;
      err, block := ScanGroups(goalBlock, goalGroup);
      if err != Ok {
        err, block := ScanAgain();
      }
      if err == Ok {
        nextDataBlock := block + 1;
      }
      ValidMaps();
    }

    /** The second pass, from the first data group on and without a hint. */
    method ScanAgain() returns (err: Errno, block: nat)
      requires Valid() && l.blocksPerGroup > 0
      modifies this, bitmaps, free
      ensures bitmaps == old(bitmaps) && free == old(free) && Valid() && nextDataBlock == old(nextDataBlock)
      ensures err == Ok || err == Enospc
      ensures err == Ok ==>
                && l.DataBlock(block)
                && block !in old(InUse()) && InUse() == old(InUse()) + {block} && superFree == old(superFree) - 1
                && block == ChosenAgain(l, old(State()), l.FirstDataGroup())
      ensures err != Ok ==> State() == old(State()) && |State().free| == |l.groups|
      ensures err != Ok ==> forall g :: l.FirstDataGroup() <= g < |l.groups| ==> State().free[g] == 0
    {
      ghost var m := State();
      ValidMaps();
      ConsistentParts(l, m);
      hide *;
      block, err := 0, Enospc;
      var group := l.FirstDataGroup();
      while group < |l.groups|
        invariant err == Enospc && State() == m && Valid() && bitmaps == old(bitmaps) && free == old(free)
        invariant nextDataBlock == old(nextDataBlock)
        invariant ChosenAgain(l, m, l.FirstDataGroup()) == ChosenAgain(l, m, group)
        invariant forall g :: l.FirstDataGroup() <= g < group && g < |l.groups| ==> m.free[g] == 0
      {
        OneMore(l, m, group);
        FreeIs(group);
        if free[group] != 0 {
          err, block := AllocInGroup(group, 0);
          if err == Ok {
            return;
          }
        }
        group := group + 1;
      }
    }

    /** The search from the start group on. */
    method ScanGroups(goalBlock: nat, goalGroup: nat) returns (err: Errno, block: nat)
      requires Valid()
      modifies this, bitmaps, free
      ensures bitmaps == old(bitmaps) && free == old(free) && Valid() && nextDataBlock == old(nextDataBlock)
      ensures err == Ok || err == Enospc
      ensures err == Ok ==>
                && l.DataBlock(block)
                && block !in old(InUse()) && InUse() == old(InUse()) + {block} && superFree == old(superFree) - 1
                && block == old(Choice(goalBlock, goalGroup))
      ensures err != Ok ==>
                State() == old(State()) && old(Choice(goalBlock, goalGroup)) == ChosenAgain(l, old(State()), l.FirstDataGroup())
    {
      ghost var m, next := State(), nextDataBlock;
      ValidMaps();
      ConsistentParts(l, m);
      hide *;
      ChoiceIs(goalBlock, goalGroup);
      block, err := 0, Enospc;
      var startGroup := FirstGroup(goalBlock, goalGroup);
      for scanned := 0 to |l.groups|
        invariant err == Enospc && State() == m && nextDataBlock == next
                  && Valid() && bitmaps == old(bitmaps) && free == old(free)
        invariant old(Choice(goalBlock, goalGroup)) == ChosenFrom(l, m, next, goalBlock, goalGroup, scanned)
      {
        err, block := TryGroup(startGroup, scanned, goalBlock, goalGroup);
        if err == Ok {
          return;
        }
      }
      SearchEnds(l, m, next, goalBlock, goalGroup);
    }

    /** One group of the search. */
    method TryGroup(startGroup: nat, scanned: nat, goalBlock: nat, goalGroup: nat) returns (err: Errno, block: nat)
      requires Valid() && l.blocksPerGroup > 0 && scanned < |l.groups|
      requires startGroup == StartGroup(l, goalBlock, goalGroup)
      modifies this, bitmaps, free
      ensures bitmaps == old(bitmaps) && free == old(free) && Valid() && nextDataBlock == old(nextDataBlock)
      ensures err == Ok || err == Enospc
      ensures err == Ok ==>
                && l.DataBlock(block)
                && block !in old(InUse()) && InUse() == old(InUse()) + {block} && superFree == old(superFree) - 1
                && block == old(ChosenFrom(l, State(), nextDataBlock, goalBlock, goalGroup, scanned))
      ensures err != Ok ==> State() == old(State())
      ensures err != Ok ==> old(ChosenFrom(l, State(), nextDataBlock, goalBlock, goalGroup, scanned))
                            == old(ChosenFrom(l, State(), nextDataBlock, goalBlock, goalGroup, scanned + 1))
    {
      hide *;
      ValidMaps();
      var group := (startGroup + scanned) % |l.groups|;
      OneGroup(l, State(), nextDataBlock, goalBlock, goalGroup, scanned);
      FreeIs(group);
      if group < l.FirstDataGroup() || free[group] == 0 {
        return Enospc, 0;
      }
      var hint := HintIn(goalBlock, goalGroup, scanned, group);
      err, block := AllocInGroup(group, hint);
    }

    method FirstGroup(goalBlock: nat, goalGroup: nat) returns (group: nat)
      requires l.blocksPerGroup > 0
      ensures group == StartGroup(l, goalBlock, goalGroup)
    {
      group := l.FirstDataGroup();
      if l.prealloc && goalGroup < |l.groups| {
        group := goalGroup;
      } else if l.prealloc && goalBlock != 0 && l.DataBlock(goalBlock) {
        group := l.GroupOf(goalBlock);
      }
    }

    method HintIn(goalBlock: nat, goalGroup: nat, scanned: nat, group: nat) returns (hint: nat)
      requires l.blocksPerGroup > 0 && group < |l.groups|
      ensures hint == HintFor(l, nextDataBlock, goalBlock, goalGroup, scanned, group)
    {
      hint := 0;
      if l.prealloc {
        if goalBlock != 0 && l.DataBlock(goalBlock) && l.GroupOf(goalBlock) == group {
          hint := goalBlock;
        } else if group == goalGroup
                  && l.groups[group].start <= nextDataBlock < l.groups[group].start + l.groups[group].blocks {
          hint := nextDataBlock;
        }
      } else if scanned == 0 {
        hint := nextDataBlock;
      }
    }

    lemma {:induction false} FreeIs(g: nat)
      requires Valid() && g < |l.groups|
      ensures free.Length == |l.groups| == |State().free| && free[g] == State().free[g]
    {
      hide Clear, Sum, Layout.DataBlock, FirstBit, Layout.Wf;
    }

    lemma {:induction false} ChoiceIs(goalBlock: nat, goalGroup: nat)
      requires Valid()
      ensures Choice(goalBlock, goalGroup) == ChosenFrom(l, State(), nextDataBlock, goalBlock, goalGroup, 0)
    {
    }

    /** The block that the next allocation takes. */
    ghost function Choice(goalBlock: nat, goalGroup: nat): nat
      requires Valid()
      reads this, bitmaps, free
    {
      Chosen(l, State(), nextDataBlock, goalBlock, goalGroup)
    }

    /** Clear one set bit and count it. */
    method ReleaseBit(g: nat, i: nat, block: nat)
      requires Valid() && g < |l.groups| && FirstBit(l, g) <= i < |bitmaps[g]| && bitmaps[g][i]
      requires block == l.groups[g].start + i && l.DataBlock(block)
      modifies this, bitmaps, free
      ensures bitmaps == old(bitmaps) && free == old(free) && Valid() && nextDataBlock == old(nextDataBlock)
      ensures InUse() == old(InUse()) - {block} && superFree == old(superFree) + 1
    {
      hide Layout.DataBlock, Used, UsedBlocks, Clear, Sum;
      ghost var m := State();
      UnmarkConsistent(l, m, g, i);
      bitmaps[g] := bitmaps[g][i := false];
      free[g] := free[g] + 1;
      superFree := superFree + 1;
      assert State() == Unmark(m, g, i);
      BitUse(l, m, State(), g, i, false);
    }

    /** Clear the bit of a data block; freeing a block that is already free changes nothing. */
    method FreeBlock(block: nat) returns (err: Errno)
      requires Valid()
      modifies this, bitmaps, free
      ensures bitmaps == old(bitmaps) && free == old(free) && Valid()
      ensures err == if l.DataBlock(block) then Ok else Einval
      ensures InUse() == old(InUse()) - {block}
      ensures superFree == old(superFree) + if block in old(InUse()) then 1 else 0
      ensures nextDataBlock == old(nextDataBlock)
    {
      if !l.DataBlock(block) {
        assert block !in InUse();
        return Einval;
      }
      var group := l.GroupOf(block);
      var bit := block - l.groups[group].start;
      FirstBitLow(l, block);
      hide Layout.DataBlock, Consistent, Used, UsedBlocks, Clear, Sum;
      UseOfBit(l, State(), block);
      if bitmaps[group][bit] {
        ReleaseBit(group, bit, block);
      }
      err := Ok;
    }
  }

  /** A data block has a bit in its group's bitmap, and it is one that can be handed out. */
  lemma {:induction false} FirstBitLow(l: Layout, b: nat)
    requires l.Wf() && l.DataBlock(b)
    ensures l.GroupOf(b) < |l.groups|
    ensures FirstBit(l, l.GroupOf(b)) <= b - l.groups[l.GroupOf(b)].start < l.groups[l.GroupOf(b)].blocks
  {
    DataAboveFirst(l);
  }

  /** All blocks from a data block to the end of its group are data blocks. */
  lemma {:induction false} WindowIsData(l: Layout, b: nat)
    requires l.Wf() && l.DataBlock(b)
    ensures l.GroupOf(b) == b / l.blocksPerGroup < |l.groups|
    ensures var g := l.groups[l.GroupOf(b)];
            && b < g.start + g.blocks
            && (forall c: nat :: b <= c < g.start + g.blocks ==> l.DataBlock(c) && l.GroupOf(c) == l.GroupOf(b))
            && !(l.DataBlock(g.start + g.blocks) && l.GroupOf(g.start + g.blocks) == l.GroupOf(b))
  {
    var g := l.GroupOf(b);
    forall c: nat | b <= c < l.groups[g].start + l.groups[g].blocks ensures l.DataBlock(c) && l.GroupOf(c) == g {
      DivGroup(g, l.blocksPerGroup, c - l.groups[g].start);
    }
  }

  lemma {:induction false} UseOfBit(l: Layout, m: Maps, b: nat)
    requires Consistent(l, m) && l.DataBlock(b)
    ensures var g := l.GroupOf(b);
            && g < |l.groups| == |m.bitmaps| == |m.free| && |m.bitmaps[g]| == l.groups[g].blocks
            && 0 <= b - l.groups[g].start < |m.bitmaps[g]|
            && (b in UsedBlocks(l, m) <==> m.bitmaps[g][b - l.groups[g].start])
  {
    hide Clear, Sum;
  }

  lemma {:induction false} ClearSame(a: seq<bool>, b: seq<bool>, from: nat)
    requires |a| == |b| && forall i :: from <= i < |a| ==> a[i] == b[i]
    ensures Clear(a, from) == Clear(b, from)
  {
    if |a| > from {
      ClearSame(a[..|a| - 1], b[..|b| - 1], from);
    }
  }

  /** The blocks in use decide every bit that can be handed out and all counters. So freeing what was allocated
      brings both back. */
  lemma {:induction false} UseDetermines(l: Layout, m: Maps, n: Maps)
    requires Consistent(l, m) && Consistent(l, n) && UsedBlocks(l, m) == UsedBlocks(l, n)
    ensures m.free == n.free && m.total == n.total
    ensures forall g, i :: 0 <= g < |l.groups| && FirstBit(l, g) <= i < l.groups[g].blocks ==>
              m.bitmaps[g][i] == n.bitmaps[g][i]
  {
    hide Clear, Sum, Layout.DataBlock, Used, UsedBlocks;
    forall g, i | 0 <= g < |l.groups| && FirstBit(l, g) <= i < l.groups[g].blocks
      ensures m.bitmaps[g][i] == n.bitmaps[g][i]
    {
      SameBit(l, m, n, g, i);
    }
    forall g | 0 <= g < |l.groups| ensures m.free[g] == n.free[g] {
      ClearSame(m.bitmaps[g], n.bitmaps[g], FirstBit(l, g));
    }
    assert m.free == n.free;
  }

  /** They decide every search as well. */
  lemma {:induction false} ChosenSame(l: Layout, m: Maps, n: Maps, next: nat, goalBlock: nat, goalGroup: nat)
    requires Consistent(l, m) && Consistent(l, n) && UsedBlocks(l, m) == UsedBlocks(l, n)
    ensures Chosen(l, m, next, goalBlock, goalGroup) == Chosen(l, n, next, goalBlock, goalGroup)
  {
    hide ChosenFrom, Consistent, UsedBlocks;
    FromSame(l, m, n, next, goalBlock, goalGroup, 0);
  }

  lemma {:induction false} FromSame(l: Layout, m: Maps, n: Maps, next: nat, goalBlock: nat, goalGroup: nat, scanned: nat)
    requires Consistent(l, m) && Consistent(l, n) && UsedBlocks(l, m) == UsedBlocks(l, n)
    ensures ChosenFrom(l, m, next, goalBlock, goalGroup, scanned) == ChosenFrom(l, n, next, goalBlock, goalGroup, scanned)
    decreases |l.groups| - scanned
  {
    hide *;
    UseDetermines(l, m, n);
    if scanned >= |l.groups| {
      FromEnd(l, m, next, goalBlock, goalGroup, scanned);
      FromEnd(l, n, next, goalBlock, goalGroup, scanned);
      AgainSame(l, m, n, l.FirstDataGroup());
    } else {
      OneGroup(l, m, next, goalBlock, goalGroup, scanned);
      OneGroup(l, n, next, goalBlock, goalGroup, scanned);
      FromSame(l, m, n, next, goalBlock, goalGroup, scanned + 1);
      var group := (StartGroup(l, goalBlock, goalGroup) + scanned) % |l.groups|;
      InSame(l, m, n, group, HintFor(l, next, goalBlock, goalGroup, scanned, group));
    }
  }

  lemma {:induction false} FromEnd(l: Layout, m: Maps, next: nat, goalBlock: nat, goalGroup: nat, scanned: nat)
    requires Consistent(l, m) && scanned >= |l.groups|
    ensures l.blocksPerGroup > 0
    ensures ChosenFrom(l, m, next, goalBlock, goalGroup, scanned) == ChosenAgain(l, m, l.FirstDataGroup())
  {
    hide ChosenAgain, Layout.FirstDataGroup;
  }

  lemma {:induction false} AgainSame(l: Layout, m: Maps, n: Maps, group: nat)
    requires Consistent(l, m) && Consistent(l, n) && UsedBlocks(l, m) == UsedBlocks(l, n)
    ensures ChosenAgain(l, m, group) == ChosenAgain(l, n, group)
    decreases |l.groups| - group
  {
    hide Consistent, UsedBlocks, ChosenIn;
    if group < |l.groups| {
      UseDetermines(l, m, n);
      OneMore(l, m, group);
      OneMore(l, n, group);
      AgainSame(l, m, n, group + 1);
      InSame(l, m, n, group, 0);
    }
  }

  lemma {:induction false} InSame(l: Layout, m: Maps, n: Maps, g: nat, hint: nat)
    requires Consistent(l, m) && Consistent(l, n) && UsedBlocks(l, m) == UsedBlocks(l, n) && g < |l.groups|
    ensures g < |m.bitmaps| == |n.bitmaps| == |l.groups| && |m.bitmaps[g]| == |n.bitmaps[g]| == l.groups[g].blocks
    ensures ChosenIn(l, m, g, hint) == ChosenIn(l, n, g, hint)
  {
    RowOf(l, m, g);
    RowOf(l, n, g);
    UseDetermines(l, m, n);
    hide Consistent, UsedBlocks, FirstBit, FirstClear;
    var row, start := m.bitmaps[g], l.groups[g].start;
    var bit := if start <= hint < start + |row| then hint - start else 0;
    FirstSame(m.bitmaps[g], n.bitmaps[g], FirstBit(l, g), bit, |row|);
    FirstSame(m.bitmaps[g], n.bitmaps[g], FirstBit(l, g), 0, bit);
  }

  lemma {:induction false} FirstSame(a: seq<bool>, b: seq<bool>, from: nat, lo: nat, hi: nat)
    requires lo <= hi <= |a| == |b| && forall i :: from <= i < |a| ==> a[i] == b[i]
    ensures FirstClear(a, from, lo, hi) == FirstClear(b, from, lo, hi)
    decreases hi - lo
  {
    if lo < hi {
      FirstSame(a, b, from, lo + 1, hi);
    }
  }

  lemma {:induction false} SameBit(l: Layout, m: Maps, n: Maps, g: nat, i: nat)
    requires Consistent(l, m) && Consistent(l, n) && UsedBlocks(l, m) == UsedBlocks(l, n)
    requires g < |l.groups| && FirstBit(l, g) <= i < l.groups[g].blocks
    ensures m.bitmaps[g][i] == n.bitmaps[g][i]
  {
    hide Clear, Sum, Used, UsedBlocks;
    var b := l.groups[g].start + i;
    BlockOfBit(l, g, i);
    hide Layout.GroupOf, Layout.DataBlock;
    if l.DataBlock(b) {
      UseOfBit(l, m, b);
      UseOfBit(l, n, b);
    }
  }
}
