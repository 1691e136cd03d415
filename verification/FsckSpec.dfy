/** What the checker compares, and what it finds. */
module FsckSpec {
  import opened Allocator
  import opened ExtentSpec

  /** Where the journal lies. */
  datatype Journal = Journal(start: nat, blocks: nat) {
    function End(): nat { start + blocks }

    ghost function Area(): set<nat> { Range(start, start + blocks) }
  }

  /** What the checker has found right before it looks at bitmaps and counts: full-sized groups up to the last one,
      which ends with the device, and inode tables inside their groups. */
  ghost predicate Tiles(l: Layout) {
    && l.Wf() && l.firstDataBlock > 0
    && (forall g :: 0 <= g < |l.groups| - 1 ==> l.groups[g].blocks == l.blocksPerGroup)
    && l.groups[|l.groups| - 1].start + l.groups[|l.groups| - 1].blocks == l.blocksCount
    && (forall g :: 0 < g < |l.groups| ==> l.groups[g].start <= l.groups[g].tableEnd <= l.groups[g].start + l.groups[g].blocks)
  }

  /** One bit for each block of each group. Nothing is known about counters, or about which bits are set. */
  ghost predicate Shaped(l: Layout, m: Maps) {
    |m.bitmaps| == |l.groups| && forall g :: 0 <= g < |l.groups| ==> |m.bitmaps[g]| == l.groups[g].blocks
  }

  /** The first block of a group that may hold data. */
  function DataStart(l: Layout, g: nat): nat
    requires g < |l.groups|
  {
    if g == 0 then l.firstDataBlock else l.groups[g].tableEnd
  }

  /** The block behind group `k - 1`, that is, the first one of group `k`. */
  function EndOf(l: Layout, k: nat): nat
    requires k <= |l.groups|
  {
    if k == 0 then 0 else l.groups[k - 1].start + l.groups[k - 1].blocks
  }

  lemma {:induction false} EndIsStart(l: Layout, k: nat)
    requires Tiles(l) && k <= |l.groups|
    ensures k < |l.groups| ==> EndOf(l, k) == l.groups[k].start
    ensures k == |l.groups| ==> EndOf(l, k) == l.blocksCount
  {
    if 0 < k < |l.groups| {
      assert l.groups[k].start == k * l.blocksPerGroup == (k - 1) * l.blocksPerGroup + l.blocksPerGroup;
    }
  }

  // ----- counting

  /** Metadata blocks of the groups up to `k`. */
  function Metadata(l: Layout, k: nat): int
    requires k <= |l.groups|
  {
    if k == 0 then 0 else Metadata(l, k - 1) + (DataStart(l, k - 1) - l.groups[k - 1].start)
  }

  /** Data blocks in use in front of block `end`. */
  ghost function UsedBelow(l: Layout, m: Maps, end: nat): set<nat> {
    set b: nat | b < end && Used(l, m, b)
  }

  /** The bit of block `b` in the bitmap of a group that starts at `start`. */
  predicate BitAt(row: seq<bool>, start: nat, b: nat) {
    start <= b < start + |row| && row[b - start]
  }

  /** The blocks of the first `n` bits that are set, from bit `lo` on. */
  ghost function SetBits(row: seq<bool>, start: nat, lo: nat, n: nat): set<nat>
    requires n <= |row|
  {
    set b: nat | start + lo <= b < start + n && BitAt(row, start, b)
  }

  /** Set and clear bits of a row add up. */
  lemma {:induction false} RowCount(row: seq<bool>, start: nat, from: nat, lo: nat, n: nat)
    requires from <= lo <= n <= |row| && forall i :: from <= i < lo ==> row[i]
    ensures |SetBits(row, start, lo, n)| + Clear(row[..n], from) == n - lo
  {
    if lo < n {
      RowCount(row, start, from, lo, n - 1);
      assert row[..n][..n - 1] == row[..n - 1];
      var one := if row[n - 1] then {start + n - 1} else {};
      assert SetBits(row, start, lo, n) == SetBits(row, start, lo, n - 1) + one;
    } else {
      assert SetBits(row, start, lo, n) == {};
      ClearZero(row[..n], from);
    }
  }

  lemma {:induction false} LaterGroup(l: Layout, g: nat)
    requires l.Wf() && l.firstDataBlock > 0 && 0 < g < |l.groups|
    ensures l.groups[g].start > l.firstDataBlock && FirstBit(l, g) == 0
  {
    assert g * l.blocksPerGroup >= l.blocksPerGroup;
  }

  /** Data starts behind the first bit that can be handed out, and the bits between are set. */
  lemma {:induction false} DataPart(l: Layout, m: Maps, g: nat)
    requires Consistent(l, m) && Tiles(l) && g < |l.groups|
    ensures l.groups[g].start <= DataStart(l, g) <= l.groups[g].start + l.groups[g].blocks
    ensures FirstBit(l, g) <= DataStart(l, g) - l.groups[g].start
    ensures forall i :: FirstBit(l, g) <= i < DataStart(l, g) - l.groups[g].start ==> m.bitmaps[g][i]
  {
    hide Clear, Sum, Layout.GroupOf;
    if g > 0 {
      LaterGroup(l, g);
    }
    forall i | FirstBit(l, g) <= i < DataStart(l, g) - l.groups[g].start ensures m.bitmaps[g][i] {
      BlockOfBit(l, g, i);
      assert !l.DataBlock(l.groups[g].start + i);
    }
  }

  lemma {:induction false} GroupFacts(l: Layout, g: nat)
    requires Tiles(l) && g < |l.groups|
    ensures l.blocksPerGroup > 0
    ensures l.groups[g].start <= DataStart(l, g) <= l.groups[g].start + l.groups[g].blocks <= l.blocksCount
    ensures g == 0 ==> l.groups[g].start == 0
    ensures DataStart(l, g) > 0
  {
    if g > 0 {
      LaterGroup(l, g);
    }
    hide Layout.DataBlock, FirstBit;
  }

  lemma {:induction false} UseAt(l: Layout, m: Maps, g: nat, b: nat)
    requires l.blocksPerGroup > 0 && g < |l.groups| == |m.bitmaps| && |m.bitmaps[g]| == l.groups[g].blocks
    requires l.GroupOf(b) == g
    requires l.groups[g].start <= b < l.groups[g].start + l.groups[g].blocks <= l.blocksCount && DataStart(l, g) > 0
    ensures Used(l, m, b) <==> b >= DataStart(l, g) && BitAt(m.bitmaps[g], l.groups[g].start, b)
    ensures l.DataBlock(b) <==> b >= DataStart(l, g)
  {
    hide Layout.GroupOf;
  }

  /** The data blocks of a group are those from its data part on. */
  lemma {:induction false} DataAt(l: Layout, g: nat, b: nat)
    requires Tiles(l) && g < |l.groups| && l.groups[g].start <= b < l.groups[g].start + l.groups[g].blocks
    ensures l.blocksPerGroup > 0 && l.GroupOf(b) == g
    ensures l.DataBlock(b) <==> b >= DataStart(l, g)
  {
    GroupFacts(l, g);
    BlockOfBit(l, g, b - l.groups[g].start);
    hide Tiles, Layout.GroupOf;
  }

  /** A block of group `g` is in use exactly when it is a data block and its bit is set. */
  lemma {:induction false} BlockUse(l: Layout, m: Maps, g: nat, b: nat)
    requires Shaped(l, m) && Tiles(l) && g < |l.groups|
    requires l.groups[g].start <= b < l.groups[g].start + l.groups[g].blocks
    ensures l.blocksPerGroup > 0 && g < |m.bitmaps|
    ensures Used(l, m, b) <==> b >= DataStart(l, g) && BitAt(m.bitmaps[g], l.groups[g].start, b)
    ensures l.DataBlock(b) <==> b >= DataStart(l, g)
  {
    hide Layout.GroupOf, Layout.DataBlock, FirstBit;
    GroupFacts(l, g);
    BlockOfBit(l, g, b - l.groups[g].start);
    hide *;
    assert |m.bitmaps[g]| == l.groups[g].blocks by { ShapedRow(l, m, g); }
    UseAt(l, m, g, b);
  }

  lemma {:induction false} ShapedRow(l: Layout, m: Maps, g: nat)
    requires Shaped(l, m) && g < |l.groups|
    ensures |m.bitmaps| == |l.groups| && |m.bitmaps[g]| == l.groups[g].blocks
  {
  }

  lemma {:induction false} ConsistentShaped(l: Layout, m: Maps)
    requires Consistent(l, m)
    ensures Shaped(l, m)
  {
    hide Layout.DataBlock, Layout.Wf, Clear, Sum, FirstBit;
  }

  /** The used blocks of one group are the set bits of its data part. */
  lemma {:induction false} GroupUsed(l: Layout, m: Maps, g: nat)
    requires Shaped(l, m) && Tiles(l) && g < |l.groups|
    ensures l.groups[g].start <= DataStart(l, g) <= l.groups[g].start + l.groups[g].blocks
    ensures g < |m.bitmaps| && |m.bitmaps[g]| == l.groups[g].blocks
    ensures UsedBelow(l, m, EndOf(l, g + 1))
            == UsedBelow(l, m, EndOf(l, g))
               + SetBits(m.bitmaps[g], l.groups[g].start, DataStart(l, g) - l.groups[g].start, l.groups[g].blocks)
  {
    EndIsStart(l, g);
    GroupFacts(l, g);
    ShapedRow(l, m, g);
    var start, end := l.groups[g].start, l.groups[g].start + l.groups[g].blocks;
    forall b: nat | start <= b < end
      ensures Used(l, m, b) <==> b >= DataStart(l, g) && BitAt(m.bitmaps[g], start, b)
    {
      BlockUse(l, m, g, b);
    }
    hide Used, BitAt, Shaped, Tiles, DataStart;
  }

  // ----- data blocks

  ghost function DataBelow(l: Layout, end: nat): set<nat>
    requires l.blocksPerGroup > 0
  {
    set b: nat | b < end && l.DataBlock(b)
  }

  /** All blocks that may hold data. */
  ghost function DataBlocks(l: Layout): set<nat>
    requires l.blocksPerGroup > 0
  {
    DataBelow(l, l.blocksCount)
  }

  /** Those of them whose bit is clear. */
  ghost function FreeBlocks(l: Layout, m: Maps): set<nat>
    requires l.blocksPerGroup > 0
  {
    DataBlocks(l) - UsedBlocks(l, m)
  }

  /** Data blocks and metadata make up the device. */
  lemma {:induction false} DataCount(l: Layout, k: nat)
    requires Tiles(l) && k <= |l.groups|
    ensures l.blocksPerGroup > 0 && |DataBelow(l, EndOf(l, k))| + Metadata(l, k) == EndOf(l, k)
  {
    if k == 0 {
      assert l.blocksPerGroup > 0 && DataBelow(l, 0) == {};
    } else {
      DataCount(l, k - 1);
      GroupFacts(l, k - 1);
      EndIsStart(l, k - 1);
      var g, end := k - 1, l.groups[k - 1].start + l.groups[k - 1].blocks;
      forall b: nat | l.groups[g].start <= b < end ensures l.DataBlock(b) <==> b >= DataStart(l, g) {
        DataAt(l, g, b);
      }
      hide Tiles, DataStart, Layout.DataBlock;
      MoreData(l, l.groups[g].start, DataStart(l, g), end);
    }
  }

  lemma {:induction false} MoreData(l: Layout, start: nat, data: nat, end: nat)
    requires l.blocksPerGroup > 0 && start <= data <= end
    requires forall b: nat :: start <= b < end ==> (l.DataBlock(b) <==> b >= data)
    ensures |DataBelow(l, end)| == |DataBelow(l, start)| + (end - data)
  {
    hide Layout.DataBlock;
    RangeSize(data, end);
    forall b: nat ensures b in Range(data, end) <==> data <= b < end {
      assert Within(b, data, end) <==> data <= b < end;
    }
    var low, all := DataBelow(l, start), DataBelow(l, end);
    assert all == low + Range(data, end) && low !! Range(data, end);
    hide *;
    assert |low + Range(data, end)| == |low| + |Range(data, end)|;
  }

  lemma {:induction false} CounterIs(l: Layout, m: Maps, g: nat)
    requires Consistent(l, m) && g < |l.groups|
    ensures g < |m.free| == |m.bitmaps| && m.free[g] == Clear(m.bitmaps[g], FirstBit(l, g))
  {
    hide Clear, Sum, FirstBit, Layout.DataBlock, Layout.Wf;
  }

  /** Set and clear bits of the data part of one group. */
  lemma {:induction false} GroupCensus(l: Layout, m: Maps, g: nat)
    requires Consistent(l, m) && Tiles(l) && g < |l.groups|
    ensures Shaped(l, m) && g < |m.bitmaps| && |m.bitmaps[g]| == l.groups[g].blocks && g < |m.free|
    ensures l.groups[g].start <= DataStart(l, g) <= l.groups[g].start + l.groups[g].blocks
    ensures |SetBits(m.bitmaps[g], l.groups[g].start, DataStart(l, g) - l.groups[g].start, l.groups[g].blocks)| + m.free[g]
            == l.groups[g].start + l.groups[g].blocks - DataStart(l, g)
  {
    hide *;
    ConsistentShaped(l, m);
    DataPart(l, m, g);
    ShapedRow(l, m, g);
    CounterIs(l, m, g);
    var row, from, start, lo := m.bitmaps[g], FirstBit(l, g), l.groups[g].start, DataStart(l, g) - l.groups[g].start;
    assert row[..|row|] == row;
    RowCount(row, start, from, lo, |row|);
  }

  lemma {:induction false} SumStep(s: seq<nat>, g: nat)
    requires g < |s|
    ensures Sum(s[..g + 1]) == Sum(s[..g]) + s[g]
  {
    assert s[..g + 1][..g] == s[..g];
  }

  /** Free blocks, data blocks in use and metadata make up the device. */
  lemma {:induction false} Census(l: Layout, m: Maps, k: nat)
    requires Consistent(l, m) && Tiles(l) && k <= |l.groups|
    ensures |UsedBelow(l, m, EndOf(l, k))| + Sum(m.free[..k]) + Metadata(l, k) == EndOf(l, k)
  {
    if k == 0 {
      assert UsedBelow(l, m, EndOf(l, k)) == {};
    } else {
      var g := k - 1;
      Census(l, m, g);
      GroupCensus(l, m, g);
      GroupUsed(l, m, g);
      EndIsStart(l, g);
      var low, bits := UsedBelow(l, m, EndOf(l, g)),
                       SetBits(m.bitmaps[g], l.groups[g].start, DataStart(l, g) - l.groups[g].start, l.groups[g].blocks);
      assert low !! bits;
      SumStep(m.free, g);
      assert Metadata(l, k) == Metadata(l, g) + (DataStart(l, g) - l.groups[g].start);
      assert EndOf(l, k) == l.groups[g].start + l.groups[g].blocks;
      hide *;
      assert |low + bits| == |low| + |bits|;
    }
  }

  /** Journal blocks in a group. */
  function Overlap(l: Layout, j: Journal, g: nat): nat
    requires g < |l.groups|
  {
    var start, end := l.groups[g].start, l.groups[g].start + l.groups[g].blocks;
    var from := if j.start > start then j.start else start;
    var to := if j.End() < end then j.End() else end;
    if j.blocks == 0 || to <= from then 0 else to - from
  }

  /** Metadata and journal blocks, group by group, as the checker counts them. */
  function Reserved(l: Layout, j: Journal, k: nat): int
    requires k <= |l.groups|
  {
    if k == 0 then 0
    else Reserved(l, j, k - 1) + (DataStart(l, k - 1) - l.groups[k - 1].start) + Overlap(l, j, k - 1)
  }

  lemma {:induction false} ReservedIs(l: Layout, j: Journal, k: nat)
    requires Tiles(l) && k <= |l.groups|
    ensures var to := if j.End() < EndOf(l, k) then j.End() else EndOf(l, k);
            Reserved(l, j, k) == Metadata(l, k) + if to <= j.start then 0 else to - j.start
  {
    if k > 0 {
      ReservedIs(l, j, k - 1);
      EndIsStart(l, k - 1);
    }
  }

  /** The superblock counter is what the checker counts: the device without metadata, journal and owned blocks. */
  predicate CountOk(l: Layout, m: Maps, j: Journal, seen: set<nat>) {
    m.total == l.blocksCount - (Reserved(l, j, |l.groups|) + |seen|)
  }

  // ----- bitmaps

  /** The block behind those of a group that are marked from the start; in the first group that includes the block of
      the root directory. */
  function MarkedEnd(l: Layout, g: nat): nat
    requires g < |l.groups|
  {
    if g == 0 then l.firstDataBlock + 1 else l.groups[g].tableEnd
  }

  /** Has block `b` of group `g` to be marked? */
  predicate Needed(l: Layout, j: Journal, seen: set<nat>, g: nat, b: nat)
    requires g < |l.groups|
  {
    && l.groups[g].start <= b < l.groups[g].start + l.groups[g].blocks
    && (b < MarkedEnd(l, g) || j.start <= b < j.End() || b in seen)
  }

  ghost predicate BitsOk(l: Layout, bitmaps: seq<seq<bool>>, j: Journal, seen: set<nat>)
    requires |bitmaps| == |l.groups|
  {
    forall g, b: nat :: 0 <= g < |l.groups| && Needed(l, j, seen, g, b) ==> BitAt(bitmaps[g], l.groups[g].start, b)
  }

  /** The bits of metadata, which the allocator never hands out. */
  ghost predicate MetaMarked(l: Layout, m: Maps)
    requires |m.bitmaps| == |l.groups|
  {
    forall g, b: nat :: 0 <= g < |l.groups| && l.groups[g].start <= b < DataStart(l, g) ==>
        BitAt(m.bitmaps[g], l.groups[g].start, b)
  }

  /** All needed bits are set exactly when those of metadata are, and the root directory, the journal and all owned
      blocks are in use. */
  lemma {:induction false} BitsExactly(l: Layout, m: Maps, j: Journal, seen: set<nat>)
    requires Shaped(l, m) && Tiles(l) && forall b :: b in j.Area() + seen ==> l.DataBlock(b)
    ensures BitsOk(l, m.bitmaps, j, seen)
            <==> MetaMarked(l, m) && j.Area() + seen + {l.firstDataBlock} <= UsedBlocks(l, m)
  {
    if BitsOk(l, m.bitmaps, j, seen) {
      forall g, b: nat | 0 <= g < |l.groups| && l.groups[g].start <= b < DataStart(l, g)
        ensures BitAt(m.bitmaps[g], l.groups[g].start, b)
      {
        GroupFacts(l, g);
        assert Needed(l, j, seen, g, b);
      }
      forall b | b in j.Area() + seen + {l.firstDataBlock} ensures b in UsedBlocks(l, m) {
        NeededUsed(l, m, j, seen, b);
      }
    }
    if MetaMarked(l, m) && j.Area() + seen + {l.firstDataBlock} <= UsedBlocks(l, m) {
      forall g, b: nat | 0 <= g < |l.groups| && Needed(l, j, seen, g, b)
        ensures BitAt(m.bitmaps[g], l.groups[g].start, b)
      {
        UsedNeeded(l, m, j, seen, g, b);
      }
    }
  }

  lemma {:induction false} NeededUsed(l: Layout, m: Maps, j: Journal, seen: set<nat>, b: nat)
    requires Shaped(l, m) && Tiles(l) && BitsOk(l, m.bitmaps, j, seen)
    requires b in j.Area() + seen + {l.firstDataBlock} && (b != l.firstDataBlock ==> l.DataBlock(b))
    ensures b in UsedBlocks(l, m)
  {
    var g := if b == l.firstDataBlock then 0 else l.GroupOf(b);
    GroupFacts(l, g);
    assert Needed(l, j, seen, g, b);
    hide Layout.GroupOf;
    BlockUse(l, m, g, b);
    assert g > 0 ==> l.DataBlock(b);
  }

  lemma {:induction false} UsedNeeded(l: Layout, m: Maps, j: Journal, seen: set<nat>, g: nat, b: nat)
    requires Shaped(l, m) && Tiles(l) && g < |l.groups| && Needed(l, j, seen, g, b)
    requires MetaMarked(l, m) && j.Area() + seen + {l.firstDataBlock} <= UsedBlocks(l, m)
    ensures BitAt(m.bitmaps[g], l.groups[g].start, b)
  {
    hide Layout.GroupOf;
    GroupFacts(l, g);
    BlockUse(l, m, g, b);
    if b in j.Area() + seen + {l.firstDataBlock} {
      assert Used(l, m, b);
    }
  }

  /** The count passes exactly when the counter of the superblock is what journal and files leave of the data blocks. No
      bitmap has a part in it. */
  lemma {:induction false} CountExactly(l: Layout, m: Maps, j: Journal, seen: set<nat>)
    requires Shaped(l, m) && Tiles(l) && forall b :: b in j.Area() ==> l.DataBlock(b)
    ensures l.blocksPerGroup > 0
    ensures CountOk(l, m, j, seen) <==> m.total + |j.Area()| + |seen| == |DataBlocks(l)|
  {
    var n := |l.groups|;
    DataCount(l, n);
    ReservedIs(l, j, n);
    EndIsStart(l, n);
    JournalEnd(l, j);
    RangeSize(j.start, j.End());
    hide Shaped, Tiles, DataBelow, Metadata, Reserved, EndOf, Range, UsedBlocks, Layout.DataBlock;
  }

  lemma {:induction false} JournalEnd(l: Layout, j: Journal)
    requires l.Wf() && forall b :: b in j.Area() ==> l.DataBlock(b)
    ensures j.blocks > 0 ==> j.End() <= l.blocksCount
  {
    if j.blocks > 0 {
      assert Within(j.End() - 1, j.start, j.End());
      assert j.End() - 1 in j.Area();
    }
  }

  /** Main result, for bitmaps and counters of any kind. Bitmaps and counts pass exactly when everything that is needed
      is marked, and the counter of the superblock is the number of clear bits plus the number of leaked blocks, less
      the journal blocks that files own as well. So a leaked block is found unless the counter still counts it as free. */
  lemma {:induction false} CleanExactly(l: Layout, m: Maps, j: Journal, seen: set<nat>)
    requires Shaped(l, m) && Tiles(l) && forall b :: b in j.Area() + seen ==> l.DataBlock(b)
    ensures l.blocksPerGroup > 0
    ensures var used, owned := UsedBlocks(l, m), j.Area() + seen;
            BitsOk(l, m.bitmaps, j, seen) && CountOk(l, m, j, seen)
            <==> && MetaMarked(l, m) && owned + {l.firstDataBlock} <= used
                 && m.total + |j.Area() * seen| == |FreeBlocks(l, m)| + |used - owned|
  {
    BitsExactly(l, m, j, seen);
    CountExactly(l, m, j, seen);
    UsedInData(l, m);
    var used, owned, data := UsedBlocks(l, m), j.Area() + seen, DataBlocks(l);
    assert FreeBlocks(l, m) == data - used;
    hide *;
    assert |used - owned| + |owned| == |used + owned|;
    assert |data - used| + |used| == |data + used|;
    assert data + used == data;
    if owned <= used {
      assert used + owned == used;
    }
  }

  lemma {:induction false} UsedInData(l: Layout, m: Maps)
    requires l.blocksPerGroup > 0
    ensures UsedBlocks(l, m) <= DataBlocks(l)
  {
  }

  /** When the counter of the superblock is the number of clear bits, and no file owns a journal block, exactly the
      bitmaps that mark what is owned and nothing else pass. */
  lemma {:induction false} CleanIsOwned(l: Layout, m: Maps, j: Journal, seen: set<nat>)
    requires Shaped(l, m) && Tiles(l) && forall b :: b in j.Area() + seen ==> l.DataBlock(b)
    requires l.blocksPerGroup > 0 && m.total == |FreeBlocks(l, m)| && j.Area() !! seen
    ensures BitsOk(l, m.bitmaps, j, seen) && CountOk(l, m, j, seen)
            <==> MetaMarked(l, m) && l.firstDataBlock in j.Area() + seen && UsedBlocks(l, m) == j.Area() + seen
  {
    CleanExactly(l, m, j, seen);
    hide *;
    var used, owned := UsedBlocks(l, m), j.Area() + seen;
    assert j.Area() * seen == {};
    if owned <= used && |used - owned| == 0 {
      assert used - owned == {};
      assert used == owned;
    }
    if used == owned {
      assert used - owned == {};
    }
  }

  /** The allocator's invariant gives such counters, and marks metadata but in front of the first data block. */
  lemma {:induction false} ConsistentTotal(l: Layout, m: Maps)
    requires Consistent(l, m) && Tiles(l)
    ensures l.blocksPerGroup > 0 && Shaped(l, m) && m.total == |FreeBlocks(l, m)|
    ensures MetaMarked(l, m) <==> forall b: nat :: b < l.firstDataBlock ==> BitAt(m.bitmaps[0], 0, b)
  {
    hide *;
    ConsistentShaped(l, m);
    TotalIsFree(l, m);
    FrontEnough(l, m);
  }

  lemma {:induction false} TotalIsFree(l: Layout, m: Maps)
    requires Consistent(l, m) && Tiles(l)
    ensures l.blocksPerGroup > 0 && m.total == |FreeBlocks(l, m)|
  {
    hide *;
    var n := |l.groups|;
    Census(l, m, n);
    DataCount(l, n);
    EndIsStart(l, n);
    TotalIs(l, m);
    BelowAll(l, m);
    UsedInData(l, m);
    var used, data := UsedBlocks(l, m), DataBlocks(l);
    assert |data - used| + |used| == |data + used| && data + used == data;
  }

  lemma {:induction false} TotalIs(l: Layout, m: Maps)
    requires Consistent(l, m)
    ensures |m.free| == |l.groups| && m.total == Sum(m.free[..|l.groups|])
  {
    assert m.free[..|l.groups|] == m.free;
  }

  lemma {:induction false} BelowAll(l: Layout, m: Maps)
    requires l.blocksPerGroup > 0
    ensures UsedBelow(l, m, l.blocksCount) == UsedBlocks(l, m) && DataBelow(l, l.blocksCount) == DataBlocks(l)
    ensures FreeBlocks(l, m) == DataBlocks(l) - UsedBlocks(l, m)
  {
    hide Used, Layout.DataBlock;
  }

  lemma {:induction false} FrontEnough(l: Layout, m: Maps)
    requires Consistent(l, m) && Tiles(l)
    ensures |m.bitmaps| == |l.groups| > 0
    ensures MetaMarked(l, m) <==> forall b: nat :: b < l.firstDataBlock ==> BitAt(m.bitmaps[0], 0, b)
  {
    assert l.groups[0].start == 0 && DataStart(l, 0) == l.firstDataBlock;
    forall g, b: nat | 0 < g < |l.groups| && l.groups[g].start <= b < DataStart(l, g)
      ensures BitAt(m.bitmaps[g], l.groups[g].start, b)
    {
      hide *;
      GroupMarked(l, m, g, b);
    }
    hide Consistent, Tiles, DataStart, BitAt;
  }

  lemma {:induction false} GroupMarked(l: Layout, m: Maps, g: nat, b: nat)
    requires Consistent(l, m) && Tiles(l) && 0 < g < |l.groups| && l.groups[g].start <= b < DataStart(l, g)
    ensures g < |m.bitmaps| && BitAt(m.bitmaps[g], l.groups[g].start, b)
  {
    hide Clear, Sum, Layout.GroupOf, Layout.DataBlock;
    DataPart(l, m, g);
    LaterGroup(l, g);
    assert m.bitmaps[g][b - l.groups[g].start];
  }

  /** Bits that are set in addition are never noticed. */
  lemma {:induction false} LeakUnnoticed(l: Layout, m: Maps, more: Maps, j: Journal, seen: set<nat>)
    requires Shaped(l, m) && Shaped(l, more) && more.total == m.total
    requires forall g, i :: 0 <= g < |l.groups| && 0 <= i < |m.bitmaps[g]| && m.bitmaps[g][i] ==> more.bitmaps[g][i]
    requires BitsOk(l, m.bitmaps, j, seen) && CountOk(l, m, j, seen)
    ensures BitsOk(l, more.bitmaps, j, seen) && CountOk(l, more, j, seen)
  {
    hide Needed;
    forall g, b: nat | 0 <= g < |l.groups| && Needed(l, j, seen, g, b) ensures BitAt(more.bitmaps[g], l.groups[g].start, b) {
      assert BitAt(m.bitmaps[g], l.groups[g].start, b);
    }
  }

  // ----- repair

  /** The bitmap of a group with everything marked that is needed. */
  function Repaired(l: Layout, row: seq<bool>, j: Journal, seen: set<nat>, g: nat): (r: seq<bool>)
    requires g < |l.groups|
    ensures |r| == |row|
  {
    seq(|row|, i requires 0 <= i < |row| => row[i] || Needed(l, j, seen, g, l.groups[g].start + i))
  }

  function RepairedAll(l: Layout, bitmaps: seq<seq<bool>>, j: Journal, seen: set<nat>): (r: seq<seq<bool>>)
    requires |bitmaps| == |l.groups|
    ensures |r| == |bitmaps|
  {
    seq(|bitmaps|, g requires 0 <= g < |bitmaps| => Repaired(l, bitmaps[g], j, seen, g))
  }

  /** Repair makes the bitmaps pass, and changes them only when they did not. */
  lemma {:induction false} RepairPasses(l: Layout, bitmaps: seq<seq<bool>>, j: Journal, seen: set<nat>)
    requires |bitmaps| == |l.groups| && forall g :: 0 <= g < |bitmaps| ==> |bitmaps[g]| == l.groups[g].blocks
    ensures var after := RepairedAll(l, bitmaps, j, seen);
            && BitsOk(l, after, j, seen) && RepairedAll(l, after, j, seen) == after
            && (after == bitmaps <==> BitsOk(l, bitmaps, j, seen))
  {
    var after := RepairedAll(l, bitmaps, j, seen);
    forall g | 0 <= g < |bitmaps| ensures Repaired(l, after[g], j, seen, g) == after[g] {
    }
    if after == bitmaps {
      forall g, b: nat | 0 <= g < |l.groups| && Needed(l, j, seen, g, b) ensures BitAt(bitmaps[g], l.groups[g].start, b) {
        assert after[g][b - l.groups[g].start];
      }
    }
    if BitsOk(l, bitmaps, j, seen) {
      forall g | 0 <= g < |bitmaps| ensures Repaired(l, bitmaps[g], j, seen, g) == bitmaps[g] {
        forall i | 0 <= i < |bitmaps[g]| && Needed(l, j, seen, g, l.groups[g].start + i) ensures bitmaps[g][i] {
          assert BitAt(bitmaps[g], l.groups[g].start, l.groups[g].start + i);
        }
      }
    }
  }

  /** More bits set means fewer clear ones. */
  lemma {:induction false} ClearShrinks(row: seq<bool>, more: seq<bool>, from: nat)
    requires |more| == |row| && forall i :: 0 <= i < |row| && row[i] ==> more[i]
    ensures Clear(more, from) <= Clear(row, from)
    ensures Clear(more, from) == Clear(row, from) <==> forall i :: from <= i < |row| ==> more[i] == row[i]
  {
    if |row| > from {
      ClearShrinks(row[..|row| - 1], more[..|row| - 1], from);
    }
  }

  /** Bitmaps with more bits set fit the same counters exactly when no bit that can be handed out was added. */
  lemma {:induction false} MoreBits(l: Layout, m: Maps, after: seq<seq<bool>>)
    requires Consistent(l, m) && |after| == |m.bitmaps|
    requires forall g :: 0 <= g < |after| ==>
               |after[g]| == |m.bitmaps[g]| && forall i :: 0 <= i < |after[g]| && m.bitmaps[g][i] ==> after[g][i]
    ensures Consistent(l, m.(bitmaps := after))
            <==> forall g, i :: 0 <= g < |l.groups| && FirstBit(l, g) <= i < |after[g]| ==> after[g][i] == m.bitmaps[g][i]
  {
    forall g | 0 <= g < |l.groups|
      ensures Clear(after[g], FirstBit(l, g)) == m.free[g]
              <==> forall i :: FirstBit(l, g) <= i < |after[g]| ==> after[g][i] == m.bitmaps[g][i]
    {
      ClearShrinks(m.bitmaps[g], after[g], FirstBit(l, g));
    }
    hide Clear, Sum, FirstBit, Layout.DataBlock, Layout.Wf;
  }

  /** Repair of the bitmaps does not touch the counters of the groups. So the allocator can take over what it leaves
      exactly when no data block was missing from the bitmaps. */
  lemma {:induction false} RepairConsistentExactly(l: Layout, m: Maps, j: Journal, seen: set<nat>)
    requires Consistent(l, m) && Tiles(l)
    requires forall b :: b in j.Area() + seen ==> l.DataBlock(b)
    ensures Consistent(l, m.(bitmaps := RepairedAll(l, m.bitmaps, j, seen)))
            <==> j.Area() + seen + {l.firstDataBlock} <= UsedBlocks(l, m)
  {
    hide *;
    ConsistentShaped(l, m);
    OnlyMore(l, m, j, seen);
    var after := RepairedAll(l, m.bitmaps, j, seen);
    MoreBits(l, m, after);
    if Consistent(l, m.(bitmaps := after)) {
      forall b | b in j.Area() + seen + {l.firstDataBlock} ensures b in UsedBlocks(l, m) {
        UnchangedUsed(l, m, j, seen, b);
      }
    }
    if j.Area() + seen + {l.firstDataBlock} <= UsedBlocks(l, m) {
      forall g, i | 0 <= g < |l.groups| && FirstBit(l, g) <= i < |after[g]| ensures after[g][i] == m.bitmaps[g][i] {
        UsedUnchanged(l, m, j, seen, g, i);
      }
    }
  }

  /** Repair sets bits only. */
  lemma {:induction false} OnlyMore(l: Layout, m: Maps, j: Journal, seen: set<nat>)
    requires Shaped(l, m)
    ensures |m.bitmaps| == |l.groups|
    ensures var after := RepairedAll(l, m.bitmaps, j, seen);
            forall g :: 0 <= g < |after| ==>
              && after[g] == Repaired(l, m.bitmaps[g], j, seen, g) && |after[g]| == |m.bitmaps[g]| == l.groups[g].blocks
              && forall i :: 0 <= i < |after[g]| && m.bitmaps[g][i] ==> after[g][i]
  {
    hide Needed;
  }

  lemma {:induction false} UnchangedUsed(l: Layout, m: Maps, j: Journal, seen: set<nat>, b: nat)
    requires Consistent(l, m) && Tiles(l)
    requires b in j.Area() + seen + {l.firstDataBlock} && (b != l.firstDataBlock ==> l.DataBlock(b))
    requires var after := RepairedAll(l, m.bitmaps, j, seen);
             forall g, i :: 0 <= g < |l.groups| && FirstBit(l, g) <= i < |after[g]| ==> after[g][i] == m.bitmaps[g][i]
    ensures b in UsedBlocks(l, m)
  {
    hide Clear, Sum;
    var g := if b == l.firstDataBlock then 0 else l.GroupOf(b);
    assert Needed(l, j, seen, g, b);
    assert l.groups[0].start == 0;
    hide Layout.GroupOf;
    BlockUse(l, m, g, b);
    DataPart(l, m, g);
    var after := RepairedAll(l, m.bitmaps, j, seen);
    assert after[g][b - l.groups[g].start];
  }

  lemma {:induction false} UsedUnchanged(l: Layout, m: Maps, j: Journal, seen: set<nat>, g: nat, i: nat)
    requires Consistent(l, m) && Tiles(l) && g < |l.groups| && FirstBit(l, g) <= i < |m.bitmaps[g]|
    requires j.Area() + seen + {l.firstDataBlock} <= UsedBlocks(l, m)
    ensures Repaired(l, m.bitmaps[g], j, seen, g)[i] == m.bitmaps[g][i]
  {
    hide Clear, Sum, Layout.GroupOf;
    assert l.groups[0].start == 0;
    var b := l.groups[g].start + i;
    if Needed(l, j, seen, g, b) {
      BlockUse(l, m, g, b);
      DataPart(l, m, g);
      if b in j.Area() + seen + {l.firstDataBlock} {
        assert Used(l, m, b);
      }
    }
  }

  // ----- inode bitmaps

  /** Has bit `i` of an inode bitmap to be set, whose first inode is `base`? */
  predicate InodeNeeded(inodes: seq<bool>, per: nat, base: nat, i: nat) {
    i < per && base + i < |inodes| && inodes[base + i]
  }

  /** An inode bitmap with everything marked that is needed. */
  function InodeRepaired(row: seq<bool>, inodes: seq<bool>, per: nat, base: nat): (r: seq<bool>)
    ensures |r| == |row|
  {
    seq(|row|, i requires 0 <= i < |row| => row[i] || InodeNeeded(inodes, per, base, i))
  }

  function InodesRepaired(rows: seq<seq<bool>>, inodes: seq<bool>, per: nat): (r: seq<seq<bool>>)
    ensures |r| == |rows|
  {
    seq(|rows|, g requires 0 <= g < |rows| => InodeRepaired(rows[g], inodes, per, g * per))
  }

  /** Every inode in use has its bit set. */
  ghost predicate InodesOk(rows: seq<seq<bool>>, inodes: seq<bool>, per: nat) {
    forall g :: 0 <= g < |rows| ==> RowOk(rows[g], inodes, per, g * per)
  }

  ghost predicate RowOk(row: seq<bool>, inodes: seq<bool>, per: nat, base: nat) {
    forall i :: 0 <= i < |row| && InodeNeeded(inodes, per, base, i) ==> row[i]
  }

  /** Repair makes inode bitmaps pass, and changes only those that did not. */
  lemma {:induction false} InodesRepairPasses(rows: seq<seq<bool>>, inodes: seq<bool>, per: nat)
    ensures var after := InodesRepaired(rows, inodes, per);
            InodesOk(after, inodes, per) && (after == rows <==> InodesOk(rows, inodes, per))
  {
    hide InodeNeeded;
    var after := InodesRepaired(rows, inodes, per);
    forall g | 0 <= g < |rows|
      ensures RowOk(after[g], inodes, per, g * per) && (after[g] == rows[g] <==> RowOk(rows[g], inodes, per, g * per))
    {
      RowRepair(rows[g], inodes, per, g * per);
    }
  }

  lemma {:induction false} RowRepair(row: seq<bool>, inodes: seq<bool>, per: nat, base: nat)
    ensures var after := InodeRepaired(row, inodes, per, base);
            RowOk(after, inodes, per, base) && (after == row <==> RowOk(row, inodes, per, base))
  {
    hide InodeNeeded;
    var after := InodeRepaired(row, inodes, per, base);
    if after == row {
      forall i | 0 <= i < |row| && InodeNeeded(inodes, per, base, i) ensures row[i] {
        assert after[i];
      }
    }
  }

  /** What repair makes of each group. */
  lemma {:induction false} RepairedAt(l: Layout, bitmaps: seq<seq<bool>>, j: Journal, seen: set<nat>,
                                      rows: seq<seq<bool>>,
                                      inodes: seq<bool>, per: nat)
    requires |bitmaps| == |l.groups|
    ensures forall g :: 0 <= g < |bitmaps| ==>
              RepairedAll(l, bitmaps, j, seen)[g] == Repaired(l, bitmaps[g], j, seen, g)
    ensures forall g :: 0 <= g < |rows| ==>
              InodesRepaired(rows, inodes, per)[g] == InodeRepaired(rows[g], inodes, per, g * per)
  {
    hide Repaired, InodeRepaired;
  }
}
