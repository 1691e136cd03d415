/** The checker (tools/cryextsck.c). */
module Fsck {
  import opened Bytes
  import opened Allocator
  import opened ExtentSpec
  import opened InodeSpec
  import opened FsckSpec
  import opened FsckOwners
  import InodeDisk
  import Mkfs

  class Checker {
    const l: Layout
    const src: Source
    const inodesPerGroup: nat
    /** One mark for each block of the device. */
    const marks: array<bool>
    /** One mark for each inode. */
    const inodes: array<bool>

    ghost predicate Valid()
      reads this
    {
      l.Wf() && marks.Length == l.blocksCount && marks != inodes
    }

    /** The blocks that have an owner. */
    ghost function Seen(): set<nat>
      reads this, marks
    {
      set b: nat | b < marks.Length && marks[b]
    }

    constructor (l: Layout, src: Source, inodeCount: nat, inodesPerGroup: nat)
      requires l.Wf()
      ensures Valid() && this.l == l && this.src == src && this.inodesPerGroup == inodesPerGroup
      ensures fresh(marks) && fresh(inodes) && inodes.Length == inodeCount && Seen() == {}
      ensures forall i :: 0 <= i < inodeCount ==> !inodes[i]
    {
      this.l, this.src, this.inodesPerGroup := l, src, inodesPerGroup;
      marks := new bool[l.blocksCount](i => false);
      inodes := new bool[inodeCount](i => false);
    }

    lemma {:induction false} Grouped()
      requires Valid()
      ensures l.blocksPerGroup > 0
    {
    }

    /** Mark one block. One that has an owner stays marked. */
    method MarkBlock(block: nat) returns (ok: bool)
      requires Valid()
      modifies marks
      ensures old(Seen()) <= Seen()
      ensures ok <==> l.DataBlock(block) && block !in old(Seen())
      ensures ok ==> Seen() == old(Seen()) + {block}
    {
      hide Layout.DataBlock;
      if !l.DataBlock(block) {
        return false;
      }
      InDevice(l, block);
      ok := !marks[block];
      assert !ok <==> block in old(Seen());
      marks[block] := true;
      assert Seen() == old(Seen()) + {block};
    }

    /** Mark the blocks of one extent, up to one that is no data block or has an owner. */
    method MarkRun(physical: nat, length: nat) returns (ok: bool)
      requires Valid()
      modifies marks
      ensures old(Seen()) <= Seen()
      ensures ok <==> Range(physical, physical + length) !! old(Seen()) && AllData(l, Range(physical, physical + length))
      ensures ok ==> Seen() == old(Seen()) + Range(physical, physical + length)
    {
      hide Layout.DataBlock, Seen;
      for i := 0 to length
        invariant Seen() == old(Seen()) + Range(physical, physical + i)
        invariant Range(physical, physical + i) !! old(Seen()) && AllData(l, Range(physical, physical + i))
      {
        var block := physical + i;
        assert Within(block, physical, physical + length) && block in Range(physical, physical + length);
        assert Range(physical, physical + i + 1) == Range(physical, physical + i) + {block};
        assert block !in Range(physical, physical + i);
        var free := MarkBlock(block);
        if !free {
          return false;
        }
      }
      ok := true;
    }

    /** The extents of one leaf. */
    method CheckExtents(es: seq<Extent>, from: nat) returns (ok: bool, next: nat)
      requires Valid()
      modifies marks
      ensures old(Seen()) <= Seen()
      ensures ok <==> ArrayOk(l, es, from, old(Seen()))
      ensures ok ==> Seen() == old(Seen()) + Blocks(es) && next == if es == [] then from else Behind(es)
    {
      hide *;
      Grouped();
      next := from;
      NoBlocks(es);
      for i := 0 to |es|
        invariant old(Seen()) <= Seen() && Seen() == old(Seen()) + Blocks(es[..i])
        invariant ArrayOk(l, es, from, old(Seen())) <==> ArrayOk(l, es[i..], next, Seen())
        invariant next == if i == 0 then from else es[i - 1].End()
      {
        var e := es[i];
        ArrayStep(l, es[i..], next, Seen());
        assert es[i..][1..] == es[i + 1..] && es[i..][0] == e;
        BlocksNext(es, i);
        ExtentRun(e);
        if e.length == 0 || e.length > MAX_LENGTH {
          return false, next;
        }
        if e.logical < next || e.logical + e.length >= LIMIT64 {
          return false, next;
        }
        var free := MarkRun(e.physical, e.length);
        if !free {
          return false, next;
        }
        next := e.logical + e.length;
      }
      assert es[..|es|] == es && es[|es|..] == [];
      NoArray(l, next, Seen());
      BehindIs(es);
      ok := true;
    }

    /** The blocks an inode names one by one; all of them are looked at. */
    method CheckSingles(bs: seq<nat>) returns (ok: bool)
      requires Valid()
      modifies marks
      ensures old(Seen()) <= Seen()
      ensures ok <==> SinglesOk(l, bs, old(Seen()))
      ensures ok ==> Seen() == old(Seen()) + Elements(bs)
    {
      hide Layout.DataBlock;
      ok := true;
      assert bs[..0] == [];
      for i := 0 to |bs|
        invariant old(Seen()) <= Seen()
        invariant ok <==> SinglesOk(l, bs[..i], old(Seen()))
        invariant ok ==> Seen() == old(Seen()) + Elements(bs[..i])
      {
        SinglesNext(l, bs, i, old(Seen()));
        var free := MarkBlock(bs[i]);
        hide SinglesOk, Elements;
        ok := ok && free;
      }
      assert bs[..|bs|] == bs;
    }

    /** One leaf: its own block, then its header and its extents. A leaf with a bad header is not looked into. */
    method CheckLeaf(r: Ref, from: nat) returns (ok: bool, next: nat, blocks: nat)
      requires Valid() && r.block != 0 && 0 < r.entries <= PER_LEAF
      modifies marks
      ensures old(Seen()) <= Seen()
      ensures ok <==> LeafPasses(l, r, src, from, old(Seen()))
      ensures ok ==> LeafOk(r, src.disk, src.checksum)
      ensures ok ==> var es := ReadExtents(src.disk[r.block], r.entries);
                     && Seen() == old(Seen()) + {r.block} + Blocks(es)
                     && next == Behind(es) && blocks == 1 + TotalLength(es)
    {
      hide ArrayOk, Blocks, Layout.DataBlock, FsckOwners.Behind, Value, TotalLength, Seen;
      ok := MarkBlock(r.block);
      next, blocks := from, 1;
      if r.block !in src.disk {
        return false, next, blocks;
      }
      var b := src.disk[r.block];
      if Value(b[..2]) != EXTENT_MAGIC || Value(b[4..6]) != PER_LEAF || Value(b[2..4]) != r.entries
         || r.checksum != src.checksum(r.block, b) {
        return false, next, blocks;
      }
      var es := ReadExtents(b, r.entries);
      assert |es| == r.entries;
      var good: bool;
      good, next := CheckExtents(es, from);
      ok, blocks := ok && good, 1 + TotalLength(es);
    }

    /** The tree of an inode. A bad reference ends the check; after any other error the other leaves are still looked
        at. */
    method CheckTree(x: TreeInode) returns (ok: bool)
      requires Valid()
      modifies marks
      ensures old(Seen()) <= Seen()
      ensures ok <==> TreeInodeOk(l, x, src, old(Seen()))
      ensures ok ==> Seen() == old(Seen()) + Owned(src.Leaves(x.area).value)
    {
      hide Seen, Layout.DataBlock, RefAt, LeafPasses, Loaded, Progress, Value, Owned, Blocks, TotalLength;
      hide FsckOwners.Behind, ReadExtents;
      ghost var seen := Seen();
      var count := Value(x.area[2..4]);
      if Value(x.area[..2]) != EXTENT_MAGIC || Value(x.area[4..6]) != ROOT_REFS || count > ROOT_REFS
         || Value(x.area[6..8]) != DEPTH {
        return false;
      }
      ok := true;
      var next: nat, blocks: nat, i: nat := 0, 0, 0;
      StartLoading(l, x.area, src, seen);
      while i < count
        invariant i <= count && seen <= Seen()
        invariant Progress(l, x.area, i, src, seen, ok, next, blocks)
        invariant ok ==> Loaded(x.area, i, src).Some? && Seen() == seen + Owned(Loaded(x.area, i, src).value)
      {
        var r := RefAt(x.area, i);
        if r.block == 0 || r.entries == 0 || r.entries > PER_LEAF {
          BadReference(l, x, i, count, src, seen);
          return false;
        }
        var good, after, more := CheckLeaf(r, next);
        Advance(l, x.area, i, src, seen, ok, next, blocks, good, after, more);
        hide *;
        ok, next, blocks, i := ok && good, after, blocks + more, i + 1;
      }
      LoadedAll(l, x, count, src, seen);
      ProgressEnd(l, x, count, src, seen, ok, next, blocks);
      if x.size > FILE_BLOCKS_MAX * BLOCK_SIZE || next > InodeDisk.SizeBlocks(x.size) || (x.size == 0 && blocks != 0)
         || x.sectors != blocks * InodeDisk.SECTORS {
        ok := false;
      }
    }

    /** One inode. */
    method CheckInode(x: Inode) returns (ok: bool)
      requires Valid()
      modifies marks
      ensures old(Seen()) <= Seen()
      ensures ok <==> InodeOk(l, x, src, old(Seen()))
      ensures ok ==> Seen() == old(Seen()) + InodeOwned(x, src)
    {
      hide SinglesOk, TreeInodeOk, Elements, Owned, Source.Leaves;
      if x.Unused? {
        return true;
      }
      ok := CheckSingles(x.single);
      if x.tree.Some? {
        var good := CheckTree(x.tree.value);
        TreeLoads(l, x.tree.value, src, old(Seen()) + Elements(x.single));
        ok := ok && good;
      }
    }

    /** One inode of the table. It is marked when it is in use, whether it passes or not. */
    method CheckNumber(x: Inode, i: nat) returns (ok: bool)
      requires Valid() && i < inodes.Length
      modifies marks, inodes
      ensures old(Seen()) <= Seen()
      ensures ok <==> InodeOk(l, x, src, old(Seen())) && (i == 0 ==> x.InUse?)
      ensures ok ==> Seen() == old(Seen()) + InodeOwned(x, src)
      ensures inodes[..] == if x.InUse? then old(inodes[..])[i := true] else old(inodes[..])
    {
      hide InodeOk, InodeOwned, Seen, Layout.Wf;
      if i == 0 && x.Unused? {
        return false;
      }
      ok := CheckInode(x);
      label checked:
      if x.InUse? {
        inodes[i] := true;
      }
      SameMarks@checked();
    }

    /** Marks of inodes are no marks of blocks. */
    twostate lemma SameMarks()
      requires marks[..] == old(marks[..])
      ensures Seen() == old(Seen())
    {
      forall b: nat | b < marks.Length ensures marks[b] == old(marks[b]) {
        assert marks[b] == marks[..][b] && old(marks[b]) == old(marks[..])[b];
      }
    }

    /** All inodes, starting with the root: no error exactly when each passes and no block has two owners. */
    method CheckAll(xs: seq<Inode>) returns (ok: bool)
      requires Valid() && inodes.Length == |xs| && forall i :: 0 <= i < |xs| ==> !inodes[i]
      modifies marks, inodes
      ensures ok <==> OwnersOk(l, xs, src, old(Seen()))
      ensures ok ==> Seen() == old(Seen()) + OwnedByAll(xs, src)
      ensures inodes[..] == InUseMarks(xs)
    {
      hide OwnersOk, OwnedByAll, InodeOk, InodeOwned, Seen;
      ok := true;
      NoOwners(l, src, Seen());
      for i := 0 to |xs|
        invariant ok <==> OwnersOk(l, xs[..i], src, old(Seen()))
        invariant ok ==> Seen() == old(Seen()) + OwnedByAll(xs[..i], src)
        invariant forall k :: 0 <= k < |xs| ==> inodes[..][k] == (k < i && xs[k].InUse?)
      {
        OwnersStep(l, xs, i, src, old(Seen()));
        var good := CheckNumber(xs[i], i);
        ok := ok && good;
      }
      assert xs[..|xs|] == xs;
    }

    // ----- counts

    /** Metadata and journal blocks. */
    method ReservedBlocks(j: Journal) returns (total: int)
      ensures total == Reserved(l, j, |l.groups|)
    {
      total := 0;
      for g := 0 to |l.groups|
        invariant total == Reserved(l, j, g)
      {
        var start := l.groups[g].start;
        var end := start + l.groups[g].blocks;
        total := total + ((if g == 0 then l.firstDataBlock else l.groups[g].tableEnd) - start);
        if j.blocks != 0 {
          var from := if j.start > start then j.start else start;
          var to := if j.End() < end then j.End() else end;
          if to > from {
            total := total + (to - from);
          }
        }
      }
    }

    /** The marks in front of block `n`. */
    ghost function SeenBelow(n: nat): set<nat>
      requires n <= marks.Length
      reads marks
    {
      set b: nat | b < n && marks[b]
    }

    /** The marked inodes in front of inode `n`. */
    ghost function InodesBelow(n: nat): set<nat>
      requires n <= inodes.Length
      reads inodes
    {
      set i: nat | i < n && inodes[i]
    }

    /** Count the inodes in use. */
    method UsedInodes() returns (used: nat)
      ensures used == |InodesBelow(inodes.Length)|
    {
      used := 0;
      assert InodesBelow(0) == {};
      for i := 0 to inodes.Length
        invariant used == |InodesBelow(i)|
      {
        assert InodesBelow(i + 1) == InodesBelow(i) + if inodes[i] then {i} else {};
        if inodes[i] {
          used := used + 1;
        }
      }
    }

    /** Count the blocks that have an owner. */
    method UsedBlocks() returns (used: nat)
      requires Valid()
      ensures used == |Seen()|
    {
      used := 0;
      assert SeenBelow(0) == {};
      for b := 0 to l.blocksCount
        invariant used == |SeenBelow(b)|
      {
        assert SeenBelow(b + 1) == SeenBelow(b) + if marks[b] then {b} else {};
        if marks[b] {
          used := used + 1;
        }
      }
      assert SeenBelow(l.blocksCount) == Seen();
    }

    /** Are the free counters of the superblock those that the marks give? */
    method CheckCounts(j: Journal, freeBlocks: nat, freeInodes: nat) returns (ok: bool)
      requires Valid()
      ensures ok <==> && freeBlocks == l.blocksCount - (Reserved(l, j, |l.groups|) + |Seen()|)
                      && freeInodes == inodes.Length - |InodesBelow(inodes.Length)|
    {
      hide *;
      var usedInodes := UsedInodes();
      var reserved := ReservedBlocks(j);
      var usedBlocks := UsedBlocks();
      ok := freeInodes == inodes.Length - usedInodes && freeBlocks == l.blocksCount - (reserved + usedBlocks);
    }

    // ----- bitmaps

    /** Mark the blocks from `lo` up to `hi` in the bitmap of a group. */
    method MarkRange(row: seq<bool>, start: nat, lo: nat, hi: nat) returns (after: seq<bool>, dirty: bool)
      requires start <= lo && (lo < hi ==> hi <= start + |row|)
      ensures |after| == |row| && forall i :: 0 <= i < |row| ==> after[i] == (row[i] || lo <= start + i < hi)
      ensures dirty <==> after != row
    {
      after, dirty := row, false;
      var block := lo;
      while block < hi
        invariant lo <= block && (if lo < hi then block <= hi else block == lo)
        invariant |after| == |row| && forall i :: 0 <= i < |row| ==> after[i] == (row[i] || lo <= start + i < block)
        invariant dirty <==> after != row
      {
        if !after[block - start] {
          assert !row[block - start];
          after, dirty := after[block - start := true], true;
          assert after[block - start] != row[block - start];
        }
        block := block + 1;
      }
    }

    /** Mark the owned blocks in the bitmap of a group. */
    method MarkSeen(row: seq<bool>, start: nat) returns (after: seq<bool>, dirty: bool)
      requires start + |row| <= marks.Length
      ensures |after| == |row| && forall i :: 0 <= i < |row| ==> after[i] == (row[i] || marks[start + i])
      ensures dirty <==> after != row
    {
      after, dirty := row, false;
      for i := 0 to |row|
        invariant |after| == |row| && forall k :: 0 <= k < |row| ==> after[k] == (row[k] || (k < i && marks[start + k]))
        invariant dirty <==> after != row
      {
        if marks[start + i] && !after[i] {
          assert !row[i];
          after, dirty := after[i := true], true;
          assert after[i] != row[i];
        }
      }
    }

    /** Mark everything that is needed in the bitmap of one group: metadata, journal, owned blocks. */
    method RepairGroup(row: seq<bool>, j: Journal, g: nat) returns (after: seq<bool>, dirty: bool)
      requires Valid() && Tiles(l) && g < |l.groups| && |row| == l.groups[g].blocks
      ensures after == Repaired(l, row, j, Seen(), g) && (dirty <==> after != row)
    {
      var start := l.groups[g].start;
      var end := start + |row|;
      var first, d1 := MarkRange(row, start, start, if g == 0 then l.firstDataBlock + 1 else l.groups[g].tableEnd);
      var from := if j.start > start then j.start else start;
      var to := if j.End() < end then j.End() else end;
      var second, d2 := MarkRange(first, start, from, to);
      var d3: bool;
      after, d3 := MarkSeen(second, start);
      dirty := d1 || d2 || d3;
      forall i | 0 <= i < |row| ensures after[i] == (row[i] || Needed(l, j, Seen(), g, start + i)) {
        assert marks[start + i] <==> start + i in Seen();
      }
      if after == row {
        forall i | 0 <= i < |row| ensures first[i] == row[i] && second[i] == first[i] {
        }
        assert first == row && second == first;
      }
    }

    /** Mark the inodes in use in the bitmap of a group. */
    method RepairInodeRow(row: seq<bool>, group: nat) returns (after: seq<bool>, dirty: bool)
      requires |row| >= inodesPerGroup
      ensures after == InodeRepaired(row, inodes[..], inodesPerGroup, group * inodesPerGroup)
      ensures (dirty <==> after != row)
    {
      var base := group * inodesPerGroup;
      after, dirty := row, false;
      var ino := 0;
      while ino < inodesPerGroup && base + ino < inodes.Length
        invariant 0 <= ino <= inodesPerGroup && |after| == |row|
        invariant forall k :: 0 <= k < |row| ==>
                    after[k] == (row[k] || (k < ino && InodeNeeded(inodes[..], inodesPerGroup, base, k)))
        invariant dirty <==> after != row
      {
        assert InodeNeeded(inodes[..], inodesPerGroup, base, ino) <==> inodes[base + ino];
        if inodes[base + ino] && !after[ino] {
          assert !row[ino];
          after, dirty := after[ino := true], true;
          assert after[ino] != row[ino];
        }
        ino := ino + 1;
      }
    }

    /** One group. */
    method RepairBoth(bitmaps: array<seq<bool>>, inodeBitmaps: array<seq<bool>>, j: Journal, repair: bool, g: nat)
      returns (dirty: bool)
      requires Valid() && Tiles(l) && bitmaps != inodeBitmaps && g < bitmaps.Length == inodeBitmaps.Length == |l.groups|
      requires |bitmaps[g]| == l.groups[g].blocks && |inodeBitmaps[g]| >= inodesPerGroup
      modifies bitmaps, inodeBitmaps
      ensures var row, irow := Repaired(l, old(bitmaps[g]), j, Seen(), g),
                               InodeRepaired(old(inodeBitmaps[g]), inodes[..], inodesPerGroup, g * inodesPerGroup);
              && (dirty <==> row != old(bitmaps[g]) || irow != old(inodeBitmaps[g]))
              && bitmaps[..] == (if repair then old(bitmaps[..])[g := row] else old(bitmaps[..]))
              && inodeBitmaps[..] == (if repair then old(inodeBitmaps[..])[g := irow] else old(inodeBitmaps[..]))
    {
      hide Repaired, InodeRepaired, Tiles, Layout.Wf;
      var row, changed := RepairGroup(bitmaps[g], j, g);
      var irow, ichanged := RepairInodeRow(inodeBitmaps[g], g);
      dirty := changed || ichanged;
      if dirty && repair {
        bitmaps[g], inodeBitmaps[g] := row, irow;
      }
      assert Seen() == old(Seen());
    }

    /** Compare both bitmaps of every group with what is needed, and with `repair` mark what is missing. */
    method RepairBitmaps(bitmaps: array<seq<bool>>, inodeBitmaps: array<seq<bool>>, j: Journal, repair: bool)
      returns (ok: bool)
      requires Valid() && Tiles(l) && bitmaps != inodeBitmaps && bitmaps.Length == inodeBitmaps.Length == |l.groups|
      requires forall g :: 0 <= g < bitmaps.Length ==>
                 |bitmaps[g]| == l.groups[g].blocks && |inodeBitmaps[g]| >= inodesPerGroup
      modifies bitmaps, inodeBitmaps
      ensures bitmaps[..] == if repair then RepairedAll(l, old(bitmaps[..]), j, Seen()) else old(bitmaps[..])
      ensures inodeBitmaps[..] == if repair then InodesRepaired(old(inodeBitmaps[..]), inodes[..], inodesPerGroup)
              else old(inodeBitmaps[..])
      ensures ok <==> repair || (BitsOk(l, old(bitmaps[..]), j, Seen())
                                 && InodesOk(old(inodeBitmaps[..]), inodes[..], inodesPerGroup))
    {
      ghost var was, rows := bitmaps[..], inodeBitmaps[..];
      ghost var after, irows := RepairedAll(l, was, j, Seen()), InodesRepaired(rows, inodes[..], inodesPerGroup);
      RepairPasses(l, was, j, Seen());
      InodesRepairPasses(rows, inodes[..], inodesPerGroup);
      ok := RepairGroups(bitmaps, inodeBitmaps, j, repair, was, rows, after, irows);
    }

    method RepairGroups(bitmaps: array<seq<bool>>, inodeBitmaps: array<seq<bool>>, j: Journal, repair: bool,
                        ghost was: seq<seq<bool>>, ghost rows: seq<seq<bool>>, ghost after: seq<seq<bool>>,
                          ghost irows: seq<seq<bool>>)
      returns (ok: bool)
      requires Valid() && Tiles(l) && bitmaps != inodeBitmaps && bitmaps.Length == inodeBitmaps.Length == |l.groups|
      requires bitmaps[..] == was && inodeBitmaps[..] == rows
      requires forall g :: 0 <= g < |was| ==> |was[g]| == l.groups[g].blocks && |rows[g]| >= inodesPerGroup
      requires after == RepairedAll(l, was, j, Seen()) && irows == InodesRepaired(rows, inodes[..], inodesPerGroup)
      modifies bitmaps, inodeBitmaps
      ensures bitmaps[..] == (if repair then after else was) && inodeBitmaps[..] == (if repair then irows else rows)
      ensures ok <==> repair || (after == was && irows == rows)
    {
      ghost var seen, used := Seen(), inodes[..];
      RepairedAt(l, was, j, seen, rows, used, inodesPerGroup);
      hide Repaired, RepairedAll, InodeRepaired, InodesRepaired, Tiles, Seen, Layout.Wf;
      var dirty := false;
      for g := 0 to bitmaps.Length
        invariant bitmaps[..] == if repair then after[..g] + was[g..] else was
        invariant inodeBitmaps[..] == if repair then irows[..g] + rows[g..] else rows
        invariant dirty <==> after[..g] != was[..g] || irows[..g] != rows[..g]
        invariant inodes[..] == used && Seen() == seen
      {
        assert bitmaps[g] == bitmaps[..][g] == was[g] && inodeBitmaps[g] == inodeBitmaps[..][g] == rows[g];
        var changed := RepairBoth(bitmaps, inodeBitmaps, j, repair, g);
        Mixed(after, was, g);
        Mixed(irows, rows, g);
        dirty := dirty || changed;
      }
      assert after[..|was|] == after && irows[..|was|] == irows && was[..|was|] == was && rows[..|was|] == rows;
      ok := repair || !dirty;
    }

    /** The whole check of one device, without repair. */
    method Run(xs: seq<Inode>, bitmaps: array<seq<bool>>, inodeBitmaps: array<seq<bool>>, j: Journal, freeBlocks: nat,
               freeInodes: nat)
      returns (clean: bool)
      requires Valid() && Tiles(l) && inodes.Length == |xs| && forall i :: 0 <= i < |xs| ==> !inodes[i]
      requires bitmaps != inodeBitmaps && bitmaps.Length == inodeBitmaps.Length == |l.groups|
      requires forall g :: 0 <= g < bitmaps.Length ==>
                 |bitmaps[g]| == l.groups[g].blocks && |inodeBitmaps[g]| >= inodesPerGroup
      modifies marks, inodes, bitmaps, inodeBitmaps
      ensures bitmaps[..] == old(bitmaps[..]) && inodeBitmaps[..] == old(inodeBitmaps[..])
      ensures var seen := old(Seen()) + OwnedByAll(xs, src);
              clean <==> && OwnersOk(l, xs, src, old(Seen())) && BitsOk(l, old(bitmaps[..]), j, seen)
                         && InodesOk(old(inodeBitmaps[..]), InUseMarks(xs), inodesPerGroup)
                         && freeBlocks == l.blocksCount - (Reserved(l, j, |l.groups|) + |seen|)
                         && freeInodes == |xs| - InUseCount(xs)
    {
      hide OwnersOk, OwnedByAll, BitsOk, InodesOk, Reserved, Tiles, Seen;
      ghost var was, rows, before := bitmaps[..], inodeBitmaps[..], Seen();
      var owners := CheckAll(xs);
      CountOfMarks(xs, inodes[..]);
      assert InodesBelow(inodes.Length) == set i: nat | i < |xs| && InUseMarks(xs)[i];
      var counted := CheckCounts(j, freeBlocks, freeInodes);
      if !counted {
        return false;
      }
      var marked := RepairBitmaps(bitmaps, inodeBitmaps, j, false);
      clean := owners && marked;
    }
  }

  /** One element more of `a` and one less of `b`. */
  lemma {:induction false} Mixed<T>(a: seq<T>, b: seq<T>, g: nat)
    requires g < |a| == |b|
    ensures (a[..g] + b[g..])[g := a[g]] == a[..g + 1] + b[g + 1..]
    ensures a[..g + 1] == b[..g + 1] <==> a[..g] == b[..g] && a[g] == b[g]
  {
    assert a[..g + 1] == a[..g] + [a[g]] && b[..g + 1] == b[..g] + [b[g]];
  }

  lemma {:induction false} NoBlocks(es: seq<Extent>)
    ensures Blocks(es[..0]) == {} && es[0..] == es
  {
  }

  lemma {:induction false} NoArray(l: Layout, next: nat, seen: set<nat>)
    requires l.blocksPerGroup > 0
    ensures ArrayOk(l, [], next, seen)
  {
  }

  lemma {:induction false} BehindIs(es: seq<Extent>)
    ensures es != [] ==> Behind(es) == es[|es| - 1].End()
  {
  }

  lemma {:induction false} ExtentRun(e: Extent)
    ensures e.End() == e.logical + e.length && e.Blocks() == Range(e.physical, e.physical + e.length)
  {
  }

  lemma {:induction false} InDevice(l: Layout, b: nat)
    requires l.blocksPerGroup > 0 && l.DataBlock(b)
    ensures b < l.blocksCount
  {
  }

  lemma {:induction false} BlocksNext(es: seq<Extent>, i: nat)
    requires i < |es|
    ensures Blocks(es[..i + 1]) == Blocks(es[..i]) + es[i].Blocks()
  {
    assert es[..i + 1] == es[..i] + [es[i]];
    BlocksAppend(es[..i], [es[i]]);
    ResolveSingle([es[i]], 0);
  }

  // ----- what mkfs writes

  /** The journal of a new filesystem. */
  function NewJournal(p: Mkfs.Plan): Journal
    requires p.groupCount > 0 && p.JournalBlocks() <= p.blocksCount
  {
    Journal(p.blocksCount - p.JournalBlocks(), p.JournalBlocks())
  }

  /** The blocks its root directory and its policy table own. */
  function NewOwned(p: Mkfs.Plan): set<nat> {
    {p.rootDir} + if p.policy then {p.rootDir + 1} else {}
  }

  lemma {:induction false} JournalFits(p: Mkfs.Plan)
    requires p.Ok()
    ensures p.JournalBlocks() <= p.blocksCount
    ensures p.JournalBlocks() > 0 ==> p.Start(p.groupCount - 1) + Mkfs.GROUP_META <= p.blocksCount - p.JournalBlocks()
  {
    Mkfs.InnerGroup(p, p.groupCount - 1);
  }

  /** The groups tile the device as the checker wants it exactly when the last one holds its metadata. */
  lemma {:induction false} NewTiles(p: Mkfs.Plan, prealloc: bool)
    requires p.Ok()
    ensures Tiles(p.LayoutOf(prealloc)) <==> p.Tail() >= Mkfs.GROUP_META
  {
    var l, n := p.LayoutOf(prealloc), p.groupCount;
    Mkfs.LayoutIsWf(p, prealloc);
    forall i | 0 <= i < n
      ensures p.Start(i) + p.GroupBlocks(i) <= p.blocksCount
      ensures i < n - 1 ==> p.GroupBlocks(i) == p.blocksPerGroup
      ensures i == n - 1 ==> p.Start(i) + p.GroupBlocks(i) == p.blocksCount
    {
      Mkfs.InnerGroup(p, i);
    }
    hide Layout.Wf, Mkfs.Plan.Start, Mkfs.Plan.GroupBlocks;
    assert l.groups[n - 1].tableEnd == l.groups[n - 1].start + Mkfs.GROUP_META;
  }

  /** The group of a block. */
  lemma {:induction false} FindGroup(p: Mkfs.Plan, b: nat, k: nat) returns (g: nat)
    requires p.Ok() && k <= p.groupCount && b < p.Start(k) && b < p.blocksCount
    ensures g < k && p.Start(g) <= b < p.Start(g) + p.GroupBlocks(g)
    ensures g == 0 <==> b < p.blocksPerGroup
    ensures g < p.groupCount - 1 ==> b < p.Start(p.groupCount - 1)
  {
    g := k - 1;
    if b < p.Start(g) {
      g := FindGroup(p, b, g);
    } else {
      if k < p.groupCount {
        Mkfs.StartMonotone(p, k, p.groupCount - 1);
      }
      if g > 0 {
        Mkfs.StartMonotone(p, 1, g);
      }
      assert p.Start(1) == p.Start(0) + p.blocksPerGroup;
    }
  }

  /** Which bits of a new filesystem are set in its data part. */
  lemma {:induction false} NewBit(p: Mkfs.Plan, g: nat, b: nat)
    requires p.Ok() && p.Tail() >= Mkfs.GROUP_META && p.JournalBlocks() <= p.blocksCount && g < p.groupCount
    requires p.Start(g) <= b < p.Start(g) + p.GroupBlocks(g) && (g == 0 <==> b < p.blocksPerGroup)
    requires g < p.groupCount - 1 ==> b < p.Start(p.groupCount - 1)
    ensures var first := if g == 0 then p.rootDir else p.Start(g) + Mkfs.GROUP_META;
            b >= first && p.Bit(g, b - p.Start(g)) <==> b in NewJournal(p).Area() + NewOwned(p)
    ensures b < p.rootDir ==> g == 0 && p.Bit(0, b)
  {
    JournalFits(p);
    Mkfs.InnerGroup(p, p.groupCount - 1);
    var j := NewJournal(p);
    assert b in j.Area() <==> j.start <= b < j.End() by {
      assert Within(b, j.start, j.End()) <==> j.start <= b < j.End();
    }
    assert p.Start(0) == 0;
  }

  /** In a new filesystem exactly the journal, the root directory and the policy table are in use. */
  lemma {:induction false} NewUse(p: Mkfs.Plan, prealloc: bool, m: Maps, b: nat)
    requires p.Ok() && p.Tail() >= Mkfs.GROUP_META && p.JournalBlocks() <= p.blocksCount && b < p.blocksCount
    requires m.bitmaps == p.Bitmaps(p.groupCount) && Shaped(p.LayoutOf(prealloc), m) && Tiles(p.LayoutOf(prealloc))
    ensures Used(p.LayoutOf(prealloc), m, b) <==> b in NewJournal(p).Area() + NewOwned(p)
    ensures b < p.rootDir ==> BitAt(m.bitmaps[0], 0, b)
  {
    hide *;
    var l := p.LayoutOf(prealloc);
    assert p.groupCount > 0 && b < p.Start(p.groupCount) by { PlanFacts(p); }
    var g := FindGroup(p, b, p.groupCount);
    NewBit(p, g, b);
    NewGroup(p, prealloc, g);
    BlockUse(l, m, g, b);
    NewRow(p, m, g, b);
  }

  lemma {:induction false} PlanFacts(p: Mkfs.Plan)
    requires p.Ok()
    ensures p.groupCount > 0 && p.blocksCount <= p.Start(p.groupCount)
  {
    hide Mkfs.Plan.Start;
  }

  /** The bit of a block in the bitmap of its group. */
  lemma {:induction false} NewRow(p: Mkfs.Plan, m: Maps, g: nat, b: nat)
    requires g < p.groupCount && m.bitmaps == p.Bitmaps(p.groupCount) && p.Start(g) <= b < p.Start(g) + p.GroupBlocks(g)
    ensures BitAt(m.bitmaps[g], p.Start(g), b) <==> p.Bit(g, b - p.Start(g))
    ensures p.Start(0) == 0
  {
    Mkfs.BitmapBit(p, g, b - p.Start(g));
    assert m.bitmaps[g] == p.Bitmap(g);
    hide Mkfs.Plan.Bit, Mkfs.Plan.Bitmap, Mkfs.Plan.Bitmaps, Mkfs.Plan.GroupBlocks;
  }

  lemma {:induction false} NewGroup(p: Mkfs.Plan, prealloc: bool, g: nat)
    requires g < p.groupCount
    ensures var l := p.LayoutOf(prealloc);
            && |l.groups| == p.groupCount && l.groups[g].start == p.Start(g) && l.groups[g].blocks == p.GroupBlocks(g)
            && DataStart(l, g) == if g == 0 then p.rootDir else p.Start(g) + Mkfs.GROUP_META
  {
  }

  /** Bitmaps and counters as mkfs writes them. */
  function NewMaps(p: Mkfs.Plan): Maps
    requires p.groupCount > 0 && p.Total() >= 0
  {
    Maps(p.Bitmaps(p.groupCount), p.Frees(p.groupCount), p.Total())
  }

  /** They satisfy the allocator's invariant, and what is in use is owned. */
  lemma {:induction false} NewState(p: Mkfs.Plan, prealloc: bool)
    requires p.Ok() && p.Tail() >= Mkfs.GROUP_META
    ensures p.JournalBlocks() <= p.blocksCount && p.Total() >= 0
    ensures var l, m := p.LayoutOf(prealloc), NewMaps(p);
            && Consistent(l, m) && Tiles(l) && UsedBlocks(l, m) == NewJournal(p).Area() + NewOwned(p)
            && NewJournal(p).Area() !! NewOwned(p)
            && forall b: nat :: b < p.rootDir ==> BitAt(m.bitmaps[0], 0, b)
  {
    hide *;
    JournalFits(p);
    NewTiles(p, prealloc);
    Mkfs.FormatConsistent(p, prealloc);
    NewApart(p);
    MapsAre(p, prealloc);
    var l, m := p.LayoutOf(prealloc), NewMaps(p);
    ConsistentShaped(l, m);
    forall b: nat | b < p.blocksCount
      ensures Used(l, m, b) <==> b in NewJournal(p).Area() + NewOwned(p)
      ensures b < p.rootDir ==> BitAt(m.bitmaps[0], 0, b)
    {
      NewUse(p, prealloc, m, b);
    }
    UsedIs(l, m);
  }

  lemma {:induction false} MapsAre(p: Mkfs.Plan, prealloc: bool)
    requires p.Ok() && p.Total() >= 0
    ensures NewMaps(p) == Maps(p.Bitmaps(p.groupCount), p.Frees(p.groupCount), p.Total()) && |NewMaps(p).bitmaps| > 0
    ensures p.LayoutOf(prealloc).blocksCount == p.blocksCount && p.rootDir < p.blocksCount
  {
    Mkfs.InnerGroup(p, 0);
  }

  lemma {:induction false} UsedIs(l: Layout, m: Maps)
    ensures forall b: nat :: b in UsedBlocks(l, m) <==> b < l.blocksCount && Used(l, m, b)
  {
    hide Used;
  }

  /** The checker passes a new filesystem exactly when its last group holds its metadata. */
  lemma {:induction false} NewPassesExactly(p: Mkfs.Plan, prealloc: bool)
    requires p.Ok()
    ensures p.JournalBlocks() <= p.blocksCount
    ensures var l, j, seen := p.LayoutOf(prealloc), NewJournal(p), NewOwned(p);
            Tiles(l) && BitsOk(l, p.Bitmaps(p.groupCount), j, seen)
              && p.Total() == l.blocksCount - (Reserved(l, j, |l.groups|) + |seen|)
            <==> p.Tail() >= Mkfs.GROUP_META
  {
    JournalFits(p);
    NewTiles(p, prealloc);
    if p.Tail() >= Mkfs.GROUP_META {
      NewState(p, prealloc);
      NewClean(p, p.LayoutOf(prealloc), NewMaps(p), NewJournal(p), NewOwned(p));
    }
  }

  lemma {:induction false} NewApart(p: Mkfs.Plan)
    requires p.Ok() && p.JournalBlocks() <= p.blocksCount
    ensures NewJournal(p).Area() !! NewOwned(p)
    ensures forall b :: b in NewJournal(p).Area() + NewOwned(p) ==> b < p.blocksCount
  {
    JournalFits(p);
    Mkfs.StartMonotone(p, 1, p.groupCount - 1);
    assert p.Start(1) == p.Start(0) + p.blocksPerGroup;
  }

  lemma {:induction false} NewClean(p: Mkfs.Plan, l: Layout, m: Maps, j: Journal, seen: set<nat>)
    requires l.firstDataBlock == p.rootDir && p.rootDir in seen && j.Area() !! seen
    requires Consistent(l, m) && Tiles(l) && UsedBlocks(l, m) == j.Area() + seen
    requires forall b: nat :: b < p.rootDir ==> BitAt(m.bitmaps[0], 0, b)
    ensures BitsOk(l, m.bitmaps, j, seen) && CountOk(l, m, j, seen)
  {
    forall b | b in j.Area() + seen ensures l.blocksPerGroup > 0 && l.DataBlock(b) {
      UsedIsData(l, m, b);
    }
    hide Used, Layout.DataBlock, UsedBlocks, Consistent, Tiles, Shaped;
    ConsistentTotal(l, m);
    CleanIsOwned(l, m, j, seen);
  }

  // ----- what the checker does not see, and what it breaks

  /** A new filesystem with every bit of every bitmap set: all free blocks have leaked. */
  function AllLeaked(p: Mkfs.Plan): Maps
    requires p.groupCount > 0 && p.Total() >= 0
  {
    NewMaps(p).(bitmaps := seq(p.groupCount, g requires 0 <= g < p.groupCount => seq(p.GroupBlocks(g), i => true)))
  }

  /** It passes. */
  lemma {:induction false} LeaksPass(p: Mkfs.Plan, prealloc: bool)
    requires p.Ok() && p.Tail() >= Mkfs.GROUP_META
    ensures p.JournalBlocks() <= p.blocksCount && p.Total() >= 0
    ensures var l, m := p.LayoutOf(prealloc), AllLeaked(p);
            && BitsOk(l, m.bitmaps, NewJournal(p), NewOwned(p)) && CountOk(l, m, NewJournal(p), NewOwned(p))
            && (p.Total() > 0 ==> UsedBlocks(l, m) != NewJournal(p).Area() + NewOwned(p))
  {
    NewState(p, prealloc);
    var l, m, more := p.LayoutOf(prealloc), NewMaps(p), AllLeaked(p);
    NewClean(p, l, m, NewJournal(p), NewOwned(p));
    AllSet(p, prealloc);
    ConsistentTotal(l, m);
    hide Mkfs.Plan.Ok, Mkfs.Plan.Tail, Mkfs.Plan.Bitmaps, Mkfs.Plan.Frees, Mkfs.Plan.Total, Mkfs.Plan.LayoutOf;
    hide Mkfs.Plan.JournalBlocks;
    hide Consistent, Tiles, Used, BitsOk, CountOk, NewJournal, NewOwned, AllLeaked, Layout.DataBlock;
    LeakUnnoticed(l, m, more, NewJournal(p), NewOwned(p));
    if p.Total() > 0 {
      assert FreeBlocks(l, m) != {};
      var b :| b in FreeBlocks(l, m);
      AllUsedNow(p, l, more, b);
    }
  }

  lemma {:induction false} AllSet(p: Mkfs.Plan, prealloc: bool)
    requires p.Ok() && p.Total() >= 0
    ensures var l, more := p.LayoutOf(prealloc), AllLeaked(p);
            && Shaped(l, more) && more.total == NewMaps(p).total && l.blocksPerGroup > 0
            && forall g, i :: 0 <= g < |l.groups| && 0 <= i < |more.bitmaps[g]| ==> more.bitmaps[g][i]
  {
    hide Mkfs.Plan.GroupBlocks, Mkfs.Plan.Start, Mkfs.Plan.Total, Mkfs.Plan.Frees, Mkfs.Plan.Bitmaps;
  }

  lemma {:induction false} AllUsedNow(p: Mkfs.Plan, l: Layout, m: Maps, b: nat)
    requires l.blocksPerGroup > 0 && Shaped(l, m) && b in DataBlocks(l)
    requires forall g, i :: 0 <= g < |l.groups| && 0 <= i < |m.bitmaps[g]| ==> m.bitmaps[g][i]
    ensures b in UsedBlocks(l, m)
  {
    hide Layout.GroupOf;
    var g := l.GroupOf(b);
    assert m.bitmaps[g][b - l.groups[g].start];
  }

  /** A new filesystem that has lost the mark of its root directory, with counters to match. */
  function RootLost(p: Mkfs.Plan): Maps
    requires p.groupCount > 0 && p.Total() >= 0 && 0 < p.GroupBlocks(0) && p.rootDir < p.GroupBlocks(0)
  {
    Unmark(NewMaps(p), 0, p.rootDir)
  }

  /** The allocator's invariant holds of it, and no longer holds when the checker has repaired the bitmap. */
  lemma {:induction false} RepairBreaks(p: Mkfs.Plan, prealloc: bool)
    requires p.Ok() && p.Tail() >= Mkfs.GROUP_META
    ensures p.JournalBlocks() <= p.blocksCount && p.Total() >= 0 && p.rootDir < p.GroupBlocks(0)
    ensures var l, m, j, seen := p.LayoutOf(prealloc), RootLost(p), NewJournal(p), NewOwned(p);
            && Consistent(l, m) && !BitsOk(l, m.bitmaps, j, seen)
            && !Consistent(l, m.(bitmaps := RepairedAll(l, m.bitmaps, j, seen)))
  {
    NewState(p, prealloc);
    Mkfs.InnerGroup(p, 0);
    var l, m, n := p.LayoutOf(prealloc), NewMaps(p), RootLost(p);
    NewGroup(p, prealloc, 0);
    RootBit(p, prealloc);
    assert l.groups[0].start == 0 && p.rootDir in UsedBlocks(l, m) && l.firstDataBlock == p.rootDir;
    UsedIsData(l, m, p.rootDir);
    hide Mkfs.Plan.Ok, Mkfs.Plan.Tail, Mkfs.Plan.Bitmaps, Mkfs.Plan.Frees, Mkfs.Plan.Total, Mkfs.Plan.LayoutOf;
    hide Mkfs.Plan.JournalBlocks;
    hide Consistent, Tiles, Used, UsedBlocks, BitsOk, NewJournal, Layout.DataBlock;
    UnmarkConsistent(l, m, 0, p.rootDir);
    BitUse(l, m, n, 0, p.rootDir, false);
    forall b | b in NewJournal(p).Area() + NewOwned(p) ensures l.DataBlock(b) {
      UsedIsData(l, m, b);
    }
    RepairConsistentExactly(l, n, NewJournal(p), NewOwned(p));
    ConsistentShaped(l, n);
    BitsExactly(l, n, NewJournal(p), NewOwned(p));
  }

  lemma {:induction false} RootBit(p: Mkfs.Plan, prealloc: bool)
    requires p.Ok() && p.Total() >= 0 && p.rootDir < p.GroupBlocks(0)
    ensures var l, m := p.LayoutOf(prealloc), NewMaps(p);
            && FirstBit(l, 0) == p.rootDir && |m.bitmaps| == |m.free| == p.groupCount && |m.bitmaps[0]| == p.GroupBlocks(0)
            && m.bitmaps[0][p.rootDir]
  {
    Mkfs.BitmapBit(p, 0, p.rootDir);
    Mkfs.FirstBits(p, prealloc, 0);
    assert NewMaps(p).bitmaps[0] == p.Bitmap(0);
    hide Mkfs.Plan.Total, Mkfs.Plan.Frees, Mkfs.Plan.Start;
  }
}
