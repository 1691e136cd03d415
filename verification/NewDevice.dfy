/** The allocator on a device that mkfs has formatted. */
module NewDevice {
  import Allocator
  import Fsck
  import Mkfs
  import Inodes

  lemma {:induction false} InUseIs(alloc: Allocator.Allocator)
    ensures alloc.InUse() == Allocator.UsedBlocks(alloc.l, alloc.State()) && alloc.State().total == alloc.superFree
  {
  }

  method NewAllocator(p: Mkfs.Plan, prealloc: bool) returns (alloc: Allocator.Allocator)
    requires p.Real() && p.Ok() && p.Tail() >= Mkfs.GROUP_META
    ensures fresh(alloc) && fresh(alloc.bitmaps) && fresh(alloc.free) && alloc.Valid()
    ensures alloc.superFree >= 4080 && p.rootDir in alloc.InUse() && alloc.l == p.LayoutOf(prealloc)
    ensures AsFormatted(alloc, p, prealloc)
  {
    Mkfs.RealHasRoom(p);
    Fsck.NewState(p, prealloc);
    assert p.rootDir in Fsck.NewOwned(p);
    var bitmaps, free, total := Mkfs.Format(p);
    assert Fsck.NewMaps(p) == Allocator.Maps(bitmaps[..], free[..], total);
    hide *;
    alloc := new Allocator.Allocator(p.LayoutOf(prealloc), bitmaps, free, total);
    InUseIs(alloc);
    assert AsFormatted(alloc, p, prealloc) by { FormattedIs(alloc, p, prealloc); }
  }

  /** The allocator starts with what mkfs wrote. */
  ghost predicate AsFormatted(alloc: Allocator.Allocator, p: Mkfs.Plan, prealloc: bool)
    reads alloc, alloc.bitmaps, alloc.free
  {
    && p.groupCount > 0 && p.Total() >= 0
    && alloc.l == p.LayoutOf(prealloc) && alloc.State() == Fsck.NewMaps(p) && alloc.nextDataBlock == 0
  }

  lemma {:induction false} FormattedIs(alloc: Allocator.Allocator, p: Mkfs.Plan, prealloc: bool)
    requires p.groupCount > 0 && p.Total() >= 0
    ensures AsFormatted(alloc, p, prealloc)
            <==> alloc.l == p.LayoutOf(prealloc) && alloc.State() == Fsck.NewMaps(p) && alloc.nextDataBlock == 0
  {
  }

  /** The block that the first allocation without a hint takes. */
  ghost function FirstTaken(p: Mkfs.Plan, prealloc: bool): nat {
    if p.groupCount > 0 && p.Total() >= 0 && Allocator.Consistent(p.LayoutOf(prealloc), Fsck.NewMaps(p)) then
      Allocator.Chosen(p.LayoutOf(prealloc), Fsck.NewMaps(p), 0, 0, 0)
    else 0
  }

  lemma {:induction false} FirstChoice(alloc: Allocator.Allocator, p: Mkfs.Plan, prealloc: bool)
    requires AsFormatted(alloc, p, prealloc) && alloc.Valid()
    ensures alloc.Choice(0, 0) == FirstTaken(p, prealloc)
  {
    hide Allocator.Chosen, Allocator.Consistent, Fsck.NewMaps;
  }

  // ----- inodes

  const TABLE_BLOCKS := 4
  const INODE_BYTES := 276
  const INODES_PER_GROUP := TABLE_BLOCKS * (Mkfs.BLOCK_BYTES / INODE_BYTES)

  function InodeRow(g: nat): seq<bool> { seq(INODES_PER_GROUP, i => g == 0 && i == Inodes.ROOT_INO - 1) }

  function InodeFree(g: nat): nat { if g == 0 then INODES_PER_GROUP - 1 else INODES_PER_GROUP }

  lemma {:induction false} FreeInodes(free: seq<nat>)
    requires forall g :: 0 <= g < |free| ==> free[g] == InodeFree(g)
    ensures Allocator.Sum(free) == if free == [] then 0 else |free| * INODES_PER_GROUP - 1
  {
    if free != [] {
      FreeInodes(free[..|free| - 1]);
    }
  }

  lemma {:induction false} InodeRowClear(g: nat, from: nat)
    requires from == if g == 0 then 1 else 0
    ensures |InodeRow(g)| == INODES_PER_GROUP && InodeFree(g) == Allocator.Clear(InodeRow(g), from)
  {
    Mkfs.ClearBetween(InodeRow(g), from, from, INODES_PER_GROUP);
  }

  lemma {:induction false} InodeGroup(groups: nat, prealloc: bool, g: nat)
    requires g < groups
    ensures var l := Inodes.LayoutOf(groups * INODES_PER_GROUP, INODES_PER_GROUP, groups, prealloc);
            && l.groups[g].start == g * INODES_PER_GROUP && l.groups[g].blocks == INODES_PER_GROUP
            && Allocator.FirstBit(l, g) == if g == 0 then 1 else 0
  {
    Inodes.Below(g, groups, INODES_PER_GROUP);
  }

  lemma {:induction false} ClearInode(groups: nat, prealloc: bool, g: nat, i: nat)
    requires g < groups && i < |InodeRow(g)| && !InodeRow(g)[i]
    ensures var l := Inodes.LayoutOf(groups * INODES_PER_GROUP, INODES_PER_GROUP, groups, prealloc);
            l.DataBlock(l.groups[g].start + i)
  {
    var count := groups * INODES_PER_GROUP;
    InodeGroup(groups, prealloc, g);
    Inodes.Below(g, groups, INODES_PER_GROUP);
    Inodes.InodeBit(count, INODES_PER_GROUP, groups, prealloc, g * INODES_PER_GROUP + i);
    hide Allocator.Layout.DataBlock;
  }

  /** Bitmaps and counters that mkfs writes are a consistent start for the inode allocator. */
  lemma {:induction false} InodesConsistent(groups: nat, prealloc: bool, bitmaps: seq<seq<bool>>, free: seq<nat>)
    requires groups > 0 && |bitmaps| == |free| == groups
    requires forall g :: 0 <= g < groups ==> bitmaps[g] == InodeRow(g) && free[g] == InodeFree(g)
    ensures Inodes.Shape(groups * INODES_PER_GROUP, INODES_PER_GROUP, groups)
    ensures var l := Inodes.LayoutOf(groups * INODES_PER_GROUP, INODES_PER_GROUP, groups, prealloc);
            Allocator.Consistent(l, Allocator.Maps(bitmaps, free, groups * INODES_PER_GROUP - 1))
  {
    var count := groups * INODES_PER_GROUP;
    assert Inodes.Shape(count, INODES_PER_GROUP, groups);
    Inodes.ShapeWf(count, INODES_PER_GROUP, groups, prealloc);
    var l := Inodes.LayoutOf(count, INODES_PER_GROUP, groups, prealloc);
    assert |l.groups| == groups;
    FreeInodes(free);
    hide *;
    var m := Allocator.Maps(bitmaps, free, count - 1);
    forall g | 0 <= g < groups
      ensures |bitmaps[g]| == l.groups[g].blocks && free[g] == Allocator.Clear(bitmaps[g], Allocator.FirstBit(l, g))
    {
      InodeGroup(groups, prealloc, g);
      InodeRowClear(g, Allocator.FirstBit(l, g));
    }
    forall g, i | 0 <= g < groups && 0 <= i < |bitmaps[g]| && !bitmaps[g][i] ensures l.DataBlock(l.groups[g].start + i) {
      ClearInode(groups, prealloc, g, i);
    }
    Mkfs.ConsistentFrom(l, m);
  }

  /** The inode allocator on a device that mkfs has formatted. */
  method NewInodes(p: Mkfs.Plan, prealloc: bool) returns (inodes: Inodes.Inodes)
    requires p.groupCount > 0
    ensures fresh(inodes) && fresh(inodes.bitmaps) && fresh(inodes.free) && inodes.Valid()
    ensures inodes.count == p.groupCount * INODES_PER_GROUP && inodes.superFree == inodes.count - 1
    ensures inodes.bitmaps.Length == inodes.free.Length == p.groupCount
  {
    var bitmaps := new seq<bool>[p.groupCount](g requires 0 <= g => InodeRow(g));
    var free := new nat[p.groupCount](g requires 0 <= g => InodeFree(g));
    InodesConsistent(p.groupCount, prealloc, bitmaps[..], free[..]);
    hide Inodes.Shape, Allocator.Consistent;
    inodes := new Inodes.Inodes(p.groupCount * INODES_PER_GROUP, INODES_PER_GROUP, p.groupCount, prealloc, bitmaps, free,
      p.groupCount * INODES_PER_GROUP - 1);
  }
}
