/** A file in which a gap cannot be filled, on any new filesystem. */
module SparseFile {
  import Allocator
  import opened ExtentGrow
  import opened ExtentSpec
  import opened ExtentSteps
  import E = ExtentTree
  import Mkfs
  import NewDevice

  /** The extents of every second block. */
  predicate Sparse(es: seq<Extent>) {
    forall i :: 0 <= i < |es| ==> es[i].logical == 2 * i && es[i].length == 1
  }

  /** One leaf holds every second one of the first blocks. */
  predicate OneLeaf(leaves: seq<Leaf>, n: nat) {
    if n == 0 then leaves == [] else |leaves| == 1 && |leaves[0].extents| == n && Sparse(leaves[0].extents)
  }

  lemma {:induction false} NextFits(leaves: seq<Leaf>, n: nat, free: nat)
    requires OneLeaf(leaves, n) && n <= PER_LEAF && free > 0
    ensures Target(leaves, 2 * n) == |leaves| && HasRoom(leaves, 2 * n, free)
  {
    if n > 0 {
      assert StartBy(leaves[0].extents, 2 * n);
      assert leaves[1..] == [];
    }
  }

  lemma {:induction false} OneMore(leaves: seq<Leaf>, n: nat, physical: nat, after: seq<Leaf>)
    requires OneLeaf(leaves, n) && n < PER_LEAF && Target(leaves, 2 * n) == |leaves|
    requires GoesLast(leaves, after, 2 * n, physical)
    ensures OneLeaf(after, n + 1)
  {
    var e := Extent(2 * n, physical, 1);
    var block :| after == Appended(leaves, e, block);
    if n > 0 {
      var es := leaves[0].extents;
      assert after == [leaves[0].(extents := es + [e])];
    }
  }

  lemma {:induction false} SecondLeaf(leaves: seq<Leaf>, physical: nat, after: seq<Leaf>)
    requires OneLeaf(leaves, PER_LEAF) && Target(leaves, 2 * PER_LEAF) == |leaves|
    requires GoesLast(leaves, after, 2 * PER_LEAF, physical)
    ensures |after| == 2 && after[0] == leaves[0] && after[1].extents == [Extent(2 * PER_LEAF, physical, 1)]
  {
    var block :| after == Appended(leaves, Extent(2 * PER_LEAF, physical, 1), block);
  }

  /** The gap behind the first block belongs into the first leaf, which is full. */
  lemma {:induction false} GapRefused(leaves: seq<Leaf>, free: nat)
    requires |leaves| == 2 && |leaves[0].extents| == PER_LEAF && Sparse(leaves[0].extents)
    ensures !HasRoom(leaves, 1, free) && |leaves| < ROOT_REFS
  {
    assert leaves[0].extents[1].logical == 2;
    assert !StartBy(leaves[0].extents, 1);
  }

  lemma {:induction false} NoMerge(f: E.ExtentInode, n: nat)
    requires OneLeaf(f.leaves, n)
    ensures f.Behind(2 * n) == None
  {
    if n > 0 {
      LeafSingle(f.leaves[0], 0, 0);
      assert f.leaves == [f.leaves[0]];
    }
  }

  lemma {:induction false} NoMergeGap(f: E.ExtentInode)
    requires |f.leaves| == 2 && |f.leaves[1].extents| == 1 && f.leaves[1].extents[0].logical > 1
    ensures f.Behind(1) == None
  {
    assert f.leaves == [f.leaves[0]] + [f.leaves[1]];
    FlatAppend([f.leaves[0]], [f.leaves[1]]);
    LeafSingle(f.leaves[1], 0, 0);
  }

  lemma {:induction false} MergeIs(f: E.ExtentInode, logical: nat)
    requires f.alloc.Valid() && f.Behind(logical) == None
    ensures !f.Merges(logical)
  {
    hide Allocator.Allocator.Valid;
  }

  lemma {:induction false} Sizes()
    ensures PER_LEAF == 170 && ROOT_REFS == 4 && FILE_BLOCKS_MAX > 400
  {
  }

  /** The first block and all from `2 * n` on are unmapped, but for block 0. */
  ghost predicate Unmapped(f: E.ExtentInode, n: nat)
    reads f
  {
    f.Map(1) == None && forall l: nat :: l >= 2 * n ==> f.Map(l) == None
  }

  lemma {:induction false} UnmappedAt(f: E.ExtentInode, n: nat)
    requires Unmapped(f, n)
    ensures f.Map(2 * n) == None && f.Map(1) == None
  {
  }

  lemma {:induction false} StillUnmapped(f: E.ExtentInode, n: nat, before: nat -> Option<nat>, block: nat)
    requires before(1) == None && forall l: nat :: l >= 2 * n ==> before(l) == None
    requires forall l: nat :: f.Map(l) == if l == 2 * n then Some(block) else before(l)
    ensures Unmapped(f, n + 1)
  {
  }

  /** Write the block `2 * n`. */
  method WriteNext(f: E.ExtentInode, n: nat) returns (err: E.Errno, block: nat)
    requires f.Valid() && n <= PER_LEAF && OneLeaf(f.leaves, n) && Unmapped(f, n) && f.alloc.superFree >= 2
    modifies f, f.alloc, f.alloc.bitmaps, f.alloc.free
    ensures f.Valid() && f.alloc.bitmaps == old(f.alloc.bitmaps) && f.alloc.free == old(f.alloc.free)
    ensures err == Allocator.Ok && Unmapped(f, n + 1) && f.alloc.superFree >= old(f.alloc.superFree) - 2
    ensures Target(old(f.leaves), 2 * n) == |old(f.leaves)| && GoesLast(old(f.leaves), f.leaves, 2 * n, block)
  {
    hide *;
    Sizes();
    f.ValidParts();
    NoMerge(f, n);
    MergeIs(f, 2 * n);
    NextFits(f.leaves, n, f.alloc.superFree - 1);
    UnmappedAt(f, n);
    ghost var before := MapOf(f);
    MapParts(f, n);
    err, block := f.ResolveBlock(2 * n, true);
    StillUnmapped(f, n, before, block);
  }

  ghost function MapOf(f: E.ExtentInode): nat -> Option<nat>
    reads f
  {
    var leaves := f.leaves;
    l => Resolve(Flat(leaves), l)
  }

  lemma {:induction false} MapParts(f: E.ExtentInode, n: nat)
    requires Unmapped(f, n)
    ensures forall l: nat :: MapOf(f)(l) == f.Map(l)
    ensures MapOf(f)(1) == None && forall l: nat :: l >= 2 * n ==> MapOf(f)(l) == None
  {
  }

  /** Write every second block until the first leaf is full. */
  method FillLeaf(f: E.ExtentInode)
    requires f.Valid() && OneLeaf(f.leaves, 0) && Unmapped(f, 0) && f.alloc.superFree >= 4000
    modifies f, f.alloc, f.alloc.bitmaps, f.alloc.free
    ensures f.Valid() && f.alloc.bitmaps == old(f.alloc.bitmaps) && f.alloc.free == old(f.alloc.free)
    ensures OneLeaf(f.leaves, PER_LEAF) && Unmapped(f, PER_LEAF) && f.alloc.superFree + 2 * PER_LEAF >= 4000
  {
    hide *;
    Sizes();
    var n := 0;
    while n < PER_LEAF
      invariant f.Valid() && f.alloc.bitmaps == old(f.alloc.bitmaps) && f.alloc.free == old(f.alloc.free)
      invariant n <= PER_LEAF && OneLeaf(f.leaves, n) && Unmapped(f, n) && f.alloc.superFree + 2 * n >= 4000
    {
      ghost var before := f.leaves;
      var err, block := WriteNext(f, n);
      OneMore(before, n, block, f.leaves);
      n := n + 1;
    }
  }

  /** On any new filesystem: every second block of a file is written, one more than a leaf holds, and then the second
      block. That is refused although blocks are free and the inode has room for more leaves. */
  method WriteGap(p: Mkfs.Plan, prealloc: bool) returns (err: E.Errno, free: nat, count: nat)
    requires p.Real() && p.Tail() >= Mkfs.GROUP_META
    ensures err == Allocator.Enospc && free > 0 && count < ROOT_REFS
  {
    Mkfs.RealIsOk(p);
    hide *;
    Sizes();
    var alloc := NewDevice.NewAllocator(p, prealloc);
    var f := new E.ExtentInode(alloc, 0, 0);
    NoLeaves(f);
    FillLeaf(f);
    err, free, count := FillGap(f);
  }

  /** Behind a full leaf one block more is written, and then one in front. */
  method FillGap(f: E.ExtentInode) returns (err: E.Errno, free: nat, count: nat)
    requires f.Valid() && OneLeaf(f.leaves, PER_LEAF) && Unmapped(f, PER_LEAF)
    requires f.alloc.superFree + 2 * PER_LEAF >= 4000
    modifies f, f.alloc, f.alloc.bitmaps, f.alloc.free
    ensures err == Allocator.Enospc && free > 0 && count < ROOT_REFS
  {
    hide *;
    Sizes();
    var block;
    ghost var before := f.leaves;
    err, block := WriteNext(f, PER_LEAF);
    SecondLeaf(before, block, f.leaves);
    FirstLeaf(before, PER_LEAF);
    UnmappedAt(f, PER_LEAF + 1);
    f.ValidParts();
    NoMergeGap(f);
    MergeIs(f, 1);
    GapRefused(f.leaves, f.alloc.superFree - 1);
    free := f.alloc.superFree;
    err, block := f.ResolveBlock(1, true);
    count := |f.leaves|;
  }

  lemma {:induction false} NoLeaves(f: E.ExtentInode)
    requires f.leaves == []
    ensures OneLeaf(f.leaves, 0) && Unmapped(f, 0)
  {
  }

  lemma {:induction false} FirstLeaf(leaves: seq<Leaf>, n: nat)
    requires OneLeaf(leaves, n) && n > 0
    ensures |leaves| == 1 && |leaves[0].extents| == n && Sparse(leaves[0].extents)
  {
  }
}
