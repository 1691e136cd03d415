/** What the checker passes and the kernel opens. */
module FsckKernel {
  import Bytes
  import opened Allocator
  import opened ExtentSpec
  import opened ExtentSteps
  import opened InodeSpec
  import opened FsckOwners
  import InodeDisk

  /** The blocks a tree owns, leaf by leaf and extent by extent. */
  lemma {:induction false} OwnedUsed(leaves: seq<Leaf>, used: nat -> bool)
    requires (forall b :: b in Owned(leaves) ==> used(b)) && EndsFit(Flat(leaves))
    ensures InodeDisk.AllUsed(leaves, used)
  {
    if leaves != [] {
      var rest := leaves[1..];
      assert leaves == [leaves[0]] + rest;
      FlatAppend([leaves[0]], rest);
      LeafSingle(leaves[0], 0, 0);
      LeafBlocksAppend([leaves[0]], rest);
      BlocksAppend(leaves[0].extents, Flat(rest));
      EndsBoth(leaves[0].extents, Flat(rest));
      OwnedUsed(rest, used);
      ExtentsOwned(leaves[0].extents, used);
      hide Owned, Flat, EndsFit, InodeDisk.ExtentsUsed;
      assert used(leaves[0].block);
      forall i | 0 <= i < |leaves| ensures used(leaves[i].block) && InodeDisk.ExtentsUsed(leaves[i].extents, used) {
        if i > 0 {
          assert leaves[i] == rest[i - 1];
        }
      }
    }
  }

  lemma {:induction false} ExtentsOwned(es: seq<Extent>, used: nat -> bool)
    requires (forall b :: b in Blocks(es) ==> used(b)) && EndsFit(es)
    ensures InodeDisk.ExtentsUsed(es, used)
  {
    if es != [] {
      assert es == [es[0]] + es[1..];
      EndsBoth([es[0]], es[1..]);
      ExtentsOwned(es[1..], used);
      InodeDisk.UsedNext(es, used);
      forall p: nat | es[0].physical <= p < es[0].physical + es[0].length ensures used(p) {
        assert Within(p, es[0].physical, es[0].physical + es[0].length) && p in es[0].Blocks();
      }
    }
  }

  /** The checker does not look at the first logical block that a reference names, and the kernel does. So the kernel
      opens an inode that the checker passed, on bitmaps that mark what it owns, exactly when its references start where
      their leaves do. */
  lemma {:induction false} OpensExactly(l: Layout, x: TreeInode, src: Source, seen: set<nat>, used: nat -> bool)
    requires l.blocksPerGroup > 0 && TreeInodeOk(l, x, src, seen)
    requires forall b :: b in Owned(src.Leaves(x.area).value) ==> used(b)
    ensures |src.Leaves(x.area).value| <= ROOT_REFS
    ensures InodeDisk.Accepted(x.area, x.size, x.sectors, src.disk, src.checksum, used)
            <==> InodeDisk.RefsAgree(x.area, 0, src.Leaves(x.area).value)
  {
    hide *;
    TreeInodeParts(l, x, src, seen);
    var leaves := src.Leaves(x.area).value;
    TreeInOrder(l, leaves, seen);
    TreeEnds(l, leaves, seen);
    OwnedUsed(leaves, used);
    LeavesLoad(src, x.area);
    InodeDisk.AcceptedExactly(x.area, x.size, x.sectors, src.disk, src.checksum, used);
  }

  lemma {:induction false} TreeEnds(l: Layout, leaves: seq<Leaf>, seen: set<nat>)
    requires l.blocksPerGroup > 0 && TreeFits(l, leaves, seen)
    ensures EndsFit(Flat(leaves))
  {
  }

  lemma {:induction false} LeavesLoad(src: Source, a: Area)
    ensures src.Leaves(a) == LoadOp(a, src.disk, src.checksum)
  {
    hide LoadOp;
  }

  /** Whatever first logical blocks the references name, the checker's verdict is the same. */
  lemma {:induction false} LogicalIgnored(l: Layout, x: TreeInode, y: TreeInode, src: Source, seen: set<nat>)
    requires l.blocksPerGroup > 0 && x.size == y.size && x.sectors == y.sectors && x.area[..8] == y.area[..8]
    requires forall i :: 0 <= i < ROOT_REFS ==>
               RefAt(y.area, i) == RefAt(x.area, i).(logical := RefAt(y.area, i).logical)
    ensures src.Leaves(x.area) == src.Leaves(y.area)
    ensures TreeInodeOk(l, x, src, seen) <==> TreeInodeOk(l, y, src, seen)
  {
    SameHeader(x.area, y.area);
    if HeaderOk(x.area) {
      SameLoad(x.area, y.area, 0, Bytes.Value(x.area[2..4]), src);
    }
    hide HeaderOk, LoadLeaves, Bytes.Value, RefAt, TreeFits, InodeDisk.SizeOk, Flat;
  }

  lemma {:induction false} SameHeader(a: Area, b: Area)
    requires a[..8] == b[..8]
    ensures HeaderOk(a) <==> HeaderOk(b)
    ensures Bytes.Value(a[2..4]) == Bytes.Value(b[2..4])
  {
    hide Bytes.Value;
    assert a[..2] == a[..8][..2] && b[..2] == b[..8][..2];
    assert a[2..4] == a[..8][2..4] && b[2..4] == b[..8][2..4];
    assert a[4..6] == a[..8][4..6] && b[4..6] == b[..8][4..6];
    assert a[6..8] == a[..8][6..8] && b[6..8] == b[..8][6..8];
  }

  lemma {:induction false} SameLoad(a: Area, b: Area, i: nat, count: nat, src: Source)
    requires i <= count <= ROOT_REFS
    requires forall k :: 0 <= k < ROOT_REFS ==> RefAt(b, k) == RefAt(a, k).(logical := RefAt(b, k).logical)
    ensures LoadLeaves(a, i, count, src.disk, src.checksum) == LoadLeaves(b, i, count, src.disk, src.checksum)
    decreases count - i
  {
    if i < count {
      SameLoad(a, b, i + 1, count, src);
      SameLeaf(RefAt(a, i), RefAt(b, i), src);
      hide RefAt, LeafOk, ReadExtents;
    }
  }

  lemma {:induction false} SameLeaf(r: Ref, t: Ref, src: Source)
    requires t == r.(logical := t.logical)
    ensures LeafOk(r, src.disk, src.checksum) <==> LeafOk(t, src.disk, src.checksum)
  {
    hide Bytes.Value;
  }

  // ----- an inode of that kind

  /** One leaf in block `p` with one extent, logical block 0 in block `q`. */
  function OneBlock(p: nat, q: nat): seq<Leaf> { [Leaf(p, [Extent(0, q, 1)])] }

  /** Its inode, with a reference that names logical block 1. */
  function Misnamed(p: nat, q: nat, checksum: (nat, Bytes.Block) -> nat): TreeInode
    requires 0 < p < LIMIT64 && q < LIMIT64
  {
    var refs := RefsOf(OneBlock(p, q), checksum);
    TreeInode(AreaBytes(refs[0 := refs[0].(logical := 1)], 1, Extra(0, 0, 0)), 4096, 16)
  }

  lemma {:induction false} OneBlockFits(l: Layout, p: nat, q: nat)
    requires l.blocksPerGroup > 0 && l.DataBlock(p) && l.DataBlock(q) && p != q
    ensures TreeFits(l, OneBlock(p, q), {}) && Owned(OneBlock(p, q)) == {p, q}
    ensures Flat(OneBlock(p, q)) == [Extent(0, q, 1)]
    ensures Behind(Flat(OneBlock(p, q))) == 1 && TotalLength(Flat(OneBlock(p, q))) == 1
  {
    var e := Extent(0, q, 1);
    assert e.Blocks() == {q} by {
      forall b ensures b in e.Blocks() <==> b == q {
        assert b in e.Blocks() <==> Within(b, q, q + 1);
      }
    }
    assert [e][1..] == [] && Blocks([e]) == {q};
    LeafSingle(OneBlock(p, q)[0], 0, 0);
    assert Sorted([e], 0) && Unshared([e]) && EndsFit([e]);
    hide Flat, LeafBlocks, Blocks, Sorted, Unshared, DistinctLeaves, EndsFit, Layout.DataBlock;
  }

  lemma {:induction false} MisnamedLoads(p: nat, q: nat, src: Source)
    requires 0 < p < LIMIT64 && q < LIMIT64 && (forall b, c :: src.checksum(b, c) < LIMIT32)
    requires p in src.disk && src.disk[p] == LeafBytes(OneBlock(p, q)[0].extents)
    ensures var a := Misnamed(p, q, src.checksum).area; src.Leaves(a) == Some(OneBlock(p, q)) && RefAt(a, 0).logical == 1
  {
    hide *;
    FourRefs();
    OneBlockIs(p, q);
    var leaf := OneBlock(p, q)[0];
    var a := Misnamed(p, q, src.checksum).area;
    MisnamedRef(p, q, src.checksum);
    LeafReadsBack(leaf, src.disk, src.checksum);
    SameLeaf(RefOf(leaf, src.checksum), RefAt(a, 0), src);
    LoadOne(a, src);
  }

  lemma {:induction false} LoadOne(a: Area, src: Source)
    requires HeaderOk(a) && Bytes.Value(a[2..4]) == 1 && LeafOk(RefAt(a, 0), src.disk, src.checksum)
    ensures var r := RefAt(a, 0);
            && r.block in src.disk && r.entries <= PER_LEAF
            && src.Leaves(a) == Some([Leaf(r.block, ReadExtents(src.disk[r.block], r.entries))])
  {
    hide *;
    FourRefs();
    LoadIs(a, src);
    LoadStep(a, 0, 1, src.disk, src.checksum);
    LoadStep(a, 1, 1, src.disk, src.checksum);
    var leaf := Leaf(RefAt(a, 0).block, ReadExtents(src.disk[RefAt(a, 0).block], RefAt(a, 0).entries));
    assert [leaf] + [] == [leaf];
  }

  lemma {:induction false} FourRefs()
    ensures ROOT_REFS == 4
  {
  }

  lemma {:induction false} OneBlockIs(p: nat, q: nat)
    requires q < LIMIT64
    ensures OneBlock(p, q) == [OneBlock(p, q)[0]] && OneBlock(p, q)[0] == Leaf(p, [Extent(0, q, 1)])
    ensures 1 <= PER_LEAF && ExtentsFit([Extent(0, q, 1)])
  {
  }

  lemma {:induction false} LoadIs(a: Area, src: Source)
    requires HeaderOk(a)
    ensures Bytes.Value(a[2..4]) <= ROOT_REFS
    ensures src.Leaves(a) == LoadLeaves(a, 0, Bytes.Value(a[2..4]), src.disk, src.checksum)
  {
    hide LoadLeaves, Bytes.Value;
  }

  /** The reference reads back as it was written. */
  lemma {:induction false} MisnamedRef(p: nat, q: nat, checksum: (nat, Bytes.Block) -> nat)
    requires 0 < p < LIMIT64 && q < LIMIT64 && forall b, c :: checksum(b, c) < LIMIT32
    ensures var a, r := Misnamed(p, q, checksum).area, RefOf(OneBlock(p, q)[0], checksum);
            HeaderOk(a) && Bytes.Value(a[2..4]) == 1 && RefAt(a, 0) == r.(logical := 1) && r.block == p && r.entries == 1
  {
    var refs := RefsOf(OneBlock(p, q), checksum);
    var bad := refs[0 := refs[0].(logical := 1)];
    assert bad[0].Fits();
    hide AreaBytes, RefAt, HeaderOk, Bytes.Value, LeafBytes;
    AreaReads(bad, 1, Extra(0, 0, 0), 0);
  }

  /** The checker passes it, and the kernel does not open it, whatever the bitmaps are. */
  lemma {:induction false} PassedNotOpened(l: Layout, p: nat, q: nat, src: Source, used: nat -> bool)
    requires l.blocksPerGroup > 0 && l.DataBlock(p) && l.DataBlock(q) && p != q && p < LIMIT64 && q < LIMIT64 - 1
    requires (forall b, c :: src.checksum(b, c) < LIMIT32) && used(p) && used(q)
    requires p in src.disk && src.disk[p] == LeafBytes(OneBlock(p, q)[0].extents)
    ensures 0 < p
    ensures var x := Misnamed(p, q, src.checksum);
            TreeInodeOk(l, x, src, {}) && !InodeDisk.Accepted(x.area, x.size, x.sectors, src.disk, src.checksum, used)
  {
    hide *;
    DataIsNotFirst(l, p);
    OneBlockFits(l, p, q);
    MisnamedLoads(p, q, src);
    OneBlockIs(p, q);
    OneBlockSize(q);
    var x := Misnamed(p, q, src.checksum);
    MisnamedIs(p, q, src.checksum);
    TreeInodeParts(l, x, src, {});
    NotAgreed(x.area, OneBlock(p, q));
    OpensExactly(l, x, src, {}, used);
  }

  lemma {:induction false} DataIsNotFirst(l: Layout, p: nat)
    requires l.blocksPerGroup > 0 && l.DataBlock(p)
    ensures 0 < p
  {
  }

  lemma {:induction false} MisnamedIs(p: nat, q: nat, checksum: (nat, Bytes.Block) -> nat)
    requires 0 < p < LIMIT64 && q < LIMIT64
    ensures Misnamed(p, q, checksum).size == 4096 && Misnamed(p, q, checksum).sectors == 16
  {
    hide AreaBytes, RefsOf;
  }

  lemma {:induction false} OneBlockSize(q: nat)
    ensures InodeDisk.SizeOk([Extent(0, q, 1)], 1, 4096, 16)
  {
    var es := [Extent(0, q, 1)];
    assert es[1..] == [] && TotalLength(es) == 1 + TotalLength(es[1..]);
  }

  lemma {:induction false} NotAgreed(a: Area, leaves: seq<Leaf>)
    requires |leaves| == 1 && leaves[0].extents != [] && leaves[0].extents[0].logical == 0 && RefAt(a, 0).logical == 1
    ensures !InodeDisk.RefsAgree(a, 0, leaves)
  {
    assert RefAt(a, 0 + 0).logical != leaves[0].extents[0].logical;
  }
}
