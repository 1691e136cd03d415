/** Who owns a block, as the checker sees it. */
module FsckOwners {
  import opened Bytes
  import opened Allocator
  import opened ExtentSpec
  import opened ExtentSteps
  import opened InodeSpec
  import opened FsckSpec
  import InodeDisk

  // ----- owners

  ghost predicate AllData(l: Layout, blocks: set<nat>)
    requires l.blocksPerGroup > 0
  {
    forall b :: b in blocks ==> l.DataBlock(b)
  }

  predicate EndsFit(es: seq<Extent>) {
    forall i :: 0 <= i < |es| ==> es[i].End() < LIMIT64
  }

  /** The extents of a leaf are in order from `next` on, and their blocks are data blocks that nobody owns yet. */
  ghost predicate ArrayOk(l: Layout, es: seq<Extent>, next: nat, seen: set<nat>)
    requires l.blocksPerGroup > 0
  {
    Sorted(es, next) && Unshared(es) && Blocks(es) !! seen && AllData(l, Blocks(es)) && EndsFit(es)
  }

  /** The whole tree is well formed, and owns data blocks only that nobody owns yet. */
  ghost predicate TreeFits(l: Layout, leaves: seq<Leaf>, seen: set<nat>)
    requires l.blocksPerGroup > 0
  {
    TreeOk(leaves) && Owned(leaves) !! seen && AllData(l, Owned(leaves)) && EndsFit(Flat(leaves))
  }

  /** The logical block behind a list of extents. */
  function Behind(es: seq<Extent>): nat {
    if es == [] then 0 else es[|es| - 1].End()
  }

  lemma {:induction false} SortedBoth(a: seq<Extent>, b: seq<Extent>)
    ensures Sorted(a + b, 0) <==> Sorted(a, 0) && Sorted(b, Behind(a))
  {
    if Sorted(a + b, 0) {
      SortedSplit(a, b, 0);
    }
    if Sorted(a, 0) && Sorted(b, Behind(a)) {
      SortedAppend(a, b, 0, Behind(a));
    }
  }

  /** The first extent of a list taken alone. */
  lemma {:induction false} ArrayStep(l: Layout, es: seq<Extent>, next: nat, seen: set<nat>)
    requires l.blocksPerGroup > 0 && es != []
    ensures ArrayOk(l, es, next, seen)
            <==> && 0 < es[0].length <= MAX_LENGTH && next <= es[0].logical && es[0].End() < LIMIT64
                 && es[0].Blocks() !! seen && AllData(l, es[0].Blocks())
                 && ArrayOk(l, es[1..], es[0].End(), seen + es[0].Blocks())
  {
    assert es == [es[0]] + es[1..];
    EndsBoth([es[0]], es[1..]);
    hide Layout.DataBlock, Extent.Blocks;
  }

  predicate LeafSizes(leaves: seq<Leaf>) {
    forall i :: 0 <= i < |leaves| ==> 0 < |leaves[i].extents| <= PER_LEAF
  }

  /** The parts of being well formed. */
  lemma {:induction false} TreeParts(l: Layout, leaves: seq<Leaf>, seen: set<nat>, es: seq<Extent>, blocks: set<nat>,
                                     own: set<nat>)
    requires l.blocksPerGroup > 0 && es == Flat(leaves) && blocks == Blocks(es) && own == LeafBlocks(leaves)
    ensures Owned(leaves) == blocks + own
    ensures TreeFits(l, leaves, seen)
            <==> && |leaves| <= ROOT_REFS && LeafSizes(leaves) && DistinctLeaves(leaves) && Sorted(es, 0) && Unshared(es)
                 && own !! blocks && blocks + own !! seen && AllData(l, blocks + own) && EndsFit(es)
  {
    hide Flat, Blocks, LeafBlocks, Sorted, Unshared, DistinctLeaves, AllData, EndsFit;
  }

  /** The sets of a tree with one leaf more. */
  lemma {:induction false} TreeSets(blocks: set<nat>, own: set<nat>, more: set<nat>, leaf: nat, seen: set<nat>)
    ensures blocks !! more && leaf !in own && own + {leaf} !! blocks + more && blocks + more + (own + {leaf}) !! seen
            <==> && own !! blocks && blocks + own !! seen
                 && leaf !in seen + (blocks + own) && more !! seen + (blocks + own) + {leaf}
  {
  }

  lemma {:induction false} DataSets(l: Layout, a: set<nat>, b: set<nat>)
    requires l.blocksPerGroup > 0
    ensures AllData(l, a + b) <==> AllData(l, a) && AllData(l, b)
  {
    hide Layout.DataBlock;
  }

  /** A tree with one leaf more. */
  lemma {:induction false} TreeStep(l: Layout, front: seq<Leaf>, leaf: Leaf, seen: set<nat>)
    requires l.blocksPerGroup > 0 && |front| < ROOT_REFS
    ensures TreeFits(l, front + [leaf], seen)
            <==> && TreeFits(l, front, seen) && 0 < |leaf.extents| <= PER_LEAF
                 && l.DataBlock(leaf.block) && leaf.block !in seen + Owned(front)
                 && ArrayOk(l, leaf.extents, Behind(Flat(front)), seen + Owned(front) + {leaf.block})
    ensures Owned(front + [leaf]) == Owned(front) + {leaf.block} + Blocks(leaf.extents)
  {
    var all, es, x := front + [leaf], leaf.extents, leaf.block;
    FlatAppend(front, [leaf]);
    LeafSingle(leaf, 0, 0);
    LeafBlocksAppend(front, [leaf]);
    BlocksAppend(Flat(front), es);
    SortedBoth(Flat(front), es);
    EndsBoth(Flat(front), es);
    SizesBoth(front, leaf);
    var blocks, own, more := Blocks(Flat(front)), LeafBlocks(front), Blocks(es);
    TreeParts(l, front, seen, Flat(front), blocks, own);
    TreeParts(l, all, seen, Flat(all), blocks + more, own + {x});
    TreeSets(blocks, own, more, x, seen);
    assert blocks + more + (own + {x}) == blocks + own + {x} + more;
    DataSets(l, blocks + own + {x}, more);
    DataSets(l, blocks + own, {x});
    assert AllData(l, {x}) <==> l.DataBlock(x);
    hide *;
    ArrayParts(l, es, Behind(Flat(front)), seen + (blocks + own) + {x});
  }

  lemma {:induction false} ArrayParts(l: Layout, es: seq<Extent>, next: nat, seen: set<nat>)
    requires l.blocksPerGroup > 0
    ensures ArrayOk(l, es, next, seen)
            <==> Sorted(es, next) && Unshared(es) && Blocks(es) !! seen && AllData(l, Blocks(es)) && EndsFit(es)
  {
  }

  lemma {:induction false} SizesBoth(front: seq<Leaf>, leaf: Leaf)
    ensures LeafSizes(front + [leaf]) <==> LeafSizes(front) && 0 < |leaf.extents| <= PER_LEAF
  {
    var all := front + [leaf];
    assert all[|front|] == leaf;
    assert forall i :: 0 <= i < |front| ==> all[i] == front[i];
  }

  lemma {:induction false} EndsBoth(a: seq<Extent>, b: seq<Extent>)
    ensures EndsFit(a + b) <==> EndsFit(a) && EndsFit(b)
  {
    if EndsFit(a + b) {
      forall i | 0 <= i < |a| ensures a[i].End() < LIMIT64 {
        assert (a + b)[i] == a[i];
      }
      forall i | 0 <= i < |b| ensures b[i].End() < LIMIT64 {
        assert (a + b)[|a| + i] == b[i];
      }
    }
  }

  // ----- inodes

  /** A regular inode with an extent tree, as it is stored. */
  datatype TreeInode = TreeInode(area: Area, size: nat, sectors: nat)

  /** An inode: the blocks it names one by one (attributes, blocks and index of a directory) and its tree. */
  datatype Inode = Unused | InUse(single: seq<nat>, tree: Option<TreeInode>)

  /** What the checker reads the leaves from. */
  datatype Source = Source(disk: map<nat, Block>, checksum: (nat, Block) -> nat) {
    function Leaves(a: Area): Option<seq<Leaf>> { LoadOp(a, disk, checksum) }
  }

  function Elements(bs: seq<nat>): set<nat> { set i | 0 <= i < |bs| :: bs[i] }

  /** Data blocks without another owner, each named once. */
  predicate SinglesOk(l: Layout, bs: seq<nat>, seen: set<nat>)
    requires l.blocksPerGroup > 0
  {
    && (forall i :: 0 <= i < |bs| ==> l.DataBlock(bs[i]) && bs[i] !in seen)
    && (forall i, k :: 0 <= i < k < |bs| ==> bs[i] != bs[k])
  }

  /** The tree loads, is well formed, owns data blocks without another owner, and agrees with size and sector count. */
  ghost predicate TreeInodeOk(l: Layout, x: TreeInode, src: Source, seen: set<nat>)
    requires l.blocksPerGroup > 0
  {
    && src.Leaves(x.area).Some?
    && var leaves := src.Leaves(x.area).value;
       && TreeFits(l, leaves, seen) && InodeDisk.SizeOk(Flat(leaves), |leaves|, x.size, x.sectors)
  }

  ghost predicate InodeOk(l: Layout, x: Inode, src: Source, seen: set<nat>)
    requires l.blocksPerGroup > 0
  {
    x.InUse? ==>
      && SinglesOk(l, x.single, seen)
      && (x.tree.Some? ==> TreeInodeOk(l, x.tree.value, src, seen + Elements(x.single)))
  }

  /** The blocks an inode owns. */
  ghost function TreeOwned(x: Inode, src: Source): set<nat> {
    if x.InUse? && x.tree.Some? && src.Leaves(x.tree.value.area).Some? then Owned(src.Leaves(x.tree.value.area).value) else {}
  }

  ghost function InodeOwned(x: Inode, src: Source): set<nat> {
    (if x.InUse? then Elements(x.single) else {}) + TreeOwned(x, src)
  }

  ghost function OwnedByAll(xs: seq<Inode>, src: Source): set<nat> {
    if xs == [] then {} else OwnedByAll(xs[..|xs| - 1], src) + InodeOwned(xs[|xs| - 1], src)
  }

  /** Every inode passes, no block has two owners, and the root inode is there. */
  ghost predicate OwnersOk(l: Layout, xs: seq<Inode>, src: Source, seen: set<nat>)
    requires l.blocksPerGroup > 0
  {
    && (forall i :: 0 <= i < |xs| ==> InodeOk(l, xs[i], src, seen))
    && (forall i, k :: 0 <= i < k < |xs| ==> InodeOwned(xs[i], src) !! InodeOwned(xs[k], src))
    && (xs != [] ==> xs[0].InUse?)
  }

  lemma {:induction false} OwnedMember(xs: seq<Inode>, src: Source, s: set<nat>)
    ensures OwnedByAll(xs, src) !! s <==> forall i :: 0 <= i < |xs| ==> InodeOwned(xs[i], src) !! s
  {
    hide InodeOwned;
    if xs != [] {
      OwnedMember(xs[..|xs| - 1], src, s);
    }
  }

  /** A tree fits beside more owners exactly when it fits and owns none of their blocks. */
  lemma {:induction false} FitsBeside(l: Layout, leaves: seq<Leaf>, seen: set<nat>, more: set<nat>)
    requires l.blocksPerGroup > 0
    ensures TreeFits(l, leaves, seen + more) <==> TreeFits(l, leaves, seen) && more !! Owned(leaves)
  {
    hide Owned, TreeOk, Flat, Layout.DataBlock;
  }

  lemma {:induction false} SinglesBeside(l: Layout, bs: seq<nat>, seen: set<nat>, more: set<nat>)
    requires l.blocksPerGroup > 0
    ensures SinglesOk(l, bs, seen + more) <==> SinglesOk(l, bs, seen) && more !! Elements(bs)
  {
    hide Layout.DataBlock;
    if SinglesOk(l, bs, seen) && more !! Elements(bs) {
      forall i | 0 <= i < |bs| ensures bs[i] !in more {
        assert bs[i] in Elements(bs);
      }
    }
  }

  /** The same for a whole inode. */
  lemma {:induction false} InodeBeside(l: Layout, x: Inode, src: Source, seen: set<nat>, more: set<nat>)
    requires l.blocksPerGroup > 0
    ensures InodeOk(l, x, src, seen + more) <==> InodeOk(l, x, src, seen) && more !! InodeOwned(x, src)
  {
    if x.InUse? {
      SinglesBeside(l, x.single, seen, more);
      if x.tree.Some? && src.Leaves(x.tree.value.area).Some? {
        assert seen + more + Elements(x.single) == seen + Elements(x.single) + more;
        FitsBeside(l, src.Leaves(x.tree.value.area).value, seen + Elements(x.single), more);
      }
    }
    hide SinglesOk, Owned, TreeFits, Elements, Source.Leaves, InodeDisk.SizeOk;
  }

  /** One inode more. */
  lemma {:induction false} OwnersStep(l: Layout, xs: seq<Inode>, n: nat, src: Source, seen: set<nat>)
    requires l.blocksPerGroup > 0 && n < |xs|
    ensures OwnersOk(l, xs[..n + 1], src, seen)
            <==> && OwnersOk(l, xs[..n], src, seen) && InodeOk(l, xs[n], src, seen + OwnedByAll(xs[..n], src))
                 && (n == 0 ==> xs[0].InUse?)
    ensures OwnedByAll(xs[..n + 1], src) == OwnedByAll(xs[..n], src) + InodeOwned(xs[n], src)
  {
    hide *;
    OwnersSplit(l, xs, n, src, seen);
    OwnedSnoc(xs, n, src);
    OwnedMember(xs[..n], src, InodeOwned(xs[n], src));
    assert forall i :: 0 <= i < n ==> xs[..n][i] == xs[i];
    InodeBeside(l, xs[n], src, seen, OwnedByAll(xs[..n], src));
  }

  lemma {:induction false} OwnedSnoc(xs: seq<Inode>, n: nat, src: Source)
    requires n < |xs|
    ensures OwnedByAll(xs[..n + 1], src) == OwnedByAll(xs[..n], src) + InodeOwned(xs[n], src)
  {
    hide InodeOwned;
    assert xs[..n + 1][..n] == xs[..n];
  }

  lemma {:induction false} OwnersSplit(l: Layout, xs: seq<Inode>, n: nat, src: Source, seen: set<nat>)
    requires l.blocksPerGroup > 0 && n < |xs|
    ensures OwnersOk(l, xs[..n + 1], src, seen)
            <==> && OwnersOk(l, xs[..n], src, seen) && InodeOk(l, xs[n], src, seen) && (n == 0 ==> xs[0].InUse?)
                 && forall i :: 0 <= i < n ==> InodeOwned(xs[i], src) !! InodeOwned(xs[n], src)
  {
    hide InodeOwned, InodeOk;
    var front, all := xs[..n], xs[..n + 1];
    assert all[n] == xs[n] && forall i :: 0 <= i < n ==> all[i] == front[i] == xs[i];
    if OwnersOk(l, all, src, seen) {
      assert InodeOk(l, all[n], src, seen);
      forall i | 0 <= i < n ensures InodeOk(l, front[i], src, seen) && InodeOwned(xs[i], src) !! InodeOwned(xs[n], src) {
        assert InodeOk(l, all[i], src, seen) && InodeOwned(all[i], src) !! InodeOwned(all[n], src);
      }
      forall i, k | 0 <= i < k < n ensures InodeOwned(front[i], src) !! InodeOwned(front[k], src) {
        assert InodeOwned(all[i], src) !! InodeOwned(all[k], src);
      }
    }
  }

  // ----- loading, reference by reference

  /** The leaf of a reference that passes. */
  function LeafAt(a: Area, i: nat, src: Source): Leaf
    requires i < ROOT_REFS && LeafOk(RefAt(a, i), src.disk, src.checksum)
  {
    var r := RefAt(a, i);
    Leaf(r.block, ReadExtents(src.disk[r.block], r.entries))
  }

  /** The leaves of the first `i` references. */
  function Loaded(a: Area, i: nat, src: Source): Option<seq<Leaf>>
    requires i <= ROOT_REFS
  {
    LoadLeaves(a, 0, i, src.disk, src.checksum)
  }

  lemma {:induction false} LoadMore(a: Area, k: nat, i: nat, src: Source)
    requires k <= i < ROOT_REFS
    ensures var before := LoadLeaves(a, k, i, src.disk, src.checksum);
            var after := LoadLeaves(a, k, i + 1, src.disk, src.checksum);
            if before.None? || !LeafOk(RefAt(a, i), src.disk, src.checksum) then after.None?
            else after == Some(before.value + [LeafAt(a, i, src)]) && |before.value| == i - k
    decreases i - k
  {
    hide LeafOk, RefAt, ReadExtents;
    var before := LoadLeaves(a, k, i, src.disk, src.checksum);
    if k < i {
      LoadMore(a, k + 1, i, src);
      var rest := LoadLeaves(a, k + 1, i, src.disk, src.checksum);
      if before.Some? && LeafOk(RefAt(a, i), src.disk, src.checksum) {
        assert before.value == [LeafAt(a, k, src)] + rest.value;
        assert before.value + [LeafAt(a, i, src)] == [LeafAt(a, k, src)] + (rest.value + [LeafAt(a, i, src)]);
      }
    } else {
      assert before == Some([]) && LoadLeaves(a, i + 1, i + 1, src.disk, src.checksum) == Some([]);
      if LeafOk(RefAt(a, i), src.disk, src.checksum) {
        assert [LeafAt(a, i, src)] + [] == [] + [LeafAt(a, i, src)];
      }
    }
  }

  /** A reference that does not pass spoils the whole tree. */
  lemma {:induction false} LoadNone(a: Area, k: nat, i: nat, count: nat, src: Source)
    requires k <= i < count <= ROOT_REFS && !LeafOk(RefAt(a, i), src.disk, src.checksum)
    ensures LoadLeaves(a, k, count, src.disk, src.checksum).None?
    decreases i - k
  {
    hide LeafOk, RefAt, ReadExtents;
    if k < i {
      LoadNone(a, k + 1, i, count, src);
    }
  }

  lemma {:induction false} LeafAtFacts(a: Area, i: nat, src: Source)
    requires i < ROOT_REFS && LeafOk(RefAt(a, i), src.disk, src.checksum)
    ensures var leaf, r := LeafAt(a, i, src), RefAt(a, i);
            && leaf.block == r.block != 0 && 0 < |leaf.extents| == r.entries <= PER_LEAF && r.block in src.disk
            && leaf.extents == ReadExtents(src.disk[r.block], r.entries)
  {
    hide RefAt, Value;
  }

  lemma {:induction false} NoLeaves(l: Layout, seen: set<nat>)
    requires l.blocksPerGroup > 0
    ensures TreeFits(l, [], seen) && Owned([]) == {} && Behind(Flat([])) == 0 && TotalLength(Flat([])) == 0
  {
  }

  lemma {:induction false} BehindFlat(front: seq<Leaf>, leaf: Leaf)
    requires leaf.extents != []
    ensures Behind(Flat(front + [leaf])) == Behind(leaf.extents)
    ensures TotalLength(Flat(front + [leaf])) == TotalLength(Flat(front)) + TotalLength(leaf.extents)
  {
    FlatAppend(front, [leaf]);
    LeafSingle(leaf, 0, 0);
    LengthOfBoth(Flat(front), leaf.extents);
  }

  // ----- the check of a tree, leaf by leaf

  /** A leaf is what its reference says, and continues a tree that ends at block `from`. */
  ghost predicate LeafPasses(l: Layout, r: Ref, src: Source, from: nat, seen: set<nat>)
    requires l.blocksPerGroup > 0
  {
    && LeafOk(r, src.disk, src.checksum) && l.DataBlock(r.block) && r.block !in seen
    && ArrayOk(l, ReadExtents(src.disk[r.block], r.entries), from, seen + {r.block})
  }

  /** What is known behind `i` references: whether all was well, and if so, where the mapping ends and how many blocks
      the tree owns. */
  ghost predicate Progress(l: Layout, a: Area, i: nat, src: Source, seen: set<nat>, ok: bool, next: nat, blocks: nat)
    requires l.blocksPerGroup > 0 && i <= ROOT_REFS
  {
    && (ok <==> Loaded(a, i, src).Some? && TreeFits(l, Loaded(a, i, src).value, seen))
    && (ok ==> var leaves := Loaded(a, i, src).value;
               && |leaves| == i && next == Behind(Flat(leaves)) && blocks == TotalLength(Flat(leaves)) + i)
  }

  lemma {:induction false} StartLoading(l: Layout, a: Area, src: Source, seen: set<nat>)
    requires l.blocksPerGroup > 0
    ensures Progress(l, a, 0, src, seen, true, 0, 0) && Loaded(a, 0, src).Some? && Owned(Loaded(a, 0, src).value) == {}
  {
    NoLeaves(l, seen);
  }

  /** One reference more. */
  lemma {:induction false} Advance(l: Layout, a: Area, i: nat, src: Source, seen: set<nat>, ok: bool, next: nat,
                                   blocks: nat,
                                   good: bool, after: nat, more: nat)
    requires l.blocksPerGroup > 0 && i < ROOT_REFS && Progress(l, a, i, src, seen, ok, next, blocks)
    requires ok ==> (good <==> LeafPasses(l, RefAt(a, i), src, next, seen + Owned(Loaded(a, i, src).value)))
    requires good ==> LeafOk(RefAt(a, i), src.disk, src.checksum)
    requires good ==> after == Behind(LeafAt(a, i, src).extents) && more == 1 + TotalLength(LeafAt(a, i, src).extents)
    ensures Progress(l, a, i + 1, src, seen, ok && good, after, blocks + more)
    ensures ok && good ==> && Loaded(a, i, src).Some? && Loaded(a, i + 1, src).Some?
                           && var leaf := LeafAt(a, i, src);
                              Owned(Loaded(a, i + 1, src).value)
                              == Owned(Loaded(a, i, src).value) + {leaf.block} + Blocks(leaf.extents)
  {
    LoadMore(a, 0, i, src);
    hide TreeFits, ArrayOk, Owned, Flat, Behind, Blocks, Layout.DataBlock, LeafOk, RefAt, LoadLeaves, TotalLength;
    hide ReadExtents;
    if Loaded(a, i, src).Some? && LeafOk(RefAt(a, i), src.disk, src.checksum) {
      var front, leaf := Loaded(a, i, src).value, LeafAt(a, i, src);
      LeafAtFacts(a, i, src);
      TreeStep(l, front, leaf, seen);
      BehindFlat(front, leaf);
    }
  }

  /** A bad reference. */
  lemma {:induction false} BadReference(l: Layout, x: TreeInode, i: nat, count: nat, src: Source, seen: set<nat>)
    requires l.blocksPerGroup > 0 && HeaderOk(x.area) && count == Value(x.area[2..4]) && i < count
    requires var r := RefAt(x.area, i); r.block == 0 || r.entries == 0 || r.entries > PER_LEAF
    ensures !TreeInodeOk(l, x, src, seen)
  {
    hide LoadLeaves, Value, RefAt;
    LoadNone(x.area, 0, i, count, src);
  }

  /** What is known behind the last reference. */
  lemma {:induction false} LoadedAll(l: Layout, x: TreeInode, count: nat, src: Source, seen: set<nat>)
    requires l.blocksPerGroup > 0 && HeaderOk(x.area) && count == Value(x.area[2..4])
    ensures count <= ROOT_REFS && src.Leaves(x.area) == Loaded(x.area, count, src)
  {
    hide LoadLeaves, Value;
  }

  lemma {:induction false} ProgressEnd(l: Layout, x: TreeInode, count: nat, src: Source, seen: set<nat>, ok: bool,
                                       next: nat, blocks: nat)
    requires l.blocksPerGroup > 0 && count <= ROOT_REFS && src.Leaves(x.area) == Loaded(x.area, count, src)
    requires Progress(l, x.area, count, src, seen, ok, next, blocks)
    ensures TreeInodeOk(l, x, src, seen)
            <==> && ok && x.size <= FILE_BLOCKS_MAX * BLOCK_SIZE && next <= InodeDisk.SizeBlocks(x.size)
                 && !(x.size == 0 && blocks != 0) && x.sectors == blocks * InodeDisk.SECTORS
  {
    if ok {
      var leaves := Loaded(x.area, count, src).value;
      TreeInOrder(l, leaves, seen);
      hide *;
      ProgressParts(l, x.area, count, src, seen, ok, next, blocks);
      EmptyBehind(Flat(leaves));
      InodeDisk.SizesAgree(leaves, x.size, x.sectors, next, TotalLength(Flat(leaves)));
      NothingOwned(leaves);
      TreeInodeParts(l, x, src, seen);
    } else {
      hide TreeFits, Flat, Behind, TotalLength, InodeDisk.SizeOk, Loaded, Source.Leaves;
    }
  }

  lemma {:induction false} NothingOwned(leaves: seq<Leaf>)
    ensures TotalLength(Flat(leaves)) + |leaves| == 0 <==> leaves == []
  {
    hide TotalLength, Flat;
    if leaves == [] {
      InodeDisk.FlatNothing(leaves);
    }
  }

  lemma {:induction false} TreeInOrder(l: Layout, leaves: seq<Leaf>, seen: set<nat>)
    requires l.blocksPerGroup > 0 && TreeFits(l, leaves, seen)
    ensures Sorted(Flat(leaves), 0) && forall k :: 0 <= k < |leaves| ==> leaves[k].extents != []
  {
    hide Flat, Unshared, Blocks, LeafBlocks, DistinctLeaves, Layout.DataBlock, Sorted;
  }

  lemma {:induction false} ProgressParts(l: Layout, a: Area, i: nat, src: Source, seen: set<nat>, ok: bool, next: nat,
                                         blocks: nat)
    requires l.blocksPerGroup > 0 && i <= ROOT_REFS && Progress(l, a, i, src, seen, ok, next, blocks) && ok
    ensures Loaded(a, i, src).Some?
    ensures var leaves := Loaded(a, i, src).value;
            TreeFits(l, leaves, seen) && next == Behind(Flat(leaves)) && blocks == TotalLength(Flat(leaves)) + |leaves|
  {
    hide TreeFits, Flat, Behind, TotalLength, Loaded;
  }

  lemma {:induction false} EmptyBehind(es: seq<Extent>)
    ensures InodeDisk.Behind(es, 0) == Behind(es)
  {
  }

  lemma {:induction false} TreeInodeParts(l: Layout, x: TreeInode, src: Source, seen: set<nat>)
    requires l.blocksPerGroup > 0
    ensures TreeInodeOk(l, x, src, seen)
            <==> && src.Leaves(x.area).Some?
                 && var leaves := src.Leaves(x.area).value;
                    TreeFits(l, leaves, seen) && InodeDisk.SizeOk(Flat(leaves), |leaves|, x.size, x.sectors)
  {
    hide TreeFits, Flat, InodeDisk.SizeOk, Source.Leaves;
  }

  lemma {:induction false} TreeLoads(l: Layout, x: TreeInode, src: Source, seen: set<nat>)
    requires l.blocksPerGroup > 0
    ensures TreeInodeOk(l, x, src, seen) ==> src.Leaves(x.area).Some?
  {
  }

  lemma {:induction false} SinglesNext(l: Layout, bs: seq<nat>, i: nat, seen: set<nat>)
    requires l.blocksPerGroup > 0 && i < |bs|
    ensures SinglesOk(l, bs[..i + 1], seen)
            <==> SinglesOk(l, bs[..i], seen) && l.DataBlock(bs[i]) && bs[i] !in seen + Elements(bs[..i])
    ensures Elements(bs[..i + 1]) == Elements(bs[..i]) + {bs[i]}
  {
    hide Layout.DataBlock;
    var front, all := bs[..i], bs[..i + 1];
    assert forall k :: 0 <= k < i ==> all[k] == front[k];
    assert all[i] == bs[i];
    forall b ensures b in Elements(all) <==> b in Elements(front) || b == bs[i] {
      if b in Elements(all) {
        var k :| 0 <= k < |all| && all[k] == b;
        assert k < i ==> front[k] == b;
      }
      if b in Elements(front) {
        var k :| 0 <= k < |front| && front[k] == b;
        assert all[k] == b;
      }
    }
    if SinglesOk(l, front, seen) && bs[i] !in Elements(front) {
      forall k | 0 <= k < i ensures all[k] != all[i] {
        assert front[k] in Elements(front);
      }
    }
    if SinglesOk(l, all, seen) {
      forall k | 0 <= k < i ensures l.DataBlock(front[k]) && front[k] !in seen && front[k] != bs[i] {
        assert l.DataBlock(all[k]) && all[k] !in seen && all[k] != all[i];
      }
      forall j, k | 0 <= j < k < i ensures front[j] != front[k] {
        assert all[j] != all[k];
      }
    }
  }

  lemma {:induction false} NoOwners(l: Layout, src: Source, seen: set<nat>)
    requires l.blocksPerGroup > 0
    ensures OwnersOk(l, [], src, seen) && OwnedByAll([], src) == {}
  {
  }

  // ----- inodes in use

  /** One mark for each inode. */
  function InUseMarks(xs: seq<Inode>): (r: seq<bool>)
    ensures |r| == |xs|
  {
    seq(|xs|, i requires 0 <= i < |xs| => xs[i].InUse?)
  }

  function InUseCount(xs: seq<Inode>): nat {
    if xs == [] then 0 else InUseCount(xs[..|xs| - 1]) + if xs[|xs| - 1].InUse? then 1 else 0
  }

  lemma {:induction false} CountOfMarks(xs: seq<Inode>, marks: seq<bool>)
    requires marks == InUseMarks(xs)
    ensures |set i: nat | i < |xs| && marks[i]| == InUseCount(xs)
  {
    if xs != [] {
      var n := |xs| - 1;
      CountOfMarks(xs[..n], marks[..n]);
      var front, all := set i: nat | i < n && marks[..n][i], set i: nat | i < |xs| && marks[i];
      assert all == front + if marks[n] then {n} else {};
    }
  }
}
