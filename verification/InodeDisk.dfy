/** Writing, loading and validating an inode. */
module InodeDisk {
  import opened Bytes
  import opened ExtentSpec
  import opened ExtentSteps
  import opened InodeSpec

  const SECTORS := 8 // CRYEXTS_BLOCK_SIZE / 512

  /** The size of a file in blocks. */
  function SizeBlocks(size: nat): nat { (size + BLOCK_SIZE - 1) / BLOCK_SIZE }

  /** The size covers every mapped block. */
  ghost predicate Covered(es: seq<Extent>, size: nat) {
    forall l: nat :: Resolve(es, l).Some? ==> l * BLOCK_SIZE < size
  }

  /** Size and sector count of a file agree with the extents it maps and the leaves that hold them. */
  ghost predicate SizeOk(es: seq<Extent>, leafBlocks: nat, size: nat, sectors: nat) {
    size <= FILE_BLOCKS_MAX * BLOCK_SIZE && Covered(es, size) && sectors * 512 == (TotalLength(es) + leafBlocks) * BLOCK_SIZE
  }

  /** The last mapped block decides whether the size covers them all. */
  lemma {:induction false} CoveredExactly(es: seq<Extent>, from: nat, size: nat)
    requires Sorted(es, from)
    ensures Covered(es, size) <==> Bound(es) <= SizeBlocks(size)
  {
    if es != [] {
      LastResolves(es, from);
      forall l: nat | Resolve(es, l).Some? ensures l < Bound(es) {
        BoundCovers(es, l);
      }
      if Covered(es, size) {
        assert (Bound(es) - 1) * BLOCK_SIZE < size;
      }
    }
  }

  lemma {:induction false} LastResolves(es: seq<Extent>, from: nat)
    requires Sorted(es, from) && es != []
    ensures Bound(es) > from && Resolve(es, Bound(es) - 1).Some?
  {
    if |es| > 1 {
      LastResolves(es[1..], es[0].End());
    } else {
      assert es[1..] == [];
    }
  }

  // ----- validation

  /** All blocks of an extent are data blocks in use. */
  predicate BlocksUsed(e: Extent, used: nat -> bool) {
    forall p: nat :: e.physical <= p < e.physical + e.length ==> used(p)
  }

  /** The checks on one extent; the first one of a leaf must start where the reference says. */
  predicate ExtentOk(e: Extent, next: nat, first: Option<nat>, used: nat -> bool) {
    && 0 < e.length <= MAX_LENGTH && (first.Some? ==> e.logical == first.value)
    && next <= e.logical && e.logical + e.length < LIMIT64
    && used(e.physical) && BlocksUsed(e, used)
  }

  /** The extents of a leaf from the `j`-th on: the logical block behind them. */
  function CheckExtents(es: seq<Extent>, next: nat, first: Option<nat>, used: nat -> bool): Option<nat> {
    if es == [] then Some(next)
    else if !ExtentOk(es[0], next, first, used) then None
    else CheckExtents(es[1..], es[0].End(), None, used)
  }

  datatype Checked = Good(next: nat, data: nat) | Bad

  /** The references from the `i`-th on: the logical block behind all extents, and the number of data blocks. */
  function CheckLeaves(a: Area, i: nat, count: nat, next: nat, data: nat, disk: map<nat, Block>,
                       checksum: (nat, Block) -> nat, used: nat -> bool): Checked
    requires i <= count <= ROOT_REFS
    decreases count - i
  {
    if i == count then Good(next, data)
    else
      var r := RefAt(a, i);
      if r.block == 0 || r.entries == 0 || r.entries > PER_LEAF || r.logical < next || !used(r.block)
         || !LeafOk(r, disk, checksum) then Bad
      else
        var es := ReadExtents(disk[r.block], r.entries);
        match CheckExtents(es, next, Some(r.logical), used)
        case None => Bad
        case Some(after) => CheckLeaves(a, i + 1, count, after, data + TotalLength(es), disk, checksum, used)
  }

  /** The checks on a regular inode with an extent tree. */
  predicate Accepted(a: Area, size: nat, sectors: nat, disk: map<nat, Block>, checksum: (nat, Block) -> nat,
                     used: nat -> bool) {
    && HeaderOk(a)
    && var count := Value(a[2..4]);
       match CheckLeaves(a, 0, count, 0, 0, disk, checksum, used)
       case Bad => false
       case Good(next, data) =>
         && next <= SizeBlocks(size)
         && !(size == 0 && (data != 0 || count != 0))
         && size <= FILE_BLOCKS_MAX * BLOCK_SIZE
         && sectors == (data + count) * SECTORS
  }

  // ----- what is accepted

  predicate ExtentsUsed(es: seq<Extent>, used: nat -> bool) {
    forall j :: 0 <= j < |es| ==> es[j].End() < LIMIT64 && BlocksUsed(es[j], used)
  }

  /** All leaf blocks and all blocks of extents are in use, and numbers fit their fields. */
  predicate AllUsed(leaves: seq<Leaf>, used: nat -> bool) {
    forall i :: 0 <= i < |leaves| ==> used(leaves[i].block) && ExtentsUsed(leaves[i].extents, used)
  }

  /** The references from the `i`-th on start where their leaves do. */
  predicate RefsAgree(a: Area, i: nat, leaves: seq<Leaf>)
    requires i + |leaves| <= ROOT_REFS
  {
    forall k :: 0 <= k < |leaves| ==> leaves[k].extents != [] && RefAt(a, i + k).logical == leaves[k].extents[0].logical
  }

  /** The logical block behind a list of extents that starts at `next` or later. */
  function Behind(es: seq<Extent>, next: nat): nat {
    if es == [] then next else es[|es| - 1].End()
  }

  lemma {:induction false} UsedNext(es: seq<Extent>, used: nat -> bool)
    requires es != []
    ensures ExtentsUsed(es, used) <==> es[0].End() < LIMIT64 && BlocksUsed(es[0], used) && ExtentsUsed(es[1..], used)
  {
    if ExtentsUsed(es[1..], used) && es[0].End() < LIMIT64 && BlocksUsed(es[0], used) {
      forall j | 0 <= j < |es| ensures es[j].End() < LIMIT64 && BlocksUsed(es[j], used) {
        assert j > 0 ==> es[j] == es[1..][j - 1];
      }
    }
    if ExtentsUsed(es, used) {
      forall j | 0 <= j < |es[1..]| ensures es[1..][j].End() < LIMIT64 && BlocksUsed(es[1..][j], used) {
        assert es[1..][j] == es[j + 1];
      }
    }
  }

  /** Any list of extents: accepted exactly when it is in order, in use, and starts where the reference says. */
  lemma {:induction false} ExtentsExactly(es: seq<Extent>, next: nat, first: Option<nat>, used: nat -> bool)
    ensures CheckExtents(es, next, first, used)
            == if Sorted(es, next) && ExtentsUsed(es, used) && (es != [] && first.Some? ==> es[0].logical == first.value)
               then Some(Behind(es, next)) else None
  {
    if es != [] {
      ExtentsExactly(es[1..], es[0].End(), None, used);
      UsedNext(es, used);
      assert es[0].length > 0 && BlocksUsed(es[0], used) ==> used(es[0].physical);
      hide BlocksUsed, ExtentsUsed;
    }
  }

  /** What the references from the `i`-th on have to lead to. */
  ghost predicate LeavesGood(a: Area, i: nat, leaves: seq<Leaf>, next: nat, used: nat -> bool)
    requires i + |leaves| <= ROOT_REFS
  {
    Sorted(Flat(leaves), next) && AllUsed(leaves, used) && RefsAgree(a, i, leaves)
  }

  lemma {:induction false} LoadedCount(a: Area, i: nat, count: nat, disk: map<nat, Block>, checksum: (nat, Block) -> nat)
    requires i <= count <= ROOT_REFS
    ensures LoadLeaves(a, i, count, disk, checksum).Some? ==> |LoadLeaves(a, i, count, disk, checksum).value| == count - i
    decreases count - i
  {
    hide LeafOk, RefAt, ReadExtents;
    if i < count {
      LoadedCount(a, i + 1, count, disk, checksum);
    }
  }

  /** One leaf in front of others. */
  lemma {:induction false} LeavesStep(a: Area, i: nat, leaf: Leaf, rest: seq<Leaf>, next: nat, used: nat -> bool)
    requires i + 1 + |rest| <= ROOT_REFS && leaf.extents != []
    ensures LeavesGood(a, i, [leaf] + rest, next, used)
            <==> && Sorted(leaf.extents, next) && ExtentsUsed(leaf.extents, used) && used(leaf.block)
                 && RefAt(a, i).logical == leaf.extents[0].logical
                 && LeavesGood(a, i + 1, rest, Behind(leaf.extents, next), used)
    ensures Behind(Flat([leaf] + rest), next) == Behind(Flat(rest), Behind(leaf.extents, next))
    ensures TotalLength(Flat([leaf] + rest)) == TotalLength(leaf.extents) + TotalLength(Flat(rest))
  {
    var all := [leaf] + rest;
    LeafSingle(leaf, 0, 0);
    FlatAppend([leaf], rest);
    LengthOfBoth(leaf.extents, Flat(rest));
    SortedParts(leaf.extents, Flat(rest), next);
    hide Flat, Sorted, TotalLength, RefAt, ExtentsUsed;
    assert all[0] == leaf && forall k :: 0 <= k < |rest| ==> all[k + 1] == rest[k];
    if AllUsed(all, used) {
      forall k | 0 <= k < |rest| ensures used(rest[k].block) && ExtentsUsed(rest[k].extents, used) {
        assert used(all[k + 1].block) && ExtentsUsed(all[k + 1].extents, used);
      }
    }
    RefsNext(a, i, leaf, rest);
  }

  lemma {:induction false} RefsNext(a: Area, i: nat, leaf: Leaf, rest: seq<Leaf>)
    requires i + 1 + |rest| <= ROOT_REFS && leaf.extents != []
    ensures RefsAgree(a, i, [leaf] + rest)
            <==> RefAt(a, i).logical == leaf.extents[0].logical && RefsAgree(a, i + 1, rest)
  {
    hide RefAt;
    var all := [leaf] + rest;
    assert all[0] == leaf;
    if RefsAgree(a, i, all) {
      assert RefAt(a, i + 0).logical == all[0].extents[0].logical;
      forall k | 0 <= k < |rest| ensures rest[k].extents != [] && RefAt(a, i + 1 + k).logical == rest[k].extents[0].logical {
        assert all[k + 1] == rest[k] && RefAt(a, i + (k + 1)).logical == all[k + 1].extents[0].logical;
      }
    }
    if RefAt(a, i).logical == leaf.extents[0].logical && RefsAgree(a, i + 1, rest) {
      forall k | 0 <= k < |all| ensures all[k].extents != [] && RefAt(a, i + k).logical == all[k].extents[0].logical {
        if k > 0 {
          assert all[k] == rest[k - 1] && RefAt(a, i + 1 + (k - 1)).logical == rest[k - 1].extents[0].logical;
        }
      }
    }
  }

  lemma {:induction false} SortedParts(a: seq<Extent>, b: seq<Extent>, from: nat)
    ensures Sorted(a + b, from) <==> Sorted(a, from) && Sorted(b, Behind(a, from))
  {
    if a == [] {
      assert a + b == b;
    } else {
      SortedParts(a[1..], b, a[0].End());
      assert (a + b)[1..] == a[1..] + b;
    }
  }

  /** Any references: accepted exactly when they lead to leaves that load, in order and in use, and start where the
      references say. */
  lemma {:induction false} LeavesExactly(a: Area, i: nat, count: nat, next: nat, data: nat, disk: map<nat, Block>,
                                         checksum: (nat, Block) -> nat, used: nat -> bool)
    requires i <= count <= ROOT_REFS
    ensures var l := LoadLeaves(a, i, count, disk, checksum);
            && (l.Some? ==> |l.value| == count - i)
            && CheckLeaves(a, i, count, next, data, disk, checksum, used)
               == if l.Some? && LeavesGood(a, i, l.value, next, used)
                  then Good(Behind(Flat(l.value), next), data + TotalLength(Flat(l.value))) else Bad
    decreases count - i
  {
    hide *;
    LoadedCount(a, i, count, disk, checksum);
    if i == count {
      NoReferences(a, count, next, data, disk, checksum, used);
    } else {
      var r := RefAt(a, i);
      CheckStep(a, i, count, next, data, disk, checksum, used, r);
      LoadOne(a, i, count, disk, checksum);
      if LeafOk(r, disk, checksum) {
        LeafOkFacts(r, disk, checksum);
        LeafOkBlock(r, disk, checksum);
        var es := ReadExtents(disk[r.block], r.entries);
        var after := Behind(es, next);
        ExtentsExactly(es, next, Some(r.logical), used);
        SortedStarts(es, next);
        LeavesExactly(a, i + 1, count, after, data + TotalLength(es), disk, checksum, used);
        LoadedCount(a, i + 1, count, disk, checksum);
        var rest := LoadLeaves(a, i + 1, count, disk, checksum);
        if rest.Some? {
          LeavesStep(a, i, Leaf(r.block, es), rest.value, next, used);
        }
      }
    }
  }

  lemma {:induction false} SortedStarts(es: seq<Extent>, next: nat)
    ensures es != [] && Sorted(es, next) ==> es[0].logical >= next
  {
  }

  lemma {:induction false} LoadOne(a: Area, i: nat, count: nat, disk: map<nat, Block>, checksum: (nat, Block) -> nat)
    requires i < count <= ROOT_REFS
    ensures var r, l, rest := RefAt(a, i), LoadLeaves(a, i, count, disk, checksum),
                              LoadLeaves(a, i + 1, count, disk, checksum);
            if !LeafOk(r, disk, checksum) then l.None?
            else
              && r.block in disk && 0 < r.entries <= PER_LEAF && |ReadExtents(disk[r.block], r.entries)| == r.entries
              && l == match rest
                      case None => None
                      case Some(more) => Some([Leaf(r.block, ReadExtents(disk[r.block], r.entries))] + more)
  {
    hide RefAt, Value;
  }

  lemma {:induction false} NoReferences(a: Area, i: nat, next: nat, data: nat, disk: map<nat, Block>,
                                        checksum: (nat, Block) -> nat, used: nat -> bool)
    requires i <= ROOT_REFS
    ensures LoadLeaves(a, i, i, disk, checksum) == Some([])
    ensures CheckLeaves(a, i, i, next, data, disk, checksum, used) == Good(next, data)
    ensures LeavesGood(a, i, [], next, used) && Behind(Flat([]), next) == next && TotalLength(Flat([])) == 0
  {
  }

  /** Main result, over arbitrary contents. An inode is accepted exactly when it loads, its extents are in order and in
      use, its references start where the leaves do, its size covers every mapped block, and its sectors are those of the
      blocks it owns. */
  lemma {:induction false} AcceptedExactly(a: Area, size: nat, sectors: nat, disk: map<nat, Block>,
                                           checksum: (nat, Block) -> nat, used: nat -> bool)
    ensures LoadOp(a, disk, checksum).Some? ==> |LoadOp(a, disk, checksum).value| <= ROOT_REFS
    ensures Accepted(a, size, sectors, disk, checksum, used)
            <==> && LoadOp(a, disk, checksum).Some?
                 && var leaves := LoadOp(a, disk, checksum).value;
                    && Sorted(Flat(leaves), 0) && AllUsed(leaves, used) && RefsAgree(a, 0, leaves)
                    && SizeOk(Flat(leaves), |leaves|, size, sectors)
  {
    hide *;
    HeaderCount(a);
    LoadIs(a, disk, checksum);
    AcceptedIs(a, size, sectors, disk, checksum, used);
    if HeaderOk(a) {
      var count := Value(a[2..4]);
      LeavesExactly(a, 0, count, 0, 0, disk, checksum, used);
      var l := LoadLeaves(a, 0, count, disk, checksum);
      if l.Some? {
        GoodIs(a, l.value, used);
        if LeavesGood(a, 0, l.value, 0, used) {
          SizesAgree(l.value, size, sectors, Behind(Flat(l.value), 0), TotalLength(Flat(l.value)));
        }
      }
    }
  }

  lemma {:induction false} HeaderCount(a: Area)
    ensures HeaderOk(a) <==> Value(a[..2]) == EXTENT_MAGIC && Value(a[4..6]) == ROOT_REFS && Value(a[2..4]) <= ROOT_REFS
                             && Value(a[6..8]) == DEPTH
  {
    hide Value;
  }

  lemma {:induction false} LoadIs(a: Area, disk: map<nat, Block>, checksum: (nat, Block) -> nat)
    ensures HeaderOk(a) ==> Value(a[2..4]) <= ROOT_REFS
    ensures LoadOp(a, disk, checksum)
            == if HeaderOk(a) then LoadLeaves(a, 0, Value(a[2..4]), disk, checksum) else None
  {
    hide LoadLeaves, Value;
  }

  lemma {:induction false} GoodIs(a: Area, leaves: seq<Leaf>, used: nat -> bool)
    requires |leaves| <= ROOT_REFS
    ensures LeavesGood(a, 0, leaves, 0, used) <==> Sorted(Flat(leaves), 0) && AllUsed(leaves, used) && RefsAgree(a, 0, leaves)
    ensures RefsAgree(a, 0, leaves) ==> forall k :: 0 <= k < |leaves| ==> leaves[k].extents != []
  {
    hide Sorted, Flat, AllUsed, RefAt;
  }

  /** The numbers that the check works with say whether size and sectors are right. */
  lemma {:induction false} SizesAgree(leaves: seq<Leaf>, size: nat, sectors: nat, next: nat, data: nat)
    requires Sorted(Flat(leaves), 0) && next == Behind(Flat(leaves), 0) && data == TotalLength(Flat(leaves))
    requires forall k :: 0 <= k < |leaves| ==> leaves[k].extents != []
    ensures next <= SizeBlocks(size) && !(size == 0 && (data != 0 || |leaves| != 0))
            && size <= FILE_BLOCKS_MAX * BLOCK_SIZE && sectors == (data + |leaves|) * SECTORS
            <==> SizeOk(Flat(leaves), |leaves|, size, sectors)
  {
    var es := Flat(leaves);
    BehindIsBound(es, 0);
    CoveredExactly(es, 0, size);
    if leaves == [] || es == [] {
      FlatNothing(leaves);
    } else {
      LastResolves(es, 0);
    }
    hide Sorted, Flat, Bound, Covered, TotalLength;
  }

  /** The block behind the last extent bounds all extents, and is the least such bound. */
  lemma {:induction false} BehindIsBound(es: seq<Extent>, from: nat)
    requires Sorted(es, from)
    ensures es != [] ==> Behind(es, from) == Bound(es) > from
  {
    if |es| > 1 {
      BehindIsBound(es[1..], es[0].End());
    } else if es != [] {
      assert es[1..] == [];
    }
  }

  lemma {:induction false} FlatNothing(leaves: seq<Leaf>)
    ensures leaves == [] || Flat(leaves) == [] ==> TotalLength(Flat(leaves)) == 0 && Flat(leaves) == []
    ensures Flat(leaves) == [] && (forall k :: 0 <= k < |leaves| ==> leaves[k].extents != []) ==> leaves == []
  {
  }

  /** What the inode of a file writes is accepted exactly when its size covers the mapped blocks. */
  lemma {:induction false} WrittenExactly(leaves: seq<Leaf>, x: Extra, size: nat, sectors: nat, disk: map<nat, Block>,
                                          checksum: (nat, Block) -> nat, used: nat -> bool)
    requires TreeOk(leaves) && LeavesFit(leaves) && LeavesOnDisk(leaves, disk) && AllUsed(leaves, used) && x.Fits()
    requires forall b, c :: checksum(b, c) < LIMIT32
    ensures Accepted(AreaBytes(RefsOf(leaves, checksum), |leaves|, x), size, sectors, disk, checksum, used)
            <==> SizeOk(Flat(leaves), |leaves|, size, sectors)
  {
    var a := AreaBytes(RefsOf(leaves, checksum), |leaves|, x);
    hide AreaBytes, RefsOf, Value, Bound, Flat, TotalLength, LeavesOnDisk, AllUsed, Accepted, LoadOp, SizeOk, RefAt, Sorted;
    hide Unshared, LeafBlocks, Blocks, DistinctLeaves;
    LoadUndoesWrite(leaves, x, disk, checksum);
    AcceptedExactly(a, size, sectors, disk, checksum, used);
    forall k | 0 <= k < |leaves| ensures RefAt(a, 0 + k).logical == leaves[k].extents[0].logical {
      RefReads(leaves, x, checksum, k);
      RefStarts(leaves[k], checksum);
    }
  }

  lemma {:induction false} RefStarts(leaf: Leaf, checksum: (nat, Block) -> nat)
    requires 0 < |leaf.extents| <= PER_LEAF
    ensures RefOf(leaf, checksum).logical == leaf.extents[0].logical
  {
    hide LeafBytes;
  }

  lemma {:induction false} LengthNext(leaves: seq<Leaf>, i: nat)
    requires i < |leaves|
    ensures TotalLength(Flat(leaves[..i + 1])) == TotalLength(Flat(leaves[..i])) + TotalLength(leaves[i].extents)
  {
    FlatAppend(leaves[..i], [leaves[i]]);
    LeafSingle(leaves[i], 0, 0);
    assert leaves[..i + 1] == leaves[..i] + [leaves[i]];
    LengthOfBoth(Flat(leaves[..i]), leaves[i].extents);
  }

  // ----- the inode in memory and on disk

  /** The first `i` leaves are written, and nothing else is. */
  ghost predicate Progress(leaves: seq<Leaf>, i: nat, refs: seq<Ref>, data: nat, was: map<nat, Block>, disk: map<nat,
                           Block>,
                           checksum: (nat, Block) -> nat)
    requires LeavesFit(leaves) && i <= |leaves|
  {
    && |refs| == ROOT_REFS && data == TotalLength(Flat(leaves[..i]))
    && (forall k :: 0 <= k < i ==> leaves[k].block in disk && disk[leaves[k].block] == LeafBytes(leaves[k].extents))
    && (forall k :: 0 <= k < ROOT_REFS ==> refs[k] == if k < i then RefOf(leaves[k], checksum) else NO_REF)
    && (forall b :: b in was && b !in LeafBlocks(leaves) ==> b in disk && disk[b] == was[b])
  }

  lemma {:induction false} NothingWritten(leaves: seq<Leaf>, refs: seq<Ref>, disk: map<nat, Block>,
                                          checksum: (nat, Block) -> nat)
    requires LeavesFit(leaves) && refs == [NO_REF, NO_REF, NO_REF, NO_REF]
    ensures Progress(leaves, 0, refs, 0, disk, disk, checksum)
  {
    FlatNothing(leaves[..0]);
  }

  lemma {:induction false} OneWritten(leaves: seq<Leaf>, i: nat, refs: seq<Ref>, data: nat, was: map<nat, Block>,
                                      disk: map<nat, Block>,
                                      checksum: (nat, Block) -> nat)
    requires LeavesFit(leaves) && DistinctLeaves(leaves) && i < |leaves|
    requires Progress(leaves, i, refs, data, was, disk, checksum)
    ensures |refs| == ROOT_REFS && i < ROOT_REFS && 0 < |leaves[i].extents| <= PER_LEAF
    ensures Progress(leaves, i + 1, refs[i := RefOf(leaves[i], checksum)], data + TotalLength(leaves[i].extents), was,
                     disk[leaves[i].block := LeafBytes(leaves[i].extents)], checksum)
  {
    LeafApart(leaves, i);
    LengthNext(leaves, i);
    hide LeafBytes, LeafBlocks, DistinctLeaves, Flat, TotalLength, RefOf, ExtentsFit;
  }

  lemma {:induction false} AllWritten(leaves: seq<Leaf>, refs: seq<Ref>, data: nat, was: map<nat, Block>, disk: map<nat,
                                      Block>,
                                      checksum: (nat, Block) -> nat)
    requires LeavesFit(leaves) && Progress(leaves, |leaves|, refs, data, was, disk, checksum)
    ensures LeavesOnDisk(leaves, disk) && refs == RefsOf(leaves, checksum) && data == TotalLength(Flat(leaves))
    ensures SECTORS == 8
    ensures forall b :: b in was && b !in LeafBlocks(leaves) ==> b in disk && disk[b] == was[b]
  {
    hide LeafBytes, LeafBlocks, Flat, TotalLength, RefOf, ExtentsFit;
    assert leaves[..|leaves|] == leaves;
  }

  class InodeBuffer {
    const checksum: (nat, Block) -> nat
    var disk: map<nat, Block>
    var area: Area
    var leaves: seq<Leaf>
    var extra: Extra
    var sectors: nat

    constructor (checksum: (nat, Block) -> nat, disk: map<nat, Block>, area: Area)
      ensures this.checksum == checksum && this.disk == disk && this.area == area && leaves == []
      ensures extra == Extra(0, 0, 0)
    {
      this.checksum, this.disk, this.area, this.leaves, this.extra, this.sectors := checksum, disk, area, [], Extra(0, 0, 0), 0;
    }

    /** Write the leaves, then the reserved area that refers to them. */
    method WriteToDisk()
      requires LeavesFit(leaves) && DistinctLeaves(leaves)
      modifies this`disk, this`area, this`sectors
      ensures LeavesOnDisk(leaves, disk) && area == AreaBytes(RefsOf(leaves, checksum), |leaves|, extra)
      ensures sectors == (TotalLength(Flat(leaves)) + |leaves|) * SECTORS
      ensures forall b :: b in old(disk) && b !in LeafBlocks(leaves) ==> b in disk && disk[b] == old(disk[b])
    {
      hide *;
      var refs := [NO_REF, NO_REF, NO_REF, NO_REF];
      var data: nat, i: nat := 0, 0;
      NothingWritten(leaves, refs, disk, checksum);
      while i < |leaves|
        invariant i <= |leaves| && Progress(leaves, i, refs, data, old(disk), disk, checksum)
      {
        var leaf := leaves[i];
        OneWritten(leaves, i, refs, data, old(disk), disk, checksum);
        disk := disk[leaf.block := LeafBytes(leaf.extents)];
        refs := refs[i := RefOf(leaf, checksum)];
        data := data + TotalLength(leaf.extents);
        i := i + 1;
      }
      AllWritten(leaves, refs, data, old(disk), disk, checksum);
      area := AreaBytes(refs, |leaves|, extra);
      sectors := (data + |leaves|) * SECTORS;
    }

    /** Load the leaves and the trailer. */
    method Load() returns (err: Errno)
      modifies this`leaves, this`extra
      ensures match LoadOp(area, disk, checksum)
              case Some(ls) => err == Ok && leaves == ls && extra == ExtraAt(area)
              case None => err == Euclean
    {
      hide Value, LeafOk, ReadExtents, RefAt;
      extra := ExtraAt(area);
      if Value(area[..2]) != EXTENT_MAGIC {
        return Euclean;
      }
      var count := Value(area[2..4]);
      if Value(area[4..6]) != ROOT_REFS || count > ROOT_REFS || Value(area[6..8]) != DEPTH {
        return Euclean;
      }
      leaves := [];
      var i: nat := 0;
      assert forall rest: seq<Leaf> :: [] + rest == rest;
      while i < count
        invariant i <= count && extra == ExtraAt(area)
        invariant LoadOp(area, disk, checksum)
                  == match LoadLeaves(area, i, count, disk, checksum)
                     case None => None
                     case Some(rest) => Some(leaves + rest)
      {
        var r := RefAt(area, i);
        if !LeafOk(r, disk, checksum) {
          return Euclean;
        }
        LeafOkFacts(r, disk, checksum);
        var leaf := Leaf(r.block, ReadExtents(disk[r.block], r.entries));
        assert forall rest: seq<Leaf> :: leaves + ([leaf] + rest) == leaves + [leaf] + rest;
        leaves := leaves + [leaf];
        i := i + 1;
      }
      assert leaves + [] == leaves;
      err := Ok;
    }

    /** Validate the inode as it is on disk. */
    method Validate(size: nat, used: nat -> bool) returns (err: Errno)
      ensures err == if Accepted(area, size, sectors, disk, checksum, used) then Ok else Euclean
    {
      hide *;
      AcceptedIs(area, size, sectors, disk, checksum, used);
      var count := Value(area[2..4]);
      if Value(area[..2]) != EXTENT_MAGIC || Value(area[4..6]) != ROOT_REFS || count > ROOT_REFS || Value(area[6..8]) != DEPTH {
        return Euclean;
      }
      var next: nat, data: nat, i: nat := 0, 0, 0;
      while i < count
        invariant i <= count
        invariant CheckLeaves(area, 0, count, 0, 0, disk, checksum, used)
                  == CheckLeaves(area, i, count, next, data, disk, checksum, used)
      {
        var r := RefAt(area, i);
        CheckStep(area, i, count, next, data, disk, checksum, used, r);
        if r.block == 0 || r.entries == 0 || r.entries > PER_LEAF || r.logical < next || !used(r.block)
           || !LeafOk(r, disk, checksum) {
          return Euclean;
        }
        LeafOkFacts(r, disk, checksum);
        var es := ReadExtents(disk[r.block], r.entries);
        var after := ValidateExtents(es, next, r.logical, used);
        if after.None? {
          return Euclean;
        }
        next, data := after.value, data + TotalLength(es);
        i := i + 1;
      }
      CheckEnds(area, count, next, data, disk, checksum, used);
      if next > SizeBlocks(size) || (size == 0 && (data != 0 || count != 0)) || size > FILE_BLOCKS_MAX * BLOCK_SIZE
         || sectors != (data + count) * SECTORS {
        return Euclean;
      }
      err := Ok;
    }

    /** The extents of one leaf. */
    method ValidateExtents(es: seq<Extent>, next: nat, first: nat, used: nat -> bool) returns (after: Option<nat>)
      ensures after == CheckExtents(es, next, Some(first), used)
    {
      var n: nat, j: nat := next, 0;
      var start := Some(first);
      assert es[0..] == es;
      while j < |es|
        invariant j <= |es| && CheckExtents(es, next, Some(first), used) == CheckExtents(es[j..], n, start, used)
      {
        var e := es[j];
        assert es[j..][0] == e && es[j..][1..] == es[j + 1..];
        if e.length == 0 || e.length > MAX_LENGTH || (start.Some? && e.logical != start.value)
           || e.logical < n || e.logical + e.length >= LIMIT64 || !used(e.physical) {
          return None;
        }
        var k: nat := 0;
        while k < e.length
          invariant k <= e.length && forall p: nat :: e.physical <= p < e.physical + k ==> used(p)
        {
          if !used(e.physical + k) {
            return None;
          }
          k := k + 1;
        }
        n, start := e.End(), None;
        j := j + 1;
      }
      after := Some(n);
    }
  }

  lemma {:induction false} AcceptedIs(a: Area, size: nat, sectors: nat, disk: map<nat, Block>,
                                      checksum: (nat, Block) -> nat, used: nat -> bool)
    ensures ROOT_REFS == 4 && |a| == 116
    ensures var count := Value(a[2..4]);
            Accepted(a, size, sectors, disk, checksum, used)
            <==> && Value(a[..2]) == EXTENT_MAGIC && Value(a[4..6]) == ROOT_REFS && count <= ROOT_REFS
                 && Value(a[6..8]) == DEPTH
                 && match CheckLeaves(a, 0, count, 0, 0, disk, checksum, used)
                    case Bad => false
                    case Good(next, data) =>
                      && next <= SizeBlocks(size) && !(size == 0 && (data != 0 || count != 0))
                      && size <= FILE_BLOCKS_MAX * BLOCK_SIZE && sectors == (data + count) * SECTORS
  {
    hide Value, CheckLeaves;
  }

  /** One reference of the check. */
  lemma {:induction false} CheckStep(a: Area, i: nat, count: nat, next: nat, data: nat, disk: map<nat, Block>,
                                     checksum: (nat, Block) -> nat, used: nat -> bool, r: Ref)
    requires i < count <= ROOT_REFS && r == RefAt(a, i)
    ensures r.block == 0 || r.entries == 0 || r.entries > PER_LEAF || r.logical < next || !used(r.block)
            || !LeafOk(r, disk, checksum)
            ==> CheckLeaves(a, i, count, next, data, disk, checksum, used) == Bad
    ensures r.entries <= PER_LEAF && r.logical >= next && used(r.block) && LeafOk(r, disk, checksum) ==>
              && r.block in disk
              && var es := ReadExtents(disk[r.block], r.entries);
                 CheckLeaves(a, i, count, next, data, disk, checksum, used)
                 == match CheckExtents(es, next, Some(r.logical), used)
                    case None => Bad
                    case Some(after) => CheckLeaves(a, i + 1, count, after, data + TotalLength(es), disk, checksum, used)
  {
    if LeafOk(r, disk, checksum) {
      LeafOkFacts(r, disk, checksum);
      LeafOkBlock(r, disk, checksum);
    }
    hide RefAt, LeafOk, ReadExtents, CheckExtents, TotalLength;
  }

  lemma {:induction false} CheckEnds(a: Area, count: nat, next: nat, data: nat, disk: map<nat, Block>,
                                     checksum: (nat, Block) -> nat,
                                     used: nat -> bool)
    requires count <= ROOT_REFS
    ensures CheckLeaves(a, count, count, next, data, disk, checksum, used) == Good(next, data)
  {
  }

  lemma {:induction false} LeafOkBlock(r: Ref, disk: map<nat, Block>, checksum: (nat, Block) -> nat)
    requires LeafOk(r, disk, checksum)
    ensures r.block != 0 && r.entries > 0
  {
  }

  lemma {:induction false} LeafOkFacts(r: Ref, disk: map<nat, Block>, checksum: (nat, Block) -> nat)
    requires LeafOk(r, disk, checksum)
    ensures 0 < r.entries <= PER_LEAF && r.block in disk
  {
  }

  /** A leaf shares its block with no leaf before it. */
  lemma {:induction false} LeafApart(leaves: seq<Leaf>, i: nat)
    requires DistinctLeaves(leaves) && i < |leaves|
    ensures forall k :: 0 <= k < i ==> leaves[k].block != leaves[i].block
    ensures leaves[i].block in LeafBlocks(leaves)
  {
    assert leaves == leaves[..i] + leaves[i..];
    LeafBlocksAppend(leaves[..i], leaves[i..]);
    forall k | 0 <= k < i ensures leaves[k].block != leaves[i].block {
      LeafBlockIn(leaves[..i], k);
    }
  }

  lemma {:induction false} LeafBlockIn(leaves: seq<Leaf>, k: nat)
    requires k < |leaves|
    ensures leaves[k].block in LeafBlocks(leaves)
  {
    if k > 0 {
      LeafBlockIn(leaves[1..], k - 1);
    }
  }
}
