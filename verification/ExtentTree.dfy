/** The extent tree of a regular file (inode.c, extent tree v2), edited in place over the block allocator:
    hole punching, truncation and mapping of new blocks. */
module ExtentTree {
  import Allocator
  import opened ExtentGrow
  import opened ExtentSpec
  import opened ExtentSteps

  const RESERVATION_WINDOW := 64

  type Errno = Allocator.Errno

  /** The 64 blocks from `start` on, or those that are left of its group; all of them are data blocks. */
  ghost predicate IsWindow(l: Allocator.Layout, start: nat, end: nat)
    requires l.blocksPerGroup > 0
  {
    && start < end <= start + 64
    && (forall b: nat :: start <= b < end ==> l.DataBlock(b) && l.GroupOf(b) == l.GroupOf(start))
    && (end < start + 64 ==> !(l.DataBlock(end) && l.GroupOf(end) == l.GroupOf(start)))
  }

  /** A logical block that was mapped to a fresh block, with what else that took, which nobody used before. */
  ghost predicate Mapped(l: Allocator.Layout, was: seq<Leaf>, now: seq<Leaf>, logical: nat, block: nat, before: set<nat>,
                         used: set<nat>)
    requires l.blocksPerGroup > 0
  {
    && l.DataBlock(block) && block !in before
    && exists added ::
         && Grown(was, now, logical, block, {block} + added)
         && added !! before && used == before + {block} + added
  }

  lemma {:induction false} MergedIsMapped(l: Allocator.Layout, was: seq<Leaf>, now: seq<Leaf>, logical: nat, block: nat,
                                          before: set<nat>, used: set<nat>)
    requires l.blocksPerGroup > 0 && l.DataBlock(block) && block !in before
    requires Grown(was, now, logical, block, {block}) && used == before + {block}
    ensures Mapped(l, was, now, logical, block, before, used)
  {
    hide Grown;
    assert {block} + {} == {block};
  }

  lemma {:induction false} FreshIsMapped(l: Allocator.Layout, was: seq<Leaf>, now: seq<Leaf>, logical: nat, block: nat,
                                         before: set<nat>, used: set<nat>)
    requires l.blocksPerGroup > 0 && l.DataBlock(block) && block !in before
    requires exists added ::
               && Grown(was, now, logical, block, {block} + added)
               && added !! before + {block} && used == before + {block} + added
    ensures Mapped(l, was, now, logical, block, before, used)
  {
    hide Grown;
  }

  lemma {:induction false} MappedIsData(l: Allocator.Layout, was: seq<Leaf>, now: seq<Leaf>, logical: nat, block: nat,
                                        before: set<nat>, used: set<nat>)
    requires l.blocksPerGroup > 0 && Mapped(l, was, now, logical, block, before, used)
    ensures block > 0
  {
  }

  lemma {:induction false} MappedFacts(l: Allocator.Layout, was: seq<Leaf>, now: seq<Leaf>, logical: nat, block: nat,
                                       before: set<nat>, used: set<nat>)
    requires l.blocksPerGroup > 0 && Mapped(l, was, now, logical, block, before, used) && Owned(was) <= before
    ensures l.DataBlock(block) && block !in before && TreeOk(now)
    ensures forall k: nat :: Resolve(Flat(now), k) == if k == logical then Some(block) else Resolve(Flat(was), k)
    ensures Owned(was) + {block} <= Owned(now) && used == before + (Owned(now) - Owned(was))
  {
    hide TreeOk, Resolve, Flat, Owned;
  }

  class ExtentInode {
    const alloc: Allocator.Allocator
    var leaves: seq<Leaf>
    var allocHint: nat
    var goalGroup: nat
    var reservationStart: nat
    var reservationNext: nat
    var reservationEnd: nat

    ghost predicate Valid()
      reads this, alloc, alloc.bitmaps, alloc.free
    {
      alloc.Valid() && TreeOk(leaves) && Owned(leaves) <= alloc.InUse()
    }

    /** The file's map from logical to physical blocks. */
    function Map(l: nat): Option<nat>
      reads this
    {
      Resolve(Flat(leaves), l)
    }

    /** A new inode, with a block and a group to start the search at. */
    constructor (alloc: Allocator.Allocator, allocHint: nat, goalGroup: nat)
      requires alloc.Valid()
      ensures Valid() && this.alloc == alloc && leaves == [] && this.allocHint == allocHint && this.goalGroup == goalGroup
      ensures reservationStart == reservationNext == reservationEnd == 0
    {
      this.alloc, leaves, this.allocHint, this.goalGroup := alloc, [], allocHint, goalGroup;
      reservationStart, reservationNext, reservationEnd := 0, 0, 0;
    }

    /** Free the blocks from `lo` up to `hi` one by one. */
    method FreeRun(lo: nat, hi: nat) returns (err: Errno)
      requires alloc.Valid() && lo <= hi && Range(lo, hi) <= alloc.InUse()
      modifies alloc, alloc.bitmaps, alloc.free
      ensures alloc.Valid() && err == Allocator.Ok && alloc.bitmaps == old(alloc.bitmaps)
      ensures alloc.free == old(alloc.free)
      ensures alloc.InUse() == old(alloc.InUse()) - Range(lo, hi)
    {
      hide Allocator.Consistent;
      for j := lo to hi
        invariant alloc.Valid() && alloc.bitmaps == old(alloc.bitmaps) && alloc.free == old(alloc.free)
        invariant alloc.InUse() == old(alloc.InUse()) - Range(lo, j)
      {
        assert Within(j, lo, hi) && j in Range(lo, hi);
        Allocator.UsedIsData(alloc.l, alloc.State(), j);
        err := alloc.FreeBlock(j);
        if err != Allocator.Ok {
          return;
        }
        assert Range(lo, j + 1) == Range(lo, j) + {j} by { assert Within(j, lo, j + 1); }
      }
      err := Allocator.Ok;
    }

    /** Take the hole out of the one extent at `ei`, which it meets: split it, remove it, or cut off its
        head or tail, and free its blocks. */
    method PunchExtent(es: seq<Extent>, ei: nat, first: nat, end: nat) returns (edited: seq<Extent>, next: nat)
      requires alloc.Valid() && ei < |es|
      requires 0 < es[ei].length && first < end && es[ei].logical < end && first < es[ei].End()
      requires FreedOne(es[ei], first, end) <= alloc.InUse()
      modifies alloc, alloc.bitmaps, alloc.free
      ensures alloc.Valid() && alloc.bitmaps == old(alloc.bitmaps) && alloc.free == old(alloc.free)
      ensures edited == es[..ei] + PunchOne(es[ei], first, end) + es[ei + 1..]
      ensures alloc.InUse() == old(alloc.InUse()) - FreedOne(es[ei], first, end)
      ensures next == ei + |PunchOne(es[ei], first, end)|
    {
      var e := es[ei];
      var punchStart, punchEnd := Max(first, e.logical), Min(end, e.End());
      PunchedCases(e, first, end, punchStart, punchEnd);
      hide *;
      var freeStart := punchStart - e.logical;
      var freeLength := punchEnd - punchStart;
      var head := e.(length := punchStart - e.logical);
      var tail := Extent(punchEnd, e.physical + freeStart + freeLength, e.End() - punchEnd);
      var kept;
      if punchStart > e.logical && punchEnd < e.End() {
        kept := [head, tail];
      } else if punchStart == e.logical && punchEnd == e.End() {
        kept := [];
      } else if punchStart == e.logical {
        kept := [tail];
      } else {
        kept := [head];
      }
      assert kept == PunchOne(e, first, end);
      var err := FreeRun(e.physical + freeStart, e.physical + freeStart + freeLength);
      edited := es[..ei] + kept + es[ei + 1..];
      next := ei + |kept|;
    }

    lemma {:induction false} Spliced(front: seq<Extent>, extents: seq<Extent>, j: nat, es: seq<Extent>, ei: nat,
                                     x: seq<Extent>)
      requires j < |extents| && es == front + extents[j..] && ei == |front|
      ensures ei < |es| && es[ei] == extents[j] && es == front + [extents[j]] + extents[j + 1..]
      ensures es[..ei] + x + es[ei + 1..] == front + x + extents[j + 1..]
    {
      assert es[..ei] == front && es[ei + 1..] == extents[j + 1..];
    }

    /** Punch the hole `[first, end)` out of the extents of one leaf. A full leaf refuses a split before
        anything is freed. */
    method PunchExtents(extents: seq<Extent>, first: nat, end: nat) returns (err: Errno, es: seq<Extent>)
      requires alloc.Valid() && first < end && |extents| <= PER_LEAF
      requires Sorted(extents, 0) && Unshared(extents) && Blocks(extents) <= alloc.InUse()
      modifies alloc, alloc.bitmaps, alloc.free
      ensures alloc.Valid() && alloc.bitmaps == old(alloc.bitmaps) && alloc.free == old(alloc.free)
      ensures if |Punch(extents, first, end)| > PER_LEAF then
                && err == Allocator.Enospc && alloc.State() == old(alloc.State()) && alloc.InUse() == old(alloc.InUse())
                && exists j :: 0 <= j < |extents| && extents[j].logical < first && end < extents[j].End()
              else
                && err == Allocator.Ok && es == Punch(extents, first, end)
                && alloc.InUse() == old(alloc.InUse()) - Freed(extents, first, end)
                && (Freed(extents, first, end) == {} ==> alloc.State() == old(alloc.State()))
    {
      hide *;
      ghost var j := 0;
      var ei := 0;
      es := extents;
      PunchEnds(extents, first, end);
      while ei < |es|
        invariant alloc.Valid() && alloc.bitmaps == old(alloc.bitmaps) && alloc.free == old(alloc.free)
        invariant j <= |extents| && ei == |Punch(extents[..j], first, end)|
        invariant es == Punch(extents[..j], first, end) + extents[j..]
        invariant |es| <= PER_LEAF
        invariant alloc.InUse() == old(alloc.InUse()) - Freed(extents[..j], first, end)
        invariant Freed(extents[..j], first, end) == {} ==> alloc.State() == old(alloc.State())
        decreases |extents| - j
      {
        PunchStep(extents, j, first, end, 0);
        Spliced(Punch(extents[..j], first, end), extents, j, es, ei, PunchOne(extents[j], first, end));
        var e := es[ei];
        if end <= e.logical {
          PunchRest(extents, j, first, end, 0);
          j := |extents|;
          assert extents[..j] == extents && extents[j..] == [];
          break;
        }
        if first >= e.End() {
          UntouchedOne(e, first, end);
          ei, j := ei + 1, j + 1;
          continue;
        }
        if first > e.logical && end < e.End() && |es| >= PER_LEAF {
          SplitFirst(extents, j, first, end, 0);
          return Allocator.Enospc, es;
        }
        FreedStays(extents, j, first, end);
        PunchedSize(e, first, end);
        es, ei := PunchExtent(es, ei, first, end);
        j := j + 1;
      }
      assert |extents[j..]| == 0 && j == |extents|;
      assert extents[..|extents|] == extents;
      assert es == Punch(extents, first, end);
      err := Allocator.Ok;
    }

    /** Punch one leaf; when it is emptied, free its own block and drop it. */
    method PunchOrDrop(li: nat, first: nat, end: nat) returns (err: Errno, next: nat)
      requires alloc.Valid() && li < |leaves| && first < end && |leaves[li].extents| <= PER_LEAF
      requires Sorted(leaves[li].extents, 0) && Unshared(leaves[li].extents)
      requires Blocks(leaves[li].extents) <= alloc.InUse()
      modifies this`leaves, alloc, alloc.bitmaps, alloc.free
      ensures alloc.Valid() && alloc.bitmaps == old(alloc.bitmaps) && alloc.free == old(alloc.free)
      ensures var leaf := old(leaves[li]);
              if |Punch(leaf.extents, first, end)| > PER_LEAF then
                && err == Allocator.Enospc && leaves == old(leaves)
                && alloc.State() == old(alloc.State()) && alloc.InUse() == old(alloc.InUse())
                && exists j :: 0 <= j < |leaf.extents| && leaf.extents[j].logical < first && end < leaf.extents[j].End()
              else
                && err == Allocator.Ok && next == li + |PunchLeaf(leaf, first, end)|
                && leaves == old(leaves)[..li] + PunchLeaf(leaf, first, end) + old(leaves)[li + 1..]
                && alloc.InUse() == old(alloc.InUse()) - LeafGone(leaf, first, end)
                && (LeafGone(leaf, first, end) == {} ==> alloc.State() == old(alloc.State()))
    {
      hide Allocator.Consistent, Allocator.UsedBlocks, Allocator.Allocator.Valid, Allocator.Allocator.InUse;
      hide Allocator.Allocator.State, Punch, Freed, Sorted, Blocks, Unshared;
      var es;
      err, es := PunchExtents(leaves[li].extents, first, end);
      next := li;
      if err == Allocator.Ok {
        leaves := leaves[li := leaves[li].(extents := es)];
        if es == [] {
          var ignored := alloc.FreeBlock(leaves[li].block);
          leaves := leaves[..li] + leaves[li + 1..];
        } else {
          next := li + 1;
        }
      }
    }

    /** The loop over the leaves. */
    method PunchAll(first: nat, end: nat) returns (err: Errno)
      requires Valid() && first < end
      modifies this`leaves, alloc, alloc.bitmaps, alloc.free
      ensures Valid() && alloc.bitmaps == old(alloc.bitmaps) && alloc.free == old(alloc.free)
      ensures err == if Fits(old(leaves), first, end) then Allocator.Ok else Allocator.Enospc
      ensures err != Allocator.Ok ==> leaves == old(leaves) && alloc.State() == old(alloc.State())
      ensures err == Allocator.Ok ==>
                && leaves == PunchLeaves(old(leaves), first, end)
                && alloc.InUse() == old(alloc.InUse()) - (old(Owned(leaves)) - Owned(leaves))
    {
      ghost var old0 := leaves;
      ghost var done := 0;
      var li := 0;
      LeavesBegin(old0, first, end);
      hide Allocator.Consistent, Allocator.UsedBlocks, Allocator.Allocator.Valid, Allocator.Allocator.InUse;
      hide Allocator.Allocator.State, Punch, PunchLeaf, PunchLeaves, TreeOk, Owned, Sorted, Unshared, Gone, LeafGone;
      hide Blocks;
      while li < |leaves|
        invariant alloc.Valid() && alloc.bitmaps == old(alloc.bitmaps) && alloc.free == old(alloc.free)
        invariant done <= |old0| && li == |PunchLeaves(old0[..done], first, end)|
        invariant leaves == PunchLeaves(old0[..done], first, end) + old0[done..]
        invariant alloc.InUse() == old(alloc.InUse()) - Gone(old0[..done], first, end)
        invariant Gone(old0[..done], first, end) == {} ==> alloc.State() == old(alloc.State())
        invariant forall i :: 0 <= i < done ==> |Punch(old0[i].extents, first, end)| <= PER_LEAF
        decreases |old0| - done
      {
        assert leaves[li] == old0[done];
        LeafFacts(old0, done, first, end);
        err, li := PunchOrDrop(li, first, end);
        if err != Allocator.Ok {
          SplitLeaf(old0, done, first, end);
          assert leaves == old0;
          return;
        }
        LeafStep(old0, done, first, end);
        done := done + 1;
      }
      assert |old0[done..]| == 0 && old0[..|old0|] == old0;
      assert leaves == PunchLeaves(old0, first, end);
      err := Allocator.Ok;
      GoneIsDifference(old0, first, end);
      PunchTree(old0, first, end);
      OwnedShrinks(old0, first, end);
    }

    /** Make a hole: exactly its blocks leave the map, and exactly they and emptied leaves are freed. It is
        refused, before anything changes, when it would split an extent of a full leaf. */
    method PunchHoleBlocks(first: nat, end: nat) returns (err: Errno)
      requires Valid()
      modifies this`leaves, alloc, alloc.bitmaps, alloc.free
      ensures Valid() && alloc.bitmaps == old(alloc.bitmaps) && alloc.free == old(alloc.free)
      ensures err == if first < end && SplitsFullLeaf(old(leaves), first, end) then Allocator.Enospc else Allocator.Ok
      ensures err != Allocator.Ok ==> leaves == old(leaves) && alloc.State() == old(alloc.State())
      ensures err == Allocator.Ok ==>
                && (forall l: nat :: Map(l) == if first <= l < end then None else old(Map(l)))
                && Owned(leaves)
                   == old(Owned(leaves)) - Freed(Flat(old(leaves)), first, end) - DroppedLeaves(old(leaves), first, end)
                && alloc.InUse() == old(alloc.InUse()) - (old(Owned(leaves)) - Owned(leaves))
    {
      if first < end {
        RefusedExactly(leaves, first, end);
      }
      if first >= end || Fits(leaves, first, end) {
        PunchOutcome(leaves, first, end);
      }
      hide *;
      if first >= end {
        return Allocator.Ok;
      }
      err := PunchAll(first, end);
    }

    // ----- truncation

    /** Cut the extents of one leaf at logical block `keep`. `end` is a bound of all of them. */
    method TruncateExtents(extents: seq<Extent>, keep: nat, ghost end: nat) returns (es: seq<Extent>)
      requires alloc.Valid() && Bound(extents) <= end && keep < end
      requires Sorted(extents, 0) && Unshared(extents) && Blocks(extents) <= alloc.InUse()
      modifies alloc, alloc.bitmaps, alloc.free
      ensures alloc.Valid() && alloc.bitmaps == old(alloc.bitmaps) && alloc.free == old(alloc.free)
      ensures es == Punch(extents, keep, end) && alloc.InUse() == old(alloc.InUse()) - Freed(extents, keep, end)
    {
      hide *;
      ghost var j := 0;
      var ei := 0;
      es := extents;
      PunchEnds(extents, keep, end);
      while ei < |es|
        invariant alloc.Valid() && alloc.bitmaps == old(alloc.bitmaps) && alloc.free == old(alloc.free)
        invariant j <= |extents| && ei == |Punch(extents[..j], keep, end)|
        invariant es == Punch(extents[..j], keep, end) + extents[j..]
        invariant alloc.InUse() == old(alloc.InUse()) - Freed(extents[..j], keep, end)
        decreases |extents| - j
      {
        PunchStep(extents, j, keep, end, 0);
        BoundAt(extents, j);
        Spliced(Punch(extents[..j], keep, end), extents, j, es, ei, PunchOne(extents[j], keep, end));
        var e := es[ei];
        TruncatedCases(e, keep, end);
        FreedStays(extents, j, keep, end);
        if keep >= e.End() {
          ei, j := ei + 1, j + 1;
          continue;
        }
        if keep <= e.logical {
          var err := FreeRun(e.physical, e.physical + e.length);
          es := es[..ei] + [] + es[ei + 1..];
        } else {
          var newLength := keep - e.logical;
          var err := FreeRun(e.physical + newLength, e.physical + e.length);
          es := es[..ei] + [e.(length := newLength)] + es[ei + 1..];
          ei := ei + 1;
        }
        j := j + 1;
      }
      assert |extents[j..]| == 0 && j == |extents|;
      assert extents[..|extents|] == extents;
    }

    /** Cut one leaf; when it is emptied, free its own block and drop it. */
    method TruncateOrDrop(li: nat, keep: nat, ghost end: nat) returns (next: nat)
      requires alloc.Valid() && li < |leaves| && Bound(leaves[li].extents) <= end && keep < end
      requires Sorted(leaves[li].extents, 0) && Unshared(leaves[li].extents)
      requires Blocks(leaves[li].extents) <= alloc.InUse()
      modifies this`leaves, alloc, alloc.bitmaps, alloc.free
      ensures alloc.Valid() && alloc.bitmaps == old(alloc.bitmaps) && alloc.free == old(alloc.free)
      ensures var leaf := old(leaves[li]);
              && next == li + |PunchLeaf(leaf, keep, end)|
              && leaves == old(leaves)[..li] + PunchLeaf(leaf, keep, end) + old(leaves)[li + 1..]
              && alloc.InUse() == old(alloc.InUse()) - LeafGone(leaf, keep, end)
    {
      hide Allocator.Consistent, Allocator.UsedBlocks, Allocator.Allocator.Valid, Allocator.Allocator.InUse;
      hide Allocator.Allocator.State;
      hide Punch, Freed, Sorted, Blocks, Unshared;
      var es := TruncateExtents(leaves[li].extents, keep, end);
      leaves := leaves[li := leaves[li].(extents := es)];
      next := li;
      if es == [] {
        var ignored := alloc.FreeBlock(leaves[li].block);
        leaves := leaves[..li] + leaves[li + 1..];
      } else {
        next := li + 1;
      }
    }

    /** The loop over the leaves. `end` is a bound of all extents. */
    method TruncateAll(keep: nat, ghost end: nat)
      requires Valid() && keep < end && Bound(Flat(leaves)) <= end
      modifies this`leaves, alloc, alloc.bitmaps, alloc.free
      ensures alloc.Valid() && alloc.bitmaps == old(alloc.bitmaps) && alloc.free == old(alloc.free)
      ensures leaves == PunchLeaves(old(leaves), keep, end)
      ensures alloc.InUse() == old(alloc.InUse()) - Gone(old(leaves), keep, end)
    {
      ghost var old0 := leaves;
      ghost var done := 0;
      var li := 0;
      LeavesBegin(old0, keep, end);
      hide Allocator.Consistent, Allocator.UsedBlocks, Allocator.Allocator.Valid, Allocator.Allocator.InUse;
      hide Allocator.Allocator.State;
      hide Punch, PunchLeaf, PunchLeaves, TreeOk, Owned, Sorted, Unshared, Gone, LeafGone, Blocks, Bound, Flat;
      while li < |leaves|
        invariant alloc.Valid() && alloc.bitmaps == old(alloc.bitmaps) && alloc.free == old(alloc.free)
        invariant done <= |old0| && li == |PunchLeaves(old0[..done], keep, end)|
        invariant leaves == PunchLeaves(old0[..done], keep, end) + old0[done..]
        invariant alloc.InUse() == old(alloc.InUse()) - Gone(old0[..done], keep, end)
        decreases |old0| - done
      {
        assert leaves[li] == old0[done];
        LeafFacts(old0, done, keep, end);
        LeafBound(old0, done);
        li := TruncateOrDrop(li, keep, end);
        LeafStep(old0, done, keep, end);
        done := done + 1;
      }
      assert |old0[done..]| == 0 && old0[..|old0|] == old0;
    }

    /** Free all logical blocks from `keep` on. */
    method FreeBlocksFrom(keep: nat) returns (err: Errno)
      requires Valid()
      modifies this`leaves, alloc, alloc.bitmaps, alloc.free
      ensures Valid() && err == Allocator.Ok && alloc.bitmaps == old(alloc.bitmaps) && alloc.free == old(alloc.free)
      ensures leaves == Truncated(old(leaves), keep)
      ensures forall l: nat :: Map(l) == if l < keep then old(Map(l)) else None
      ensures alloc.InUse() == old(alloc.InUse()) - (old(Owned(leaves)) - Owned(leaves))
    {
      TruncateTree(leaves, keep);
      ghost var end := Max(keep + 1, Bound(Flat(leaves)));
      TruncateWhole(leaves, keep, end);
      hide Allocator.Consistent, Allocator.UsedBlocks, Allocator.Allocator.Valid, Allocator.Allocator.InUse;
      hide Allocator.Allocator.State;
      hide PunchLeaves, TreeOk, Owned, Gone, Bound, Flat, Truncated, Max, Resolve;
      TruncateAll(keep, end);
      err := Allocator.Ok;
    }

    // ----- mapping a block

    /** Number of extents, leaf by leaf. */
    method TotalEntries() returns (total: nat)
      ensures total == |Flat(leaves)|
    {
      total := 0;
      assert leaves[..0] == [];
      for i := 0 to |leaves|
        invariant total == |Flat(leaves[..i])|
      {
        FlatSplit(leaves[..i + 1], i, 0);
        assert leaves[..i + 1][..i] == leaves[..i] && leaves[..i + 1][i + 1..] == [];
        total := total + |leaves[i].extents|;
      }
      assert leaves[..|leaves|] == leaves;
    }

    /** The number of blocks of the file, as the inode reports it, is the number of blocks it owns in the bitmap. */
    method BlockCount() returns (count: nat)
      requires Valid()
      ensures count == |Owned(leaves)|
    {
      hide *;
      ValidParts();
      var total := TotalEntries();
      count := 0;
      NoExtents(Flat(leaves));
      for i := 0 to total
        invariant count == TotalLength(Flat(leaves)[..i])
      {
        var li, ei := EntryAt(i);
        assert Flat(leaves)[..i + 1] == Flat(leaves)[..i] + [leaves[li].extents[ei]];
        TotalLengthAppend(Flat(leaves)[..i], leaves[li].extents[ei]);
        count := count + leaves[li].extents[ei].length;
      }
      assert Flat(leaves)[..total] == Flat(leaves);
      BlockCountIsOwned(leaves);
      count := count + |leaves|;
    }

    /** Leaf and place of the extent with number `index`. */
    method EntryAt(index: nat) returns (li: nat, ei: nat)
      requires index < |Flat(leaves)|
      ensures li < |leaves| && ei < |leaves[li].extents| && leaves[li].extents[ei] == Flat(leaves)[index]
      ensures index == |Flat(leaves[..li])| + ei
    {
      li, ei := 0, index;
      assert leaves[..0] == [] && leaves[..|leaves|] == leaves;
      while li < |leaves|
        invariant li <= |leaves| && index == |Flat(leaves[..li])| + ei
      {
        FlatSplit(leaves, li, 0);
        if ei < |leaves[li].extents| {
          return;
        }
        FlatSplit(leaves[..li + 1], li, 0);
        assert leaves[..li + 1][..li] == leaves[..li] && leaves[..li + 1][li + 1..] == [];
        li, ei := li + 1, ei - |leaves[li].extents|;
      }
      assert false;
    }

    /** The scan for the extent that covers a logical block. */
    method Lookup(logical: nat) returns (block: Option<nat>)
      ensures block == Map(logical)
    {
      hide Flat;
      var total := TotalEntries();
      var i := 0;
      assert Flat(leaves)[0..] == Flat(leaves);
      while i < total
        invariant i <= total && Map(logical) == Resolve(Flat(leaves)[i..], logical)
      {
        var li, ei := EntryAt(i);
        var e := leaves[li].extents[ei];
        if e.Covers(logical) {
          return Some(e.physical + (logical - e.logical));
        }
        assert Flat(leaves)[i..][1..] == Flat(leaves)[i + 1..];
        i := i + 1;
      }
      block := None;
    }

    /** The next search starts behind `block`. A block outside the reservation window drops the window. */
    method UpdateAllocHint(block: nat)
      requires alloc.Valid()
      modifies this`allocHint, this`goalGroup, this`reservationStart, this`reservationNext, this`reservationEnd
      ensures alloc.l.blocksPerGroup > 0
      ensures block != 0 ==> allocHint == block + 1 && goalGroup == alloc.l.GroupOf(block)
      ensures block == 0 ==> allocHint == old(allocHint) && goalGroup == old(goalGroup)
      ensures if block != 0 && old(reservationStart) != 0 && !(old(reservationStart) <= block < old(reservationEnd)) then
                reservationStart == reservationNext == reservationEnd == 0
              else
                && reservationStart == old(reservationStart) && reservationEnd == old(reservationEnd)
                && reservationNext == if block != 0 && reservationStart != 0 && old(reservationNext) <= block then block + 1
                                      else old(reservationNext)
    {
      if block == 0 {
        return;
      }
      allocHint, goalGroup := block + 1, alloc.l.GroupOf(block);
      if reservationStart != 0 && (block < reservationStart || block >= reservationEnd) {
        reservationStart, reservationNext, reservationEnd := 0, 0, 0;
      }
      if reservationStart != 0 && block + 1 > reservationNext {
        reservationNext := block + 1;
      }
    }

    /** Where the search for the next data block starts: at the next block of the reservation window, if there is one. */
    ghost function DataGoal(): nat
      reads this, alloc
    {
      if alloc.l.prealloc && 0 < reservationNext < reservationEnd then reservationNext else allocHint
    }

    /** A block for file data, from the reservation window if there is one. A block of the window in the group where the
        file goes on keeps it; any other one starts a new window. */
    method AllocDataBlock() returns (err: Errno, physical: nat)
      requires alloc.Valid()
      modifies this`reservationStart, this`reservationNext, this`reservationEnd, alloc, alloc.bitmaps, alloc.free
      ensures alloc.bitmaps == old(alloc.bitmaps) && alloc.free == old(alloc.free) && alloc.Valid()
      ensures err == if old(alloc.superFree) == 0 then Allocator.Enospc else Allocator.Ok
      ensures err == Allocator.Ok ==>
                && alloc.l.DataBlock(physical) && physical !in old(alloc.InUse())
                && alloc.InUse() == old(alloc.InUse()) + {physical} && alloc.superFree == old(alloc.superFree) - 1
                && physical == old(alloc.Choice(DataGoal(), goalGroup))
      ensures err != Allocator.Ok ==> alloc.InUse() == old(alloc.InUse()) && alloc.superFree == old(alloc.superFree)
      ensures err != Allocator.Ok || !alloc.l.prealloc ==>
                && reservationStart == old(reservationStart) && reservationNext == old(reservationNext)
                && reservationEnd == old(reservationEnd)
      ensures alloc.l.blocksPerGroup > 0
      ensures err == Allocator.Ok && alloc.l.prealloc ==>
                && reservationNext == physical + 1
                && if old(reservationStart) != 0 && old(reservationStart) <= physical < old(reservationEnd)
                      && alloc.l.GroupOf(physical) == goalGroup
                   then reservationStart == old(reservationStart) && reservationEnd == old(reservationEnd)
                   else reservationStart == physical && IsWindow(alloc.l, physical, reservationEnd)
    {
      assert alloc.l.blocksPerGroup > 0;
      GoalIs();
      hide *;
      var goal := allocHint;
      if alloc.l.prealloc {
        if reservationNext != 0 && reservationNext < reservationEnd {
          goal := reservationNext;
        }
        err, physical := alloc.AllocBlockGoal(goal, goalGroup);
        if err == Allocator.Ok {
          MoveWindow(physical);
        }
        return;
      }
      err, physical := alloc.AllocBlockGoal(allocHint, goalGroup);
    }

    /** The reservation window after a block was taken. */
    method MoveWindow(physical: nat)
      requires alloc.l.Wf() && alloc.l.DataBlock(physical)
      modifies this`reservationStart, this`reservationNext, this`reservationEnd
      ensures reservationNext == physical + 1
      ensures if old(reservationStart) != 0 && old(reservationStart) <= physical < old(reservationEnd)
                 && alloc.l.GroupOf(physical) == goalGroup
              then reservationStart == old(reservationStart) && reservationEnd == old(reservationEnd)
              else reservationStart == physical && IsWindow(alloc.l, physical, reservationEnd)
    {
      Allocator.WindowIsData(alloc.l, physical);
      hide Allocator.Layout.DataBlock, Allocator.Layout.Wf;
      var group := physical / alloc.l.blocksPerGroup;
      if reservationStart == 0 || physical < reservationStart || physical >= reservationEnd || group != goalGroup {
        var groupEnd := if group < |alloc.l.groups| then alloc.l.groups[group].start + alloc.l.groups[group].blocks else 0;
        reservationStart, reservationNext := physical, physical + 1;
        reservationEnd := if physical + RESERVATION_WINDOW < groupEnd then physical + RESERVATION_WINDOW else groupEnd;
      } else {
        reservationNext := physical + 1;
      }
    }

    lemma {:induction false} GoalIs()
      requires alloc.Valid()
      ensures DataGoal() == (if alloc.l.prealloc && 0 < reservationNext < reservationEnd then reservationNext else allocHint)
      ensures alloc.l.Wf() && RESERVATION_WINDOW == 64
    {
    }

    /** Allocate the block `wanted`; any other block the allocator picks is given back. */
    method AllocExactly(wanted: nat) returns (err: Errno, got: bool)
      requires alloc.Valid()
      modifies alloc, alloc.bitmaps, alloc.free
      ensures alloc.Valid() && alloc.bitmaps == old(alloc.bitmaps) && alloc.free == old(alloc.free)
      ensures err == if old(alloc.superFree) == 0 then Allocator.Enospc else Allocator.Ok
      ensures got <==> err == Allocator.Ok && old(alloc.Choice(wanted, goalGroup)) == wanted
      ensures got ==>
                && err == Allocator.Ok && alloc.l.DataBlock(wanted) && wanted !in old(alloc.InUse())
                && alloc.InUse() == old(alloc.InUse()) + {wanted} && alloc.superFree == old(alloc.superFree) - 1
      ensures !got ==> alloc.InUse() == old(alloc.InUse()) && alloc.superFree == old(alloc.superFree)
      ensures err == Allocator.Ok ==> alloc.nextDataBlock == old(alloc.Choice(wanted, goalGroup)) + 1
    {
      assert alloc.l.blocksPerGroup > 0;
      hide *;
      var physical;
      got := false;
      err, physical := alloc.AllocBlockGoal(wanted, goalGroup);
      if err == Allocator.Ok {
        got := physical == wanted;
        if !got {
          err := alloc.FreeBlock(physical);
        }
      }
    }

    /** The block behind the last extent, when the file goes on there and the extent can be longer. */
    ghost function Behind(logical: nat): Option<nat>
      reads this
    {
      var es := Flat(leaves);
      if es == [] then None
      else
        var last := es[|es| - 1];
        if logical == last.End() && last.length < MAX_LENGTH then Some(last.physical + last.length) else None
    }

    /** Will the last extent be made longer? That takes a block behind it, and an allocator that picks this very block. */
    ghost predicate Merges(logical: nat)
      requires alloc.Valid()
      reads this, alloc, alloc.bitmaps, alloc.free
    {
      Behind(logical).Some? && alloc.superFree > 0 && alloc.Choice(Behind(logical).value, goalGroup) == Behind(logical).value
    }

    /** The block an extent of its own starts at. When the block behind the last extent was not the one picked, the search
        goes on behind the one that was. */
    ghost function OwnChoice(logical: nat): nat
      requires alloc.Valid()
      reads this, alloc, alloc.bitmaps, alloc.free
    {
      var next := match Behind(logical)
                  case None => alloc.nextDataBlock
                  case Some(b) => alloc.Choice(b, goalGroup) + 1;
      Allocator.Chosen(alloc.l, alloc.State(), next, DataGoal(), goalGroup)
    }

    lemma {:induction false} OwnChoiceIs(logical: nat)
      requires alloc.Valid()
      ensures Allocator.Consistent(alloc.l, alloc.State()) && alloc.InUse() == Allocator.UsedBlocks(alloc.l, alloc.State())
      ensures Behind(logical) == None ==>
                && OwnChoice(logical) == alloc.Choice(DataGoal(), goalGroup)
                && OwnChoice(logical)
                   == Allocator.Chosen(alloc.l, alloc.State(), alloc.nextDataBlock, DataGoal(), goalGroup)
      ensures Behind(logical).Some? ==>
                OwnChoice(logical)
                == Allocator.Chosen(alloc.l, alloc.State(), alloc.Choice(Behind(logical).value, goalGroup) + 1, DataGoal(),
                                    goalGroup)
    {
      hide Allocator.Chosen, Allocator.Consistent, Allocator.UsedBlocks, Behind, DataGoal;
    }

    /** Find that block. */
    method LastExtent(logical: nat) returns (usable: bool, li: nat, ei: nat, goal: nat)
      requires TreeOk(leaves)
      ensures Behind(logical) == if usable then Some(goal) else None
      ensures usable ==>
                && li < |leaves| && ei < |leaves[li].extents|
                && var after := Longer(leaves, li, ei);
                   goal !in Owned(leaves) ==>
                     Grown(leaves, after, logical, goal, {goal}) && TreeOk(after) && Owned(after) == Owned(leaves) + {goal}
                     && Extended(leaves, after)
    {
      var total := TotalEntries();
      usable, li, ei, goal := false, 0, 0, 0;
      if total == 0 {
        return;
      }
      li, ei := EntryAt(total - 1);
      var last := leaves[li].extents[ei];
      if logical != last.logical + last.length || last.length >= MAX_LENGTH {
        return;
      }
      usable, goal := true, last.physical + last.length;
      if goal !in Owned(leaves) {
        MergedLast(leaves, li, ei, goal);
      }
    }

    /** Make the last extent one block longer when the file goes on there and the next block is free. */
    method TryMergeLast(logical: nat) returns (err: Errno, merged: bool, physical: nat)
      requires Valid()
      modifies this`leaves, alloc, alloc.bitmaps, alloc.free
      ensures Valid() && alloc.bitmaps == old(alloc.bitmaps) && alloc.free == old(alloc.free)
      ensures err == Allocator.Ok || (err == Allocator.Enospc && old(alloc.superFree) == 0)
      ensures merged <==> err == Allocator.Ok && old(Merges(logical))
      ensures merged ==> old(alloc.superFree) > 0
      ensures err == Allocator.Ok && merged ==>
                && alloc.l.DataBlock(physical) && physical !in old(alloc.InUse())
                && Grown(old(leaves), leaves, logical, physical, {physical})
                && alloc.InUse() == old(alloc.InUse()) + {physical} && alloc.superFree == old(alloc.superFree) - 1
                && old(Behind(logical)) == Some(physical) && Extended(old(leaves), leaves)
      ensures err == Allocator.Ok && !merged && old(Behind(logical)) == None ==>
                alloc.State() == old(alloc.State()) && alloc.nextDataBlock == old(alloc.nextDataBlock)
      ensures err == Allocator.Ok && old(Behind(logical)).Some? ==>
                alloc.nextDataBlock == old(alloc.Choice(Behind(logical).value, goalGroup)) + 1
      ensures err != Allocator.Ok || !merged ==>
                leaves == old(leaves) && alloc.InUse() == old(alloc.InUse()) && alloc.superFree == old(alloc.superFree)
    {
      hide *;
      ValidParts();
      MergesIs(logical);
      var usable, li, ei;
      usable, li, ei, physical := LastExtent(logical);
      merged, err := false, Allocator.Ok;
      if usable {
        err, merged := AllocExactly(physical);
        if merged {
          leaves := Longer(leaves, li, ei);
        }
      }
      ValidWhole();
    }

    lemma {:induction false} ValidParts()
      requires Valid()
      ensures alloc.Valid() && TreeOk(leaves) && Owned(leaves) <= alloc.InUse()
    {
    }

    lemma {:induction false} MergesIs(logical: nat)
      requires alloc.Valid()
      ensures Merges(logical)
              <==> && Behind(logical).Some? && alloc.superFree > 0
                   && alloc.Choice(Behind(logical).value, goalGroup) == Behind(logical).value
    {
    }

    lemma {:induction false} ValidWhole()
      requires alloc.Valid() && TreeOk(leaves) && Owned(leaves) <= alloc.InUse()
      ensures Valid()
    {
    }

    /** The first extent that starts behind a logical block. */
    method FindSlot(logical: nat) returns (found: bool, li: nat, ei: nat)
      ensures Target(leaves, logical) == if found then li else |leaves|
      ensures found ==>
                && li < |leaves| && ei < |leaves[li].extents| && logical < leaves[li].extents[ei].logical
                && StartBy(Flat(leaves[..li]), logical) && StartBy(leaves[li].extents[..ei], logical)
      ensures !found ==> StartBy(Flat(leaves), logical)
    {
      found, li, ei := false, 0, 0;
      while li < |leaves|
        invariant li <= |leaves|
        invariant forall i :: 0 <= i < li ==> StartBy(leaves[i].extents, logical)
      {
        ei := 0;
        while ei < |leaves[li].extents|
          invariant ei <= |leaves[li].extents| && StartBy(leaves[li].extents[..ei], logical)
        {
          if logical < leaves[li].extents[ei].logical {
            StartByFlat(leaves[..li], logical);
            TargetIs(leaves, logical, li);
            return true, li, ei;
          }
          ei := ei + 1;
        }
        assert leaves[li].extents[..ei] == leaves[li].extents;
        li := li + 1;
      }
      StartByFlat(leaves, logical);
      TargetIs(leaves, logical, li);
    }

    /** Put a one-block extent into its place: in front of the first one behind it, else behind all others,
        in a new leaf when the last one is full. A full leaf in the middle refuses it. */
    method AppendEntry(logical: nat, physical: nat) returns (err: Errno)
      requires Valid() && Map(logical) == None && physical in alloc.InUse() && physical !in Owned(leaves)
      modifies this`leaves, alloc, alloc.bitmaps, alloc.free
      ensures alloc.Valid() && alloc.bitmaps == old(alloc.bitmaps) && alloc.free == old(alloc.free)
      ensures err == if HasRoom(old(leaves), logical, old(alloc.superFree)) then Allocator.Ok else Allocator.Enospc
      ensures err == Allocator.Ok ==> exists added ::
                && Grown(old(leaves), leaves, logical, physical, {physical} + added)
                && added !! old(alloc.InUse()) && alloc.InUse() == old(alloc.InUse()) + added
      ensures err != Allocator.Ok ==>
                leaves == old(leaves) && alloc.InUse() == old(alloc.InUse()) && alloc.superFree == old(alloc.superFree)
      ensures err == Allocator.Ok ==>
                alloc.superFree >= old(alloc.superFree) - 1 && GoesLast(old(leaves), leaves, logical, physical)
      ensures |leaves| > |old(leaves)| ==> leaves[|leaves| - 1].block == old(alloc.Choice(allocHint, goalGroup))
    {
      var found, li, ei := FindSlot(logical);
      hide Allocator.Consistent, Allocator.UsedBlocks, Allocator.Allocator.Valid, Allocator.Allocator.InUse;
      hide Allocator.Allocator.State;
      hide Owned, Grown, Flat, Edited, StartBy, Target, Resolve, Sorted, Unshared, DistinctLeaves, LeafBlocks, Blocks;
      var before := leaves;
      hide Target, GoesLast;
      if !found && (leaves == [] || |leaves[|leaves| - 1].extents| >= PER_LEAF) {
        if |leaves| >= ROOT_REFS {
          return Allocator.Enospc;
        }
        var block;
        err, block := alloc.AllocBlockGoal(allocHint, goalGroup);
        if err == Allocator.Ok {
          GrowLeaf(leaves, block, logical, physical);
          LastLeaf(leaves, block, logical, physical);
          leaves := leaves + [Leaf(block, [Extent(logical, physical, 1)])];
          assert {physical} + {block} == {physical, block};
        }
        return;
      }
      if !found {
        li, ei := |leaves| - 1, |leaves[|leaves| - 1].extents|;
        FrontStarts(leaves, li, logical);
      }
      var es := leaves[li].extents;
      if |es| >= PER_LEAF {
        return Allocator.Enospc;
      }
      GrowInsert(leaves, li, ei, logical, physical);
      LastPlace(leaves, li, ei, logical, physical);
      EditedBlocks(leaves, li, es[..ei] + [Extent(logical, physical, 1)] + es[ei..]);
      leaves := Edited(leaves, li, es[..ei] + [Extent(logical, physical, 1)] + es[ei..]);
      assert {physical} + {} == {physical};
      err := Allocator.Ok;
    }

    /** The physical block of a logical one. With `create`, an unmapped one is given a fresh block. */
    method ResolveBlock(logical: nat, create: bool) returns (err: Errno, block: nat)
      requires Valid()
      modifies this, alloc, alloc.bitmaps, alloc.free
      ensures Valid() && alloc.bitmaps == old(alloc.bitmaps) && alloc.free == old(alloc.free)
      ensures err == Allocator.Efbig <==> logical >= FILE_BLOCKS_MAX
      ensures logical < FILE_BLOCKS_MAX && old(Map(logical)).Some? ==>
                err == Allocator.Ok && block == old(Map(logical)).value
      ensures logical < FILE_BLOCKS_MAX && old(Map(logical)).None? && !create ==> err == Allocator.Ok && block == 0
      ensures logical >= FILE_BLOCKS_MAX || old(Map(logical)).Some? || !create ==>
                leaves == old(leaves) && alloc.State() == old(alloc.State())
      ensures logical < FILE_BLOCKS_MAX && old(Map(logical)).None? && create ==>
                && (err == Allocator.Ok ==>
                      && alloc.l.DataBlock(block) && block !in old(alloc.InUse())
                      && (forall l: nat :: Map(l) == if l == logical then Some(block) else old(Map(l)))
                      && old(Owned(leaves)) + {block} <= Owned(leaves)
                      && alloc.InUse() == old(alloc.InUse()) + (Owned(leaves) - old(Owned(leaves)))
                      && alloc.superFree >= old(alloc.superFree) - 2
                      && (!old(Merges(logical)) ==> GoesLast(old(leaves), leaves, logical, block))
                      && (old(Merges(logical)) ==>
                            && old(Behind(logical)) == Some(block) && Extended(old(leaves), leaves)
                            && alloc.InUse() == old(alloc.InUse()) + {block})
                      && (!old(Merges(logical)) ==> block == old(OwnChoice(logical)))
                      && alloc.l.blocksPerGroup > 0 && allocHint == block + 1 && goalGroup == alloc.l.GroupOf(block))
                && (err != Allocator.Ok ==>
                      err == Allocator.Enospc && leaves == old(leaves) && alloc.InUse() == old(alloc.InUse()))
                && (err != Allocator.Ok
                    <==> old(alloc.superFree) == 0
                         || (!old(Merges(logical)) && !HasRoom(old(leaves), logical, old(alloc.superFree) - 1)))
    {
      hide *;
      MapIs();
      block, err := 0, Allocator.Ok;
      if logical >= FILE_BLOCKS_MAX {
        return Allocator.Efbig, 0;
      }
      var mapped := Lookup(logical);
      if mapped.Some? {
        return Allocator.Ok, mapped.value;
      }
      if !create {
        return Allocator.Ok, 0;
      }
      err, block := MapNew(logical);
      if err == Allocator.Ok {
        MappedFacts(alloc.l, old(leaves), leaves, logical, block, old(alloc.InUse()), alloc.InUse());
        MapIs();
      }
    }

    lemma {:induction false} MapIs()
      ensures forall l: nat :: Map(l) == Resolve(Flat(leaves), l)
      ensures Valid() ==> Owned(leaves) <= alloc.InUse()
    {
    }

    /** Map a logical block that is not mapped yet. */
    method MapNew(logical: nat) returns (err: Errno, block: nat)
      requires Valid() && Map(logical) == None
      modifies this, alloc, alloc.bitmaps, alloc.free
      ensures Valid() && alloc.bitmaps == old(alloc.bitmaps) && alloc.free == old(alloc.free)
      ensures err == Allocator.Ok || err == Allocator.Enospc
      ensures alloc.l.blocksPerGroup > 0
      ensures err == Allocator.Ok ==>
                Mapped(alloc.l, old(leaves), leaves, logical, block, old(alloc.InUse()), alloc.InUse())
      ensures err != Allocator.Ok ==>
                leaves == old(leaves) && alloc.InUse() == old(alloc.InUse())
      ensures err == Allocator.Ok ==>
                alloc.superFree >= old(alloc.superFree) - 2
                  && (!old(Merges(logical)) ==> GoesLast(old(leaves), leaves, logical, block))
                  && (old(Merges(logical)) ==>
                        && old(Behind(logical)) == Some(block) && Extended(old(leaves), leaves)
                        && alloc.InUse() == old(alloc.InUse()) + {block})
                  && (!old(Merges(logical)) ==> block == old(OwnChoice(logical)))
                  && allocHint == block + 1 && goalGroup == alloc.l.GroupOf(block)
      ensures err != Allocator.Ok
              <==> old(alloc.superFree) == 0
                   || (!old(Merges(logical)) && !HasRoom(old(leaves), logical, old(alloc.superFree) - 1))
    {
      assert alloc.l.blocksPerGroup > 0;
      MergesIs(logical);
      MapIs();
      OwnChoiceIs(logical);
      ghost var m := alloc.State();
      hide *;
      var merged;
      err, merged, block := TryMergeLast(logical);
      if err != Allocator.Ok {
        return;
      }
      if merged {
        MergedIsMapped(alloc.l, old(leaves), leaves, logical, block, old(alloc.InUse()), alloc.InUse());
      } else {
        MapIs();
        ChoiceReads();
        Allocator.ChosenSame(alloc.l, m, alloc.State(), alloc.nextDataBlock, DataGoal(), goalGroup);
        err, block := MapFresh(logical);
        if err != Allocator.Ok {
          return;
        }
      }
      MappedIsData(alloc.l, old(leaves), leaves, logical, block, old(alloc.InUse()), alloc.InUse());
      ValidParts();
      UpdateAllocHint(block);
      ValidWhole();
    }

    lemma {:induction false} ChoiceReads()
      requires alloc.Valid()
      ensures Allocator.Consistent(alloc.l, alloc.State()) && alloc.InUse() == Allocator.UsedBlocks(alloc.l, alloc.State())
      ensures alloc.Choice(DataGoal(), goalGroup)
              == Allocator.Chosen(alloc.l, alloc.State(), alloc.nextDataBlock, DataGoal(), goalGroup)
    {
      hide Allocator.Chosen, Allocator.Consistent, Allocator.UsedBlocks;
    }

    /** Map it to a block for file data, in an extent of its own. */
    method MapFresh(logical: nat) returns (err: Errno, block: nat)
      requires Valid() && Map(logical) == None
      modifies this`leaves, this`reservationStart, this`reservationNext, this`reservationEnd
      modifies alloc, alloc.bitmaps, alloc.free
      ensures Valid() && alloc.bitmaps == old(alloc.bitmaps) && alloc.free == old(alloc.free)
      ensures err == Allocator.Ok || err == Allocator.Enospc
      ensures alloc.l.blocksPerGroup > 0
      ensures err == Allocator.Ok ==>
                Mapped(alloc.l, old(leaves), leaves, logical, block, old(alloc.InUse()), alloc.InUse())
      ensures err != Allocator.Ok ==> leaves == old(leaves) && alloc.InUse() == old(alloc.InUse())
      ensures err == Allocator.Ok ==>
                && alloc.superFree >= old(alloc.superFree) - 2 && GoesLast(old(leaves), leaves, logical, block)
                && block == old(alloc.Choice(DataGoal(), goalGroup))
      ensures err != Allocator.Ok
              <==> old(alloc.superFree) == 0 || !HasRoom(old(leaves), logical, old(alloc.superFree) - 1)
    {
      assert alloc.l.blocksPerGroup > 0;
      hide Allocator.Consistent, Allocator.UsedBlocks, Allocator.Allocator.Valid, Allocator.Allocator.InUse;
      hide Allocator.Allocator.State;
      hide TreeOk, Owned, Grown, Flat, Resolve, HasRoom, Allocator.Layout.DataBlock, Allocator.Chosen;
      err, block := AllocDataBlock();
      if err != Allocator.Ok {
        return;
      }
      err := AppendEntry(logical, block);
      if err != Allocator.Ok {
        var ignored := alloc.FreeBlock(block);
        return;
      }
      FreshIsMapped(alloc.l, old(leaves), leaves, logical, block, old(alloc.InUse()), alloc.InUse());
      MappedFacts(alloc.l, old(leaves), leaves, logical, block, old(alloc.InUse()), alloc.InUse());
    }
  }
}
