/** A file that is written on and on: its last extent grows. */
module SequentialFile {
  import Allocator
  import S = AllocSearch
  import opened ExtentGrow
  import opened ExtentSpec
  import opened ExtentSteps
  import E = ExtentTree

  /** The `k` blocks from `goal` on are free blocks of group `g`. */
  ghost predicate FreeAhead(l: Allocator.Layout, m: Allocator.Maps, g: nat, goal: nat, k: nat)
    requires l.blocksPerGroup > 0
  {
    g < |l.groups| && forall b: nat :: goal <= b < goal + k ==> S.FreeBlock(l, m, b) && S.InGroup(l, g, b)
  }

  /** With preallocation, a file goes on in the block behind its last extent whenever that is free. */
  lemma {:induction false} MergesWhenFree(f: E.ExtentInode, logical: nat)
    requires f.Valid() && f.alloc.l.prealloc && f.Behind(logical).Some?
    requires f.alloc.l.blocksPerGroup > 0 && S.FreeBlock(f.alloc.l, f.alloc.State(), f.Behind(logical).value)
    requires f.goalGroup >= |f.alloc.l.groups| || S.InGroup(f.alloc.l, f.goalGroup, f.Behind(logical).value)
    ensures f.Merges(logical)
  {
    f.ValidParts();
    f.MergesIs(logical);
    f.ChoiceReads();
    var l, m, goal := f.alloc.l, f.alloc.State(), f.Behind(logical).value;
    ValidAlloc(f);
    hide *;
    S.GoalChosen(l, m, f.alloc.nextDataBlock, goal, f.goalGroup);
    ChoiceIs(f, goal);
    Allocator.NoFreeBlocks(l, m);
    FreeIsUnused(l, m, goal);
  }

  lemma {:induction false} ValidAlloc(f: E.ExtentInode)
    requires f.alloc.Valid()
    ensures Allocator.Consistent(f.alloc.l, f.alloc.State()) && f.alloc.State().total == f.alloc.superFree
  {
    hide Allocator.Consistent;
  }

  lemma {:induction false} ChoiceIs(f: E.ExtentInode, goal: nat)
    requires f.alloc.Valid()
    ensures f.alloc.Choice(goal, f.goalGroup)
            == Allocator.Chosen(f.alloc.l, f.alloc.State(), f.alloc.nextDataBlock, goal, f.goalGroup)
  {
    hide Allocator.Chosen;
  }

  lemma {:induction false} FreeIsUnused(l: Allocator.Layout, m: Allocator.Maps, b: nat)
    requires l.blocksPerGroup > 0 && S.FreeBlock(l, m, b)
    ensures l.DataBlock(b) && b !in Allocator.UsedBlocks(l, m)
  {
    hide Allocator.Layout.DataBlock;
  }

  /** The block behind the last extent of a tree is not mapped. */
  lemma {:induction false} EndIsFree(leaves: seq<Leaf>)
    requires TreeOk(leaves) && Flat(leaves) != []
    ensures Resolve(Flat(leaves), Flat(leaves)[|Flat(leaves)| - 1].End()) == None
  {
    var flat := Flat(leaves);
    hide Flat;
    LastBounds(flat, 0);
    BoundCovers(flat, flat[|flat| - 1].End());
  }

  lemma {:induction false} LastBounds(es: seq<Extent>, from: nat)
    requires Sorted(es, from) && es != []
    ensures Bound(es) == es[|es| - 1].End()
  {
    if |es| > 1 {
      LastBounds(es[1..], es[0].End());
    } else {
      assert es[1..] == [];
    }
  }

  /** The last extent of a file. */
  ghost function Last(f: E.ExtentInode): Extent
    requires Flat(f.leaves) != []
    reads f
  {
    Flat(f.leaves)[|Flat(f.leaves)| - 1]
  }

  /** The block behind the last extent is free, belongs to the group where the file goes on, and can be added. */
  ghost predicate Ahead(f: E.ExtentInode, k: nat)
    reads f, f.alloc, f.alloc.bitmaps, f.alloc.free
  {
    && Flat(f.leaves) != [] && f.alloc.l.blocksPerGroup > 0 && f.alloc.l.prealloc
    && Last(f).length + k <= MAX_LENGTH && Last(f).End() + k <= FILE_BLOCKS_MAX
    && FreeAhead(f.alloc.l, f.alloc.State(), f.goalGroup, Last(f).physical + Last(f).length, k)
  }

  lemma {:induction false} AheadIs(f: E.ExtentInode, k: nat)
    requires f.Valid() && Ahead(f, k) && k > 0
    ensures f.alloc.l.blocksPerGroup > 0 && Flat(f.leaves) != []
    ensures var last, goal := Last(f), Last(f).physical + Last(f).length;
            && f.Behind(last.End()) == Some(goal) && last.End() < FILE_BLOCKS_MAX && f.alloc.l.prealloc
            && S.FreeBlock(f.alloc.l, f.alloc.State(), goal) && f.goalGroup < |f.alloc.l.groups|
            && S.InGroup(f.alloc.l, f.goalGroup, goal) && f.alloc.l.GroupOf(goal) == f.goalGroup
            && f.Map(last.End()) == None
  {
    AheadGoal(f, k);
    AheadFree(f, k);
    hide *;
    f.ValidParts();
    ValidAlloc(f);
    EndIsFree(f.leaves);
    var goal := Last(f).physical + Last(f).length;
    FreeIsUnused(f.alloc.l, f.alloc.State(), goal);
    S.GroupOfBlock(f.alloc.l, f.alloc.State(), goal);
  }

  lemma {:induction false} AheadGoal(f: E.ExtentInode, k: nat)
    requires Ahead(f, k) && k > 0
    ensures f.alloc.l.blocksPerGroup > 0 && Flat(f.leaves) != []
    ensures var last := Last(f);
            && f.Behind(last.End()) == Some(last.physical + last.length) && last.End() < FILE_BLOCKS_MAX && f.alloc.l.prealloc
            && last == Flat(f.leaves)[|Flat(f.leaves)| - 1] && f.Map(last.End()) == Resolve(Flat(f.leaves), last.End())
  {
    hide Flat, Resolve, FreeAhead, Extent.End;
  }

  lemma {:induction false} AheadFree(f: E.ExtentInode, k: nat)
    requires Ahead(f, k) && k > 0
    ensures f.alloc.l.blocksPerGroup > 0 && Flat(f.leaves) != []
    ensures S.FreeBlock(f.alloc.l, f.alloc.State(), Last(f).physical + Last(f).length)
    ensures f.goalGroup < |f.alloc.l.groups|
    ensures S.InGroup(f.alloc.l, f.goalGroup, Last(f).physical + Last(f).length)
  {
    hide Flat, Last, S.FreeBlock, Allocator.Allocator.State;
  }

  /** What is left ahead when the first block is taken. */
  lemma {:induction false} AheadNext(l: Allocator.Layout, m: Allocator.Maps, n: Allocator.Maps, g: nat, goal: nat, k: nat)
    requires l.blocksPerGroup > 0 && k > 0 && FreeAhead(l, m, g, goal, k)
    requires Allocator.UsedBlocks(l, n) == Allocator.UsedBlocks(l, m) + {goal}
    ensures FreeAhead(l, n, g, goal + 1, k - 1)
  {
    hide Allocator.UsedBlocks, Allocator.Layout.DataBlock;
    forall b: nat | goal + 1 <= b < goal + 1 + (k - 1) ensures S.FreeBlock(l, n, b) && S.InGroup(l, g, b) {
      assert S.FreeBlock(l, m, b) && S.InGroup(l, g, b);
    }
  }

  lemma {:induction false} AheadParts(f: E.ExtentInode, k: nat)
    ensures Ahead(f, k)
            <==> && Flat(f.leaves) != [] && f.alloc.l.blocksPerGroup > 0 && f.alloc.l.prealloc
                 && Last(f).length + k <= MAX_LENGTH && Last(f).End() + k <= FILE_BLOCKS_MAX
                 && FreeAhead(f.alloc.l, f.alloc.State(), f.goalGroup, Last(f).physical + Last(f).length, k)
  {
    hide FreeAhead, Flat;
  }

  lemma {:induction false} InUseIs(f: E.ExtentInode)
    ensures f.alloc.InUse() == Allocator.UsedBlocks(f.alloc.l, f.alloc.State())
  {
    hide Allocator.UsedBlocks;
  }

  lemma {:induction false} ExtendedLast(was: seq<Leaf>, now: seq<Leaf>)
    requires Extended(was, now)
    ensures Flat(was) != [] && Flat(now) != [] && |Flat(now)| == |Flat(was)|
    ensures var e := Flat(was)[|Flat(was)| - 1];
            && Flat(now)[|Flat(now)| - 1] == e.(length := e.length + 1)
            && Flat(now)[..|Flat(now)| - 1] == Flat(was)[..|Flat(was)| - 1]
  {
    hide Flat;
  }

  lemma {:induction false} LastIs(f: E.ExtentInode)
    requires Flat(f.leaves) != []
    ensures Last(f) == Flat(f.leaves)[|Flat(f.leaves)| - 1] && Last(f).End() == Last(f).logical + Last(f).length
  {
    hide Flat;
  }

  /** Write the block behind the end of the file. */
  method WriteOne(f: E.ExtentInode, logical: nat, ghost k: nat) returns (err: E.Errno)
    requires f.Valid() && k > 0 && Ahead(f, k) && Flat(f.leaves) != [] && logical == Last(f).End()
    modifies f, f.alloc, f.alloc.bitmaps, f.alloc.free
    ensures f.Valid() && f.alloc.bitmaps == old(f.alloc.bitmaps) && f.alloc.free == old(f.alloc.free)
    ensures err == Allocator.Ok && Extended(old(f.leaves), f.leaves) && Ahead(f, k - 1)
    ensures f.alloc.InUse() == old(f.alloc.InUse()) + {old(Last(f).physical + Last(f).length)}
  {
    hide *;
    AheadIs(f, k);
    AheadParts(f, k);
    LastIs(f);
    ghost var goal, g := Last(f).physical + Last(f).length, f.goalGroup;
    ghost var m := f.alloc.State();
    InUseIs(f);
    MergesWhenFree(f, logical);
    f.ValidParts();
    f.MergesIs(logical);
    var block;
    err, block := f.ResolveBlock(logical, true);
    InUseIs(f);
    AheadNext(f.alloc.l, m, f.alloc.State(), g, goal, k);
    ExtendedLast(old(f.leaves), f.leaves);
    LastIs(f);
    AheadParts(f, k - 1);
  }

  /** Main result on sequential writes: as long as the blocks behind the last extent are free, the file takes exactly
      these, and its last extent grows; no extent and no leaf is added. */
  method WriteOn(f: E.ExtentInode, logical: nat, n: nat) returns (err: E.Errno)
    requires f.Valid() && Ahead(f, n) && Flat(f.leaves) != [] && logical == Last(f).End()
    modifies f, f.alloc, f.alloc.bitmaps, f.alloc.free
    ensures f.Valid() && err == Allocator.Ok && |f.leaves| == |old(f.leaves)|
    ensures Flat(f.leaves)
            == Flat(old(f.leaves))[..|Flat(old(f.leaves))| - 1] + [old(Last(f)).(length := old(Last(f)).length + n)]
    ensures var goal := old(Last(f).physical + Last(f).length);
            f.alloc.InUse() == old(f.alloc.InUse()) + Range(goal, goal + n)
  {
    hide *;
    ghost var last, goal := Last(f), Last(f).physical + Last(f).length;
    ghost var front := Flat(f.leaves)[..|Flat(f.leaves)| - 1];
    var i := 0;
    err := Allocator.Ok;
    LastIs(f);
    NoRange(goal);
    while i < n
      invariant i <= n && f.Valid() && f.alloc.bitmaps == old(f.alloc.bitmaps) && f.alloc.free == old(f.alloc.free)
      invariant err == Allocator.Ok && |f.leaves| == |old(f.leaves)| && Ahead(f, n - i)
      invariant Flat(f.leaves) == front + [last.(length := last.length + i)]
      invariant f.alloc.InUse() == old(f.alloc.InUse()) + Range(goal, goal + i)
    {
      ghost var was := f.leaves;
      LastIs(f);
      EndOf(last, i);
      err := WriteOne(f, logical + i, n - i);
      ExtendedLast(was, f.leaves);
      SameCount(was, f.leaves);
      MoreRange(goal, i);
      i := i + 1;
    }
  }

  lemma {:induction false} EndOf(last: Extent, i: nat)
    ensures last.(length := last.length + i).End() == last.End() + i
  {
  }

  lemma {:induction false} SameCount(was: seq<Leaf>, now: seq<Leaf>)
    requires Extended(was, now)
    ensures |now| == |was|
  {
  }

  lemma {:induction false} NoRange(goal: nat)
    ensures Range(goal, goal) == {}
  {
    forall p: nat ensures !Within(p, goal, goal) {
    }
  }

  lemma {:induction false} MoreRange(goal: nat, i: nat)
    ensures Range(goal, goal + i + 1) == Range(goal, goal + i) + {goal + i}
  {
    var more, few := Range(goal, goal + i + 1), Range(goal, goal + i);
    forall p: nat ensures p in more <==> p in few || p == goal + i {
      assert p in more <==> Within(p, goal, goal + i + 1);
      assert p in few <==> Within(p, goal, goal + i);
    }
  }
}
