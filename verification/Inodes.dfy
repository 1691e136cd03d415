/** The inode allocator (balloc.c): one bitmap and one free counter per group, and the free counter of the superblock.
    Bitmaps and counters are those of the block allocator; bit `i` of a group stands for the inode behind it. */
module Inodes {
  import opened Allocator

  const ROOT_INO := 1

  function Min(a: nat, b: nat): nat { if a < b then a else b }

  /** Inodes in the groups, each of which has `per`, the last one maybe fewer. The root is never handed out. */
  function LayoutOf(count: nat, per: nat, groups: nat, prealloc: bool): Layout {
    var rows := seq(groups, g requires 0 <= g < groups =>
      Group(g * per, if g * per < count then Min(per, count - g * per) else 0, g * per));
    Layout(rows, per, count, ROOT_INO, prealloc)
  }

  predicate Shape(count: nat, per: nat, groups: nat) {
    2 <= per && 2 <= count && 0 < groups && (groups - 1) * per < count <= groups * per
  }

  lemma {:induction false} ShapeWf(count: nat, per: nat, groups: nat, prealloc: bool)
    requires Shape(count, per, groups)
    ensures LayoutOf(count, per, groups, prealloc).Wf()
  {
    var l := LayoutOf(count, per, groups, prealloc);
    forall g | 0 <= g < groups ensures l.groups[g].start + l.groups[g].blocks <= count {
      Below(g, groups, per);
    }
    assert 0 * per == 0;
  }

  lemma {:induction false} Below(g: nat, groups: nat, per: nat)
    requires g < groups
    ensures g * per <= (groups - 1) * per
  {
    Mul(g, groups - 1 - g, per);
  }

  lemma {:induction false} Mul(a: nat, b: nat, per: nat)
    ensures (a + b) * per == a * per + b * per && 0 <= b * per
  {
  }

  /** Every inode but the root has a bit that can be handed out. */
  lemma {:induction false} InodeBit(count: nat, per: nat, groups: nat, prealloc: bool, i: nat)
    requires Shape(count, per, groups)
    ensures LayoutOf(count, per, groups, prealloc).DataBlock(i) <==> ROOT_INO <= i < count
  {
    var l := LayoutOf(count, per, groups, prealloc);
    DivUnder(i, per, groups);
    assert l.GroupOf(i) == i / per;
  }

  lemma {:induction false} DivUnder(i: nat, per: nat, groups: nat)
    requires per > 0
    ensures i / per * per <= i < i / per * per + per && (i < groups * per ==> i / per < groups)
  {
    var g := i / per;
    assert i == g * per + i % per;
    if g >= groups {
      Mul(groups, g - groups, per);
    }
  }

  /** Where the search starts. */
  function StartIn(l: Layout, goalGroup: nat): nat { if l.prealloc && goalGroup < |l.groups| then goalGroup else 0 }

  function Nth(start: nat, k: nat, n: nat): (g: nat)
    requires n > 0
    ensures g < n
  {
    (start + k) % n
  }

  /** The bit that is taken: the first clear one of the first group of the search with a free inode. */
  ghost function FirstFree(l: Layout, m: Maps, goalGroup: nat, scanned: nat): nat
    requires Consistent(l, m)
    decreases |l.groups| - scanned
  {
    if scanned >= |l.groups| then 0
    else
      var group := Nth(StartIn(l, goalGroup), scanned, |l.groups|);
      if m.free[group] == 0 then FirstFree(l, m, goalGroup, scanned + 1) else ChosenIn(l, m, group, 0)
  }

  lemma {:induction false} GroupSearch(l: Layout, m: Maps, goalGroup: nat, scanned: nat)
    requires Consistent(l, m) && scanned < |l.groups|
    ensures |m.bitmaps| == |m.free| == |l.groups|
    ensures var group := Nth(StartIn(l, goalGroup), scanned, |l.groups|);
            && group < |l.groups| && |m.bitmaps[group]| == l.groups[group].blocks
            && FirstFree(l, m, goalGroup, scanned)
               == if m.free[group] == 0 then FirstFree(l, m, goalGroup, scanned + 1) else ChosenIn(l, m, group, 0)
  {
    hide ChosenIn, StartIn, Clear, Sum;
  }

  /** A search over all groups that finds no counter above zero has seen every group. */
  lemma {:induction false} AllSeen(n: nat, start: nat, free: seq<nat>)
    requires n > 0 && |free| == n && start < n
    requires forall k :: 0 <= k < n ==> free[Nth(start, k, n)] == 0
    ensures forall g :: 0 <= g < n ==> free[g] == 0
  {
    forall g | 0 <= g < n ensures free[g] == 0 {
      var k := if g >= start then g - start else g + n - start;
      assert (start + k) % n == g by {
        if g < start {
          assert start + k == g + n;
          ModOnce(g, n);
        }
      }
      assert Nth(start, k, n) == g;
    }
  }

  lemma {:induction false} ModOnce(g: nat, n: nat)
    requires g < n
    ensures (g + n) % n == g
  {
  }

  /** The inodes in use, the root aside. */
  ghost function TakenIn(l: Layout, m: Maps): set<nat> { set ino: nat | ino <= l.blocksCount && IsTaken(l, m, ino) }

  ghost predicate IsTaken(l: Layout, m: Maps, ino: nat) { ino > 0 && ino - 1 in UsedBlocks(l, m) }

  lemma {:induction false} TakenMore(l: Layout, m: Maps, n: Maps, b: nat)
    requires UsedBlocks(l, n) == UsedBlocks(l, m) + {b} && b < l.blocksCount
    ensures TakenIn(l, n) == TakenIn(l, m) + {b + 1} && (b + 1 in TakenIn(l, m) <==> b in UsedBlocks(l, m))
  {
    hide UsedBlocks;
  }

  lemma {:induction false} TakenLess(l: Layout, m: Maps, n: Maps, b: nat)
    requires UsedBlocks(l, n) == UsedBlocks(l, m) - {b} && b < l.blocksCount
    ensures TakenIn(l, n) == TakenIn(l, m) - {b + 1} && (b + 1 in TakenIn(l, m) <==> b in UsedBlocks(l, m))
  {
    hide UsedBlocks;
  }

  class Inodes {
    const count: nat
    const per: nat
    const groups: nat
    const prealloc: bool
    /** Inode bitmap and free counter of each group. */
    var bitmaps: array<seq<bool>>
    var free: array<nat>
    /** Free counter of the superblock. */
    var superFree: nat

    function L(): Layout { LayoutOf(count, per, groups, prealloc) }

    function State(): Maps
      reads this, bitmaps, free
    {
      Maps(bitmaps[..], free[..], superFree)
    }

    ghost predicate Valid()
      reads this, bitmaps, free
    {
      Shape(count, per, groups) && Consistent(L(), State())
    }

    /** The inodes in use, the root aside. */
    ghost function Taken(): set<nat>
      reads this, bitmaps, free
    {
      TakenIn(L(), State())
    }

    constructor (count: nat, per: nat, groups: nat, prealloc: bool, bitmaps: array<seq<bool>>, free: array<nat>,
                 superFree: nat)
      requires Shape(count, per, groups)
      requires Consistent(LayoutOf(count, per, groups, prealloc), Maps(bitmaps[..], free[..], superFree))
      ensures Valid() && this.count == count && this.per == per && this.groups == groups && this.prealloc == prealloc
      ensures this.bitmaps == bitmaps && this.free == free && this.superFree == superFree
      ensures State() == Maps(bitmaps[..], free[..], superFree)
    {
      this.count, this.per, this.groups, this.prealloc := count, per, groups, prealloc;
      this.bitmaps, this.free, this.superFree := bitmaps, free, superFree;
    }

    lemma {:induction false} Parts()
      requires Valid()
      ensures per >= 2 && count >= 2 && Shape(count, per, groups)
      ensures Consistent(L(), State()) && L().Wf() && State() == Maps(bitmaps[..], free[..], superFree)
      ensures bitmaps.Length == free.Length == |L().groups| == groups > 0
      ensures forall g :: 0 <= g < groups ==> |bitmaps[g]| == L().groups[g].blocks && L().groups[g].start == g * per
      ensures L().firstDataBlock == ROOT_INO && L().blocksCount == count && L().blocksPerGroup == per
    {
      hide Clear, Sum, Layout.DataBlock;
    }

    /** The scan of one group, over the root too. */
    method ScanBits(g: nat, limit: nat) returns (bit: nat)
      requires Valid() && g < groups && limit == |bitmaps[g]|
      ensures limit <= |bitmaps[g]| && bit == FirstClear(bitmaps[g], FirstBit(L(), g), 0, limit)
    {
      Parts();
      hide *;
      for b := 0 to limit
        invariant FirstClear(bitmaps[g], FirstBit(L(), g), 0, limit) == FirstClear(bitmaps[g], FirstBit(L(), g), b, limit)
      {
        BitRoot(L(), g, per, b);
        ClearStep(bitmaps[g], FirstBit(L(), g), b, limit);
        if g * per + 1 + b < ROOT_INO + 1 {
          continue;
        }
        if !bitmaps[g][b] {
          return b;
        }
      }
      ClearEnd(bitmaps[g], FirstBit(L(), g), limit);
      bit := limit;
    }

    /** Take the first free inode of a group. */
    method AllocInodeInGroup(g: nat) returns (err: Errno, ino: nat)
      requires Valid() && g < groups
      modifies this, bitmaps, free
      ensures bitmaps == old(bitmaps) && free == old(free) && g < |old(State()).bitmaps| == |L().groups|
      ensures |old(State()).bitmaps[g]| == L().groups[g].blocks && g < |old(State()).free|
      ensures Valid() && err == if old(State()).free[g] > 0 then Ok else Enospc
      ensures err != Ok ==> State() == old(State())
      ensures err == Ok ==>
                && ROOT_INO < ino <= count && ino !in old(Taken()) && Taken() == old(Taken()) + {ino}
                && superFree == old(superFree) - 1
                && ino == ChosenIn(L(), old(State()), g, 0) + 1
    {
      hide *;
      Parts();
      ghost var m := State();
      TwoScans(L(), m, g, 0);
      InodeBits(L(), g, per);
      var limit := |bitmaps[g]|;
      var bit := ScanBits(g, limit);
      if bit == limit {
        return Enospc, 0;
      }
      ino := TakeInode(g, bit);
      err := Ok;
    }

    /** Set one clear bit and count it. */
    method TakeInode(g: nat, i: nat) returns (ino: nat)
      requires Valid() && g < groups && FirstBit(L(), g) <= i < |bitmaps[g]| && !bitmaps[g][i]
      modifies this, bitmaps, free
      ensures bitmaps == old(bitmaps) && free == old(free) && Valid()
      ensures ino == L().groups[g].start + i + 1 && ROOT_INO < ino <= count
      ensures ino !in old(Taken()) && Taken() == old(Taken()) + {ino} && superFree == old(superFree) - 1
    {
      hide *;
      Parts();
      StateIs();
      ghost var m := State();
      ClearBitCounted(L(), m, g, i);
      MarkConsistent(L(), m, g, i);
      BitIsInode(L(), m, g, i);
      BlockOfBit(L(), g, i);
      InodeBit(count, per, groups, prealloc, L().groups[g].start + i);
      LIs();
      ino := g * per + 1 + i;
      bitmaps[g] := bitmaps[g][i := true];
      free[g] := free[g] - 1;
      superFree := superFree - 1;
      MarkIs(m, g, i);
      StateIs();
      BitUse(L(), m, State(), g, i, true);
      UseOfBit(L(), m, L().groups[g].start + i);
      TakenMore(L(), m, State(), L().groups[g].start + i);
    }

    lemma {:induction false} LIs()
      ensures L() == LayoutOf(count, per, groups, prealloc)
    {
    }

    lemma {:induction false} StateIs()
      ensures State() == Maps(bitmaps[..], free[..], superFree) && Taken() == TakenIn(L(), State())
      ensures Shape(count, per, groups) && Consistent(L(), State()) ==> Valid()
    {
    }

    /** Scan the groups from the goal on for one whose counter is not zero. */
    method AllocInodeGoal(goalGroup: nat) returns (err: Errno, ino: nat)
      requires Valid()
      modifies this, bitmaps, free
      ensures bitmaps == old(bitmaps) && free == old(free) && Valid()
      ensures err == if old(superFree) > 0 then Ok else Enospc
      ensures err != Ok ==> State() == old(State()) && forall i :: ROOT_INO < i <= count ==> i in Taken()
      ensures err == Ok ==>
                && ROOT_INO < ino <= count && ino !in old(Taken()) && Taken() == old(Taken()) + {ino}
                && superFree == old(superFree) - 1
                && old(Consistent(L(), State())) && ino == FirstFree(L(), old(State()), goalGroup, 0) + 1
    {
      hide *;
      Parts();
      StateIs();
      ghost var m := State();
      var startGroup := StartGroup(goalGroup);
      for scanned := 0 to groups
        invariant State() == m && Valid() && bitmaps == old(bitmaps) && free == old(free)
        invariant Consistent(L(), m) && FirstFree(L(), m, goalGroup, 0) == FirstFree(L(), m, goalGroup, scanned)
        invariant |m.free| == groups && forall k :: 0 <= k < scanned ==> m.free[Nth(startGroup, k, groups)] == 0
      {
        GroupSearch(L(), m, goalGroup, scanned);
        Parts();
        NthIs(startGroup, scanned, groups);
        var group := (startGroup + scanned) % groups;
        StateIs();
        if free[group] == 0 {
          continue;
        }
        err, ino := AllocInodeInGroup(group);
        if err == Ok {
          NotZero(L(), m, group);
          return;
        }
      }
      AllSeen(groups, startGroup, m.free);
      NoneLeft();
      StateIs();
      err, ino := Enospc, 0;
    }

    method StartGroup(goalGroup: nat) returns (group: nat)
      requires Valid()
      ensures group == StartIn(L(), goalGroup) < groups
    {
      Parts();
      hide Valid, Shape, Consistent;
      group := 0;
      if prealloc && goalGroup < groups {
        group := goalGroup;
      }
    }

    /** With all counters zero every inode is in use. */
    lemma {:induction false} NoneLeft()
      requires Valid() && forall g :: 0 <= g < |State().free| ==> State().free[g] == 0
      ensures superFree == 0 && forall i :: ROOT_INO < i <= count ==> i in Taken()
    {
      hide *;
      Parts();
      NoFreeBlocks(L(), State());
      Counters(L(), State());
      forall i | ROOT_INO < i <= count ensures i in Taken() {
        InodeBit(count, per, groups, prealloc, i - 1);
        LIs();
        StateIs();
        TakenMember(L(), State(), i - 1);
      }
    }

    /** Give an inode back. Freeing one that is already free changes nothing. */
    method FreeInode(ino: nat) returns (err: Errno)
      requires Valid() && ino != ROOT_INO
      modifies this, bitmaps, free
      ensures bitmaps == old(bitmaps) && free == old(free) && Valid()
      ensures err == if ino < ROOT_INO || ino > count then Einval else Ok
      ensures Taken() == old(Taken()) - {ino} && superFree == old(superFree) + if ino in old(Taken()) then 1 else 0
    {
      hide *;
      Parts();
      LIs();
      StateIs();
      ghost var m := State();
      TakenBound(L(), m);
      if ino < ROOT_INO || ino > count {
        return Einval;
      }
      var block := ino - 1;
      InodeBit(count, per, groups, prealloc, block);
      GroupIs(L(), block);
      FirstBitLow(L(), block);
      UseOfBit(L(), m, block);
      TakenMember(L(), m, block);
      var group, bit := block / per, block % per;
      PlaceIs(block, per);
      if bitmaps[group][bit] {
        UnmarkConsistent(L(), m, group, bit);
        bitmaps[group] := bitmaps[group][bit := false];
        free[group] := free[group] + 1;
        superFree := superFree + 1;
        UnmarkIs(m, group, bit);
        StateIs();
        BitUse(L(), m, State(), group, bit, false);
        TakenLess(L(), m, State(), block);
      }
      err := Ok;
    }
  }

  // ----- facts about bits

  lemma {:induction false} NthIs(start: nat, k: nat, n: nat)
    requires n > 0
    ensures Nth(start, k, n) == (start + k) % n < n
  {
  }

  lemma {:induction false} BitRoot(l: Layout, g: nat, per: nat, b: nat)
    requires g < |l.groups| && l.groups[g].start == g * per && l.firstDataBlock == ROOT_INO && per >= 2
    ensures g * per + 1 + b < ROOT_INO + 1 <==> b < FirstBit(l, g)
  {
    assert g > 0 ==> g * per >= per by {
      if g > 0 {
        assert g * per == per + (g - 1) * per;
      }
    }
  }

  lemma {:induction false} ClearStep(row: seq<bool>, from: nat, b: nat, hi: nat)
    requires b < hi <= |row|
    ensures FirstClear(row, from, b, hi) == if from <= b && !row[b] then b else FirstClear(row, from, b + 1, hi)
  {
  }

  lemma {:induction false} ClearEnd(row: seq<bool>, from: nat, hi: nat)
    requires hi <= |row|
    ensures FirstClear(row, from, hi, hi) == hi
  {
  }

  /** With no hint a group is scanned once. */
  lemma {:induction false} InodeBits(l: Layout, g: nat, per: nat)
    requires g < |l.groups| && l.groups[g].start == g * per && per > 0
    ensures var start, n := l.groups[g].start, l.groups[g].blocks; (if start <= 0 < start + n then 0 - start else 0) == 0
  {
  }

  lemma {:induction false} BitIsInode(l: Layout, m: Maps, g: nat, i: nat)
    requires Consistent(l, m) && g < |l.groups| == |m.bitmaps| && FirstBit(l, g) <= i < |m.bitmaps[g]|
    requires !m.bitmaps[g][i]
    ensures l.DataBlock(l.groups[g].start + i)
  {
    hide Clear, Sum, Layout.DataBlock;
  }

  lemma {:induction false} MarkIs(m: Maps, g: nat, i: nat)
    requires g < |m.bitmaps| && i < |m.bitmaps[g]| && g < |m.free| && m.free[g] > 0 && m.total > 0
    ensures Mark(m, g, i) == Maps(m.bitmaps[g := m.bitmaps[g][i := true]], m.free[g := m.free[g] - 1], m.total - 1)
  {
  }

  lemma {:induction false} UnmarkIs(m: Maps, g: nat, i: nat)
    requires g < |m.bitmaps| && i < |m.bitmaps[g]| && g < |m.free|
    ensures Unmark(m, g, i) == Maps(m.bitmaps[g := m.bitmaps[g][i := false]], m.free[g := m.free[g] + 1], m.total + 1)
  {
  }

  lemma {:induction false} NotZero(l: Layout, m: Maps, g: nat)
    requires Consistent(l, m) && g < |m.free| && m.free[g] > 0
    ensures m.total > 0
  {
    SumAtLeast(m.free, g);
    hide Clear, Layout.DataBlock;
  }

  lemma {:induction false} Counters(l: Layout, m: Maps)
    requires Consistent(l, m)
    ensures |m.free| == |l.groups|
  {
  }

  lemma {:induction false} TakenMember(l: Layout, m: Maps, b: nat)
    ensures b + 1 in TakenIn(l, m) <==> b in UsedBlocks(l, m)
  {
    hide Used;
  }

  lemma {:induction false} TakenBound(l: Layout, m: Maps)
    ensures forall i :: i in TakenIn(l, m) ==> ROOT_INO <= i <= l.blocksCount
  {
  }

  lemma {:induction false} GroupIs(l: Layout, b: nat)
    requires l.blocksPerGroup > 0
    ensures l.GroupOf(b) == b / l.blocksPerGroup
  {
  }

  lemma {:induction false} PlaceIs(b: nat, per: nat)
    requires per > 0
    ensures b / per * per + b % per == b
  {
  }
}
