/** The block groups mkfs lays out. */
module Mkfs {
  import opened Allocator

  const GROUP_META := 6 // two bitmaps and the inode table
  const JOURNAL_DEFAULT := 512
  const GROUP_BLOCKS := 4096
  const DESCRIPTOR := 76 // bytes
  const BLOCK_BYTES := 4096
  const ROOT_META := 7 // superblock, two bitmaps and the inode table

  function Min(a: nat, b: nat): nat { if a < b then a else b }

  function DivUp(a: nat, b: nat): nat
    requires b > 0
  {
    (a + b - 1) / b
  }

  /** The plan for a device of a given size. */
  function PlanOf(blocksCount: nat, policy: bool): Plan
    requires blocksCount > 0
  {
    var size := Min(blocksCount, GROUP_BLOCKS);
    var count := DivUp(blocksCount, size);
    Plan(blocksCount, size, count, ROOT_META + DivUp(count * DESCRIPTOR, BLOCK_BYTES), policy)
  }

  /** The numbers mkfs computes first. `policy` says whether there is a policy table behind the root directory. */
  datatype Plan = Plan(blocksCount: nat, blocksPerGroup: nat, groupCount: nat, rootDir: nat, policy: bool) {
    /** What mkfs writes and a mount accepts: at least two groups, and the metadata of the root group fits. */
    ghost predicate Real() {
      blocksCount > 0 && this == PlanOf(blocksCount, policy) && groupCount >= 2
        && rootDir + (if policy then 1 else 0) < blocksPerGroup
    }

    /** What of it the groups depend on. */
    ghost predicate Ok() {
      && blocksPerGroup > 0 && groupCount >= 2
      && Start(groupCount - 1) < blocksCount <= Start(groupCount)
      && rootDir < blocksPerGroup && (policy ==> rootDir + 1 < blocksPerGroup) && rootDir > 0
      && GROUP_META < blocksPerGroup
    }

    /** `i` times the size of a group, as a sum. */
    function Start(i: nat): nat { if i == 0 then 0 else Start(i - 1) + blocksPerGroup }

    function GroupBlocks(i: nat): nat {
      if Start(i) >= blocksCount then 0 else Min(blocksPerGroup, blocksCount - Start(i))
    }

    /** Size of the last group. */
    function Tail(): nat
      requires groupCount > 0
    {
      GroupBlocks(groupCount - 1)
    }

    /** The journal lies at the end of the last group, as far as there is room behind its metadata. */
    function JournalBlocks(): nat
      requires groupCount > 0
    {
      Min(if Tail() > GROUP_META then Tail() - GROUP_META else 0, JOURNAL_DEFAULT)
    }

    /** Blocks in front of the first one that is counted as free. */
    function Meta(i: nat): nat { if i == 0 then rootDir + 1 else GROUP_META }

    /** Free blocks in the descriptor of group `i`. */
    function Free(i: nat): nat
      requires groupCount > 0
    {
      var room := if GroupBlocks(i) > Meta(i) then GroupBlocks(i) - Meta(i) else 0;
      var left := if JournalBlocks() > 0 && i == groupCount - 1 then room - Min(JournalBlocks(), room) else room;
      if i == 0 && policy && left > 0 then left - 1 else left
    }

    /** Is bit `b` of the bitmap of group `i` set? */
    predicate Bit(i: nat, b: nat)
      requires groupCount > 0
    {
      if i == 0 then b < rootDir + 1 + (if policy then 1 else 0)
      else b < GROUP_META || (JournalBlocks() > 0 && i == groupCount - 1 && b >= GroupBlocks(i) - JournalBlocks())
    }

    function Bitmap(i: nat): (row: seq<bool>)
      requires groupCount > 0
      ensures |row| == GroupBlocks(i)
    {
      seq(GroupBlocks(i), b requires b >= 0 => Bit(i, b))
    }

    /** Blocks used in the groups up to `k`, as the superblock counts them. */
    function UsedUpTo(k: nat): nat {
      if k == 0 then 0 else UsedUpTo(k - 1) + if k == 1 then rootDir else GROUP_META
    }

    /** Free blocks in the superblock. */
    function Total(): int
      requires groupCount > 0
    {
      blocksCount - (1 + (if policy then 1 else 0) + UsedUpTo(groupCount) + JournalBlocks())
    }

    /** Free counters of the first `k` groups. */
    function Frees(k: nat): (s: seq<nat>)
      requires groupCount > 0
      ensures |s| == k && forall i :: 0 <= i < k ==> s[i] == Free(i)
    {
      if k == 0 then [] else Frees(k - 1) + [Free(k - 1)]
    }

    /** Bitmaps of the first `k` groups. */
    function Bitmaps(k: nat): (s: seq<seq<bool>>)
      requires groupCount > 0
      ensures |s| == k && forall i :: 0 <= i < k ==> s[i] == Bitmap(i)
    {
      if k == 0 then [] else Bitmaps(k - 1) + [Bitmap(k - 1)]
    }

    /** The constant part of the descriptors. */
    function Groups(k: nat): (s: seq<Group>)
      ensures |s| == k
      ensures forall i :: 0 <= i < k ==>
                s[i] == Group(Start(i), GroupBlocks(i), if i == 0 then rootDir else Start(i) + GROUP_META)
    {
      if k == 0 then [] else Groups(k - 1) + [Group(Start(k - 1), GroupBlocks(k - 1), if k == 1 then rootDir
                                                    else Start(k - 1) + GROUP_META)]
    }

    function LayoutOf(prealloc: bool): Layout {
      Layout(Groups(groupCount), blocksPerGroup, blocksCount, rootDir, prealloc)
    }
  }

  /** All groups but the last are full-sized. */
  lemma {:induction false} InnerGroup(p: Plan, i: nat)
    requires p.Ok() && i < p.groupCount
    ensures p.Start(i) < p.blocksCount && p.Start(i) + p.GroupBlocks(i) <= p.blocksCount
    ensures 0 < p.GroupBlocks(i) <= p.blocksPerGroup
    ensures i < p.groupCount - 1 ==> p.GroupBlocks(i) == p.blocksPerGroup
    ensures i == p.groupCount - 1 ==> p.Start(i) + p.GroupBlocks(i) == p.blocksCount
  {
    StartMonotone(p, i, p.groupCount - 1);
    if i < p.groupCount - 1 {
      StartMonotone(p, i + 1, p.groupCount - 1);
    }
  }

  lemma {:induction false} StartMonotone(p: Plan, i: nat, j: nat)
    requires i <= j
    ensures p.Start(i) <= p.Start(j)
    decreases j
  {
    if i < j {
      StartMonotone(p, i, j - 1);
    }
  }

  /** The start of a group is the product mkfs computes. */
  lemma {:induction false} StartIs(p: Plan, i: nat)
    ensures p.Start(i) == i * p.blocksPerGroup
  {
    if i > 0 {
      StartIs(p, i - 1);
    }
  }

  /** The sum of the first counters. */
  function FreeSum(p: Plan, k: nat): nat
    requires p.groupCount > 0
  {
    if k == 0 then 0 else FreeSum(p, k - 1) + p.Free(k - 1)
  }

  lemma {:induction false} SumOfFrees(p: Plan, k: nat)
    requires p.groupCount > 0
    ensures Sum(p.Frees(k)) == FreeSum(p, k)
  {
    hide Plan.Free;
    if k > 0 {
      SumOfFrees(p, k - 1);
      assert p.Frees(k)[..k - 1] == p.Frees(k - 1);
    }
  }

  /** Free and used blocks of the full-sized groups add up. */
  lemma {:induction false} SumsUpTo(p: Plan, k: nat)
    requires p.Ok() && 1 <= k < p.groupCount
    ensures FreeSum(p, k) + p.UsedUpTo(k) + 1 + (if p.policy then 1 else 0) == p.Start(k)
    decreases k
  {
    FreeInner(p, k - 1);
    hide Plan.Free, Plan.Ok;
    if k == 1 {
      assert FreeSum(p, 0) == 0 && p.UsedUpTo(0) == 0 && p.Start(0) == 0;
    } else {
      SumsUpTo(p, k - 1);
    }
  }

  lemma {:induction false} FreeInner(p: Plan, i: nat)
    requires p.Ok() && i < p.groupCount - 1
    ensures p.Free(i) + (if i == 0 then p.rootDir + 1 + (if p.policy then 1 else 0) else GROUP_META) == p.blocksPerGroup
  {
    InnerGroup(p, i);
  }

  /** The last group: its free blocks, its journal and its metadata. */
  lemma {:induction false} FreeLast(p: Plan)
    requires p.Ok()
    ensures p.Free(p.groupCount - 1) + p.JournalBlocks() + GROUP_META == if p.Tail() < GROUP_META then GROUP_META else p.Tail()
    ensures p.Start(p.groupCount - 1) + p.Tail() == p.blocksCount
  {
    InnerGroup(p, p.groupCount - 1);
  }

  /** The superblock counter is the sum of the group counters exactly when the last group holds its metadata; with
      a shorter one it is too small by what is missing. */
  lemma {:induction false} CountsAgreeExactly(p: Plan)
    requires p.Ok()
    ensures p.Total() == Sum(p.Frees(p.groupCount)) <==> p.Tail() >= GROUP_META
    ensures p.Tail() < GROUP_META ==> p.Total() == Sum(p.Frees(p.groupCount)) - (GROUP_META - p.Tail())
  {
    hide *;
    var n := p.groupCount;
    TwoGroups(p);
    SumOfFrees(p, n);
    SumsUpTo(p, n - 1);
    FreeLast(p);
    Totals(p);
  }

  lemma {:induction false} TwoGroups(p: Plan)
    requires p.Ok()
    ensures p.groupCount >= 2 && GROUP_META == 6
  {
  }

  /** 4099 blocks: the last group has three, and the two counts differ by three. */
  lemma {:induction false} ShortTail()
    ensures var p := PlanOf(4099, false); p.Real() && p.Ok() && p.Tail() == 3 && p.Total() == Sum(p.Frees(p.groupCount)) - 3
  {
    var p := PlanOf(4099, false);
    RealIsOk(p);
    assert p == Plan(4099, 4096, 2, 8, false);
    assert p.Start(1) == p.Start(0) + 4096;
    hide Plan.Total, Plan.Frees;
    CountsAgreeExactly(p);
  }

  lemma {:induction false} DivUpIs(a: nat, b: nat)
    requires b > 0
    ensures (DivUp(a, b) - 1) * b < a <= DivUp(a, b) * b || a == 0 == DivUp(a, b)
  {
    var q := (a + b - 1) / b;
    assert q * b <= a + b - 1 < q * b + b;
    assert (q - 1) * b == q * b - b;
  }

  lemma {:induction false} RealIsOk(p: Plan)
    requires p.Real()
    ensures p.Ok() && p.blocksPerGroup == GROUP_BLOCKS
  {
    DivUpOne(p.blocksCount);
    DivUpIs(p.blocksCount, GROUP_BLOCKS);
    StartIs(p, p.groupCount - 1);
    StartIs(p, p.groupCount);
    hide DivUp, Plan.Start;
  }

  /** The numbers of a device that can be mounted, whatever its size: as many groups of 4096 blocks as cover it; the root
      directory behind the superblock, the descriptors of 76 bytes a group, and the six blocks of the first group; a
      journal of 512 blocks, or what the last group has left behind its six. */
  lemma {:induction false} RealNumbers(p: Plan)
    requires p.Real()
    ensures (p.groupCount - 1) * 4096 < p.blocksCount <= p.groupCount * 4096 && p.blocksPerGroup == 4096
    ensures p.rootDir >= 8 && (p.rootDir - 8) * 4096 < p.groupCount * 76 <= (p.rootDir - 7) * 4096
    ensures p.Tail() == p.blocksCount - (p.groupCount - 1) * 4096
    ensures p.JournalBlocks() == if p.Tail() >= 518 then 512 else if p.Tail() >= 6 then p.Tail() - 6 else 0
  {
    RealIsOk(p);
    DivUpOne(p.blocksCount);
    DivUpIs(p.blocksCount, GROUP_BLOCKS);
    DivUpIs(p.groupCount * DESCRIPTOR, BLOCK_BYTES);
    StartIs(p, p.groupCount - 1);
    InnerGroup(p, p.groupCount - 1);
    hide DivUp, Plan.Start;
  }

  /** A device of one gibibyte: 64 groups, two blocks of descriptors, and a full journal. */
  lemma {:induction false} Gibibyte()
    ensures var p := PlanOf(0x4_0000, false); p.Real() && p.groupCount == 64 && p.rootDir == 9 && p.JournalBlocks() == 512
  {
    var p := PlanOf(0x4_0000, false);
    assert DivUp(0x4_0000, 4096) == 64 && DivUp(64 * 76, 4096) == 2;
    RealNumbers(p);
  }

  lemma {:induction false} DivUpOne(a: nat)
    requires a > 0
    ensures DivUp(a, a) == 1
  {
    assert a + a - 1 == 1 * a + (a - 1);
    DivGroup(1, a, a - 1);
  }

  lemma {:induction false} UsedIs(p: Plan, k: nat)
    requires k >= 1
    ensures p.UsedUpTo(k) == p.rootDir + (k - 1) * GROUP_META
  {
    if k > 1 {
      UsedIs(p, k - 1);
    }
  }

  /** A new filesystem that can be mounted has nearly a whole group of free blocks, whatever its size. */
  lemma {:induction false} RealHasRoom(p: Plan)
    requires p.Real()
    ensures p.Total() >= 4080
  {
    RealIsOk(p);
    var k := p.groupCount - 1;
    UsedIs(p, k + 1);
    InnerGroup(p, k);
    StartIs(p, k);
    hide Plan.Start, Plan.GroupBlocks, Plan.UsedUpTo;
    assert p.blocksCount == k * GROUP_BLOCKS + p.Tail();
    if k == 1 {
      assert p.rootDir == 8;
    }
  }

  lemma {:induction false} Totals(p: Plan)
    requires p.Ok()
    ensures var n := p.groupCount;
            && FreeSum(p, n) == FreeSum(p, n - 1) + p.Free(n - 1)
            && p.Total() == p.blocksCount - (1 + (if p.policy then 1
                                                  else 0) + p.UsedUpTo(n - 1) + GROUP_META + p.JournalBlocks())
  {
    hide Plan.Free, Plan.JournalBlocks, Plan.Start;
    assert p.UsedUpTo(p.groupCount) == p.UsedUpTo(p.groupCount - 1) + GROUP_META;
  }

  /** The allocator takes a block for file data exactly when it is on the device and behind the metadata of its group: the
      root directory and what follows in the first group, all but the first six blocks in the others. */
  lemma {:induction false} DataBlocksExactly(p: Plan, prealloc: bool, b: nat)
    requires p.Ok()
    ensures p.LayoutOf(prealloc).DataBlock(b)
            <==> b < p.blocksCount && if b < p.blocksPerGroup then b >= p.rootDir else b % p.blocksPerGroup >= 6
  {
    hide *;
    TwoGroups(p);
    PlaceInGroup(p, b);
    DataInGroup(p, prealloc, b);
    if b < p.blocksCount {
      InnerGroup(p, b / p.blocksPerGroup);
    }
  }

  /** Division gives the group of a block, and the remainder its place in it. */
  lemma {:induction false} PlaceInGroup(p: Plan, b: nat)
    requires p.Ok()
    ensures p.blocksPerGroup > 0
    ensures var i := b / p.blocksPerGroup;
            && b == p.Start(i) + b % p.blocksPerGroup && (i == 0 <==> b < p.blocksPerGroup)
            && (i == 0 ==> p.Start(i) == 0) && (b < p.blocksCount ==> i < p.groupCount)
            && p.rootDir > 0
            && (b < p.blocksCount && i < p.groupCount - 1 ==> p.Start(i) + p.blocksPerGroup <= p.blocksCount)
  {
    var i := b / p.blocksPerGroup;
    StartIs(p, i);
    assert p.Start(i + 1) == p.Start(i) + p.blocksPerGroup && p.Start(0) == 0;
    hide Plan.Start, Plan.GroupBlocks;
    if p.groupCount <= i {
      StartMonotone(p, p.groupCount, i);
    } else if i < p.groupCount - 1 {
      StartMonotone(p, i + 1, p.groupCount - 1);
    }
    assert i == 0 <==> b < p.blocksPerGroup by {
      if b < p.blocksPerGroup {
        DivBounds(b, p.blocksPerGroup, 0);
      }
    }
  }

  lemma {:induction false} DataInGroup(p: Plan, prealloc: bool, b: nat)
    requires p.Ok()
    ensures var i := b / p.blocksPerGroup;
            p.LayoutOf(prealloc).DataBlock(b)
            <==> && 0 < b < p.blocksCount && i < p.groupCount && p.Start(i) <= b < p.Start(i) + p.GroupBlocks(i)
                 && b >= if i == 0 then p.rootDir else p.Start(i) + GROUP_META
  {
  }

  /** A bitmap whose clear bits are those from `lo` up to `hi`. */
  lemma {:induction false} ClearBetween(row: seq<bool>, from: nat, lo: nat, hi: nat)
    requires from <= lo <= hi <= |row| && forall b :: 0 <= b < |row| ==> row[b] == !(lo <= b < hi)
    ensures Clear(row, from) == hi - lo
  {
    var n := |row|;
    if n > from {
      var front := row[..n - 1];
      if hi == n && lo < n {
        ClearBetween(front, from, lo, n - 1);
      } else if hi == n {
        ClearBetween(front, from, n - 1, n - 1);
      } else {
        ClearBetween(front, from, lo, hi);
      }
    }
  }

  lemma {:induction false} GroupCounted(p: Plan, i: nat)
    requires p.Ok() && i < p.groupCount
    ensures var from := if i == 0 then p.rootDir else 0; p.Free(i) == Clear(p.Bitmap(i), from)
  {
    InnerGroup(p, i);
    var lo := if i == 0 then p.rootDir + 1 + (if p.policy then 1 else 0) else Min(GROUP_META, p.GroupBlocks(i));
    var hi := if i == p.groupCount - 1 then p.GroupBlocks(i) - p.JournalBlocks() else p.GroupBlocks(i);
    ClearBetween(p.Bitmap(i), if i == 0 then p.rootDir else 0, lo, hi);
  }

  /** Clear bits of the first `k` groups. */
  function ClearBits(p: Plan, k: nat): nat
    requires p.groupCount > 0
  {
    if k == 0 then 0 else ClearBits(p, k - 1) + Clear(p.Bitmap(k - 1), if k == 1 then p.rootDir else 0)
  }

  lemma {:induction false} ClearBitsCounted(p: Plan, k: nat)
    requires p.Ok() && k <= p.groupCount
    ensures ClearBits(p, k) == FreeSum(p, k)
  {
    if k > 0 {
      ClearBitsCounted(p, k - 1);
      GroupCounted(p, k - 1);
    }
    hide Plan.Free, Plan.Bitmap, Clear, Plan.Ok;
  }

  /** With a last group shorter than its metadata there are more free blocks in the bitmaps than the superblock counts.
      The allocator goes by the groups, so when all are taken the superblock's count is below zero. */
  lemma {:induction false} CountBelowZero(p: Plan)
    requires p.Ok() && p.Tail() < GROUP_META
    ensures p.Total() - ClearBits(p, p.groupCount) == p.Tail() - GROUP_META < 0
  {
    hide *;
    TwoGroups(p);
    ClearBitsCounted(p, p.groupCount);
    SumOfFrees(p, p.groupCount);
    CountsAgreeExactly(p);
  }

  lemma {:induction false} FirstBits(p: Plan, prealloc: bool, i: nat)
    requires p.Ok() && i < p.groupCount
    ensures FirstBit(p.LayoutOf(prealloc), i) == if i == 0 then p.rootDir else 0
  {
    if i > 0 {
      StartMonotone(p, 1, i);
      assert p.Start(1) == p.Start(0) + p.blocksPerGroup;
    }
  }

  /** Clear bits stand for data blocks. */
  lemma {:induction false} ClearIsData(p: Plan, prealloc: bool, i: nat, b: nat)
    requires p.Ok() && i < p.groupCount && b < p.GroupBlocks(i) && !p.Bit(i, b)
    ensures p.LayoutOf(prealloc).DataBlock(p.Start(i) + b)
  {
    var l := p.LayoutOf(prealloc);
    InnerGroup(p, i);
    StartIs(p, i);
    DivGroup(i, p.blocksPerGroup, b);
    if i > 0 {
      StartMonotone(p, 1, i);
    }
    assert l.GroupOf(p.Start(i) + b) == i;
  }

  /** What mkfs writes is a consistent start for the allocator. */
  lemma {:induction false} FormatConsistent(p: Plan, prealloc: bool)
    requires p.Ok() && p.Tail() >= GROUP_META
    ensures p.Total() >= 0
    ensures Consistent(p.LayoutOf(prealloc), Maps(p.Bitmaps(p.groupCount), p.Frees(p.groupCount), p.Total()))
  {
    hide Plan.Groups, Plan.Frees, Plan.Bitmaps, Plan.Bitmap, Plan.Free, Plan.GroupBlocks, Plan.Bit, Plan.Start;
    hide Plan.Total, Plan.Tail;
    hide Layout.Wf, Layout.DataBlock, Sum, Clear, FirstBit, Consistent;
    var l, n := p.LayoutOf(prealloc), p.groupCount;
    CountsAgreeExactly(p);
    LayoutIsWf(p, prealloc);
    var m := Maps(p.Bitmaps(n), p.Frees(n), p.Total());
    forall i | 0 <= i < n
      ensures |m.bitmaps[i]| == l.groups[i].blocks && m.free[i] == Clear(m.bitmaps[i], FirstBit(l, i))
    {
      GroupCounted(p, i);
      FirstBits(p, prealloc, i);
    }
    forall i, b | 0 <= i < n && 0 <= b < |m.bitmaps[i]| && !m.bitmaps[i][b] ensures l.DataBlock(l.groups[i].start + b) {
      BitmapBit(p, i, b);
      ClearIsData(p, prealloc, i, b);
    }
    ConsistentFrom(l, m);
  }

  lemma {:induction false} ConsistentFrom(l: Layout, m: Maps)
    requires l.Wf() && |m.bitmaps| == |m.free| == |l.groups| && m.total == Sum(m.free)
    requires forall i :: 0 <= i < |l.groups| ==>
               |m.bitmaps[i]| == l.groups[i].blocks && m.free[i] == Clear(m.bitmaps[i], FirstBit(l, i))
    requires forall i, b :: 0 <= i < |l.groups| && 0 <= b < |m.bitmaps[i]| && !m.bitmaps[i][b] ==>
               l.DataBlock(l.groups[i].start + b)
    ensures Consistent(l, m)
  {
    hide Layout.Wf, Layout.DataBlock, Sum, Clear, FirstBit;
  }

  lemma {:induction false} BitmapBit(p: Plan, i: nat, b: nat)
    requires p.groupCount > 0 && b < p.GroupBlocks(i)
    ensures |p.Bitmap(i)| == p.GroupBlocks(i) && p.Bitmap(i)[b] == p.Bit(i, b)
  {
  }

  lemma {:induction false} LayoutIsWf(p: Plan, prealloc: bool)
    requires p.Ok()
    ensures p.LayoutOf(prealloc).Wf()
  {
    InnerGroup(p, 0);
    forall i | 0 <= i < p.groupCount
      ensures p.GroupBlocks(i) <= p.blocksPerGroup && p.Start(i) + p.GroupBlocks(i) <= p.blocksCount
    {
      InnerGroup(p, i);
    }
    forall i: nat ensures p.Start(i) == i * p.blocksPerGroup {
      StartIs(p, i);
    }
    hide Plan.GroupBlocks, Plan.Start;
  }

  /** The loops that fill bitmaps and counters. */
  method Format(p: Plan) returns (bitmaps: array<seq<bool>>, free: array<nat>, total: int)
    requires p.Ok()
    ensures fresh(bitmaps) && fresh(free)
    ensures bitmaps[..] == p.Bitmaps(p.groupCount) && free[..] == p.Frees(p.groupCount) && total == p.Total()
  {
    var used := 1 + if p.policy then 1 else 0;
    for group := 0 to p.groupCount
      invariant used == 1 + (if p.policy then 1 else 0) + p.UsedUpTo(group)
    {
      used := used + if group == 0 then p.rootDir else GROUP_META;
    }
    used := used + p.JournalBlocks();
    total := p.blocksCount - used;
    bitmaps := new seq<bool>[p.groupCount](i => []);
    free := new nat[p.groupCount](i => 0);
    for group := 0 to p.groupCount
      invariant forall i :: 0 <= i < group ==> free[i] == p.Free(i) && bitmaps[i] == p.Bitmap(i)
    {
      var blocks, meta := p.GroupBlocks(group), p.Meta(group);
      var count := if blocks > meta then blocks - meta else 0;
      if p.JournalBlocks() > 0 && group == p.groupCount - 1 {
        count := count - Min(p.JournalBlocks(), count);
      }
      if group == 0 && p.policy && count > 0 {
        count := count - 1;
      }
      free[group] := count;
      var row := SetBits(p, group);
      bitmaps[group] := row;
    }
  }

  /** The bits of one bitmap: metadata first, then the journal at its end. */
  method SetBits(p: Plan, group: nat) returns (row: seq<bool>)
    requires p.Ok() && group < p.groupCount
    ensures row == p.Bitmap(group)
  {
    row := [];
    var blocks := p.GroupBlocks(group);
    var meta := if group == 0 then p.rootDir + 1 + (if p.policy then 1 else 0) else GROUP_META;
    while |row| < blocks
      invariant |row| <= blocks && forall b :: 0 <= b < |row| ==> row[b] == p.Bit(group, b)
    {
      var b := |row|;
      var inJournal := group != 0 && p.JournalBlocks() > 0 && group == p.groupCount - 1 && b >= blocks - p.JournalBlocks();
      row := row + [b < meta || inJournal];
    }
  }
}
