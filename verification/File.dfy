/** Regular files as bytes (file.c): reading through holes, hole punching that zeroes partial blocks, and
    shrinking and growing. */
module File {
  import Allocator
  import opened Bytes
  import E = ExtentSpec
  import ExtentTree
  import S = ExtentSteps

  type Errno = Allocator.Errno

  const SIZE_MAX := E.FILE_BLOCKS_MAX * BLOCK_SIZE

  function Min(a: nat, b: nat): nat { if a < b then a else b }

  /** A block with zeros from `lo` up to `hi`. */
  function Zeroed(b: Block, lo: nat, hi: nat): (r: Block)
    requires lo <= hi <= BLOCK_SIZE
    ensures forall i :: 0 <= i < BLOCK_SIZE ==> r[i] == if lo <= i < hi then 0 else b[i]
  {
    b[..lo] + seq(hi - lo, i => 0) + b[hi..]
  }

  lemma {:induction false} ResolveOwned(es: seq<E.Extent>, l: nat)
    requires E.Resolve(es, l).Some?
    ensures E.Resolve(es, l).value in E.Blocks(es)
  {
    if es[0].Covers(l) {
      assert E.Within(E.Resolve(es, l).value, es[0].physical, es[0].physical + es[0].length);
    } else {
      ResolveOwned(es[1..], l);
    }
  }

  /** No two logical blocks share a physical one. */
  lemma {:induction false} ResolveInjective(es: seq<E.Extent>, k: nat, l: nat)
    requires E.Unshared(es) && E.Resolve(es, k).Some? && E.Resolve(es, k) == E.Resolve(es, l)
    ensures k == l
  {
    if es[0].Covers(k) && es[0].Covers(l) {
    } else if es[0].Covers(k) {
      ResolveHead(es, k);
      ResolveOwned(es[1..], l);
    } else if es[0].Covers(l) {
      ResolveHead(es, l);
      ResolveOwned(es[1..], k);
    } else {
      ResolveInjective(es[1..], k, l);
    }
  }

  lemma {:induction false} ResolveHead(es: seq<E.Extent>, l: nat)
    requires es != [] && es[0].Covers(l)
    ensures E.Resolve(es, l).Some? && E.Resolve(es, l).value in es[0].Blocks()
  {
    assert E.Within(E.Resolve(es, l).value, es[0].physical, es[0].physical + es[0].length);
  }

  /** The position lies in a part of a block. */
  predicate InBlock(pos: nat, logical: nat, lo: nat, hi: nat) {
    pos / BLOCK_SIZE == logical && lo <= pos % BLOCK_SIZE < hi
  }

  /** The first block that starts in a hole from `offset` on, and the block in which a hole that ends at `end` stops. */
  function FirstFull(offset: nat): nat { (offset + BLOCK_SIZE - 1) / BLOCK_SIZE }

  function EndFull(end: nat): nat { end / BLOCK_SIZE }

  /** Between them are exactly the blocks that lie in the hole as a whole. */
  lemma {:induction false} FullBlocks(l: nat, offset: nat, end: nat)
    ensures FirstFull(offset) <= l < EndFull(end) <==> offset <= l * BLOCK_SIZE && (l + 1) * BLOCK_SIZE <= end
  {
  }

  /** A tree without the blocks from `first` up to `last`, which are given back with the leaves that held nothing else. */
  ghost predicate GaveBack(was: seq<E.Leaf>, now: seq<E.Leaf>, usedBefore: set<nat>, used: set<nat>, first: nat, last: nat) {
    && (forall l: nat :: E.Resolve(E.Flat(now), l) == if first <= l < last then E.None else E.Resolve(E.Flat(was), l))
    && E.Owned(now) == E.Owned(was) - E.Freed(E.Flat(was), first, last) - E.DroppedLeaves(was, first, last)
    && used == usedBefore - (E.Owned(was) - E.Owned(now))
  }

  /** A tree without the blocks that start at byte `n` or behind it, and what it held beyond that is given back. */
  ghost predicate CutOff(was: seq<E.Leaf>, now: seq<E.Leaf>, usedBefore: set<nat>, used: set<nat>, n: nat) {
    && (forall l: nat :: E.Resolve(E.Flat(now), l) == if l * BLOCK_SIZE < n then E.Resolve(E.Flat(was), l) else E.None)
    && used == usedBefore - (E.Owned(was) - E.Owned(now))
  }

  /** The tree and the blocks in use are as before. */
  ghost predicate Kept(was: seq<E.Leaf>, now: seq<E.Leaf>, usedBefore: set<nat>, used: set<nat>) {
    now == was && used == usedBefore
  }

  /** Punching zeros the part of the first block, the part of the last block, and frees the full blocks between. */
  predicate InHead(pos: nat, offset: nat, end: nat) {
    pos / BLOCK_SIZE == offset / BLOCK_SIZE && offset <= pos < HeadEnd(offset, end)
  }

  function HeadEnd(offset: nat, end: nat): nat {
    Min(end, FirstFull(offset) * BLOCK_SIZE)
  }

  predicate InTail(pos: nat, offset: nat, end: nat) {
    var start := end / BLOCK_SIZE * BLOCK_SIZE;
    start >= HeadEnd(offset, end) && start <= pos < end
  }

  predicate InFull(pos: nat, offset: nat, end: nat) {
    FirstFull(offset) <= pos / BLOCK_SIZE < EndFull(end)
  }

  lemma {:induction false} HeadIs(pos: nat, offset: nat, end: nat)
    requires offset < end
    ensures var head := HeadEnd(offset, end);
            InHead(pos, offset, end) <==>
                  && offset < head
                  && InBlock(pos, offset / BLOCK_SIZE, offset % BLOCK_SIZE, offset % BLOCK_SIZE + (head - offset))
  {
  }

  lemma {:induction false} TailIs(pos: nat, offset: nat, end: nat)
    ensures var tail := end / BLOCK_SIZE * BLOCK_SIZE;
            InTail(pos, offset, end) <==>
                  && tail < end && tail >= HeadEnd(offset, end)
                  && InBlock(pos, tail / BLOCK_SIZE, 0, end - tail)
  {
  }

  /** What is behind `n` is in the cut blocks or in the rest of the last kept one. */
  lemma {:induction false} CutParts(pos: nat, n: nat, keep: nat, tail: nat)
    requires keep == (n + BLOCK_SIZE - 1) / BLOCK_SIZE && tail == n % BLOCK_SIZE
    ensures tail < BLOCK_SIZE && (tail != 0 ==> keep > 0)
    ensures n <= pos <==> pos / BLOCK_SIZE >= keep || (tail != 0 && InBlock(pos, keep - 1, tail, BLOCK_SIZE))
  {
  }

  lemma {:induction false} Edges(offset: nat, end: nat)
    requires offset < end
    ensures var head, tail := HeadEnd(offset, end), end / BLOCK_SIZE * BLOCK_SIZE;
            && (offset < head ==> offset % BLOCK_SIZE + (head - offset) <= BLOCK_SIZE) && tail <= end < tail + BLOCK_SIZE
  {
    assert FirstFull(offset) * BLOCK_SIZE - offset + offset % BLOCK_SIZE <= BLOCK_SIZE;
  }

  /** The three parts are the hole. */
  lemma {:induction false} HoleParts(pos: nat, offset: nat, end: nat)
    requires offset < end
    ensures offset <= pos < end <==> InHead(pos, offset, end) || InTail(pos, offset, end) || InFull(pos, offset, end)
  {
  }

  class File {
    const inode: ExtentTree.ExtentInode
    /** Contents of blocks on disk. */
    var content: map<nat, Block>
    var size: nat

    ghost predicate Valid()
      reads this, inode, inode.alloc, inode.alloc.bitmaps, inode.alloc.free
    {
      && inode.Valid() && size <= SIZE_MAX
      && forall l: nat :: inode.Map(l).Some? ==> inode.Map(l).value in content
    }

    constructor (inode: ExtentTree.ExtentInode, content: map<nat, Block>)
      requires inode.Valid() && inode.leaves == []
      ensures Valid() && this.inode == inode && size == 0
    {
      this.inode, this.content, this.size := inode, content, 0;
    }

    /** The byte at a position of the block map, whatever the size of the file. */
    function Raw(pos: nat): byte
      reads this, inode
    {
      match inode.Map(pos / BLOCK_SIZE)
      case None => 0
      case Some(p) => if p in content then content[p][pos % BLOCK_SIZE] else 0
    }

    /** The byte a reader sees; behind the end of the file there are zeros. */
    function Byte(pos: nat): byte
      reads this, inode
    {
      if pos < size then Raw(pos) else 0
    }

    /** Fill a page; holes and what lies behind the end of the file read as zeros. */
    method FillPage(pos: nat) returns (page: seq<byte>)
      requires Valid()
      ensures |page| == BLOCK_SIZE && forall i :: 0 <= i < BLOCK_SIZE ==> page[i] == Byte(pos + i)
    {
      hide ExtentTree.ExtentInode.Valid, ExtentTree.ExtentInode.Map;
      page := [];
      var remaining := if pos < size then Min(BLOCK_SIZE, size - pos) else 0;
      while |page| < remaining
        invariant |page| <= remaining
        invariant forall i :: 0 <= i < |page| ==> page[i] == Byte(pos + i)
      {
        var done := |page|;
        var logical, off := (pos + done) / BLOCK_SIZE, (pos + done) % BLOCK_SIZE;
        var chunk := Min(remaining - done, BLOCK_SIZE - off);
        var physical := inode.Lookup(logical);
        var piece := if physical.Some? then content[physical.value][off..off + chunk] else seq(chunk, i => 0);
        forall i | 0 <= i < |piece| ensures piece[i] == Byte(pos + done + i) {
          SameBlock(pos + done, i);
        }
        page := page + piece;
      }
      page := page + seq(BLOCK_SIZE - |page|, i => 0);
    }

    /** Zero part of one block, if it is mapped. */
    method ZeroRange(logical: nat, lo: nat, hi: nat)
      requires Valid() && lo <= hi <= BLOCK_SIZE
      modifies this`content
      ensures Valid()
      ensures forall pos: nat :: Raw(pos) == if InBlock(pos, logical, lo, hi) then 0 else old(Raw(pos))
    {
      var physical := inode.Lookup(logical);
      if physical.Some? {
        forall l: nat | inode.Map(l) == physical ensures l == logical {
          ResolveInjective(E.Flat(inode.leaves), l, logical);
        }
        hide ExtentTree.ExtentInode.Valid, ExtentTree.ExtentInode.Map;
        content := content[physical.value := Zeroed(content[physical.value], lo, hi)];
      }
    }

    /** Punch a hole. Exactly the bytes of the hole below the end of the file become zeros, and its full blocks are given
        back. It is refused exactly when there are full blocks and one of them splits an extent of a full leaf; it has
        zeroed its parts of blocks then. */
    method PunchHole(offset: nat, len: nat) returns (err: Errno)
      requires Valid()
      modifies this`content, inode`leaves, inode.alloc, inode.alloc.bitmaps, inode.alloc.free
      ensures Valid() && size == old(size)
      ensures inode.alloc.bitmaps == old(inode.alloc.bitmaps) && inode.alloc.free == old(inode.alloc.free)
      ensures var end := Min(offset + len, size);
              err == if len == 0 then Allocator.Einval
                     else if offset < size && FirstFull(offset) < EndFull(end)
                             && S.SplitsFullLeaf(old(inode.leaves), FirstFull(offset), EndFull(end)) then Allocator.Enospc
                     else Allocator.Ok
      ensures err == Allocator.Ok ==>
                forall pos: nat :: Raw(pos) == if offset <= pos < Min(offset + len, size) then 0 else old(Raw(pos))
      ensures err == Allocator.Ok && offset < size && FirstFull(offset) < EndFull(Min(offset + len, size)) ==>
                GaveBack(old(inode.leaves), inode.leaves, old(inode.alloc.InUse()), inode.alloc.InUse(),
                         FirstFull(offset), EndFull(Min(offset + len, size)))
      ensures err != Allocator.Ok || offset >= size || FirstFull(offset) >= EndFull(Min(offset + len, size)) ==>
                Kept(old(inode.leaves), inode.leaves, old(inode.alloc.InUse()), inode.alloc.InUse())
      ensures err == Allocator.Enospc ==>
                && var end := Min(offset + len, size);
                   forall pos: nat :: Raw(pos) == if InHead(pos, offset, end) || InTail(pos, offset, end) then 0
                     else old(Raw(pos))
      ensures err == Allocator.Einval ==> content == old(content)
    {
      if len == 0 {
        return Allocator.Einval;
      }
      if offset >= size {
        return Allocator.Ok;
      }
      var end := Min(offset + len, size);
      hide *;
      ZeroEdges(offset, end);
      var first, last := FirstFull(offset), EndFull(end);
      err := Allocator.Ok;
      if first < last {
        err := FreeFull(first, last);
      }
      if err == Allocator.Ok {
        forall pos: nat ensures Raw(pos) == if offset <= pos < end then 0 else old(Raw(pos)) {
          HoleParts(pos, offset, end);
        }
      }
    }

    /** The parts of blocks at both ends of a hole. */
    method ZeroEdges(offset: nat, end: nat)
      requires Valid() && offset < end
      modifies this`content
      ensures Valid()
      ensures forall pos: nat :: Raw(pos) == if InHead(pos, offset, end) || InTail(pos, offset, end) then 0 else old(Raw(pos))
    {
      Edges(offset, end);
      hide *;
      var headEnd := HeadEnd(offset, end);
      if offset < headEnd {
        ZeroRange(offset / BLOCK_SIZE, offset % BLOCK_SIZE, offset % BLOCK_SIZE + (headEnd - offset));
      }
      var tailStart := end / BLOCK_SIZE * BLOCK_SIZE;
      if tailStart < end && tailStart >= headEnd {
        ZeroRange(tailStart / BLOCK_SIZE, 0, end - tailStart);
      }
      forall pos: nat ensures Raw(pos) == if InHead(pos, offset, end) || InTail(pos, offset, end) then 0 else old(Raw(pos)) {
        HeadIs(pos, offset, end);
        TailIs(pos, offset, end);
      }
    }

    /** The full blocks of a hole. */
    method FreeFull(first: nat, last: nat) returns (err: Errno)
      requires Valid() && first < last
      modifies inode`leaves, inode.alloc, inode.alloc.bitmaps, inode.alloc.free
      ensures Valid() && inode.alloc.bitmaps == old(inode.alloc.bitmaps) && inode.alloc.free == old(inode.alloc.free)
      ensures err == if S.SplitsFullLeaf(old(inode.leaves), first, last) then Allocator.Enospc else Allocator.Ok
      ensures err == Allocator.Ok ==>
                && (forall pos: nat :: Raw(pos) == if first <= pos / BLOCK_SIZE < last then 0 else old(Raw(pos)))
                && GaveBack(old(inode.leaves), inode.leaves, old(inode.alloc.InUse()), inode.alloc.InUse(), first, last)
      ensures err != Allocator.Ok ==>
                && (forall pos: nat :: Raw(pos) == old(Raw(pos)))
                && Kept(old(inode.leaves), inode.leaves, old(inode.alloc.InUse()), inode.alloc.InUse())
    {
      hide ExtentTree.ExtentInode.Valid;
      err := inode.PunchHoleBlocks(first, last);
      if err == Allocator.Ok {
        forall l: nat
          ensures E.Resolve(E.Flat(inode.leaves), l)
                  == if first <= l < last then E.None else E.Resolve(E.Flat(old(inode.leaves)), l)
        {
          assert inode.Map(l) == if first <= l < last then E.None else old(inode.Map(l));
        }
      }
    }

    /** Change the size. Behind a smaller size nothing but zeros is left, whatever the file grows to later. */
    method SetSize(n: nat) returns (err: Errno)
      requires Valid()
      modifies this, inode`leaves, inode.alloc, inode.alloc.bitmaps, inode.alloc.free
      ensures Valid() && inode.alloc.bitmaps == old(inode.alloc.bitmaps) && inode.alloc.free == old(inode.alloc.free)
      ensures err == if n > SIZE_MAX then Allocator.Efbig else Allocator.Ok
      ensures err == Allocator.Ok ==>
                && size == n
                && (forall pos: nat :: Raw(pos) == if n < old(size) && n <= pos then 0 else old(Raw(pos)))
                && (n < old(size) ==> CutOff(old(inode.leaves), inode.leaves, old(inode.alloc.InUse()), inode.alloc.InUse(), n))
      ensures err != Allocator.Ok ==> size == old(size) && forall pos: nat :: Raw(pos) == old(Raw(pos))
      ensures err != Allocator.Ok || n >= old(size) ==>
                Kept(old(inode.leaves), inode.leaves, old(inode.alloc.InUse()), inode.alloc.InUse())
    {
      if n > SIZE_MAX {
        return Allocator.Efbig;
      }
      if n < size {
        Shrink(n);
      }
      Resized(n);
      err := Allocator.Ok;
    }

    /** Only the size changes. */
    method Resized(n: nat)
      requires Valid() && n <= SIZE_MAX
      modifies this`size
      ensures Valid() && size == n
      ensures forall pos: nat :: Raw(pos) == old(Raw(pos))
    {
      hide ExtentTree.ExtentInode.Valid;
      size := n;
    }

    method Shrink(n: nat)
      requires Valid()
      modifies this`content, inode`leaves, inode.alloc, inode.alloc.bitmaps, inode.alloc.free
      ensures Valid() && inode.alloc.bitmaps == old(inode.alloc.bitmaps) && inode.alloc.free == old(inode.alloc.free)
      ensures forall pos: nat :: Raw(pos) == if n <= pos then 0 else old(Raw(pos))
      ensures CutOff(old(inode.leaves), inode.leaves, old(inode.alloc.InUse()), inode.alloc.InUse(), n)
    {
      var keep, tail := (n + BLOCK_SIZE - 1) / BLOCK_SIZE, n % BLOCK_SIZE;
      CutParts(0, n, keep, tail);
      hide *;
      CutBlocks(keep);
      label Cut:
      if tail != 0 {
        ZeroRange(keep - 1, tail, BLOCK_SIZE);
      }
      forall pos: nat ensures Raw(pos) == if n <= pos then 0 else old(Raw(pos)) {
        CutParts(pos, n, keep, tail);
        assert old@Cut(Raw(pos)) == if pos / BLOCK_SIZE < keep then old(Raw(pos)) else 0;
      }
    }

    /** Free all blocks from `keep` on. */
    method CutBlocks(keep: nat)
      requires Valid()
      modifies inode`leaves, inode.alloc, inode.alloc.bitmaps, inode.alloc.free
      ensures Valid() && inode.alloc.bitmaps == old(inode.alloc.bitmaps) && inode.alloc.free == old(inode.alloc.free)
      ensures forall pos: nat :: Raw(pos) == if pos / BLOCK_SIZE < keep then old(Raw(pos)) else 0
      ensures forall n: nat :: FirstFull(n) == keep ==>
                CutOff(old(inode.leaves), inode.leaves, old(inode.alloc.InUse()), inode.alloc.InUse(), n)
    {
      hide ExtentTree.ExtentInode.Valid;
      var ignored := inode.FreeBlocksFrom(keep);
      forall l: nat
        ensures E.Resolve(E.Flat(inode.leaves), l) == if l < keep then E.Resolve(E.Flat(old(inode.leaves)), l) else E.None
      {
        assert inode.Map(l) == if l < keep then old(inode.Map(l)) else E.None;
      }
    }

    /** Shrinking and then growing: what was cut off reads as zeros, what was kept as before. */
    method ShrinkThenGrow(n: nat, m: nat) returns (err: Errno)
      requires Valid() && n <= size && n <= m <= SIZE_MAX
      modifies this, inode`leaves, inode.alloc, inode.alloc.bitmaps, inode.alloc.free
      ensures Valid() && size == m
      ensures n < old(size) ==> forall pos: nat :: Byte(pos) == if pos < n then old(Byte(pos)) else 0
    {
      err := SetSize(n);
      err := SetSize(m);
    }
  }

  lemma {:induction false} SameBlock(pos: nat, i: nat)
    requires pos % BLOCK_SIZE + i < BLOCK_SIZE
    ensures (pos + i) / BLOCK_SIZE == pos / BLOCK_SIZE && (pos + i) % BLOCK_SIZE == pos % BLOCK_SIZE + i
  {
  }
}
