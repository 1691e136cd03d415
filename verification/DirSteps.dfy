/** The operations that make and remove names, on stored directories. */
module DirSteps {
  import Allocator
  import opened Bytes
  import opened DirBlock
  import opened DirSpec
  import opened DirContent
  import D = Directory
  import I = Inodes

  /** A directory: its blocks, whether it can do without a further block for its index, the name hash, and what is read
      as its index, at the latest when there is a block for it. */
  datatype Stored = Stored(blocks: seq<Block>, ready: bool, hash: Name -> nat, index: Option<Index>)

  ghost function Of(d: D.Directory): Stored
    reads d`blocks, d`indexBlock, d`index
  {
    Stored(d.blocks, d.IndexMissing() == 0, d.hash, d.Shown())
  }

  /** The index does not hide a name. */
  ghost predicate Finds(a: Stored, name: Name, maxIno: nat) { Sees(a.index, a.hash, a.blocks, name, maxIno) }

  ghost predicate InOrder(a: Stored, maxIno: nat) { Exact(a.index, a.hash, a.blocks, maxIno) }

  /** The index hides no name that it did not hide before, and an exact one stays exact. */
  ghost predicate Kept(a: Stored, b: Stored, maxIno: nat) {
    b.hash == a.hash && IndexKept(a.index, a.blocks, b.index, b.blocks, a.hash, maxIno)
  }

  lemma {:induction false} KeptBoth(a: Stored, b: Stored, c: Stored, maxIno: nat)
    requires Kept(a, b, maxIno) && Kept(b, c, maxIno)
    ensures Kept(a, c, maxIno)
  {
    KeptTwice(a.index, a.blocks, b.index, b.blocks, c.index, c.blocks, a.hash, maxIno);
    hide IndexKept;
  }

  lemma {:induction false} KeptAlone(a: Stored, maxIno: nat)
    ensures Kept(a, a, maxIno)
  {
    KeptSame(a.index, a.blocks, a.hash, maxIno);
    hide IndexKept;
  }

  lemma {:induction false} KeptFinds(a: Stored, b: Stored, name: Name, maxIno: nat)
    requires Kept(a, b, maxIno) && name != []
    ensures Finds(a, name, maxIno) ==> Finds(b, name, maxIno)
    ensures InOrder(a, maxIno) ==> InOrder(b, maxIno)
  {
    hide Sees, Exact;
  }

  /** A name that is not there is not hidden. */
  lemma {:induction false} AbsentFound(a: Stored, name: Name, maxIno: nat)
    requires Readable(a.index) && AllTiled(a.blocks, maxIno) && Find(a.blocks, name, maxIno) == None
    ensures Finds(a, name, maxIno)
  {
    var ls := Lives(a.blocks, maxIno);
    forall i | 0 <= i < |ls| ensures Lookup(ls[i], name) == None {
      ConcatAt(ls, i, ls[i]);
      LookupAppend(Concat(ls[..i]) + ls[i], Concat(ls[i + 1..]), name);
      LookupAppend(Concat(ls[..i]), ls[i], name);
    }
    hide Lives, Lookup, Concat, Bucket, AllTiled;
  }

  lemma {:induction false} AbsentVisible(d: D.Directory, name: Name)
    requires d.Valid() && AllTiled(d.blocks, d.maxIno) && Find(d.blocks, name, d.maxIno) == None
    ensures d.Visible(name)
  {
    hide *;
    d.Parts();
    d.ShownIs();
    RoomIs(d, name);
    AbsentFound(Of(d), name, d.maxIno);
    VisibleIs(d, name);
  }

  /** What the entering of a name makes of the index. */
  ghost predicate Tracked(a: Stored, e: Entry, err: D.Errno, b: Stored, maxIno: nat) {
    if err == Allocator.Ok then
      && Kept(a, b, maxIno) && Finds(b, e.name, maxIno)
      && (!a.ready ==> FirstIndex(a.index, a.blocks, b.blocks, a.hash, e, b.index, maxIno))
    else b.hash == a.hash && b.index == a.index
  }

  /** What the removal of a name makes of the index. One that is made by it is exact. */
  ghost predicate Untracked(a: Stored, err: D.Errno, b: Stored, maxIno: nat) {
    if err == Allocator.Ok then Kept(a, b, maxIno) && (!a.ready ==> InOrder(b, maxIno))
    else b.hash == a.hash && b.index == a.index
  }

  // ----- what one change of a directory is

  /** Room for a name: a slot in some block, or a further block and a free block to make it of. */
  ghost predicate RoomFor(a: Stored, free: int, name: Name, maxIno: nat)
    requires AllTiled(a.blocks, maxIno)
  {
    AnySlot(a.blocks, RecLenFor(|name|), maxIno) || (|a.blocks| < DIRECT_BLOCKS && free > 0)
  }

  /** The blocks a name takes: one for its record if there is no slot, and one for the index if there is none. */
  ghost function RecordBlocks(a: Stored, name: Name, maxIno: nat): nat
    requires AllTiled(a.blocks, maxIno)
  {
    if AnySlot(a.blocks, RecLenFor(|name|), maxIno) then 0 else 1
  }

  function IndexBlocks(a: Stored): nat { if a.ready then 0 else 1 }

  /** A name entered with `free` blocks left. It is there whenever there was room; the operation still fails when no
      block is left for an index that has to be made. */
  ghost predicate Entered(a: Stored, free: int, e: Entry, err: D.Errno, b: Stored, left: int, maxIno: nat) {
    && AllTiled(a.blocks, maxIno)
    && var added := |e.name| <= NAME_LEN && Find(a.blocks, e.name, maxIno) == None && RoomFor(a, free, e.name, maxIno);
       var late := added && !a.ready && free == RecordBlocks(a, e.name, maxIno);
       && err == (if |e.name| > NAME_LEN then Allocator.Enametoolong
                  else if Find(a.blocks, e.name, maxIno).Some? then Allocator.Eexist
                  else if !added || late then Allocator.Enospc
                  else Allocator.Ok)
       && if added then
            && Added(a.blocks, b.blocks, e, maxIno) && b.ready == (a.ready || !late)
            && |b.blocks| == |a.blocks| + RecordBlocks(a, e.name, maxIno)
            && left == free - RecordBlocks(a, e.name, maxIno) - (if late then 0 else IndexBlocks(a))
            && Tracked(a, e, err, b, maxIno)
          else b == a && left == free
  }

  /** A name taken out with `free` blocks left. It is gone whenever it was there, and its record is free; the operation
      still fails when no block is left for an index that has to be made. */
  ghost predicate Erased(a: Stored, free: int, name: Name, err: D.Errno, b: Stored, left: int, maxIno: nat) {
    && AllTiled(a.blocks, maxIno)
    && var was := Find(a.blocks, name, maxIno);
       var late := !a.ready && free == 0;
       && err == (if was.None? then Allocator.Enoent else if late then Allocator.Enospc else Allocator.Ok)
       && if was.Some? then
            && was.value.name == name && Added(b.blocks, a.blocks, was.value, maxIno) && b.ready == (a.ready || !late)
            && AnySlot(b.blocks, RecLenFor(|name|), maxIno)
            && left == free - (if late then 0 else IndexBlocks(a))
            && Untracked(a, err, b, maxIno)
          else b == a && left == free
  }

  /** A directory made below another one: a block and an index for it come first, then its name. `index` is the number of
      blocks its index takes, `inode` says whether an inode is free. Without one the operation makes nothing and still
      succeeds. */
  ghost predicate Made(a: Stored, free: int, e: Entry, index: nat, inode: bool, err: D.Errno, b: Stored, left: int,
                       maxIno: nat) {
    if free <= 0 || (inode && free <= index) then err == Allocator.Enospc && b == a && left == free
    else if !inode then err == Allocator.Ok && b == a && left == free
    else Entered(a, free - 1 - index, e, err, b, if err == Allocator.Ok then left else left - 1, maxIno)
  }

  lemma {:induction false} RoomIs(d: D.Directory, name: Name)
    requires AllTiled(d.blocks, d.maxIno)
    ensures RoomFor(Of(d), d.alloc.superFree, name, d.maxIno) <==> d.HasRoom(name)
    ensures RecordBlocks(Of(d), name, d.maxIno) == d.Missing(name) <= 1 && IndexBlocks(Of(d)) == d.IndexMissing() <= 1
    ensures Of(d) == Stored(d.blocks, d.IndexMissing() == 0, d.hash, d.Shown())
    ensures d.IndexMissing() == 1 <==> d.indexed && d.indexBlock == 0
  {
    hide AnySlot, RecLenFor;
  }

  // ----- the operations

  /** Enter the name of an inode. */
  method Link(d: D.Directory, name: Name, ino: nat, ftype: byte) returns (err: D.Errno)
    requires d.Valid() && name != [] && 0 < ino <= d.maxIno && ftype <= FT_MAX && d.Visible(name)
    modifies d, d.alloc, d.alloc.bitmaps, d.alloc.free
    ensures d.Valid() && d.alloc.bitmaps == old(d.alloc.bitmaps) && d.alloc.free == old(d.alloc.free)
    ensures old(d.alloc.InUse()) <= d.alloc.InUse()
    ensures err == Allocator.Ok ==> d.Visible(name)
    ensures old(d.IndexMissing()) == 1 && err == Allocator.Ok && |d.blocks| == |old(d.blocks)| ==>
              d.indexBlock == old(d.alloc.Choice(d.allocHint, d.goalGroup))
    ensures Entered(old(Of(d)), old(d.alloc.superFree), Entry(name, ino, ftype), err, Of(d), d.alloc.superFree, d.maxIno)
    ensures old(d.indexBlock) != 0 ==> d.indexBlock == old(d.indexBlock)
    ensures d.indexBlock != old(d.indexBlock) ==> d.indexBlock !in old(d.alloc.InUse())
    ensures |old(d.direct)| <= |d.direct| && d.direct[..|old(d.direct)|] == old(d.direct)
    ensures forall i :: |old(d.direct)| <= i < |d.direct| ==> d.direct[i] !in old(d.alloc.InUse())
    ensures err != Allocator.Ok && old(Of(d)).ready ==> d.alloc.InUse() == old(d.alloc.InUse())
  {
    d.Parts();
    hide *;
    RoomIs(d, name);
    ghost var a, free := Of(d), d.alloc.superFree;
    err := d.AddEntry(name, ino, ftype);
    d.Parts();
    ReadyIs(d);
    VisibleIs(d, name);
    TrackedIs(a, Entry(name, ino, ftype), err, Of(d), d.maxIno);
    EnteredIs(a, free, Entry(name, ino, ftype), err, Of(d), d.alloc.superFree, d.maxIno);
  }

  lemma {:induction false} VisibleIs(d: D.Directory, name: Name)
    requires d.index.Some? ==> d.indexed && d.indexBlock != 0
    ensures d.Visible(name) <==> Sees(d.index, d.hash, d.blocks, name, d.maxIno)
    ensures d.IndexMissing() == 0 ==> d.Shown() == d.index
    ensures d.IndexMissing() == 1 ==>
              d.Shown() == d.found && d.index == None && d.indexed && d.indexBlock == 0 && d.Visible(name)
    ensures Finds(Of(d), name, d.maxIno) ==> d.Visible(name)
  {
    hide Marks, AllTiled;
  }

  lemma {:induction false} TrackedIs(a: Stored, e: Entry, err: D.Errno, b: Stored, maxIno: nat)
    requires b.hash == a.hash && (err != Allocator.Ok ==> b.index == a.index)
    requires err == Allocator.Ok ==>
               && IndexKept(a.index, a.blocks, b.index, b.blocks, a.hash, maxIno)
                  && Sees(b.index, b.hash, b.blocks, e.name, maxIno)
               && (!a.ready ==> FirstIndex(a.index, a.blocks, b.blocks, a.hash, e, b.index, maxIno))
    ensures Tracked(a, e, err, b, maxIno)
  {
    hide IndexKept, Sees, FirstIndex;
  }

  lemma {:induction false} UntrackedIs(a: Stored, err: D.Errno, b: Stored, maxIno: nat)
    requires b.hash == a.hash && (err != Allocator.Ok ==> b.index == a.index)
    requires err == Allocator.Ok ==>
               && IndexKept(a.index, a.blocks, b.index, b.blocks, a.hash, maxIno)
               && (!a.ready ==> Exact(b.index, b.hash, b.blocks, maxIno))
    ensures Untracked(a, err, b, maxIno)
  {
    hide IndexKept, Exact;
  }

  lemma {:induction false} EnteredIs(a: Stored, free: nat, e: Entry, err: D.Errno, b: Stored, left: int, maxIno: nat)
    requires AllTiled(a.blocks, maxIno)
    requires var added := |e.name| <= NAME_LEN && Find(a.blocks, e.name, maxIno) == None && RoomFor(a, free, e.name, maxIno);
             && (added ==>
                   Added(a.blocks, b.blocks, e, maxIno) && |b.blocks| == |a.blocks| + RecordBlocks(a, e.name, maxIno))
             && (!added ==> b.blocks == a.blocks && b.index == a.index)
             && err == (if |e.name| > NAME_LEN then Allocator.Enametoolong
                        else if Find(a.blocks, e.name, maxIno).Some? then Allocator.Eexist
                        else if !added then Allocator.Enospc
                        else if !a.ready && free == RecordBlocks(a, e.name, maxIno) then Allocator.Enospc
                        else Allocator.Ok)
             && (err == Allocator.Enospc && added ==> left == 0)
             && (!added ==> left == free)
    requires err == Allocator.Ok ==> left == free - RecordBlocks(a, e.name, maxIno) - IndexBlocks(a)
    requires (b.ready <==> a.ready || err == Allocator.Ok) && b.hash == a.hash && Tracked(a, e, err, b, maxIno)
    ensures Entered(a, free, e, err, b, left, maxIno)
  {
    hide Find, AllTiled, Added, AnySlot, Tracked;
  }

  lemma {:induction false} GroupSize(d: D.Directory)
    requires d.Valid()
    ensures d.alloc.l.blocksPerGroup > 0 && d.maxIno < INO_LIMIT
  {
  }

  lemma {:induction false} ReadyIs(d: D.Directory)
    ensures Of(d) == Stored(d.blocks, d.IndexMissing() == 0, d.hash, d.Shown())
  {
  }

  lemma {:induction false} ErasedIs(a: Stored, free: nat, name: Name, err: D.Errno, b: Stored, left: int, maxIno: nat)
    requires AllTiled(a.blocks, maxIno)
    requires var was := Find(a.blocks, name, maxIno);
             && (was.Some? ==>
                   && Added(b.blocks, a.blocks, was.value, maxIno) && was.value.name == name
                   && AllTiled(b.blocks, maxIno) && AnySlot(b.blocks, RecLenFor(|name|), maxIno))
             && (was.None? ==> b.blocks == a.blocks && b.index == a.index)
             && err == (if was.None? then Allocator.Enoent else if !a.ready && free == 0 then Allocator.Enospc
                        else Allocator.Ok)
    requires left == free - if err == Allocator.Ok then IndexBlocks(a) else 0
    requires (b.ready <==> a.ready || err == Allocator.Ok) && b.hash == a.hash && Untracked(a, err, b, maxIno)
    ensures Erased(a, free, name, err, b, left, maxIno)
  {
    hide Find, AllTiled, Added, AnySlot, RecLenFor, Untracked;
  }

  lemma {:induction false} StillFinds(a: Stored, b: Stored, name: Name, maxIno: nat)
    requires Untracked(a, Allocator.Ok, b, maxIno) && name != [] && (a.ready ==> Finds(a, name, maxIno))
    ensures Finds(b, name, maxIno)
  {
    if a.ready {
      KeptFinds(a, b, name, maxIno);
    } else {
      ExactSees(b.index, b.hash, b.blocks, name, maxIno);
    }
  }

  /** The inodes of the filesystem, with bitmaps and counters of their own. */
  ghost predicate Apart(d: D.Directory, inodes: I.Inodes)
    reads inodes, inodes.bitmaps, inodes.free, d.alloc`bitmaps, d.alloc`free
  {
    && inodes.Valid() && inodes.count == d.maxIno
    && inodes.bitmaps != d.alloc.bitmaps && inodes.free != d.alloc.free
  }

  /** Create a file: an inode, then its name. An inode whose name cannot be entered stays taken. */
  method Create(d: D.Directory, inodes: I.Inodes, goal: nat, name: Name, ftype: byte) returns (err: D.Errno, ino: nat)
    requires d.Valid() && Apart(d, inodes) && name != [] && ftype <= FT_MAX && d.Visible(name)
    modifies d, d.alloc, d.alloc.bitmaps, d.alloc.free, inodes, inodes.bitmaps, inodes.free
    ensures d.Valid() && d.alloc.bitmaps == old(d.alloc.bitmaps) && d.alloc.free == old(d.alloc.free)
    ensures Apart(d, inodes) && inodes.bitmaps == old(inodes.bitmaps) && inodes.free == old(inodes.free)
    ensures if old(inodes.superFree) > 0 then
              && 0 < ino <= d.maxIno && ino !in old(inodes.Taken()) && inodes.Taken() == old(inodes.Taken()) + {ino}
              && inodes.superFree == old(inodes.superFree) - 1
              && Entered(old(Of(d)), old(d.alloc.superFree), Entry(name, ino, ftype), err, Of(d), d.alloc.superFree, d.maxIno)
            else
              && err == Allocator.Enospc && Of(d) == old(Of(d)) && d.alloc.superFree == old(d.alloc.superFree)
              && inodes.State() == old(inodes.State())
  {
    hide *;
    ApartIs(d, inodes);
    ReadyIs(d);
    err, ino := inodes.AllocInodeGoal(goal);
    ApartIs(d, inodes);
    ReadyIs(d);
    if err != Allocator.Ok {
      return;
    }
    RootIs();
    err := Link(d, name, ino, ftype);
    ApartIs(d, inodes);
  }

  lemma {:induction false} RootIs()
    ensures I.ROOT_INO == 1
  {
  }

  lemma {:induction false} ApartIs(d: D.Directory, inodes: I.Inodes)
    ensures Apart(d, inodes) <==>
              && inodes.Valid() && inodes.count == d.maxIno
              && inodes.bitmaps != d.alloc.bitmaps && inodes.free != d.alloc.free
  {
  }

  /** Take the name of a file out. */
  method Unlink(d: D.Directory, name: Name) returns (err: D.Errno)
    requires d.Valid() && name != [] && d.Visible(name)
    modifies d, d.alloc, d.alloc.bitmaps, d.alloc.free
    ensures err == Allocator.Ok ==> d.Visible(name)
    ensures d.Valid() && d.alloc.bitmaps == old(d.alloc.bitmaps) && d.alloc.free == old(d.alloc.free)
    ensures d.direct == old(d.direct) && (old(d.indexBlock) != 0 ==> d.indexBlock == old(d.indexBlock))
    ensures d.indexBlock != old(d.indexBlock) ==> d.indexBlock !in old(d.alloc.InUse())
    ensures old(d.alloc.InUse()) <= d.alloc.InUse()
    ensures Erased(old(Of(d)), old(d.alloc.superFree), name, err, Of(d), d.alloc.superFree, d.maxIno)
  {
    d.Parts();
    hide *;
    RoomIs(d, name);
    ghost var a, free := Of(d), d.alloc.superFree;
    VisibleIs(d, name);
    err := d.DeleteEntry(name);
    d.Parts();
    ReadyIs(d);
    UntrackedIs(a, err, Of(d), d.maxIno);
    if err == Allocator.Ok {
      StillFinds(a, Of(d), name, d.maxIno);
    }
    VisibleIs(d, name);
    ErasedIs(a, free, name, err, Of(d), d.alloc.superFree, d.maxIno);
  }

  /** Remove a directory that holds nothing but its two dots: its name, then its blocks and its inode. */
  method Rmdir(d: D.Directory, child: D.Directory, inodes: I.Inodes, ino: nat, name: Name) returns (err: D.Errno)
    requires d.Valid() && child.Valid() && child != d && child.alloc == d.alloc && name != [] && d.Visible(name)
    requires Apart(d, inodes) && I.ROOT_INO < ino <= d.maxIno && d.Held() !! child.Held()
    modifies d, child, d.alloc, d.alloc.bitmaps, d.alloc.free, inodes, inodes.bitmaps, inodes.free
    ensures d.Valid() && d.alloc.bitmaps == old(d.alloc.bitmaps) && d.alloc.free == old(d.alloc.free)
    ensures Apart(d, inodes) && inodes.bitmaps == old(inodes.bitmaps) && inodes.free == old(inodes.free)
    ensures AllTiled(old(child.blocks), child.maxIno)
    ensures if OnlyDots(All(old(child.blocks), child.maxIno)) then
              var freed := if err == Allocator.Ok then old(child.Size()) else 0;
              && Erased(old(Of(d)), old(d.alloc.superFree), name, err, Of(d), d.alloc.superFree - freed, d.maxIno)
              && inodes.Taken() == old(inodes.Taken()) - if err == Allocator.Ok then {ino} else {}
            else
              && err == Allocator.Enotempty && Of(d) == old(Of(d)) && d.alloc.superFree == old(d.alloc.superFree)
              && inodes.State() == old(inodes.State())
  {
    hide *;
    child.Parts();
    RootIs();
    ApartIs(d, inodes);
    ReadyIs(d);
    ghost var was := child.alloc.InUse();
    var empty := child.IsEmpty();
    if !empty {
      return Allocator.Enotempty;
    }
    d.HeldIs();
    child.HeldIs();
    err := Unlink(d, name);
    ApartIs(d, inodes);
    ReadyIs(d);
    if err != Allocator.Ok {
      return;
    }
    d.Parts();
    d.HeldIs();
    child.HeldIs();
    child.Regain(was);
    ghost var theirs, used := child.Held(), d.alloc.InUse();
    child.Release();
    d.Untouched(theirs, used);
    ReadyIs(d);
    var ok := inodes.FreeInode(ino);
    ReadyIs(d);
    ApartIs(d, inodes);
  }

  /** A new directory in a block of its own, with its index. */
  method NewDirectory(d: D.Directory, ino: nat, dirIno: nat, block: nat, found: Option<Index>)
    returns (err: D.Errno, child: D.Directory)
    requires Readable(found) && d.Valid() && block in d.alloc.InUse() && 0 < ino <= d.maxIno && 0 < dirIno <= d.maxIno
    modifies d.alloc, d.alloc.bitmaps, d.alloc.free
    ensures d.Valid() && d.alloc.bitmaps == old(d.alloc.bitmaps) && d.alloc.free == old(d.alloc.free)
    ensures err == if d.indexed && old(d.alloc.superFree) == 0 then Allocator.Enospc else Allocator.Ok
    ensures fresh(child) && child.alloc == d.alloc && child.maxIno == d.maxIno && child.indexed == d.indexed
    ensures child.direct == [block]
    ensures err != Allocator.Ok ==>
              d.alloc.superFree == old(d.alloc.superFree) && d.alloc.InUse() == old(d.alloc.InUse())
    ensures err == Allocator.Ok ==>
              && child.Valid() && IsNew(Of(child), ino, dirIno, d.hash, d.maxIno)
              && d.alloc.superFree == old(d.alloc.superFree) - (if d.indexed then 1 else 0)
              && if d.indexed then
                   child.indexBlock !in old(d.alloc.InUse()) && d.alloc.InUse() == old(d.alloc.InUse()) + {child.indexBlock}
                 else d.alloc.InUse() == old(d.alloc.InUse())
  {
    hide *;
    d.Parts();
    GroupSize(d);
    ghost var used := d.alloc.InUse();
    child := new D.Directory(d.alloc, d.hash, d.maxIno, d.indexed, block, ino, dirIno, found);
    child.Parts();
    RoomIs(child, []);
    err := child.IndexRebuild();
    ReadyIs(child);
    d.Regain(used);
    if err == Allocator.Ok {
      child.ShownIs();
      NewIs(child, ino, dirIno);
      child.OwnsStill(used);
      child.Whole();
    }
  }

  /** A directory that holds the two dots, with its index in order. */
  ghost predicate IsNew(a: Stored, ino: nat, dirIno: nat, hash: Name -> nat, maxIno: nat) {
    a.blocks == [InitBlock(ino, dirIno)] && a.ready && a.hash == hash && InOrder(a, maxIno)
  }

  lemma {:induction false} NewIs(d: D.Directory, ino: nat, dirIno: nat)
    requires d.blocks == [InitBlock(ino, dirIno)] && d.IndexMissing() == 0
    requires if d.indexed then d.index.Some? && Exact(d.index, d.hash, d.blocks, d.maxIno) else d.index.None?
    ensures IsNew(Of(d), ino, dirIno, d.hash, d.maxIno)
  {
    hide InitBlock;
  }

  /** Make a directory: a block, an inode, the two dots and the index, and then its name. When the name cannot be entered,
      the block is given back, and the inode and the block of the index stay taken. What its index block shows, `found`,
      does not matter. */
  method Mkdir(d: D.Directory, inodes: I.Inodes, goal: nat, name: Name, dirIno: nat, found: Option<Index>)
    returns (err: D.Errno, child: D.Directory?, ino: nat, index: nat)
    requires d.Valid() && Apart(d, inodes) && Readable(found) && d.Visible(name) && name != [] && 0 < dirIno <= d.maxIno
    modifies d, d.alloc, d.alloc.bitmaps, d.alloc.free, inodes, inodes.bitmaps, inodes.free
    ensures d.Valid() && d.alloc.bitmaps == old(d.alloc.bitmaps) && d.alloc.free == old(d.alloc.free)
    ensures Apart(d, inodes) && inodes.bitmaps == old(inodes.bitmaps) && inodes.free == old(inodes.free)
    ensures var inode := old(inodes.superFree) > 0;
            && Made(old(Of(d)), old(d.alloc.superFree), Entry(name, ino, FT_DIR), if d.indexed then 1 else 0, inode, err, Of(d),
                    d.alloc.superFree, d.maxIno)
            && (child != null <==> err == Allocator.Ok && inode)
            && (if inode && old(d.alloc.superFree) > 0 then
                  && 0 < ino <= d.maxIno && ino !in old(inodes.Taken()) && inodes.Taken() == old(inodes.Taken()) + {ino}
                  && inodes.superFree == old(inodes.superFree) - 1
                else inodes.State() == old(inodes.State()))
            && (err != Allocator.Ok && old(Of(d)).ready ==>
                  if inode && d.indexed && old(d.alloc.superFree) > 1 then
                    index !in old(d.alloc.InUse()) && d.alloc.InUse() == old(d.alloc.InUse()) + {index}
                  else d.alloc.InUse() == old(d.alloc.InUse()))
    ensures child != null ==>
              && fresh(child) && child.Valid() && child.alloc == d.alloc && child.maxIno == d.maxIno
              && IsNew(Of(child), ino, dirIno, d.hash, d.maxIno)
  {
    hide *;
    d.Parts();
    GroupSize(d);
    SmallFacts();
    RootIs();
    ApartIs(d, inodes);
    child, index, ino := null, 0, 0;
    ghost var a, free, used := Of(d), d.alloc.superFree, d.alloc.InUse();
    ghost var inode, was, indexes := inodes.superFree > 0, inodes.State(), if d.indexed then 1 else 0;
    var block;
    err, block := d.alloc.AllocBlockGoal(d.allocHint, d.goalGroup);
    ReadyIs(d);
    d.Regain(used);
    ApartIs(d, inodes);
    d.HeldIs();
    if err != Allocator.Ok {
      NotMade(a, free, Entry(name, ino, FT_DIR), indexes, inode, err, d.maxIno);
      return;
    }
    err, ino := inodes.AllocInodeGoal(goal);
    ApartIs(d, inodes);
    ReadyIs(d);
    if err != Allocator.Ok {
      err := d.alloc.FreeBlock(block);
      d.Regain(used);
      err := Allocator.Ok;
      NotMade(a, free, Entry(name, ino, FT_DIR), indexes, inode, err, d.maxIno);
      ApartIs(d, inodes);
      return;
    }
    err, child, index := Furnish(d, name, ino, dirIno, block, found, used);
    ReadyIs(d);
    ApartIs(d, inodes);
    if free - 1 < indexes {
      NotMade(a, free, Entry(name, ino, FT_DIR), 1, inode, err, d.maxIno);
    } else {
      MadeIs(a, free, Entry(name, ino, FT_DIR), indexes, err, Of(d), d.alloc.superFree, d.maxIno);
    }
  }

  /** The two dots and the index of a directory that has its block, and then its name. Without room for them the block
      is given back. */
  method Furnish(d: D.Directory, name: Name, ino: nat, dirIno: nat, block: nat, found: Option<Index>,
                 ghost used: set<nat>)
    returns (err: D.Errno, child: D.Directory?, index: nat)
    requires d.Valid() && Readable(found) && d.Visible(name) && name != [] && 0 < ino <= d.maxIno
    requires 0 < dirIno <= d.maxIno
    requires block !in used && d.alloc.InUse() == used + {block} && d.Held() <= used
    modifies d, d.alloc, d.alloc.bitmaps, d.alloc.free
    ensures d.Valid() && d.alloc.bitmaps == old(d.alloc.bitmaps) && d.alloc.free == old(d.alloc.free)
    ensures child != null <==> err == Allocator.Ok
    ensures child != null ==>
              && fresh(child) && child.Valid() && child.alloc == d.alloc && child.maxIno == d.maxIno
              && IsNew(Of(child), ino, dirIno, d.hash, d.maxIno)
    ensures var indexes := if d.indexed then 1 else 0;
            if old(d.alloc.superFree) < indexes then
              && err == Allocator.Enospc && Of(d) == old(Of(d)) && d.alloc.superFree == old(d.alloc.superFree) + 1
              && d.alloc.InUse() == used
            else
              && Entered(old(Of(d)), old(d.alloc.superFree) - indexes, Entry(name, ino, FT_DIR), err, Of(d),
                         d.alloc.superFree - (if err == Allocator.Ok then 0 else 1), d.maxIno)
              && (err != Allocator.Ok && old(Of(d)).ready ==>
                    if d.indexed then index !in used && d.alloc.InUse() == used + {index} else d.alloc.InUse() == used)
  {
    hide *;
    SmallFacts();
    d.Parts();
    d.HeldIs();
    ReadyIs(d);
    child, index := null, 0;
    err, child := NewDirectory(d, ino, dirIno, block, found);
    d.Parts();
    ReadyIs(d);
    if err != Allocator.Ok {
      child := null;
      var ok := d.alloc.FreeBlock(block);
      d.Regain(used);
      return;
    }
    index := child.indexBlock;
    child.Parts();
    ghost var both := d.alloc.InUse();
    err := Link(d, name, ino, FT_DIR);
    d.Parts();
    ReadyIs(d);
    if err != Allocator.Ok {
      child := null;
      assert block !in d.direct && (d.indexBlock != 0 ==> d.indexBlock != block);
      var ok := d.alloc.FreeBlock(block);
      d.Regain(d.alloc.InUse());
    } else {
      child.Regain(both);
    }
  }

  lemma {:induction false} SmallFacts()
    ensures 0 <= FT_DIR <= FT_MAX < 256
  {
  }

  lemma {:induction false} NotMade(a: Stored, free: nat, e: Entry, index: nat, inode: bool, err: D.Errno, maxIno: nat)
    requires if free == 0 || (inode && free <= index) then err == Allocator.Enospc else !inode && err == Allocator.Ok
    ensures Made(a, free, e, index, inode, err, a, free, maxIno)
  {
    hide Entered;
  }

  lemma {:induction false} MadeIs(a: Stored, free: nat, e: Entry, index: nat, err: D.Errno, b: Stored, left: int,
                                  maxIno: nat)
    requires free > index
    requires Entered(a, free - 1 - index, e, err, b, if err == Allocator.Ok then left else left - 1, maxIno)
    ensures Made(a, free, e, index, true, err, b, left, maxIno)
  {
    hide Entered;
  }
}
