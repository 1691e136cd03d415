/** Renaming inside a directory and from one into another. */
module DirRename {
  import Allocator
  import opened Bytes
  import opened DirBlock
  import opened DirSpec
  import opened DirContent
  import D = Directory
  import opened DirSteps

  /** A directory as the map it stands for. */
  ghost predicate SameMap(before: seq<Block>, after: seq<Block>, maxIno: nat) {
    AllTiled(before, maxIno) && AllTiled(after, maxIno) && forall n :: Find(after, n, maxIno) == Find(before, n, maxIno)
  }

  /** The map with one name set, or removed. */
  ghost predicate Changed(before: seq<Block>, after: seq<Block>, name: Name, e: Option<Entry>, maxIno: nat) {
    && AllTiled(before, maxIno) && AllTiled(after, maxIno)
    && forall n :: Find(after, n, maxIno) == if n == name then e else Find(before, n, maxIno)
  }

  lemma {:induction false} AddedChanged(before: seq<Block>, after: seq<Block>, e: Entry, maxIno: nat)
    requires Added(before, after, e, maxIno)
    ensures Changed(before, after, e.name, Some(e), maxIno) && Changed(after, before, e.name, None, maxIno)
  {
    hide All, AllTiled, Find, Distinct, Named;
  }

  lemma {:induction false} ChangedTwice(a: seq<Block>, b: seq<Block>, c: seq<Block>, name: Name, x: Option<Entry>,
                                        y: Option<Entry>, maxIno: nat)
    requires Changed(a, b, name, x, maxIno) && Changed(b, c, name, y, maxIno)
    ensures Changed(a, c, name, y, maxIno)
    ensures Find(a, name, maxIno) == y ==> SameMap(a, c, maxIno)
  {
    hide AllTiled, Find;
  }

  lemma {:induction false} Unchanged(a: seq<Block>, maxIno: nat)
    requires AllTiled(a, maxIno)
    ensures SameMap(a, a, maxIno)
  {
    hide AllTiled, Find;
  }

  /** What an operation makes of an index that is there afterwards; before that nothing is read of it. */
  ghost predicate Followed(a: Stored, b: Stored, maxIno: nat) {
    b.hash == a.hash && if b.ready then Kept(a, b, maxIno) else b.index == a.index
  }

  lemma {:induction false} FollowedAlone(a: Stored, maxIno: nat)
    ensures Followed(a, a, maxIno)
  {
    KeptAlone(a, maxIno);
    hide Kept;
  }

  lemma {:induction false} FollowedTwice(a: Stored, b: Stored, c: Stored, maxIno: nat)
    requires Followed(a, b, maxIno) && Followed(b, c, maxIno) && b.ready && c.ready
    ensures Followed(a, c, maxIno)
  {
    KeptBoth(a, b, c, maxIno);
    hide Kept;
  }

  lemma {:induction false} EnteredFollowed(a: Stored, free: int, e: Entry, err: D.Errno, b: Stored, left: int,
                                           maxIno: nat)
    requires Entered(a, free, e, err, b, left, maxIno)
    ensures a.ready || err == Allocator.Ok || b == a ==> Followed(a, b, maxIno)
    ensures !b.ready ==> Followed(a, b, maxIno)
    ensures err == Allocator.Ok ==> Finds(b, e.name, maxIno) && b.ready
    ensures b.ready ==> a.ready || err == Allocator.Ok
  {
    FollowedAlone(a, maxIno);
    hide IndexKept, Finds, FirstIndex, Find, AllTiled, Added, AnySlot, RecLenFor;
  }

  lemma {:induction false} ErasedFollowed(a: Stored, free: int, name: Name, err: D.Errno, b: Stored, left: int,
                                          maxIno: nat)
    requires Erased(a, free, name, err, b, left, maxIno)
    ensures Followed(a, b, maxIno) && (err == Allocator.Ok ==> b.ready)
  {
    FollowedAlone(a, maxIno);
    hide IndexKept, InOrder, Find, AllTiled, Added, AnySlot, RecLenFor;
  }

  // ----- the target

  /** The target has room for the name: that of the entry that is replaced, or a slot, or a new block. */
  ghost predicate Room(a: Stored, free: int, name: Name, replaced: bool, maxIno: nat)
    requires AllTiled(a.blocks, maxIno)
  {
    replaced || RoomFor(a, free, name, maxIno)
  }

  /** The free blocks that entering the name takes: for its record and for an index that is not there yet. */
  ghost function Need(a: Stored, name: Name, replaced: bool, maxIno: nat): nat
    requires AllTiled(a.blocks, maxIno)
  {
    (if replaced then 0 else RecordBlocks(a, name, maxIno)) + IndexBlocks(a)
  }

  /** A name set, whether there was an entry of that name or not. A target without its index that cannot get one has lost
      the replaced entry, or has the new one although the operation failed. */
  ghost predicate Replaced(a: Stored, free: int, e: Entry, replaced: bool, err: D.Errno, b: Stored, left: int,
                           maxIno: nat) {
    && AllTiled(a.blocks, maxIno)
    && var room, need := Room(a, free, e.name, replaced, maxIno), Need(a, e.name, replaced, maxIno);
       && err == (if room && free >= need then Allocator.Ok else Allocator.Enospc)
       && b.ready == (a.ready || err == Allocator.Ok)
       && Followed(a, b, maxIno) && (err == Allocator.Ok ==> Finds(b, e.name, maxIno))
       && if err == Allocator.Ok then Changed(a.blocks, b.blocks, e.name, Some(e), maxIno) && left == free - need
          else if room then Changed(a.blocks, b.blocks, e.name, if replaced then None else Some(e), maxIno)
          else SameMap(a.blocks, b.blocks, maxIno) && left == free
  }

  /** Take the replaced entry out and enter the new one. */
  method EnterTarget(dst: D.Directory, nn: Name, e: Entry, victim: Option<Entry>) returns (err: D.Errno)
    requires dst.Valid() && 0 < |nn| <= NAME_LEN && AllTiled(dst.blocks, dst.maxIno)
    requires victim == Find(dst.blocks, nn, dst.maxIno)
    requires dst.Visible(nn) && e.name == nn && 0 < e.ino <= dst.maxIno && e.ftype <= FT_MAX && e.ftype < 256
    modifies dst, dst.alloc, dst.alloc.bitmaps, dst.alloc.free
    ensures dst.Valid() && dst.alloc.bitmaps == old(dst.alloc.bitmaps) && dst.alloc.free == old(dst.alloc.free)
    ensures old(dst.alloc.InUse()) <= dst.alloc.InUse()
    ensures Replaced(old(Of(dst)), old(dst.alloc.superFree), e, victim.Some?, err, Of(dst), dst.alloc.superFree, dst.maxIno)
    ensures err == Allocator.Ok ==> dst.Visible(nn)
  {
    hide *;
    ReadyIs(dst);
    ghost var a, free, maxIno := Of(dst), dst.alloc.superFree, dst.maxIno;
    ghost var mid, between := a, free;
    if victim.Some? {
      dst.EntryValid(nn);
      err := Unlink(dst, nn);
      dst.Parts();
      ReadyIs(dst);
      mid, between := Of(dst), dst.alloc.superFree;
      if err != Allocator.Ok {
        ReplacedLate(a, free, e, victim.value, err, mid, between, maxIno);
        return;
      }
    }
    dst.Parts();
    err := Link(dst, nn, e.ino, e.ftype as byte);
    assert Entry(nn, e.ino, e.ftype) == e;
    if victim.Some? {
      ReplacedTwice(a, free, e, victim.value, mid, between, err, Of(dst), dst.alloc.superFree, maxIno);
    } else {
      ReplacedOnce(a, free, e, err, Of(dst), dst.alloc.superFree, maxIno);
    }
  }

  lemma {:induction false} ChangedAt(before: seq<Block>, after: seq<Block>, name: Name, x: Option<Entry>, maxIno: nat)
    requires Changed(before, after, name, x, maxIno)
    ensures AllTiled(after, maxIno) && Find(after, name, maxIno) == x
  {
    hide AllTiled, Find;
  }

  // ----- what removing and entering make of the map

  /** Removing a name that cannot be finished. */
  lemma {:induction false} ReplacedLate(a: Stored, free: nat, e: Entry, v: Entry, err: D.Errno, b: Stored, left: int,
                                        maxIno: nat)
    requires Erased(a, free, e.name, err, b, left, maxIno) && Find(a.blocks, e.name, maxIno) == Some(v)
    requires err != Allocator.Ok
    ensures Replaced(a, free, e, true, err, b, left, maxIno)
  {
    AddedChanged(b.blocks, a.blocks, v, maxIno);
    ErasedFollowed(a, free, e.name, err, b, left, maxIno);
    hide Find, AllTiled, Added, Changed, AnySlot, RecLenFor, Followed, Untracked, Finds;
  }

  /** Removing a name and entering another entry of that name. */
  lemma {:induction false} ReplacedTwice(a: Stored, free: nat, e: Entry, v: Entry, mid: Stored, between: int,
                                         err: D.Errno, b: Stored,
                                         left: int, maxIno: nat)
    requires Erased(a, free, e.name, Allocator.Ok, mid, between, maxIno) && Find(a.blocks, e.name, maxIno) == Some(v)
    requires Entered(mid, between, e, err, b, left, maxIno) && |e.name| <= NAME_LEN
    ensures Replaced(a, free, e, true, err, b, left, maxIno)
  {
    AddedChanged(mid.blocks, a.blocks, v, maxIno);
    ChangedAt(a.blocks, mid.blocks, e.name, None, maxIno);
    ErasedFollowed(a, free, e.name, Allocator.Ok, mid, between, maxIno);
    EnteredFollowed(mid, between, e, err, b, left, maxIno);
    hide Find, AllTiled, Changed, AnySlot, RecLenFor, Added, Followed, Tracked, Untracked, Finds;
    if b.ready {
      FollowedTwice(a, mid, b, maxIno);
    }
    AddedChanged(mid.blocks, b.blocks, e, maxIno);
    ChangedTwice(a.blocks, mid.blocks, b.blocks, e.name, None, Some(e), maxIno);
  }

  /** Entering a name that is not there. */
  lemma {:induction false} ReplacedOnce(a: Stored, free: nat, e: Entry, err: D.Errno, b: Stored, left: int, maxIno: nat)
    requires Entered(a, free, e, err, b, left, maxIno) && |e.name| <= NAME_LEN && Find(a.blocks, e.name, maxIno) == None
    ensures Replaced(a, free, e, false, err, b, left, maxIno)
  {
    Unchanged(a.blocks, maxIno);
    EnteredFollowed(a, free, e, err, b, left, maxIno);
    hide Find, AllTiled, Changed, SameMap, AnySlot, RecLenFor, Added, Followed, Tracked, Finds;
    if RoomFor(a, free, e.name, maxIno) {
      AddedChanged(a.blocks, b.blocks, e, maxIno);
    }
  }

  /** Taking the new name out again and entering the replaced one. */
  lemma {:induction false} RestoredIs(was: seq<Block>, a: Stored, free: int, e: Entry, v: Entry, mid: Stored,
                                      between: int, err: D.Errno,
                                      b: Stored, left: int, maxIno: nat)
    requires Changed(was, a.blocks, e.name, Some(e), maxIno) && a.ready && AllTiled(was, maxIno)
    requires Find(was, e.name, maxIno) == Some(v)
    requires Erased(a, free, e.name, Allocator.Ok, mid, between, maxIno)
    requires Entered(mid, between, v, err, b, left, maxIno) && v.name == e.name && |e.name| <= NAME_LEN
    ensures SameMap(was, b.blocks, maxIno) && b.ready && Followed(a, b, maxIno)
  {
    ChangedAt(was, a.blocks, e.name, Some(e), maxIno);
    ErasedFollowed(a, free, e.name, Allocator.Ok, mid, between, maxIno);
    EnteredFollowed(mid, between, v, err, b, left, maxIno);
    hide Find, AllTiled, Changed, SameMap, AnySlot, RecLenFor, Added, Followed, Tracked, Untracked, Finds;
    FollowedTwice(a, mid, b, maxIno);
    AddedChanged(mid.blocks, a.blocks, e, maxIno);
    ChangedAt(a.blocks, mid.blocks, e.name, None, maxIno);
    ChangedTwice(was, a.blocks, mid.blocks, e.name, Some(e), None, maxIno);
    AddedChanged(mid.blocks, b.blocks, v, maxIno);
    ChangedTwice(was, mid.blocks, b.blocks, e.name, None, Some(v), maxIno);
  }

  /** Taking a new name out again. */
  lemma {:induction false} TakenBack(was: seq<Block>, a: Stored, free: int, e: Entry, err: D.Errno, b: Stored,
                                     left: int, maxIno: nat)
    requires Changed(was, a.blocks, e.name, Some(e), maxIno) && a.ready && AllTiled(was, maxIno)
    requires Find(was, e.name, maxIno) == None
    requires Erased(a, free, e.name, err, b, left, maxIno)
    ensures SameMap(was, b.blocks, maxIno) && b.ready && Followed(a, b, maxIno)
  {
    ChangedAt(was, a.blocks, e.name, Some(e), maxIno);
    ErasedFollowed(a, free, e.name, err, b, left, maxIno);
    hide Find, AllTiled, Changed, SameMap, AnySlot, RecLenFor, Added, Followed, Untracked;
    AddedChanged(b.blocks, a.blocks, e, maxIno);
    ChangedTwice(was, a.blocks, b.blocks, e.name, Some(e), None, maxIno);
  }

  /** A name that is there can be taken out of a directory with its index. */
  lemma {:induction false} ErasedReady(a: Stored, free: int, e: Entry, err: D.Errno, b: Stored, left: int, maxIno: nat)
    requires Erased(a, free, e.name, err, b, left, maxIno) && a.ready && Find(a.blocks, e.name, maxIno) == Some(e)
    ensures err == Allocator.Ok && b.ready && left == free && Changed(a.blocks, b.blocks, e.name, None, maxIno)
  {
    AddedChanged(b.blocks, a.blocks, e, maxIno);
    hide Find, AllTiled, Changed, AnySlot, RecLenFor, Added, Untracked;
  }

  /** Take the new name out again and enter the replaced one. The index is in place, so nothing can fail. */
  method RestoreTarget(dst: D.Directory, nn: Name, e: Entry, victim: Option<Entry>, ghost was: seq<Block>)
    requires dst.Valid() && 0 < |nn| <= NAME_LEN && Of(dst).ready && e.name == nn && dst.Visible(nn)
    requires Changed(was, dst.blocks, nn, Some(e), dst.maxIno) && AllTiled(was, dst.maxIno)
    requires victim == Find(was, nn, dst.maxIno)
    requires victim.Some? ==>
                && victim.value.name == nn && 0 < victim.value.ino <= dst.maxIno
                && victim.value.ftype <= FT_MAX && victim.value.ftype < 256
    modifies dst, dst.alloc, dst.alloc.bitmaps, dst.alloc.free
    ensures dst.Valid() && dst.alloc.bitmaps == old(dst.alloc.bitmaps) && dst.alloc.free == old(dst.alloc.free)
    ensures old(dst.alloc.InUse()) <= dst.alloc.InUse()
    ensures SameMap(was, dst.blocks, dst.maxIno) && Of(dst).ready && Followed(old(Of(dst)), Of(dst), dst.maxIno)
  {
    hide *;
    ReadyIs(dst);
    ghost var a, free := Of(dst), dst.alloc.superFree;
    ChangedAt(was, dst.blocks, nn, Some(e), dst.maxIno);
    var err := Unlink(dst, nn);
    dst.Parts();
    ReadyIs(dst);
    ErasedReady(a, free, e, err, Of(dst), dst.alloc.superFree, dst.maxIno);
    if victim.Some? {
      ghost var mid, between := Of(dst), dst.alloc.superFree;
      err := Link(dst, nn, victim.value.ino, victim.value.ftype as byte);
      assert Entry(nn, victim.value.ino, victim.value.ftype) == victim.value;
      ReadyIs(dst);
      RestoredIs(was, a, free, e, victim.value, mid, between, err, Of(dst), dst.alloc.superFree, dst.maxIno);
    } else {
      TakenBack(was, a, free, e, err, Of(dst), dst.alloc.superFree, dst.maxIno);
    }
  }

  // ----- the rename over two directories

  /** The directories take part with one allocator; a file has none of its own. */
  ghost predicate Together(src: D.Directory, dst: D.Directory, moved: D.Directory?)
    reads src, dst, moved, src.alloc, src.alloc.bitmaps, src.alloc.free
  {
    && src != dst && src.alloc == dst.alloc && src.maxIno == dst.maxIno && src.Valid() && dst.Valid()
    && (moved != null ==>
          moved != src && moved != dst && moved.alloc == src.alloc && moved.maxIno == src.maxIno && moved.Valid())
  }

  ghost function BlocksOf(d: D.Directory?): Option<seq<Block>>
    reads d
  {
    if d == null then None else Some(d.blocks)
  }

  /** An entry moved from one directory to another as `e`. It goes through exactly when there is room for the name and a
      free block for each index that is missing. Without room everything is as before. Otherwise a target without its index
      has lost the replaced entry, or has the new one in addition; a source without its index has lost the old entry, and
      the new one has been taken back. */
  ghost predicate MovedOver(s: Stored, t: Stored, m: Option<seq<Block>>, free: int, on: Name, e: Entry, replaced: bool,
                            dstIno: nat,
                            err: D.Errno, s': Stored, t': Stored, m': Option<seq<Block>>, left: int, maxIno: nat) {
    && AllTiled(s.blocks, maxIno) && AllTiled(t.blocks, maxIno) && (m.Some? <==> m'.Some?)
    && (m.Some? ==> AllTiled(m.value, maxIno) && Find(m.value, DOTDOT, maxIno).Some?)
    && s'.ready == (s.ready || err == Allocator.Ok) && (t.ready || err == Allocator.Ok ==> t'.ready)
    && Followed(s, s', maxIno) && Followed(t, t', maxIno) && (err == Allocator.Ok ==> Finds(t', e.name, maxIno))
    && var room, need := Room(t, free, e.name, replaced, maxIno), Need(t, e.name, replaced, maxIno);
       && err == (if room && free >= need + IndexBlocks(s) then Allocator.Ok else Allocator.Enospc)
       && if err == Allocator.Ok then
            && Changed(s.blocks, s'.blocks, on, None, maxIno) && Changed(t.blocks, t'.blocks, e.name, Some(e), maxIno)
            && left == free - need - IndexBlocks(s)
            && (m.Some? ==>
                  Changed(m.value, m'.value, DOTDOT, Some(Find(m.value, DOTDOT, maxIno).value.(ino := dstIno)), maxIno))
          else
            && (m.Some? ==> SameMap(m.value, m'.value, maxIno))
            && if !room then SameMap(s.blocks, s'.blocks, maxIno) && SameMap(t.blocks, t'.blocks, maxIno) && left == free
               else if free < need then
                 && SameMap(s.blocks, s'.blocks, maxIno)
                 && Changed(t.blocks, t'.blocks, e.name, if replaced then None else Some(e), maxIno)
               else Changed(s.blocks, s'.blocks, on, None, maxIno) && SameMap(t.blocks, t'.blocks, maxIno)
  }

  /** Move an entry from one directory to another, replacing what has the name there. */
  method MoveEntry(src: D.Directory, dst: D.Directory, moved: D.Directory?, on: Name, nn: Name, e: Entry,
                   victim: Option<Entry>,
                   srcIno: nat, dstIno: nat) returns (err: D.Errno)
    requires Together(src, dst, moved) && on != [] && 0 < |nn| <= NAME_LEN
    requires AllTiled(src.blocks, src.maxIno) && Find(src.blocks, on, src.maxIno) == Some(e)
    requires AllTiled(dst.blocks, src.maxIno) && victim == Find(dst.blocks, nn, src.maxIno)
    requires src.Visible(on) && dst.Visible(nn) && (moved != null ==> moved.Visible(DOTDOT))
    requires moved != null ==>
               && AllTiled(moved.blocks, src.maxIno) && Find(moved.blocks, DOTDOT, src.maxIno).Some?
               && Find(moved.blocks, DOTDOT, src.maxIno).value.ino == srcIno && 0 < srcIno <= src.maxIno
                  && 0 < dstIno <= src.maxIno
    modifies src, dst, moved, src.alloc, src.alloc.bitmaps, src.alloc.free
    ensures Together(src, dst, moved)
    ensures MovedOver(old(Of(src)), old(Of(dst)), old(BlocksOf(moved)), old(src.alloc.superFree), on, e.(name := nn),
                      victim.Some?, dstIno,
                      err, Of(src), Of(dst), BlocksOf(moved), src.alloc.superFree, src.maxIno)
    ensures moved != null ==> Kept(old(Of(moved)), Of(moved), src.maxIno) && Of(moved).ready == old(Of(moved)).ready
  {
    hide *;
    TogetherParts(src, dst, moved);
    MovedIs(moved);
    ReadyIs(src);
    ReadyIs(dst);
    ghost var s, t, m, free, used, maxIno := Of(src), Of(dst), BlocksOf(moved), src.alloc.superFree, src.alloc.InUse(),
              src.maxIno;
    ghost var x := OfMoved(moved);
    var e' := e.(name := nn);
    DotDot();
    src.EntryValid(on);
    dst.EntryValid(nn);
    src.Parts();
    dst.Parts();
    err := EnterTarget(dst, nn, e', victim);
    dst.Parts();
    src.Regain(used);
    if moved != null {
      moved.Regain(used);
    }
    ghost var t1, free1 := Of(dst), dst.alloc.superFree;
    if err != Allocator.Ok {
      TogetherAgain(src, dst, moved);
      AfterTarget(s, t, m, free, on, e', victim.Some?, dstIno, err, t1, free1, maxIno);
      MovedIs(moved);
      MovedAlone(x, maxIno);
      return;
    }
    Reparent(moved, dstIno);
    MovedIs(moved);
    ghost var used1, m1, mid := src.alloc.InUse(), BlocksOf(moved), OfMoved(moved);
    dst.Parts();
    err := Unlink(src, on);
    src.Parts();
    ReadyIs(src);
    dst.Regain(used1);
    if moved != null {
      moved.Regain(used1);
    }
    ghost var s2, left := Of(src), src.alloc.superFree;
    TargetSet(t, free, e', victim.Some?, t1, free1, maxIno);
    if err != Allocator.Ok {
      ErasedLate(s, free1, on, e, err, s2, left, maxIno);
      TogetherAgain(src, dst, moved);
      ReadyIs(dst);
      TakeBack(src, dst, moved, nn, e', victim, srcIno, t.blocks);
      TogetherParts(src, dst, moved);
      MovedIs(moved);
      BackAgain(m, m1, moved, x, mid, dstIno, srcIno, maxIno);
      FollowedTwice(t, t1, Of(dst), maxIno);
    }
    BlocksAre(moved);
    TogetherAgain(src, dst, moved);
    ReadyIs(src);
    ReadyIs(dst);
    AfterSource(s, t, m, free, on, e, e', victim.Some?, dstIno, t1, free1, err, s2, left, Of(src), Of(dst), BlocksOf(moved),
                src.alloc.superFree, maxIno);
  }

  /** Let `..` lead back and restore the target. */
  method TakeBack(src: D.Directory, dst: D.Directory, moved: D.Directory?, nn: Name, e: Entry, victim: Option<Entry>,
                  srcIno: nat,
                  ghost was: seq<Block>)
    requires Together(src, dst, moved) && 0 < |nn| <= NAME_LEN && Of(dst).ready && e.name == nn && dst.Visible(nn)
    requires Changed(was, dst.blocks, nn, Some(e), dst.maxIno) && AllTiled(was, dst.maxIno)
    requires victim == Find(was, nn, dst.maxIno)
    requires victim.Some? ==>
               && victim.value.name == nn && 0 < victim.value.ino <= dst.maxIno && victim.value.ftype <= FT_MAX
               && victim.value.ftype < 256
    requires moved != null ==>
               && moved.Visible(DOTDOT) && 0 < srcIno <= moved.maxIno
               && AllTiled(moved.blocks, moved.maxIno) && Find(moved.blocks, DOTDOT, moved.maxIno).Some?
    modifies dst, moved, dst.alloc, dst.alloc.bitmaps, dst.alloc.free
    ensures Together(src, dst, moved)
    ensures SameMap(was, dst.blocks, dst.maxIno) && Of(dst).ready && Followed(old(Of(dst)), Of(dst), dst.maxIno)
    ensures moved != null ==>
              && Of(moved).ready == old(Of(moved)).ready && Kept(old(Of(moved)), Of(moved), moved.maxIno)
              && Changed(old(moved.blocks), moved.blocks, DOTDOT,
                         Some(old(Find(moved.blocks, DOTDOT, moved.maxIno)).value.(ino := srcIno)), moved.maxIno)
  {
    hide *;
    TogetherParts(src, dst, moved);
    Reparent(moved, srcIno);
    MovedIs(moved);
    src.Parts();
    ghost var used := src.alloc.InUse();
    RestoreTarget(dst, nn, e, victim, was);
    dst.Parts();
    src.Regain(used);
    if moved != null {
      moved.Regain(used);
    }
    TogetherAgain(src, dst, moved);
  }

  lemma {:induction false} MovedIs(d: D.Directory?)
    ensures BlocksOf(d) == (if d == null then None else Some(d.blocks)) && OfMoved(d) == if d == null then None else Some(Of(d))
    ensures d != null && d.Valid() ==>
              d.alloc.Valid() && d.maxIno < INO_LIMIT && DirOk(d.blocks, d.maxIno) && d.IndexFits(d.blocks)
    ensures d != null && d.Valid() ==>
              && |d.direct| == |d.blocks| && (forall i :: 0 <= i < |d.direct| ==> d.direct[i] in d.alloc.InUse())
              && (forall i, j :: 0 <= i < j < |d.direct| ==> d.direct[i] != d.direct[j])
              && (d.indexBlock != 0 ==> d.indexBlock in d.alloc.InUse() && d.indexBlock !in d.direct)
  {
    if d != null && d.Valid() {
      d.Parts();
    }
    hide D.Directory.Valid, DirOk, D.Directory.IndexFits;
  }

  lemma {:induction false} MovedAlone(x: Option<Stored>, maxIno: nat)
    ensures x.Some? ==> Kept(x.value, x.value, maxIno)
  {
    if x.Some? {
      KeptAlone(x.value, maxIno);
    }
  }

  ghost function OfMoved(d: D.Directory?): Option<Stored>
    reads d
  {
    if d == null then None else Some(Of(d))
  }

  /** Let `..` of a directory lead elsewhere; a file has none. */
  method Reparent(moved: D.Directory?, parent: nat)
    requires moved != null ==>
               && moved.Valid() && moved.Visible(DOTDOT) && 0 < parent <= moved.maxIno
               && AllTiled(moved.blocks, moved.maxIno) && Find(moved.blocks, DOTDOT, moved.maxIno).Some?
    modifies moved
    ensures moved != null ==>
              && moved.Valid() && moved.Visible(DOTDOT) && Of(moved).ready == old(Of(moved)).ready
                 && moved.direct == old(moved.direct)
              && moved.indexBlock == old(moved.indexBlock)
              && Kept(old(Of(moved)), Of(moved), moved.maxIno)
              && Changed(old(moved.blocks), moved.blocks, DOTDOT,
                         Some(old(Find(moved.blocks, DOTDOT, moved.maxIno)).value.(ino := parent)),
                         moved.maxIno)
              && AllTiled(moved.blocks, moved.maxIno) && Find(moved.blocks, DOTDOT, moved.maxIno).Some?
  {
    if moved == null {
      return;
    }
    hide *;
    moved.Parts();
    ReadyIs(moved);
    VisibleIs(moved, DOTDOT);
    ghost var a, dd := Of(moved), Find(moved.blocks, DOTDOT, moved.maxIno).value;
    var ok := moved.UpdateParent(parent);
    moved.Parts();
    ReadyIs(moved);
    ParentChanged(a.blocks, moved.blocks, dd, parent, moved.maxIno);
    StoredKept(a, Of(moved), moved.maxIno);
    DotDot();
    KeptFinds(a, Of(moved), DOTDOT, moved.maxIno);
    FindsIs(a, DOTDOT, moved.maxIno);
    FindsIs(Of(moved), DOTDOT, moved.maxIno);
    VisibleIs(moved, DOTDOT);
  }

  lemma {:induction false} FindsIs(a: Stored, name: Name, maxIno: nat)
    ensures Finds(a, name, maxIno) <==> Sees(a.index, a.hash, a.blocks, name, maxIno)
  {
  }

  lemma {:induction false} StoredKept(a: Stored, b: Stored, maxIno: nat)
    requires b.hash == a.hash && IndexKept(a.index, a.blocks, b.index, b.blocks, a.hash, maxIno)
    ensures Kept(a, b, maxIno)
  {
  }

  /** A directory whose `..` led elsewhere for a while. */
  lemma {:induction false} BackAgain(m: Option<seq<Block>>, m1: Option<seq<Block>>, moved: D.Directory?,
                                     x: Option<Stored>, mid: Option<Stored>,
                                     dstIno: nat, srcIno: nat, maxIno: nat)
    requires (m.Some? <==> moved != null) && (m1.Some? <==> moved != null) && (x.Some? <==> moved != null)
    requires (mid.Some? <==> moved != null)
    requires moved != null ==>
               && AllTiled(m.value, maxIno) && Find(m.value, DOTDOT, maxIno).Some?
                  && Find(m.value, DOTDOT, maxIno).value.ino == srcIno
               && Changed(m.value, m1.value, DOTDOT, Some(Find(m.value, DOTDOT, maxIno).value.(ino := dstIno)), maxIno)
               && AllTiled(m1.value, maxIno) && Find(m1.value, DOTDOT, maxIno).Some?
               && Changed(m1.value, moved.blocks, DOTDOT, Some(Find(m1.value, DOTDOT, maxIno).value.(ino := srcIno)), maxIno)
               && Kept(x.value, mid.value, maxIno) && Kept(mid.value, Of(moved), maxIno)
    ensures moved != null ==> SameMap(m.value, moved.blocks, maxIno) && Kept(x.value, Of(moved), maxIno)
  {
    if moved != null {
      KeptBoth(x.value, mid.value, Of(moved), maxIno);
      var dd := Find(m.value, DOTDOT, maxIno).value;
      ChangedAt(m.value, m1.value, DOTDOT, Some(dd.(ino := dstIno)), maxIno);
      assert dd.(ino := dstIno).(ino := srcIno) == dd;
      ChangedTwice(m.value, m1.value, moved.blocks, DOTDOT, Some(dd.(ino := dstIno)), Some(dd), maxIno);
    }
    hide Changed, SameMap, Kept, Find, AllTiled;
  }

  lemma {:induction false} TogetherParts(src: D.Directory, dst: D.Directory, moved: D.Directory?)
    requires Together(src, dst, moved)
    ensures src != dst && src.alloc == dst.alloc && src.maxIno == dst.maxIno && src.Valid() && dst.Valid()
    ensures moved != null ==>
              moved != src && moved != dst && moved.alloc == src.alloc && moved.maxIno == src.maxIno && moved.Valid()
  {
  }

  lemma {:induction false} TogetherAgain(src: D.Directory, dst: D.Directory, moved: D.Directory?)
    requires src != dst && src.alloc == dst.alloc && src.maxIno == dst.maxIno && src.Valid() && dst.Valid()
    requires moved != null ==>
               moved != src && moved != dst && moved.alloc == src.alloc && moved.maxIno == src.maxIno && moved.Valid()
    ensures Together(src, dst, moved)
  {
  }

  lemma {:induction false} BlocksAre(d: D.Directory?)
    ensures BlocksOf(d) == if d == null then None else Some(d.blocks)
  {
  }

  lemma {:induction false} DotDot()
    ensures DOTDOT != []
  {
  }

  /** An entry set for good. */
  lemma {:induction false} TargetSet(a: Stored, free: int, e: Entry, replaced: bool, b: Stored, left: int, maxIno: nat)
    requires Replaced(a, free, e, replaced, Allocator.Ok, b, left, maxIno)
    ensures Changed(a.blocks, b.blocks, e.name, Some(e), maxIno) && b.ready && AllTiled(a.blocks, maxIno)
    ensures AllTiled(b.blocks, maxIno)
    ensures Followed(a, b, maxIno) && Kept(a, b, maxIno) && Finds(b, e.name, maxIno)
  {
    hide AllTiled, Find, Kept, Finds;
  }

  lemma {:induction false} ErasedLate(a: Stored, free: nat, name: Name, e: Entry, err: D.Errno, b: Stored, left: int,
                                      maxIno: nat)
    requires Erased(a, free, name, err, b, left, maxIno) && Find(a.blocks, name, maxIno) == Some(e)
    requires err != Allocator.Ok
    ensures Changed(a.blocks, b.blocks, name, None, maxIno) && !a.ready && !b.ready && free == 0
    ensures err == Allocator.Enospc
  {
    AddedChanged(b.blocks, a.blocks, e, maxIno);
    hide Find, AllTiled, Changed, AnySlot, RecLenFor, Added;
  }

  lemma {:induction false} AfterTarget(s: Stored, t: Stored, m: Option<seq<Block>>, free: int, on: Name, e: Entry,
                                       replaced: bool, dstIno: nat,
                                       err: D.Errno, t': Stored, left: int, maxIno: nat)
    requires Replaced(t, free, e, replaced, err, t', left, maxIno) && err != Allocator.Ok && AllTiled(s.blocks, maxIno)
    requires m.Some? ==> AllTiled(m.value, maxIno) && Find(m.value, DOTDOT, maxIno).Some?
    ensures MovedOver(s, t, m, free, on, e, replaced, dstIno, err, s, t', m, left, maxIno)
  {
    Unchanged(s.blocks, maxIno);
    FollowedAlone(s, maxIno);
    if m.Some? {
      Unchanged(m.value, maxIno);
    }
    hide AllTiled, Find, Changed, SameMap, RoomFor, RecordBlocks, Followed, Finds;
  }

  /** The outcome once the target has the new entry. */
  lemma {:induction false} AfterSource(s: Stored, t: Stored, m: Option<seq<Block>>, free: nat, on: Name, e: Entry,
                                       e': Entry, replaced: bool,
                                       dstIno: nat, t1: Stored, free1: nat, err: D.Errno, s2: Stored, left: int,
                                         s': Stored, t': Stored,
                                       m': Option<seq<Block>>, last: int, maxIno: nat)
    requires Replaced(t, free, e', replaced, Allocator.Ok, t1, free1, maxIno)
    requires Erased(s, free1, on, err, s2, left, maxIno) && Find(s.blocks, on, maxIno) == Some(e) && s' == s2
    requires (m.Some? <==> m'.Some?) && (m.Some? ==> AllTiled(m.value, maxIno) && Find(m.value, DOTDOT, maxIno).Some?)
    requires err == Allocator.Ok ==>
               && t' == t1 && last == left
               && (m.Some? ==>
                     Changed(m.value, m'.value, DOTDOT, Some(Find(m.value, DOTDOT, maxIno).value.(ino := dstIno)), maxIno))
    requires err != Allocator.Ok ==>
               SameMap(t.blocks, t'.blocks, maxIno) && t'.ready && Followed(t, t', maxIno)
                 && (m.Some? ==> SameMap(m.value, m'.value, maxIno))
    ensures MovedOver(s, t, m, free, on, e', replaced, dstIno, err, s', t', m', last, maxIno)
  {
    if err == Allocator.Ok {
      AddedChanged(s2.blocks, s.blocks, e, maxIno);
    } else {
      ErasedLate(s, free1, on, e, err, s2, left, maxIno);
    }
    ErasedFollowed(s, free1, on, err, s2, left, maxIno);
    hide AllTiled, Find, Changed, SameMap, RoomFor, RecordBlocks, AnySlot, RecLenFor, Added, Followed, Finds, Untracked;
  }

  lemma {:induction false} ParentChanged(before: seq<Block>, after: seq<Block>, dd: Entry, ino: nat, maxIno: nat)
    requires AllTiled(before, maxIno) && AllTiled(after, maxIno)
    requires forall n :: Find(after, n, maxIno) == if n == DOTDOT then Some(dd.(ino := ino)) else Find(before, n, maxIno)
    ensures Changed(before, after, DOTDOT, Some(dd.(ino := ino)), maxIno)
    ensures Find(after, DOTDOT, maxIno) == Some(dd.(ino := ino))
  {
    hide AllTiled, Find;
  }

  // ----- the rename inside one directory

  /** The map with one name set and another one removed. */
  ghost predicate Renamed(before: seq<Block>, after: seq<Block>, on: Name, e: Entry, maxIno: nat) {
    && AllTiled(before, maxIno) && AllTiled(after, maxIno)
    && forall n :: Find(after, n, maxIno) == if n == e.name then Some(e) else if n == on then None else Find(before, n, maxIno)
  }

  /** An entry renamed inside its directory. It goes through exactly when the new name can be entered, whose index the
      removal of the old one can use. */
  ghost predicate MovedInside(a: Stored, free: int, on: Name, e: Entry, replaced: bool, err: D.Errno, b: Stored,
                              left: int, maxIno: nat) {
    && AllTiled(a.blocks, maxIno)
    && Followed(a, b, maxIno) && (err == Allocator.Ok ==> Finds(b, e.name, maxIno))
    && if Room(a, free, e.name, replaced, maxIno) && free >= Need(a, e.name, replaced, maxIno) then
         && err == Allocator.Ok && b.ready && left == free - Need(a, e.name, replaced, maxIno)
         && Renamed(a.blocks, b.blocks, on, e, maxIno)
       else err == Allocator.Enospc && Replaced(a, free, e, replaced, err, b, left, maxIno)
  }

  /** Rename an entry, replacing what has the name. */
  method RenameEntry(dir: D.Directory, on: Name, nn: Name, e: Entry, victim: Option<Entry>) returns (err: D.Errno)
    requires dir.Valid() && on != [] && 0 < |nn| <= NAME_LEN && on != nn && AllTiled(dir.blocks, dir.maxIno)
    requires Find(dir.blocks, on, dir.maxIno) == Some(e) && victim == Find(dir.blocks, nn, dir.maxIno)
    requires Finds(Of(dir), on, dir.maxIno) && dir.Visible(nn)
    modifies dir, dir.alloc, dir.alloc.bitmaps, dir.alloc.free
    ensures dir.Valid() && dir.alloc.bitmaps == old(dir.alloc.bitmaps) && dir.alloc.free == old(dir.alloc.free)
    ensures old(dir.alloc.InUse()) <= dir.alloc.InUse()
    ensures MovedInside(old(Of(dir)), old(dir.alloc.superFree), on, e.(name := nn), victim.Some?, err, Of(dir),
                        dir.alloc.superFree, dir.maxIno)
  {
    hide *;
    ReadyIs(dir);
    ghost var a, free := Of(dir), dir.alloc.superFree;
    var e' := e.(name := nn);
    dir.EntryValid(on);
    err := EnterTarget(dir, nn, e', victim);
    ReadyIs(dir);
    ghost var mid, between := Of(dir), dir.alloc.superFree;
    if err != Allocator.Ok {
      InsideFailed(a, free, on, e', victim.Some?, err, mid, between, dir.maxIno);
      return;
    }
    TargetSet(a, free, e', victim.Some?, mid, between, dir.maxIno);
    KeptFinds(a, mid, on, dir.maxIno);
    dir.Parts();
    VisibleIs(dir, on);
    err := Unlink(dir, on);
    dir.Parts();
    InsideDone(a, free, on, e, e', victim.Some?, mid, between, err, Of(dir), dir.alloc.superFree, dir.maxIno);
  }

  lemma {:induction false} InsideFailed(a: Stored, free: nat, on: Name, e: Entry, replaced: bool, err: D.Errno,
                                        b: Stored, left: int, maxIno: nat)
    requires Replaced(a, free, e, replaced, err, b, left, maxIno) && err != Allocator.Ok
    ensures MovedInside(a, free, on, e, replaced, err, b, left, maxIno)
  {
    hide AllTiled, Find, Changed, SameMap, RoomFor, RecordBlocks, Renamed, Followed, Finds;
  }

  lemma {:induction false} NameFound(a: Stored, b: Stored, name: Name, maxIno: nat)
    requires Followed(a, b, maxIno) && b.ready && Finds(a, name, maxIno)
    ensures name != [] ==> Finds(b, name, maxIno)
  {
    if name != [] {
      KeptFinds(a, b, name, maxIno);
    }
    hide Kept, Finds;
  }

  lemma {:induction false} InsideDone(a: Stored, free: nat, on: Name, e: Entry, e': Entry, replaced: bool, mid: Stored,
                                      between: int,
                                      err: D.Errno, b: Stored, left: int, maxIno: nat)
    requires Replaced(a, free, e', replaced, Allocator.Ok, mid, between, maxIno) && e.name == on != e'.name
    requires AllTiled(a.blocks, maxIno) && Find(a.blocks, on, maxIno) == Some(e) && e'.name != []
    requires Erased(mid, between, on, err, b, left, maxIno)
    ensures MovedInside(a, free, on, e', replaced, err, b, left, maxIno)
  {
    TargetSet(a, free, e', replaced, mid, between, maxIno);
    assert Find(mid.blocks, on, maxIno) == Some(e) by { hide AllTiled, Find; }
    ErasedReady(mid, between, e, err, b, left, maxIno);
    ErasedFollowed(mid, between, on, err, b, left, maxIno);
    FollowedTwice(a, mid, b, maxIno);
    NameFound(mid, b, e'.name, maxIno);
    hide AllTiled, Find, Erased, RoomFor, RecordBlocks, Followed, Finds;
  }
}
