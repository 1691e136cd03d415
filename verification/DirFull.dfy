/** A directory that is full, and a filesystem without a free inode, from any new filesystem on. */
module DirFull {
  import Allocator
  import opened Bytes
  import opened DirBlock
  import opened DirSpec
  import opened DirContent
  import opened DirSteps
  import D = Directory
  import Mkfs
  import NewDevice
  import I = Inodes

  /** Names of the largest length, as many as no directory can hold. */
  function NameOf(i: nat): (name: Name)
    ensures |name| == NAME_LEN && name != DOT && name != DOTDOT
  {
    seq(NAME_LEN, k => if k == 0 then 97 + i % 26 else if k == 1 then 97 + i / 26 % 26
        else if k == 2 then 97 + i / 676 % 26 else 97)
  }

  lemma {:induction false} NamesDiffer(i: nat, j: nat)
    requires i < 17576 && j < 17576 && NameOf(i) == NameOf(j)
    ensures i == j
  {
    assert NameOf(i)[0] == NameOf(j)[0] && NameOf(i)[1] == NameOf(j)[1] && NameOf(i)[2] == NameOf(j)[2];
    assert i / 26 / 26 == i / 676 && j / 26 / 26 == j / 676;
  }

  /** The root directory of a new filesystem. `found` is what the first free block shows. */
  method NewRoot(p: Mkfs.Plan, prealloc: bool, hash: Name -> nat, maxIno: nat, found: Option<Index>)
    returns (d: D.Directory)
    requires Readable(found) && p.Real() && p.Ok() && p.Tail() >= Mkfs.GROUP_META && ROOT_INO <= maxIno < INO_LIMIT
    ensures fresh(d) && fresh(d.alloc) && fresh(d.alloc.bitmaps) && fresh(d.alloc.free) && d.Valid()
    ensures d.maxIno == maxIno && d.indexed
    ensures d.alloc.superFree >= 4080 && Of(d) == Stored([InitBlock(ROOT_INO, ROOT_INO)], false, hash, found)
    ensures NewDevice.AsFormatted(d.alloc, p, prealloc) && d.allocHint == 0 && d.goalGroup == 0 && d.found == found
  {
    assert 0 < ROOT_INO;
    hide *;
    var alloc := NewDevice.NewAllocator(p, prealloc);
    d := new D.Directory(alloc, hash, maxIno, true, p.rootDir, ROOT_INO, ROOT_INO, found);
    RoomIs(d, []);
    ReadyIs(d);
    d.ShownIs();
  }

  /** The names from the `n`-th on are not there. */
  ghost predicate Unused(blocks: seq<Block>, n: nat, maxIno: nat) {
    AllTiled(blocks, maxIno) && forall k :: n <= k < NAMES ==> Find(blocks, NameOf(k), maxIno) == None
  }

  lemma {:induction false} UnusedAtFirst(maxIno: nat)
    requires ROOT_INO <= maxIno < INO_LIMIT
    ensures Unused([InitBlock(ROOT_INO, ROOT_INO)], 0, maxIno) && DirOk([InitBlock(ROOT_INO, ROOT_INO)], maxIno)
  {
    InitDirOk(ROOT_INO, ROOT_INO, maxIno);
    hide NameOf, InitBlock, DirOk, Find;
  }

  /** One name more. */
  lemma {:induction false} UnusedStill(a: Stored, free: nat, n: nat, ino: nat, err: D.Errno, b: Stored, left: int,
                                       maxIno: nat)
    requires Unused(a.blocks, n, maxIno) && n < NAMES && (a.ready || free > 1) && free > 0
    requires Entered(a, free, Entry(NameOf(n), ino, 1), err, b, left, maxIno)
    ensures if err == Allocator.Ok then
              && DirOk(a.blocks, maxIno) && DirOk(b.blocks, maxIno) && Unused(b.blocks, n + 1, maxIno)
              && |All(b.blocks, maxIno)| == |All(a.blocks, maxIno)| + 1
              && b.ready && left + |b.blocks| + 1 == free + |a.blocks| + if a.ready then 1 else 0
            else err == Allocator.Enospc && b == a && left == free && !RoomFor(a, free, NameOf(n), maxIno)
  {
    forall k | n < k < NAMES ensures NameOf(k) != NameOf(n) {
      if NameOf(k) == NameOf(n) {
        NamesDiffer(k, n);
      }
    }
    assert |NameOf(n)| <= NAME_LEN;
    hide NameOf, Find, AllTiled, All, AnySlot, Distinct, Named, Tracked;
  }

  /** The names of one file, until there is no room for another one. */
  method Fill(d: D.Directory, ino: nat) returns (n: nat)
    requires 0 < ino <= d.maxIno && d.Valid() && DirOk(d.blocks, d.maxIno) && Unused(d.blocks, 0, d.maxIno)
    requires !Of(d).ready && d.alloc.superFree >= 20 && |d.blocks| == 1
    modifies d, d.alloc, d.alloc.bitmaps, d.alloc.free
    ensures d.Valid() && d.alloc.bitmaps == old(d.alloc.bitmaps) && d.alloc.free == old(d.alloc.free)
    ensures n < NAMES && DirOk(d.blocks, d.maxIno) && Unused(d.blocks, n, d.maxIno)
    ensures Of(d).ready && d.alloc.superFree >= 2 && AllTiled(d.blocks, d.maxIno)
    ensures !RoomFor(Of(d), d.alloc.superFree, NameOf(n), d.maxIno)
  {
    hide *;
    n := 0;
    var err := Allocator.Ok;
    ghost var sum := d.alloc.superFree + |d.blocks|;
    ReadyIs(d);
    SmallNames();
    AtMostTwelve(d.blocks, d.maxIno);
    EntriesBound(d.blocks, d.maxIno);
    while err == Allocator.Ok
      invariant d.Valid() && d.alloc.bitmaps == old(d.alloc.bitmaps) && d.alloc.free == old(d.alloc.free)
      invariant DirOk(d.blocks, d.maxIno) && Unused(d.blocks, n, d.maxIno) && AllTiled(d.blocks, d.maxIno)
      invariant n <= |All(d.blocks, d.maxIno)| < NAMES
      invariant Of(d).blocks == d.blocks && (Of(d).ready || (|d.blocks| == 1 && err == Allocator.Ok))
      invariant err != Allocator.Ok ==> !RoomFor(Of(d), d.alloc.superFree, NameOf(n), d.maxIno)
      invariant d.alloc.superFree + |d.blocks| + (if Of(d).ready then 1 else 0) == sum
      decreases if err == Allocator.Ok then 1 else 0, NAMES - |All(d.blocks, d.maxIno)|
    {
      ghost var a, free := Of(d), d.alloc.superFree;
      ReadyIs(d);
      AtMostTwelve(d.blocks, d.maxIno);
      RoomBelow(a, free, NameOf(n), d.maxIno);
      NotUsed(d.blocks, n, d.maxIno);
      AbsentVisible(d, NameOf(n));
      err := Link(d, NameOf(n), ino, 1);
      ReadyIs(d);
      UnusedStill(a, free, n, ino, err, Of(d), d.alloc.superFree, d.maxIno);
      if err == Allocator.Ok {
        n := n + 1;
        AtMostTwelve(d.blocks, d.maxIno);
        EntriesBound(d.blocks, d.maxIno);
      }
    }
    AtMostTwelve(d.blocks, d.maxIno);
  }

  lemma {:induction false} SmallNames()
    ensures NAMES == 4098 && FT_MAX == 3
    ensures forall i: nat :: |NameOf(i)| == NAME_LEN > 0
  {
    hide NameOf;
  }

  lemma {:induction false} AtMostTwelve(blocks: seq<Block>, maxIno: nat)
    requires DirOk(blocks, maxIno)
    ensures |blocks| <= 12 && AllTiled(blocks, maxIno)
  {
    hide AllTiled, All, Distinct, Named;
  }

  lemma {:induction false} RoomBelow(a: Stored, free: nat, name: Name, maxIno: nat)
    requires AllTiled(a.blocks, maxIno)
    ensures |a.blocks| < 12 && free > 0 ==> RoomFor(a, free, name, maxIno)
  {
    hide AllTiled, AnySlot, RecLenFor;
  }

  /** Without room for a name with `free` blocks left there is none with fewer. */
  lemma {:induction false} NoRoom(a: Stored, free: nat, index: nat, e: Entry, err: D.Errno, b: Stored, left: int,
                                  maxIno: nat)
    requires Made(a, free, e, index, true, err, b, left, maxIno) && index <= 1 < free && |e.name| <= NAME_LEN
    requires AllTiled(a.blocks, maxIno) && !RoomFor(a, free, e.name, maxIno) && Find(a.blocks, e.name, maxIno) == None
    ensures err == Allocator.Enospc && b == a && left == free - index
  {
    hide AllTiled, AnySlot, RecLenFor, Find, Added, Tracked;
  }

  lemma {:induction false} RealInodes(p: Mkfs.Plan)
    requires p.Real()
    ensures p.Ok() && p.groupCount >= 2 && p.groupCount * NewDevice.INODES_PER_GROUP >= 112 && ROOT_INO == 1
  {
    Mkfs.RealIsOk(p);
    hide Mkfs.PlanOf;
    assert NewDevice.INODES_PER_GROUP == 56;
  }

  /** Root directory and inodes of a new filesystem. */
  method NewSystem(p: Mkfs.Plan, prealloc: bool, hash: Name -> nat, found: Option<Index>)
    returns (d: D.Directory, inodes: I.Inodes)
    requires Readable(found) && p.Real() && p.Tail() >= Mkfs.GROUP_META
    requires p.groupCount * NewDevice.INODES_PER_GROUP < INO_LIMIT
    ensures fresh(d) && fresh(d.alloc) && fresh(d.alloc.bitmaps) && fresh(d.alloc.free) && d.Valid() && d.indexed
    ensures fresh(inodes) && fresh(inodes.bitmaps) && fresh(inodes.free) && Apart(d, inodes) && inodes.superFree >= 111
    ensures d.alloc.superFree >= 4080 && Of(d) == Stored([InitBlock(ROOT_INO, ROOT_INO)], false, hash, found)
    ensures DirOk(d.blocks, d.maxIno) && Unused(d.blocks, 0, d.maxIno) && d.maxIno >= 112
  {
    hide *;
    RealInodes(p);
    d := NewRoot(p, prealloc, hash, p.groupCount * NewDevice.INODES_PER_GROUP, found);
    ReadyIs(d);
    inodes := NewDevice.NewInodes(p, prealloc);
    ReadyIs(d);
    ApartIs(d, inodes);
    UnusedAtFirst(d.maxIno);
  }

  /** A root directory full of the names of one file. */
  method FullRoot(p: Mkfs.Plan, prealloc: bool, hash: Name -> nat, found: Option<Index>)
    returns (d: D.Directory, inodes: I.Inodes, n: nat)
    requires Readable(found) && p.Real() && p.Tail() >= Mkfs.GROUP_META
    requires p.groupCount * NewDevice.INODES_PER_GROUP < INO_LIMIT
    ensures fresh(d) && fresh(d.alloc) && fresh(d.alloc.bitmaps) && fresh(d.alloc.free) && d.Valid() && d.indexed
    ensures fresh(inodes) && fresh(inodes.bitmaps) && fresh(inodes.free) && Apart(d, inodes) && inodes.superFree > 0
    ensures Of(d).ready && d.alloc.superFree >= 2 && n < NAMES && Unused(d.blocks, n, d.maxIno)
    ensures AllTiled(d.blocks, d.maxIno)
    ensures !RoomFor(Of(d), d.alloc.superFree, NameOf(n), d.maxIno) && d.maxIno > 0
  {
    hide *;
    d, inodes := NewSystem(p, prealloc, hash, found);
    RootIs();
    ReadyIs(d);
    ApartIs(d, inodes);
    var err, file := inodes.AllocInodeGoal(0);
    ReadyIs(d);
    ApartIs(d, inodes);
    n := Fill(d, file);
    ApartIs(d, inodes);
  }

  /** On any new filesystem: the root directory is filled with names of one file, and a directory is made in it. That
      fails and leaves the root as it was; a block and an inode are lost. */
  method FailedMkdir(p: Mkfs.Plan, prealloc: bool, hash: Name -> nat, found: Option<Index>)
    returns (err: D.Errno, blocks: int, inodes: int, root: seq<Block>, root': seq<Block>)
    requires Readable(found) && p.Real() && p.Tail() >= Mkfs.GROUP_META
    requires p.groupCount * NewDevice.INODES_PER_GROUP < INO_LIMIT
    ensures err == Allocator.Enospc && blocks == -1 && inodes == -1 && root' == root
  {
    assert ROOT_INO == 1 && Readable(None);
    hide *;
    var d, table, n := FullRoot(p, prealloc, hash, found);
    SmallNames();
    SmallFacts();
    d.Parts();
    ReadyIs(d);
    NotUsed(d.blocks, n, d.maxIno);
    AbsentVisible(d, NameOf(n));
    ghost var a := Of(d);
    var before, free := d.alloc.superFree, table.superFree;
    root := d.blocks;
    var child, ino, index;
    err, child, ino, index := Mkdir(d, table, 0, NameOf(n), ROOT_INO, None);
    blocks, inodes, root' := d.alloc.superFree - before, table.superFree - free, d.blocks;
    ReadyIs(d);
    NoRoom(a, before, 1, Entry(NameOf(n), ino, FT_DIR), err, Of(d), d.alloc.superFree, d.maxIno);
  }

  /** On any new filesystem: files are created as long as there are inodes, whether or not their names still find room. A
      directory that is made then is not there, and the operation succeeds. */
  method NoInodeLeft(p: Mkfs.Plan, prealloc: bool, hash: Name -> nat, found: Option<Index>)
    returns (err: D.Errno, made: bool, root: seq<Block>, root': seq<Block>)
    requires Readable(found) && p.Real() && p.Tail() >= Mkfs.GROUP_META
    requires p.groupCount * NewDevice.INODES_PER_GROUP < INO_LIMIT
    ensures err == Allocator.Ok && !made && root' == root
  {
    assert ROOT_INO == 1 && Readable(None);
    hide *;
    var d, table := NewSystem(p, prealloc, hash, found);
    ReadyIs(d);
    SmallFacts();
    var n := UseInodes(d, table);
    ApartIs(d, table);
    root := d.blocks;
    ghost var a, before := Of(d), d.alloc.superFree;
    ReadyIs(d);
    NotUsed(d.blocks, n, d.maxIno);
    AbsentVisible(d, NameOf(n));
    SmallNames();
    RootIs();
    d.Parts();
    var child, ino, index;
    err, child, ino, index := Mkdir(d, table, 0, NameOf(n), ROOT_INO, None);
    made, root' := child != null, d.blocks;
    ReadyIs(d);
    NoInode(a, before, Entry(NameOf(n), ino, FT_DIR), if d.indexed then 1 else 0, err, Of(d), d.alloc.superFree, d.maxIno);
  }

  lemma {:induction false} NoInode(a: Stored, free: nat, e: Entry, index: nat, err: D.Errno, b: Stored, left: int,
                                   maxIno: nat)
    requires Made(a, free, e, index, false, err, b, left, maxIno) && free > 0
    ensures err == Allocator.Ok && b == a
  {
    hide Entered;
  }

  /** Create files until no inode is left. */
  method UseInodes(d: D.Directory, inodes: I.Inodes) returns (n: nat)
    requires d.Valid() && Apart(d, inodes) && DirOk(d.blocks, d.maxIno) && Unused(d.blocks, 0, d.maxIno)
    requires !Of(d).ready && d.alloc.superFree >= 20 && |d.blocks| == 1
    modifies d, d.alloc, d.alloc.bitmaps, d.alloc.free, inodes, inodes.bitmaps, inodes.free
    ensures d.Valid() && Apart(d, inodes) && inodes.superFree == 0 && d.alloc.superFree > 0
    ensures d.alloc.bitmaps == old(d.alloc.bitmaps) && d.alloc.free == old(d.alloc.free)
    ensures inodes.bitmaps == old(inodes.bitmaps) && inodes.free == old(inodes.free)
    ensures n < NAMES && Unused(d.blocks, n, d.maxIno)
  {
    hide *;
    n := 0;
    ghost var sum := d.alloc.superFree + |d.blocks|;
    ReadyIs(d);
    SmallNames();
    AtMostTwelve(d.blocks, d.maxIno);
    EntriesBound(d.blocks, d.maxIno);
    while inodes.superFree > 0
      invariant d.Valid() && d.alloc.bitmaps == old(d.alloc.bitmaps) && d.alloc.free == old(d.alloc.free)
      invariant Apart(d, inodes) && inodes.bitmaps == old(inodes.bitmaps) && inodes.free == old(inodes.free)
      invariant DirOk(d.blocks, d.maxIno) && Unused(d.blocks, n, d.maxIno) && AllTiled(d.blocks, d.maxIno)
      invariant n <= |All(d.blocks, d.maxIno)| < NAMES
      invariant Of(d).blocks == d.blocks && (Of(d).ready || |d.blocks| == 1)
      invariant d.alloc.superFree + |d.blocks| + (if Of(d).ready then 1 else 0) == sum
    {
      ghost var a, free := Of(d), d.alloc.superFree;
      ReadyIs(d);
      AtMostTwelve(d.blocks, d.maxIno);
      NotUsed(d.blocks, n, d.maxIno);
      AbsentVisible(d, NameOf(n));
      var err, ino := Create(d, inodes, 0, NameOf(n), 1);
      ReadyIs(d);
      UnusedStill(a, free, n, ino, err, Of(d), d.alloc.superFree, d.maxIno);
      if err == Allocator.Ok {
        n := n + 1;
        AtMostTwelve(d.blocks, d.maxIno);
        EntriesBound(d.blocks, d.maxIno);
      }
    }
    AtMostTwelve(d.blocks, d.maxIno);
  }

  lemma {:induction false} NotUsed(blocks: seq<Block>, n: nat, maxIno: nat)
    requires Unused(blocks, n, maxIno) && n < NAMES
    ensures AllTiled(blocks, maxIno) && Find(blocks, NameOf(n), maxIno) == None
  {
    hide NameOf, AllTiled, Find;
  }
}
