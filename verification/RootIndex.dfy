/** The index of the root directory, which mkfs leaves to the first name, and what the block for it shows. */
module RootIndex {
  import Allocator
  import opened Bytes
  import opened DirBlock
  import opened DirSpec
  import opened DirContent
  import opened DirSteps
  import opened DirRuns
  import T = DirTree
  import D = Directory
  import Mkfs
  import Fsck
  import NewDevice
  import DirFull

  /** The root directory as mkfs leaves it. */
  ghost predicate NewRoot(a: Stored) { a.blocks == [InitBlock(T.ROOT, T.ROOT)] && !a.ready && Readable(a.index) }

  /** The check of a mount accepts a directory in order exactly when every name is found through the index. */
  ghost predicate Passes(a: Stored, maxIno: nat) { forall n: Name :: n != [] ==> Finds(a, n, maxIno) }

  // ----- the first name

  /** Block 0 is in the mask of a dot, or the first name puts it there. */
  predicate DotMarked(x: Index, hash: Name -> nat, dot: Name, name: Name)
    requires |x.masks| == BUCKETS
  {
    0 in x.masks[Bucket(hash, dot)] || Bucket(hash, dot) == Bucket(hash, name)
  }

  /** What the block shows is the index of an empty root, except for the bit that the first name sets anyway. */
  ghost predicate ShowsEmptyRoot(x: Index, hash: Name -> nat, name: Name)
    requires |x.masks| == BUCKETS
  {
    && x.entries == 2
    && forall m :: 0 <= m < BUCKETS ==>
         var dots := if m == Bucket(hash, DOT) || m == Bucket(hash, DOTDOT) then {0} else {};
         if m == Bucket(hash, name) then x.masks[m] - {0} == {} else x.masks[m] == dots
  }

  lemma {:induction false} DotsOnly(maxIno: nat)
    requires T.ROOT <= maxIno < INO_LIMIT
    ensures var bs, es := [InitBlock(T.ROOT, T.ROOT)], [Entry(DOT, T.ROOT, FT_DIR), Entry(DOTDOT, T.ROOT, FT_DIR)];
            AllTiled(bs, maxIno) && Lives(bs, maxIno) == [es] && |Concat([es])| == 2
  {
    InitBlockIs(T.ROOT, T.ROOT, maxIno);
    hide InitBlock;
    var b := InitBlock(T.ROOT, T.ROOT);
    OneBlock(b, maxIno);
    var es := [Entry(DOT, T.ROOT, FT_DIR), Entry(DOTDOT, T.ROOT, FT_DIR)];
    assert Lives([b], maxIno) == [es];
    assert [es][1..] == [] && Concat([es]) == es + [];
  }

  lemma {:induction false} DotBuckets(hash: Name -> nat, k: nat)
    ensures var es := [Entry(DOT, T.ROOT, FT_DIR), Entry(DOTDOT, T.ROOT, FT_DIR)];
            BlocksWith([es], hash, k) == if k == Bucket(hash, DOT) || k == Bucket(hash, DOTDOT) then {0} else {}
  {
    var es := [Entry(DOT, T.ROOT, FT_DIR), Entry(DOTDOT, T.ROOT, FT_DIR)];
    assert |DOT| == 1 && |DOTDOT| == 2 && es[0].name == DOT && es[1].name == DOTDOT;
    hide Bucket;
    assert Holds(es, hash, k) <==> k == Bucket(hash, DOT) || k == Bucket(hash, DOTDOT);
  }

  /** The block of a new directory has room for any name. */
  lemma {:induction false} InitSlot(ino: nat, parent: nat, need: nat, maxIno: nat)
    requires 0 < ino <= maxIno < INO_LIMIT && 0 < parent <= maxIno && need <= 4000
    ensures var b := InitBlock(ino, parent); Tiled(b, 0, maxIno) && HasSlot(b, 0, need, maxIno)
  {
    InitBlockIs(ino, parent, maxIno);
    var b := InitBlock(ino, parent);
    assert RecLenFor(|DOTDOT|) == 16;
    hide InitBlock, RecLen, NameLen, Ino, NameAt, FileType, ValidAt, RecLenFor;
    SecondSlot(b, need, maxIno);
  }

  lemma {:induction false} SecondSlot(b: Block, need: nat, maxIno: nat)
    requires Tiled(b, 0, maxIno) && RecLen(b, 0) == 16 && RecLen(b, 16) == BLOCK_SIZE - 16 && NameLen(b, 16) == |DOTDOT|
    requires need <= 4000
    ensures HasSlot(b, 0, need, maxIno)
  {
    hide RecLen, NameLen, Ino, NameAt, FileType;
    assert Tiled(b, 16, maxIno);
    assert SlotAt(b, 16, need);
    assert HasSlot(b, 16, need, maxIno);
  }

  /** Where the first name goes. */
  lemma {:induction false} FirstInPlace(a: Stored, free: nat, e: Entry, b: Stored, left: int, maxIno: nat)
    requires NewRoot(a) && T.ROOT <= maxIno < INO_LIMIT && Entered(a, free, e, Allocator.Ok, b, left, maxIno)
    ensures |b.blocks| == 1 && b.ready && b.hash == a.hash
    ensures FirstIndex(a.index, a.blocks, b.blocks, a.hash, e, b.index, maxIno)
  {
    InitSlot(T.ROOT, T.ROOT, RecLenFor(|e.name|), maxIno);
    hide InitBlock, HasSlot, Tiled, Kept, Finds, FirstIndex, Find, Added;
  }

  /** Behind its first name the index of a root is exact if and only if its block could not be read as an index, or
      showed that of an empty root under the same hash; and the check of a mount accepts the root if and only if its
      block could not be read, or the bits of both dots were set in it or by the name. */
  lemma {:induction false} FirstNameExactly(a: Stored, free: nat, e: Entry, b: Stored, left: int, maxIno: nat)
    requires NewRoot(a) && T.ROOT <= maxIno < INO_LIMIT && Entered(a, free, e, Allocator.Ok, b, left, maxIno)
    requires e.name != [] && e.name != DOT && e.name != DOTDOT
    ensures match a.index
            case None => InOrder(b, maxIno) && Passes(b, maxIno)
            case Some(x) =>
              && (InOrder(b, maxIno) <==> ShowsEmptyRoot(x, a.hash, e.name))
              && (Passes(b, maxIno) <==> DotMarked(x, a.hash, DOT, e.name) && DotMarked(x, a.hash, DOTDOT, e.name))
  {
    FirstInPlace(a, free, e, b, left, maxIno);
    hide Entered, InOrder, Passes, ShowsEmptyRoot, DotMarked, FirstIndex;
    match a.index {
      case None => FirstUnread(a, e, b, maxIno);
      case Some(x) => FirstRead(a, x, e, b, maxIno);
    }
  }

  lemma {:induction false} FirstUnread(a: Stored, e: Entry, b: Stored, maxIno: nat)
    requires a.index == None && FirstIndex(a.index, a.blocks, b.blocks, a.hash, e, b.index, maxIno) && b.hash == a.hash
    ensures InOrder(b, maxIno) && Passes(b, maxIno)
  {
    forall n: Name | n != [] ensures Finds(b, n, maxIno) {
      ExactSees(b.index, b.hash, b.blocks, n, maxIno);
    }
  }

  lemma {:induction false} FirstRead(a: Stored, x: Index, e: Entry, b: Stored, maxIno: nat)
    requires NewRoot(a) && T.ROOT <= maxIno < INO_LIMIT && a.index == Some(x) && |b.blocks| == 1 && b.hash == a.hash
    requires FirstIndex(a.index, a.blocks, b.blocks, a.hash, e, b.index, maxIno)
    requires e.name != [] && e.name != DOT && e.name != DOTDOT
    ensures |x.masks| == BUCKETS
    ensures InOrder(b, maxIno) <==> ShowsEmptyRoot(x, a.hash, e.name)
    ensures Passes(b, maxIno) <==> DotMarked(x, a.hash, DOT, e.name) && DotMarked(x, a.hash, DOTDOT, e.name)
  {
    var i :| PutIn(a.blocks, b.blocks, i, e, maxIno) && b.index.value == IndexAdd(x, Bucket(a.hash, e.name), i, |b.blocks|);
    DotsOnly(maxIno);
    InitDirOk(T.ROOT, T.ROOT, maxIno);
    SameLength(b.blocks, maxIno);
    var ls, ls' := Lives(a.blocks, maxIno), Lives(b.blocks, maxIno);
    PutPlace(ls, ls', i, e);
    hide InitBlock, Lives, DirOk, FirstIndex, PutAt, Bucket, IndexOk, Concat, Marks;
    IndexAfterAdd(x, ls, ls', a.hash, i, e);
    EmptyAgrees(x, ls, a.hash, e.name);
    OrderIs(b, maxIno);
    forall n: Name ensures Finds(b, n, maxIno) <==> (n == DOT || n == DOTDOT ==> DotMarked(x, a.hash, n, e.name)) {
      MarksAfterAdd(x, ls, ls', a.hash, i, e, n);
      DotsFound(ls[0], n);
    }
  }

  lemma {:induction false} PutPlace(ls: seq<seq<Entry>>, ls': seq<seq<Entry>>, i: nat, e: Entry)
    requires PutAt(ls, ls', i, e) && |ls| == |ls'| == 1
    ensures i == 0
  {
    var a, b := PutAtParts(ls, ls', i, e);
  }

  lemma {:induction false} DotsFound(es: seq<Entry>, n: Name)
    requires es == [Entry(DOT, T.ROOT, FT_DIR), Entry(DOTDOT, T.ROOT, FT_DIR)]
    ensures Lookup(es, n).Some? <==> n == DOT || n == DOTDOT
  {
    TwoEntries(es[0], es[1]);
  }

  lemma {:induction false} OrderIs(b: Stored, maxIno: nat)
    requires b.index.Some? && AllTiled(b.blocks, maxIno)
    ensures InOrder(b, maxIno) <==> IndexOk(b.index.value, Lives(b.blocks, maxIno), b.hash)
    ensures forall n :: Finds(b, n, maxIno) <==> Marks(b.index.value, Lives(b.blocks, maxIno), b.hash, n)
  {
    hide IndexOk, Marks, Lives, AllTiled;
  }

  lemma {:induction false} EmptyAgrees(x: Index, ls: seq<seq<Entry>>, hash: Name -> nat, name: Name)
    requires |x.masks| == BUCKETS && ls == [[Entry(DOT, T.ROOT, FT_DIR), Entry(DOTDOT, T.ROOT, FT_DIR)]]
    requires |Concat(ls)| == 2
    ensures Agrees(x, ls, hash, Bucket(hash, name), 0) <==> ShowsEmptyRoot(x, hash, name)
  {
    hide Bucket, BlocksWith, Concat;
    forall m | 0 <= m < BUCKETS
      ensures BlocksWith(ls, hash, m) == (if m == Bucket(hash, DOT) || m == Bucket(hash, DOTDOT) then {0} else {})
      ensures BlocksWith(ls, hash, m) - {0} == {}
    {
      DotBuckets(hash, m);
    }
  }

  // ----- runs

  /** A root that a mount accepts is accepted for good, and an exact index of the root stays exact. */
  lemma {:induction false} RootStays(c: Conf, p: Mkfs.Plan, found: Option<Index>, vs: seq<Volume>, es: seq<Event>,
                                     i: nat, j: nat)
    requires p.Real() && p.Tail() >= Mkfs.GROUP_META && T.ROOT <= c.maxIno < INO_LIMIT && Readable(found)
    requires Run(c, vs, es)
    requires p.groupCount > 0 && p.Total() >= 0 && vs[0] == New(c, p, found) && i <= j < |vs|
    ensures T.ROOT in vs[i].dirs && T.ROOT in vs[j].dirs
    ensures Kept(vs[i].dirs[T.ROOT], vs[j].dirs[T.ROOT], c.maxIno)
    ensures Passes(vs[i].dirs[T.ROOT], c.maxIno) ==> Passes(vs[j].dirs[T.ROOT], c.maxIno)
    decreases j
  {
    hide *;
    RunsAllOrNothing(c, p, found, vs, es, i);
    InvParts(c, vs[i]);
    if i == j {
      KeptAlone(vs[i].dirs[T.ROOT], c.maxIno);
    } else {
      RootStays(c, p, found, vs, es, i, j - 1);
      RunLength(c, vs, es);
      RunsAllOrNothing(c, p, found, vs, es, j - 1);
      RootNext(c, vs[j - 1], es[j - 1], vs[j]);
      KeptBoth(vs[i].dirs[T.ROOT], vs[j - 1].dirs[T.ROOT], vs[j].dirs[T.ROOT], c.maxIno);
      PassesStill(vs[j - 1].dirs[T.ROOT], vs[j].dirs[T.ROOT], c.maxIno);
    }
  }

  lemma {:induction false} RootNext(c: Conf, v: Volume, e: Event, w: Volume)
    requires Inv(c, v) && Good(c, v, e, w) && T.ROOT in v.dirs
    ensures T.ROOT in w.dirs && Kept(v.dirs[T.ROOT], w.dirs[T.ROOT], c.maxIno)
  {
    hide Inv, Refined, Indexed, Numbered, Kept, InOrder, SameDirs;
  }

  lemma {:induction false} PassesStill(a: Stored, b: Stored, maxIno: nat)
    requires Kept(a, b, maxIno)
    ensures Passes(a, maxIno) ==> Passes(b, maxIno)
  {
    if Passes(a, maxIno) {
      forall n: Name | n != [] ensures Finds(b, n, maxIno) {
        KeptFinds(a, b, n, maxIno);
      }
    }
    hide Finds, Kept;
  }

  // ----- a device that is formatted again

  /** The hash of names, 32 bits wide (FNV-1a over the bytes of the seed and of the name). */
  function Mix(h: bv32, b: byte): bv32 { (h ^ (b as bv32)) * 16777619 }

  function MixAll(h: bv32, bs: seq<byte>): bv32
    decreases |bs|
  {
    if bs == [] then h else MixAll(Mix(h, bs[0]), bs[1..])
  }

  function DirHash(seed: seq<byte>, name: Name): nat { MixAll(MixAll(2166136261, seed), name) as nat }

  /** Two times of formatting, one minute apart, as seeds. */
  const SEED0: seq<byte> := [0, 241, 83, 101, 0, 0, 0, 0]
  const SEED1: seq<byte> := [60, 241, 83, 101, 0, 0, 0, 0]
  const A: Name := [97]

  lemma {:induction false} MixTwo(h: bv32, b: seq<byte>)
    requires |b| >= 2
    ensures MixAll(h, b) == MixAll(Mix(Mix(h, b[0]), b[1]), b[2..])
  {
    hide Mix;
    assert b[1..][1..] == b[2..];
    assert MixAll(h, b) == MixAll(Mix(h, b[0]), b[1..]);
  }

  lemma {:induction false} MixFour(h: bv32, b: seq<byte>)
    requires |b| >= 4
    ensures MixAll(h, b) == MixAll(Mix(Mix(Mix(Mix(h, b[0]), b[1]), b[2]), b[3]), b[4..])
  {
    hide Mix;
    MixTwo(h, b);
    MixTwo(Mix(Mix(h, b[0]), b[1]), b[2..]);
    assert b[2..][2..] == b[4..];
  }

  lemma {:induction false} MixEight(h: bv32, b: seq<byte>)
    requires |b| == 8
    ensures MixAll(h, b) == Mix(Mix(Mix(Mix(Mix(Mix(Mix(Mix(h, b[0]), b[1]), b[2]), b[3]), b[4]), b[5]), b[6]), b[7])
  {
    hide Mix;
    MixFour(h, b);
    var h4 := Mix(Mix(Mix(Mix(h, b[0]), b[1]), b[2]), b[3]);
    MixFour(h4, b[4..]);
    assert b[4..][4..] == [];
  }

  lemma {:induction false} Values0()
    ensures Mix(Mix(2166136261, 0), 241) == 3765951914 && Mix(Mix(3765951914, 83), 101) == 2246320826
    ensures Mix(Mix(2246320826, 0), 0) == 2224218698 && Mix(Mix(2224218698, 0), 0) == 548017242
  {
  }

  lemma {:induction false} Values1()
    ensures Mix(Mix(2166136261, 60), 241) == 3639998910 && Mix(Mix(3639998910, 83), 101) == 3000566646
    ensures Mix(Mix(3000566646, 0), 0) == 1368696678 && Mix(Mix(1368696678, 0), 0) == 3230352598
  {
  }

  lemma {:induction false} Values2()
    ensures Mix(548017242, 46) == 3753783964 && Mix(3753783964, 46) == 3932802614 && Mix(548017242, 97) == 2797459681
    ensures Mix(3230352598, 46) == 322802280 && Mix(3230352598, 97) == 3527224341
  {
  }

  lemma {:induction false} Seeds()
    ensures MixAll(2166136261, SEED0) == 548017242 && MixAll(2166136261, SEED1) == 3230352598
  {
    Values0();
    Values1();
    hide Mix, MixAll;
    MixEight(2166136261, SEED0);
    MixEight(2166136261, SEED1);
  }

  lemma {:induction false} MixOne(h: bv32, b: seq<byte>)
    requires |b| == 1
    ensures MixAll(h, b) == Mix(h, b[0])
  {
    hide Mix;
    assert b[1..] == [];
  }

  lemma {:induction false} Numbers()
    ensures 3753783964 as bv32 as nat == 3753783964 && 3932802614 as bv32 as nat == 3932802614
    ensures 2797459681 as bv32 as nat == 2797459681 && 322802280 as bv32 as nat == 322802280
    ensures 3527224341 as bv32 as nat == 3527224341
  {
  }

  lemma {:induction false} HashIs(seed: seq<byte>, name: Name, h: bv32)
    requires MixAll(MixAll(2166136261, seed), name) == h
    ensures DirHash(seed, name) == h as nat
  {
  }

  /** The hashes of the names under both seeds. */
  lemma {:induction false} Hashes()
    ensures DirHash(SEED0, DOT) == 3753783964 && DirHash(SEED0, DOTDOT) == 3932802614 && DirHash(SEED0, A) == 2797459681
    ensures DirHash(SEED1, DOT) == 322802280 && DirHash(SEED1, A) == 3527224341
  {
    Seeds();
    Values2();
    Numbers();
    MixTwo(548017242, DOTDOT);
    assert MixAll(3932802614, DOTDOT[2..]) == 3932802614;
    hide Mix, MixAll, DirHash;
    MixOne(548017242, DOT);
    MixOne(548017242, A);
    MixOne(3230352598, DOT);
    MixOne(3230352598, A);
    HashIs(SEED0, DOT, 3753783964);
    HashIs(SEED0, DOTDOT, 3932802614);
    HashIs(SEED0, A, 2797459681);
    HashIs(SEED1, DOT, 322802280);
    HashIs(SEED1, A, 3527224341);
  }

  const HASH0: Name -> nat := n => DirHash(SEED0, n)
  const HASH1: Name -> nat := n => DirHash(SEED1, n)

  lemma {:induction false} BucketsOf()
    ensures Bucket(HASH0, DOT) == 28 && Bucket(HASH0, DOTDOT) == 54 && Bucket(HASH0, A) == 33
    ensures Bucket(HASH1, DOT) == 40 && Bucket(HASH1, A) == 21
    ensures A != [] && A != DOT && A != DOTDOT && 0 < |A| <= NAME_LEN
  {
    Hashes();
    hide DirHash;
    assert |DOT| == 1 && |DOTDOT| == 2 && DOT[0] == 46 && A[0] == 97;
  }

  /** The root directory of a new filesystem with one file in it. */
  method OneFile(p: Mkfs.Plan, prealloc: bool, hash: Name -> nat, found: Option<Index>)
    returns (d: D.Directory, ghost a: Stored, ghost free: nat)
    requires p.Real() && p.Ok() && p.Tail() >= Mkfs.GROUP_META && Readable(found)
    ensures fresh(d) && d.Valid() && d.maxIno == 2 && d.indexBlock == NewDevice.FirstTaken(p, prealloc)
    ensures NewRoot(a) && a.hash == hash && a.index == found && 0 < |A| <= NAME_LEN
    ensures Entered(a, free, Entry(A, 2, 1), Allocator.Ok, Of(d), d.alloc.superFree, 2)
  {
    BucketsOf();
    assert T.ROOT == ROOT_INO == 1 && FT_MAX == 3;
    hide *;
    d := DirFull.NewRoot(p, prealloc, hash, 2, found);
    ReadyIs(d);
    a, free := Of(d), d.alloc.superFree;
    NewRootIs(a);
    Absent(a, A, 2);
    AbsentVisible(d, A);
    d.Parts();
    NewDevice.FirstChoice(d.alloc, p, prealloc);
    var err := Link(d, A, 2, 1);
    ReadyIs(d);
    Succeeds(a, free, Entry(A, 2, 1), err, Of(d), d.alloc.superFree, 2);
  }

  lemma {:induction false} NewRootIs(a: Stored)
    ensures NewRoot(a) <==> a.blocks == [InitBlock(T.ROOT, T.ROOT)] && !a.ready && Readable(a.index)
  {
  }

  lemma {:induction false} Absent(a: Stored, name: Name, maxIno: nat)
    requires NewRoot(a) && T.ROOT <= maxIno < INO_LIMIT && name != DOT && name != DOTDOT
    ensures AllTiled(a.blocks, maxIno) && Find(a.blocks, name, maxIno) == None
  {
    InitDirOk(T.ROOT, T.ROOT, maxIno);
    hide InitBlock;
  }

  lemma {:induction false} Succeeds(a: Stored, free: nat, e: Entry, err: D.Errno, b: Stored, left: int, maxIno: nat)
    requires NewRoot(a) && T.ROOT <= maxIno < INO_LIMIT && free > 2 && Entered(a, free, e, err, b, left, maxIno)
    requires e.name != [] && e.name != DOT && e.name != DOTDOT && |e.name| <= NAME_LEN
    ensures err == Allocator.Ok && |b.blocks| == 1
  {
    Absent(a, e.name, maxIno);
    InitSlot(T.ROOT, T.ROOT, RecLenFor(|e.name|), maxIno);
    hide InitBlock, HasSlot, Tiled, Tracked, Find, Added;
  }

  /** Names of the old filesystem set no bit of block 0 in another bucket. */
  lemma {:induction false} OldBits(a: Stored, free: nat, e: Entry, b: Stored, left: int, maxIno: nat, k: nat)
    requires NewRoot(a) && T.ROOT <= maxIno < INO_LIMIT && Entered(a, free, e, Allocator.Ok, b, left, maxIno)
    requires a.index == None && e.name != [] && e.name != DOT && e.name != DOTDOT && k < BUCKETS
    requires k != Bucket(a.hash, DOT) && k != Bucket(a.hash, DOTDOT) && k != Bucket(a.hash, e.name)
    ensures b.index.Some? && |b.index.value.masks| == BUCKETS && 0 !in b.index.value.masks[k]
  {
    hide *;
    FirstInPlace(a, free, e, b, left, maxIno);
    FirstNameExactly(a, free, e, b, left, maxIno);
    NamesAfter(a, free, e, b, left, maxIno);
    IndexThere(a, e, b, maxIno);
    NoneHolds(Live(b.blocks[0], 0, maxIno), a.hash, e.name, k);
    OldMask(b, maxIno, k);
  }

  lemma {:induction false} IndexThere(a: Stored, e: Entry, b: Stored, maxIno: nat)
    requires FirstIndex(a.index, a.blocks, b.blocks, a.hash, e, b.index, maxIno)
    ensures b.index.Some?
  {
  }

  /** The names of a root with one file. */
  lemma {:induction false} NamesAfter(a: Stored, free: nat, e: Entry, b: Stored, left: int, maxIno: nat)
    requires NewRoot(a) && T.ROOT <= maxIno < INO_LIMIT && Entered(a, free, e, Allocator.Ok, b, left, maxIno)
    requires |b.blocks| == 1
    requires e.name != DOT && e.name != DOTDOT
    ensures AllTiled(b.blocks, maxIno) && Find(b.blocks, DOT, maxIno).Some? && Find(b.blocks, DOTDOT, maxIno).Some?
    ensures Tiled(b.blocks[0], 0, maxIno)
    ensures forall n :: Lookup(Live(b.blocks[0], 0, maxIno), n).Some? <==> n in {DOT, DOTDOT, e.name}
  {
    InitDirOk(T.ROOT, T.ROOT, maxIno);
    hide InitBlock, Tracked, RoomFor, RecordBlocks, Find;
    assert Added(a.blocks, b.blocks, e, maxIno);
    OnlyBlock(b.blocks, maxIno);
  }

  lemma {:induction false} OnlyBlock(blocks: seq<Block>, maxIno: nat)
    requires AllTiled(blocks, maxIno) && |blocks| == 1
    ensures Tiled(blocks[0], 0, maxIno) && forall n :: Find(blocks, n, maxIno) == Lookup(Live(blocks[0], 0, maxIno), n)
  {
    OneBlock(blocks[0], maxIno);
    assert [blocks[0]] == blocks;
    hide Live, Tiled, Lookup;
  }

  lemma {:induction false} NoneHolds(es: seq<Entry>, hash: Name -> nat, name: Name, k: nat)
    requires forall n :: Lookup(es, n).Some? <==> n in {DOT, DOTDOT, name}
    requires k != Bucket(hash, DOT) && k != Bucket(hash, DOTDOT) && k != Bucket(hash, name)
    ensures !Holds(es, hash, k)
  {
    forall i | 0 <= i < |es| ensures Bucket(hash, es[i].name) != k {
      LookupNone(es, es[i].name);
      assert es[i].name in {DOT, DOTDOT, name};
    }
    hide Lookup, Bucket;
  }

  lemma {:induction false} OldMask(b: Stored, maxIno: nat, k: nat)
    requires b.index.Some? && InOrder(b, maxIno) && AllTiled(b.blocks, maxIno) && |b.blocks| == 1 && k < BUCKETS
    requires !Holds(Live(b.blocks[0], 0, maxIno), b.hash, k)
    ensures |b.index.value.masks| == BUCKETS && 0 !in b.index.value.masks[k]
  {
    hide Holds, Live, Concat;
  }

  /** A device with a file in its root is formatted again one minute later, and a file of the same name is created. The
      index takes the same block as before, whose old content is read as an index. The next mount refuses the root. */
  method Reformatted(p: Mkfs.Plan, prealloc: bool) returns (same: bool, mount: D.Errno)
    requires p.Real() && p.Tail() >= Mkfs.GROUP_META
    ensures same && mount == Allocator.Euclean
  {
    Mkfs.RealIsOk(p);
    BucketsOf();
    assert Readable(None) && T.ROOT == 1 && BUCKETS == 64 && 2 < INO_LIMIT;
    hide *;
    var d0, a0, free0 := OneFile(p, prealloc, HASH0, None);
    d0.Parts();
    ReadyIs(d0);
    OldBits(a0, free0, Entry(A, 2, 1), Of(d0), d0.alloc.superFree, 2, Bucket(HASH1, DOT));
    FirstInPlace(a0, free0, Entry(A, 2, 1), Of(d0), d0.alloc.superFree, 2);
    d0.ShownIs();
    var d1, a1, free1 := OneFile(p, prealloc, HASH1, d0.index);
    same := d1.indexBlock == d0.indexBlock;
    mount := Refused(d1, a1, free1);
  }

  /** The check of a mount, with bits missing for a dot. */
  method Refused(d: D.Directory, ghost a: Stored, ghost free: nat) returns (err: D.Errno)
    requires d.Valid() && d.maxIno == 2 && NewRoot(a) && A != [] && A != DOT && A != DOTDOT
    requires Entered(a, free, Entry(A, 2, 1), Allocator.Ok, Of(d), d.alloc.superFree, 2)
    requires a.index.Some? && !DotMarked(a.index.value, a.hash, DOT, A)
    ensures err == Allocator.Euclean
  {
    assert T.ROOT == 1 && 2 < INO_LIMIT;
    hide *;
    d.Parts();
    ReadyIs(d);
    FirstInPlace(a, free, Entry(A, 2, 1), Of(d), d.alloc.superFree, 2);
    FirstNameExactly(a, free, Entry(A, 2, 1), Of(d), d.alloc.superFree, 2);
    NamesAfter(a, free, Entry(A, 2, 1), Of(d), d.alloc.superFree, 2);
    IndexThere(a, Entry(A, 2, 1), Of(d), 2);
    MountExactly(d);
    err := d.ValidateDirBlock();
  }

  /** A mount accepts a directory in order, with an index, if and only if that hides no name. */
  lemma {:induction false} MountExactly(d: D.Directory)
    requires d.Valid() && Of(d).ready && Of(d).index.Some? && d.blocks != [] && AllTiled(d.blocks, d.maxIno)
    requires Find(d.blocks, DOT, d.maxIno).Some? && Find(d.blocks, DOTDOT, d.maxIno).Some?
    ensures d.Checked() <==> Passes(Of(d), d.maxIno)
  {
    hide *;
    d.Parts();
    d.ShownIs();
    ReadyIs(d);
    d.CheckedExactly();
    forall n: Name ensures Finds(Of(d), n, d.maxIno) <==> d.Visible(n) {
      VisibleIs(d, n);
      SeesIs(Of(d), n, d.maxIno);
    }
    PassesIs(Of(d), d.maxIno);
  }

  lemma {:induction false} SeesIs(a: Stored, n: Name, maxIno: nat)
    ensures Finds(a, n, maxIno) <==> Sees(a.index, a.hash, a.blocks, n, maxIno)
  {
  }

  lemma {:induction false} PassesIs(a: Stored, maxIno: nat)
    ensures Passes(a, maxIno) <==> forall n: Name :: n != [] ==> Finds(a, n, maxIno)
  {
  }
}
