/** Directories (dir.c) as the program changes them: lookup, insertion and deletion in record-tiled blocks,
    and the bucket index that is kept beside them. */
module Directory {
  import Allocator
  import opened Bytes
  import opened DirBlock
  import opened DirSpec
  import opened DirContent

  type Errno = Allocator.Errno

  lemma {:induction false} DotNames()
    ensures DOT != [] && DOTDOT != [] && DOT != DOTDOT && |DOT| == 1 && |DOTDOT| == 2
  {
  }

  lemma {:induction false} RedirectedIs(b: Block, o: nat, ino: nat)
    requires o + HEADER <= BLOCK_SIZE
    ensures Redirected(b, o, ino) == Put(b, o, Encode(ino, 8)) && HEADER == 12
  {
  }

  lemma {:induction false} GroupSize(alloc: Allocator.Allocator)
    requires alloc.Valid()
    ensures alloc.l.blocksPerGroup > 0
  {
  }

  /** The first entry of a new block. */
  lemma {:induction false} FreshFacts(name: Name, ino: nat, ftype: byte)
    requires |name| <= NAME_LEN
    ensures HEADER + |name| <= BLOCK_SIZE
    ensures Filled(FreshBlock(), 0, ino, name, ftype) == PutRecord(FreshBlock(), 0, ino, RecLen(FreshBlock(), 0), name, ftype)
  {
  }

  /** Erasing a record writes an empty one over it. */
  lemma {:induction false} ErasedIs(b: Block, o: nat)
    requires o + HEADER <= BLOCK_SIZE
    ensures Filled(b, o, 0, [], 0) == PutRecord(b, o, 0, RecLen(b, o), [], 0) && 0 <= NAME_LEN
  {
  }

  /** A block in order holds a name. */
  ghost predicate NameIn(b: Block, name: Name, maxIno: nat) {
    Tiled(b, 0, maxIno) && Lookup(Live(b, 0, maxIno), name).Some?
  }

  class Directory {
    const alloc: Allocator.Allocator
    /** The seeded name hash. */
    const hash: Name -> nat
    const maxIno: nat
    /** The directory index feature of the filesystem. */
    const indexed: bool
    /** Contents and numbers of the directory's blocks. */
    var blocks: seq<Block>
    var direct: seq<nat>
    /** Number of the index block, 0 for none, and its content when it can be read. */
    var indexBlock: nat
    var index: Option<Index>
    /** What the block that is to become the index shows when it is taken: whatever was left in it, or `None` when that
        cannot be read as an index. A directory takes such a block at most once. */
    const found: Option<Index>
    var allocHint: nat
    var goalGroup: nat

    /** The blocks are the directory's own and no block is used twice. */
    ghost predicate OwnsBlocks()
      reads this, alloc, alloc.bitmaps, alloc.free
    {
      && |direct| == |blocks|
      && (forall i :: 0 <= i < |direct| ==> direct[i] in alloc.InUse())
      && (forall i, j :: 0 <= i < j < |direct| ==> direct[i] != direct[j])
      && OwnsIndex()
    }

    ghost predicate OwnsIndex()
      reads this, alloc, alloc.bitmaps, alloc.free
    {
      indexBlock != 0 ==> indexBlock in alloc.InUse() && indexBlock !in direct
    }

    ghost predicate Valid()
      reads this, alloc, alloc.bitmaps, alloc.free
    {
      && alloc.Valid() && maxIno < INO_LIMIT && OwnsBlocks()
      && DirOk(blocks, maxIno) && IndexFits(blocks)
    }

    /** A new directory in a block of its own, before its index is built. */
    constructor (alloc: Allocator.Allocator, hash: Name -> nat, maxIno: nat, indexed: bool, block: nat, ino: nat, parent: nat,
                 found: Option<Index>)
      requires alloc.Valid() && block in alloc.InUse() && Readable(found)
      requires 0 < ino <= maxIno < INO_LIMIT && 0 < parent <= maxIno
      ensures Valid() && this.alloc == alloc && this.hash == hash && this.maxIno == maxIno && this.indexed == indexed
      ensures blocks == [InitBlock(ino, parent)] && direct == [block] && index.None? && indexBlock == 0
      ensures this.found == found
      ensures allocHint == goalGroup == 0
    {
      this.alloc, this.hash, this.maxIno, this.indexed := alloc, hash, maxIno, indexed;
      blocks, direct := [InitBlock(ino, parent)], [block];
      indexBlock, index, allocHint, goalGroup, this.found := 0, None, 0, 0, found;
      InitDirOk(ino, parent, maxIno);
    }

    /** The index, when it can be read, is one for some blocks. */
    predicate IndexFits(bs: seq<Block>)
      reads `index, `indexBlock
    {
      && Readable(index) && Readable(found)
      && (index.Some? ==> indexed && indexBlock != 0 && index.value.dirBlocks == |bs|)
    }

    /** The index does not hide the name. */
    ghost predicate Visible(name: Name)
      reads `index, `blocks
    {
      Sees(index, hash, blocks, name, maxIno)
    }

    /** What is read as the index, at the latest when there is a block for it. */
    function Shown(): Option<Index>
      reads `index, `indexBlock
    {
      if indexed && indexBlock == 0 then found else index
    }

    /** The mask a search starts with; nothing is skipped when it is empty. */
    function Mask(name: Name): set<nat>
      requires index.Some? ==> |index.value.masks| == BUCKETS
      reads this
    {
      if index.Some? then index.value.masks[Bucket(hash, name)] else {}
    }

    /** What a directory that is in order consists of. */
    lemma {:induction false} Parts()
      requires Valid()
      ensures alloc.Valid() && maxIno < INO_LIMIT && OwnsBlocks() && |direct| == |blocks| <= DIRECT_BLOCKS
      ensures DirOk(blocks, maxIno) && AllTiled(blocks, maxIno) && Named(All(blocks, maxIno)) && IndexFits(blocks)
      ensures index.Some? ==> indexed && indexBlock != 0 && |index.value.masks| == BUCKETS
      ensures Readable(index) && Readable(found) && (index.Some? ==> Shown() == index)
      ensures forall i :: 0 <= i < |direct| ==> direct[i] in alloc.InUse()
      ensures forall i, j :: 0 <= i < j < |direct| ==> direct[i] != direct[j]
      ensures OwnsIndex() && (indexBlock != 0 ==> indexBlock in alloc.InUse() && indexBlock !in direct)
    {
      hide Lives, All, AllTiled, Distinct, Named, Allocator.Allocator.Valid, Allocator.Allocator.InUse;
    }

    lemma {:induction false} Whole()
      requires alloc.Valid() && maxIno < INO_LIMIT && OwnsBlocks() && DirOk(blocks, maxIno) && IndexFits(blocks)
      ensures Valid()
    {
    }

    lemma {:induction false} OwnsParts()
      requires OwnsBlocks()
      ensures indexBlock != 0 ==> indexBlock in alloc.InUse() && indexBlock !in direct
      ensures |direct| == |blocks| && forall i :: 0 <= i < |direct| ==> direct[i] in alloc.InUse()
      ensures forall i, j :: 0 <= i < j < |direct| ==> direct[i] != direct[j]
    {
    }

    /** Blocks stay the directory's own while nothing is freed. */
    lemma {:induction false} OwnsStill(was: set<nat>)
      requires |direct| == |blocks| && was <= alloc.InUse() && forall i :: 0 <= i < |direct| ==> direct[i] in was
      requires forall i, j :: 0 <= i < j < |direct| ==> direct[i] != direct[j]
      requires indexBlock != 0 ==> indexBlock in alloc.InUse() && indexBlock !in direct
      ensures OwnsBlocks()
    {
    }

    /** A directory stays in order while others take blocks. */
    lemma {:induction false} Regain(was: set<nat>)
      requires alloc.Valid() && maxIno < INO_LIMIT && DirOk(blocks, maxIno) && IndexFits(blocks)
      requires |direct| == |blocks| && was <= alloc.InUse() && forall i :: 0 <= i < |direct| ==> direct[i] in was
      requires forall i, j :: 0 <= i < j < |direct| ==> direct[i] != direct[j]
      requires indexBlock != 0 ==> indexBlock in was && indexBlock !in direct
      ensures Valid()
    {
      hide *;
      OwnsStill(was);
      Whole();
    }

    /** An entry that is found is one a directory may hold. */
    lemma {:induction false} EntryValid(name: Name)
      requires Valid() && name != []
      ensures AllTiled(blocks, maxIno)
      ensures Find(blocks, name, maxIno).Some? ==>

                var e := Find(blocks, name, maxIno).value;
                e.name == name && 0 < e.ino <= maxIno && e.ftype <= FT_MAX && e.ftype < 256
    {
      SearchIsFind(blocks, None, hash, name, maxIno);
      hide Scan, Find, DirOk, Reach, Lives, Allocator.Allocator.Valid, Allocator.Allocator.InUse, OwnsBlocks, AllTiled;
    }

    /** A search for a name that the index does not hide is lookup in the map of the directory. */
    lemma {:induction false} Located(name: Name)
      requires Valid() && Visible(name)
      ensures AllTiled(blocks, maxIno) && (index.Some? ==> |index.value.masks| == BUCKETS)
      ensures match Scan(blocks, 0, Mask(name), name, maxIno)
              case At(i, o) =>
                && i < |blocks| && Reach(blocks[i], 0, o, maxIno) && ValidAt(blocks[i], o, maxIno) && o + HEADER <= BLOCK_SIZE
                && o + HEADER + NameLen(blocks[i], o) <= BLOCK_SIZE && o + RecLen(blocks[i], o) <= BLOCK_SIZE
                && Ino(blocks[i], o) != 0 && NameAt(blocks[i], o) == name
                && Find(blocks, name, maxIno) == Some(Entry(name, Ino(blocks[i], o), FileType(blocks[i], o)))
              case Absent => Find(blocks, name, maxIno) == None
              case Corrupt => false
    {
      SearchIsFind(blocks, index, hash, name, maxIno);
      hide Scan, Find, DirOk, Sees, Reach, Lives, Allocator.Allocator.Valid, Allocator.Allocator.InUse, OwnsBlocks;
    }

    /** Find an entry. Arbitrary block contents are searched, up to the first record that fails the checks; a
        directory that is in order is searched as the map it stands for. */
    method FindEntry(name: Name) returns (err: Errno, i: nat, o: nat)
      requires index.Some? ==> |index.value.masks| == BUCKETS
      ensures match Scan(blocks, 0, Mask(name), name, maxIno)
              case At(j, p) => err == Allocator.Ok && i == j && o == p
              case Absent => err == Allocator.Enoent
              case Corrupt => err == Allocator.Euclean
    {
      hide ValidAt;
      i, o := 0, 0;
      var mask := if index.Some? then index.value.masks[Bucket(hash, name)] else {};
      while i < |blocks|
        invariant i <= |blocks| && mask == Mask(name)
        invariant Scan(blocks, 0, mask, name, maxIno) == Scan(blocks, i, mask, name, maxIno)
      {
        if mask != {} && i !in mask {
          i := i + 1;
          continue;
        }
        o := 0;
        while o < BLOCK_SIZE
          invariant ScanBlock(blocks[i], i, 0, name, maxIno) == ScanBlock(blocks[i], i, o, name, maxIno)
          decreases BLOCK_SIZE - o
        {
          if !ValidAt(blocks[i], o, maxIno) {
            return Allocator.Euclean, i, o;
          }
          LiveStep(blocks[i], o, maxIno);
          if Ino(blocks[i], o) != 0 && NameAt(blocks[i], o) == name {
            return Allocator.Ok, i, o;
          }
          o := o + RecLen(blocks[i], o);
        }
        i := i + 1;
      }
      err := Allocator.Enoent;
    }

    /** The first record that can take an entry of a given length, walking all blocks. */
    method FindSlot(need: nat) returns (found: bool, i: nat, o: nat)
      requires AllTiled(blocks, maxIno)
      ensures found <==> AnySlot(blocks, need, maxIno)
      ensures found ==>
                && i < |blocks| && Reach(blocks[i], 0, o, maxIno) && ValidAt(blocks[i], o, maxIno)
                && o + HEADER <= BLOCK_SIZE && SlotAt(blocks[i], o, need)
    {
      hide *;
      TiledAll(blocks, maxIno);
      i, o, found := 0, 0, false;
      while i < |blocks|
        invariant i <= |blocks| && forall j :: 0 <= j < i ==> !HasSlot(blocks[j], 0, need, maxIno)
      {
        found, o := SlotInBlock(blocks[i], need);
        if found {
          SlotIn(blocks, i, need, maxIno);
          return;
        }
        i := i + 1;
      }
      NoSlot(blocks, need, maxIno);
    }

    /** The walk over one block. */
    method SlotInBlock(b: Block, need: nat) returns (found: bool, o: nat)
      requires Tiled(b, 0, maxIno)
      ensures found <==> HasSlot(b, 0, need, maxIno)
      ensures found ==>
                Reach(b, 0, o, maxIno) && ValidAt(b, o, maxIno) && o + HEADER <= BLOCK_SIZE && SlotAt(b, o, need)
    {
      hide *;
      o, found := 0, false;
      WalkBegin(b, maxIno);
      while o < BLOCK_SIZE
        invariant Reach(b, 0, o, maxIno) && Tiled(b, o, maxIno)
        invariant HasSlot(b, 0, need, maxIno) == HasSlot(b, o, need, maxIno)
        decreases BLOCK_SIZE - o
      {
        TiledStep(b, o, maxIno);
        LiveStep(b, o, maxIno);
        SlotStep(b, o, need, maxIno);
        if SlotAt(b, o, need) {
          return true, o;
        }
        ReachStep(b, 0, o, maxIno);
        o := o + RecLen(b, o);
      }
      NoSlotBehind(b, o, need, maxIno);
    }

    // ----- index

    /** The number of blocks that have to be allocated for the index. */
    function IndexMissing(): nat
      reads `indexBlock
    {
      if indexed && indexBlock == 0 then 1 else 0
    }

    /** Allocate the index block if there is none yet. From then on what that block shows is read as the index. */
    method IndexEnsure() returns (err: Errno)
      requires alloc.Valid() && (index.Some? ==> indexBlock != 0)
      modifies this`indexBlock, this`index, this`allocHint, this`goalGroup, alloc, alloc.bitmaps, alloc.free
      ensures alloc.Valid() && alloc.bitmaps == old(alloc.bitmaps) && alloc.free == old(alloc.free)
      ensures err == if indexed && old(indexBlock) == 0 && old(alloc.superFree) == 0 then Allocator.Enospc else Allocator.Ok
      ensures old(alloc.InUse()) <= alloc.InUse()
      ensures indexed && err == Allocator.Ok ==> indexBlock != 0
      ensures !indexed || old(indexBlock) != 0 ==> indexBlock == old(indexBlock) && alloc.InUse() == old(alloc.InUse())
      ensures indexed && old(indexBlock) == 0 && err == Allocator.Ok ==>
                indexBlock !in old(alloc.InUse()) && alloc.InUse() == old(alloc.InUse()) + {indexBlock}
      ensures err != Allocator.Ok ==> indexBlock == old(indexBlock) && alloc.InUse() == old(alloc.InUse())
      ensures alloc.superFree == old(alloc.superFree) - if err == Allocator.Ok then old(IndexMissing()) else 0
      ensures index == if err == Allocator.Ok then old(Shown()) else old(index)
      ensures err == Allocator.Ok && old(IndexMissing()) == 1 ==> indexBlock == old(alloc.Choice(allocHint, goalGroup))
      ensures alloc.l.blocksPerGroup > 0
      ensures indexBlock != old(indexBlock) ==> allocHint == indexBlock + 1 && goalGroup == indexBlock / alloc.l.blocksPerGroup
      ensures indexBlock == old(indexBlock) ==> allocHint == old(allocHint) && goalGroup == old(goalGroup)
    {
      assert alloc.l.blocksPerGroup > 0;
      if !indexed || indexBlock != 0 {
        return Allocator.Ok;
      }
      assert !alloc.l.DataBlock(0);
      assert IndexMissing() == 1;
      hide *;
      var block;
      err, block := alloc.AllocBlockGoal(allocHint, goalGroup);
      if err == Allocator.Ok {
        indexBlock, index := block, found;
        allocHint, goalGroup := block + 1, block / alloc.l.blocksPerGroup;
      }
    }

    /** Build the index anew from all records. */
    method IndexRebuild() returns (err: Errno)
      requires alloc.Valid() && DirOk(blocks, maxIno) && Readable(found) && (index.Some? ==> indexBlock != 0)
      modifies this`index, this`indexBlock, this`allocHint, this`goalGroup, alloc, alloc.bitmaps, alloc.free
      ensures alloc.Valid() && alloc.bitmaps == old(alloc.bitmaps) && alloc.free == old(alloc.free)
      ensures old(alloc.InUse()) <= alloc.InUse()
      ensures err == if indexed && old(indexBlock) == 0 && old(alloc.superFree) == 0 then Allocator.Enospc else Allocator.Ok
      ensures indexed && err == Allocator.Ok ==> index.Some? && IndexFits(blocks) && Exact(index, hash, blocks, maxIno)
      ensures !indexed || err != Allocator.Ok ==> index == old(index) && indexBlock == old(indexBlock)
      ensures IndexMissing() == if err == Allocator.Ok then 0 else old(IndexMissing())
      ensures old(indexBlock) != 0 ==> indexBlock == old(indexBlock)
      ensures if err == Allocator.Ok && old(IndexMissing()) == 1 then
                indexBlock !in old(alloc.InUse()) && alloc.InUse() == old(alloc.InUse()) + {indexBlock}
              else alloc.InUse() == old(alloc.InUse())
      ensures alloc.superFree == old(alloc.superFree) - if err == Allocator.Ok then old(IndexMissing()) else 0
    {
      if !indexed {
        return Allocator.Ok;
      }
      err := IndexEnsure();
      if err != Allocator.Ok {
        return;
      }
      DirParts(blocks, maxIno);
      var masks, entries := CollectIndex();
      index := Some(Index(masks, entries, |blocks|));
      RebuiltIs(masks, entries, blocks, hash, maxIno);
    }

    /** The walk that collects masks and the number of entries. */
    method CollectIndex() returns (masks: seq<set<nat>>, entries: nat)
      requires AllTiled(blocks, maxIno) && Named(All(blocks, maxIno))
      ensures IndexOk(Index(masks, entries, |blocks|), Lives(blocks, maxIno), hash)
    {
      ghost var ls := Lives(blocks, maxIno);
      hide ValidAt, Tiled, Live, Reach, Before, Lives, AllTiled, BlocksWith, Bucket, Holds, EntryAt, Named;
      masks, entries := seq(BUCKETS, k => {}), 0;
      NoBlocks(hash);
      var i := 0;
      while i < |blocks|
        invariant i <= |blocks| && entries == |Concat(ls[..i])| && MasksOf(masks, ls[..i], hash)
      {
        masks, entries := CollectBlock(i, masks, entries, ls);
        i := i + 1;
      }
      assert ls[..|ls|] == ls;
    }

    /** The walk over one block. */
    method CollectBlock(i: nat, before: seq<set<nat>>, count: nat, ghost ls: seq<seq<Entry>>)
      returns (masks: seq<set<nat>>, entries: nat)
      requires AllTiled(blocks, maxIno) && Named(All(blocks, maxIno)) && ls == Lives(blocks, maxIno)
      requires i < |blocks| && count == |Concat(ls[..i])| && MasksOf(before, ls[..i], hash)
      ensures entries == |Concat(ls[..i + 1])| && MasksOf(masks, ls[..i + 1], hash)
    {
      hide *;
      var b := blocks[i];
      SameSize(blocks, ls, maxIno);
      ghost var p := ls[..i];
      ghost var seen: seq<Entry> := [];
      CollectBegin(ls, i, before, hash);
      var o := 0;
      masks, entries := before, count;
      NamedBlock(blocks, i, maxIno);
      WalkBegin(b, maxIno);
      while o < BLOCK_SIZE
        invariant MasksOf(masks, p + [seen], hash) && Reach(b, 0, o, maxIno) && o <= BLOCK_SIZE && Tiled(b, o, maxIno)
        invariant seen == Before(b, 0, o, maxIno)
        invariant entries == count + |seen|
        decreases BLOCK_SIZE - o
      {
        TiledStep(b, o, maxIno);
        LiveStep(b, o, maxIno);
        CollectRecord(b, o, masks, p, seen, hash, maxIno);
        var added;
        masks, added := CollectEntry(b, o, i, masks);
        entries := entries + added;
        seen := seen + EntryAt(b, o);
        o := o + RecLen(b, o);
      }
      CollectEnd(blocks, ls, i, o, seen, maxIno);
    }

    /** What one record adds to the masks. */
    method CollectEntry(b: Block, o: nat, i: nat, before: seq<set<nat>>) returns (masks: seq<set<nat>>, added: nat)
      requires o + HEADER <= BLOCK_SIZE && o + HEADER + NameLen(b, o) <= BLOCK_SIZE && |before| == BUCKETS
      ensures if Ino(b, o) != 0 && NameLen(b, o) != 0 then
                var k := hash(NameAt(b, o)) % BUCKETS;
                masks == before[k := before[k] + {i}] && added == 1
              else masks == before && added == 0
    {
      hide Ino, NameLen, NameAt;
      masks, added := before, 0;
      if Ino(b, o) != 0 && NameLen(b, o) != 0 {
        var bucket := hash(NameAt(b, o)) % BUCKETS;
        masks, added := before[bucket := before[bucket] + {i}], 1;
      }
    }

    /** Enter a new name into the index; an index that cannot be read is rebuilt. */
    method IndexAddName(name: Name, i: nat, ghost before: seq<Block>, ghost e: Entry) returns (err: Errno)
      requires alloc.Valid() && PutIn(before, blocks, i, e, maxIno) && e.name == name != [] && i < |blocks|
      requires DirOk(before, maxIno) && DirOk(blocks, maxIno) && Find(before, name, maxIno) == None
      requires Readable(index) && Readable(found) && (index.Some? ==> indexed && indexBlock != 0)
      modifies this`index, this`indexBlock, this`allocHint, this`goalGroup, alloc, alloc.bitmaps, alloc.free
      ensures alloc.Valid() && alloc.bitmaps == old(alloc.bitmaps) && alloc.free == old(alloc.free)
      ensures old(alloc.InUse()) <= alloc.InUse()
      ensures err == if indexed && old(indexBlock) == 0 && old(alloc.superFree) == 0 then Allocator.Enospc else Allocator.Ok
      ensures IndexFits(blocks)
      ensures err == Allocator.Ok ==> (index.Some? <==> indexed)
      ensures err == Allocator.Ok ==>
                IndexKept(old(Shown()), before, Shown(), blocks, hash, maxIno) && Sees(Shown(), hash, blocks, name, maxIno)
      ensures err == Allocator.Ok && old(IndexMissing()) == 1 ==>
                && FirstIndex(found, before, blocks, hash, e, index, maxIno)
                && indexBlock == old(alloc.Choice(allocHint, goalGroup))
      ensures err != Allocator.Ok ==> Shown() == old(Shown())
      ensures IndexMissing() == if err == Allocator.Ok then 0 else old(IndexMissing())
      ensures alloc.superFree == old(alloc.superFree) - if err == Allocator.Ok then old(IndexMissing()) else 0
      ensures old(indexBlock) != 0 ==> indexBlock == old(indexBlock)
      ensures indexBlock != old(indexBlock) ==> indexBlock in alloc.InUse() && indexBlock !in old(alloc.InUse())
      ensures indexed && old(index).Some? ==>
                index == Some(IndexAdd(old(index).value, Bucket(hash, name), i, |blocks|))
    {
      hide *;
      ShownIs();
      if !indexed {
        NoIndexKept(before, blocks, hash, name, maxIno);
        Fits();
        return Allocator.Ok;
      }
      BucketIs(hash, name);
      err := IndexEnsure();
      if err != Allocator.Ok {
        Fits();
        ShownIs();
        return;
      }
      ghost var x0 := index;
      if index.None? {
        err := IndexRebuild();
        Fits();
        ShownIs();
        KeptExact(x0, before, index, blocks, hash, maxIno);
        ExactSees(index, hash, blocks, name, maxIno);
        FirstIs(x0, before, blocks, hash, i, e, index, maxIno);
        return;
      }
      var x := index.value;
      BucketIs(hash, name);
      var bucket := hash(name) % BUCKETS;
      ReadableIs(x);
      AddedToIndex(x, before, blocks, hash, i, e, maxIno);
      AddIs(x, bucket, i, |blocks|);
      index := Some(Index(x.masks[bucket := x.masks[bucket] + {i}], (x.entries + 1) % U32, |blocks|));
      Fits();
      ShownIs();
      FirstIs(x0, before, blocks, hash, i, e, index, maxIno);
    }

    lemma {:induction false} ShownIs()
      ensures Shown() == if indexed && indexBlock == 0 then found else index
      ensures IndexMissing() == if indexed && indexBlock == 0 then 1 else 0
    {
    }

    lemma {:induction false} Fits()
      requires Readable(index) && Readable(found)
      requires (index.Some? ==> indexed && indexBlock != 0 && index.value.dirBlocks == |blocks|)
      ensures IndexFits(blocks)
    {
    }

    /** Does a block still hold a name of the bucket? */
    method BucketInBlock(i: nat, bucket: nat) returns (still: bool)
      requires i < |blocks| && Tiled(blocks[i], 0, maxIno)
      ensures still == Holds(Live(blocks[i], 0, maxIno), hash, bucket)
    {
      var b := blocks[i];
      var o := 0;
      still := false;
      hide ValidAt, Tiled, Live, Reach, Before, EntryAt, RecLen, Ino, NameLen, NameAt;
      WalkBegin(b, maxIno);
      while o < BLOCK_SIZE
        invariant Reach(b, 0, o, maxIno) && Tiled(b, o, maxIno) && !Holds(Before(b, 0, o, maxIno), hash, bucket)
        invariant Tiled(b, 0, maxIno) && o <= BLOCK_SIZE
        decreases BLOCK_SIZE - o
      {
        TiledStep(b, o, maxIno);
        HoldsRecord(b, o, hash, bucket, maxIno);
        if Ino(b, o) != 0 && NameLen(b, o) != 0 && hash(NameAt(b, o)) % BUCKETS == bucket {
          return true;
        }
        o := o + RecLen(b, o);
      }
      WalkEnd(b, maxIno);
      LiveSplit(b, 0, o, maxIno);
    }

    /** Take a deleted name out of the index. */
    method IndexRemoveName(name: Name, i: nat, ghost before: seq<Block>, ghost e: Entry) returns (err: Errno)
      requires alloc.Valid() && PutIn(blocks, before, i, e, maxIno) && e.name == name != [] && i < |blocks|
      requires DirOk(blocks, maxIno)
      requires Readable(index) && Readable(found) && (index.Some? ==> indexed && indexBlock != 0)
      modifies this`index, this`indexBlock, this`allocHint, this`goalGroup, alloc, alloc.bitmaps, alloc.free
      ensures alloc.Valid() && alloc.bitmaps == old(alloc.bitmaps) && alloc.free == old(alloc.free)
      ensures old(alloc.InUse()) <= alloc.InUse()
      ensures err == if indexed && old(indexBlock) == 0 && old(alloc.superFree) == 0 then Allocator.Enospc else Allocator.Ok
      ensures IndexFits(blocks)
      ensures err == Allocator.Ok ==> (index.Some? <==> indexed)
      ensures err == Allocator.Ok ==> IndexKept(old(Shown()), before, Shown(), blocks, hash, maxIno)
      ensures err == Allocator.Ok && old(index).None? ==> Exact(Shown(), hash, blocks, maxIno)
      ensures err != Allocator.Ok ==> Shown() == old(Shown())
      ensures IndexMissing() == if err == Allocator.Ok then 0 else old(IndexMissing())
      ensures alloc.superFree == old(alloc.superFree) - if err == Allocator.Ok then old(IndexMissing()) else 0
      ensures old(indexBlock) != 0 ==> indexBlock == old(indexBlock)
      ensures indexBlock != old(indexBlock) ==> indexBlock in alloc.InUse() && indexBlock !in old(alloc.InUse())
      ensures indexed && old(index).Some? ==>
                index == Some(IndexRemove(old(index).value, Bucket(hash, name), i,
                                          Holds(Live(blocks[i], 0, maxIno), hash, Bucket(hash, name)), |blocks|))
    {
      hide *;
      ShownIs();
      if !indexed {
        NoIndexKept(before, blocks, hash, name, maxIno);
        Fits();
        return Allocator.Ok;
      }
      if index.None? {
        ghost var shown := Shown();
        err := IndexRebuild();
        Fits();
        ShownIs();
        if err == Allocator.Ok {
          KeptExact(shown, before, index, blocks, hash, maxIno);
        }
        return;
      }
      var x := index.value;
      BucketIs(hash, name);
      var bucket := hash(name) % BUCKETS;
      ReadableIs(x);
      TiledBlock(blocks, i, maxIno);
      RemovedFromIndex(x, before, blocks, hash, i, e, maxIno);
      var still := BucketInBlock(i, bucket);
      var mask := x.masks[bucket];
      if !still {
        mask := mask - {i};
      }
      RemoveIs(x, bucket, i, still, |blocks|);
      index := Some(Index(x.masks[bucket := mask], if x.entries > 0 then x.entries - 1 else 0, |blocks|));
      Fits();
      ShownIs();
      err := Allocator.Ok;
    }

    // ----- entries

    /** Room for a name: a slot in some block, or a further block and a free block to make it of. */
    ghost predicate HasRoom(name: Name)
      requires AllTiled(blocks, maxIno)
      reads this, alloc
    {
      AnySlot(blocks, RecLenFor(|name|), maxIno) || (|blocks| < DIRECT_BLOCKS && alloc.superFree > 0)
    }

    /** The number of blocks that have to be appended for a name. */
    ghost function Missing(name: Name): nat
      requires AllTiled(blocks, maxIno)
      reads this
    {
      if AnySlot(blocks, RecLenFor(|name|), maxIno) then 0 else 1
    }

    /** Write an entry into a slot: over a free record, or into a record of its own cut from the slack. */
    method PlaceEntry(b: Block, o: nat, name: Name, ino: nat, ftype: byte) returns (c: Block)
      requires o + HEADER <= BLOCK_SIZE && o + RecLen(b, o) <= BLOCK_SIZE && |name| <= NAME_LEN
      requires SlotAt(b, o, RecLenFor(|name|))
      ensures c == Placed(b, o, ino, name, ftype)
    {
      hide RecLenFor, Cut, PutRecord, RecLen, Ino, NameLen;
      RecLenForName(|name|);
      RecLenForName(NameLen(b, o));
      if Ino(b, o) == 0 && RecLen(b, o) >= RecLenFor(|name|) {
        c := PutRecord(b, o, ino, RecLen(b, o), name, ftype);
      } else {
        var actual, size := RecLenFor(NameLen(b, o)), RecLen(b, o);
        c := Cut(b, o, actual);
        c := PutRecord(c, o + actual, ino, size - actual, name, ftype);
      }
    }

    /** Append a block that holds one entry. */
    method AppendBlock(name: Name, ino: nat, ftype: byte) returns (err: Errno)
      requires Valid() && |blocks| < DIRECT_BLOCKS
      requires 0 < |name| <= NAME_LEN && 0 < ino <= maxIno && ftype <= FT_MAX && Find(blocks, name, maxIno) == None
      modifies this`blocks, this`direct, this`allocHint, this`goalGroup, alloc, alloc.bitmaps, alloc.free
      ensures alloc.Valid() && alloc.bitmaps == old(alloc.bitmaps) && alloc.free == old(alloc.free) && OwnsBlocks()
      ensures err == if old(alloc.superFree) == 0 then Allocator.Enospc else Allocator.Ok
      ensures err != Allocator.Ok ==>
                  && blocks == old(blocks) && direct == old(direct)
                  && alloc.InUse() == old(alloc.InUse()) && alloc.superFree == old(alloc.superFree)
      ensures err == Allocator.Ok ==>
                && |blocks| == |old(blocks)| + 1 && Added(old(blocks), blocks, Entry(name, ino, ftype), maxIno)
                && PutIn(old(blocks), blocks, |old(blocks)|, Entry(name, ino, ftype), maxIno)
                && direct[..|old(direct)|] == old(direct) && direct[|old(direct)|] !in old(alloc.InUse())
                && alloc.InUse() == old(alloc.InUse()) + {direct[|old(direct)|]} && alloc.superFree == old(alloc.superFree) - 1
      ensures alloc.l.blocksPerGroup > 0
      ensures err == Allocator.Ok ==>
                && direct[|old(direct)|] == old(alloc.Choice(allocHint, goalGroup))
                && allocHint == direct[|old(direct)|] + 1 && goalGroup == direct[|old(direct)|] / alloc.l.blocksPerGroup
    {
      hide *;
      Parts();
      AppendedToDir(blocks, name, ino, ftype, maxIno);
      FreshFacts(name, ino, ftype);
      GroupSize(alloc);
      ghost var was := alloc.InUse();
      var block;
      err, block := alloc.AllocBlockGoal(allocHint, goalGroup);
      if err != Allocator.Ok {
        OwnsStill(was);
        return;
      }
      direct := direct + [block];
      allocHint, goalGroup := block + 1, block / alloc.l.blocksPerGroup;
      var b := FreshBlock();
      b := PutRecord(b, 0, ino, RecLen(b, 0), name, ftype);
      blocks := blocks + [b];
      OwnsOneMore(was);
    }

    lemma {:induction false} OwnsOneMore(was: set<nat>)
      requires |direct| == |blocks| > 0 && was <= alloc.InUse() && direct[|direct| - 1] in alloc.InUse()
      requires direct[|direct| - 1] !in was
      requires forall i :: 0 <= i < |direct| - 1 ==> direct[i] in was
      requires forall i, j :: 0 <= i < j < |direct| - 1 ==> direct[i] != direct[j]
      requires indexBlock != 0 ==> indexBlock in was && indexBlock !in direct[..|direct| - 1]
      ensures OwnsBlocks()
    {
    }

    lemma {:induction false} RoomOrSlot(name: Name)
      requires AllTiled(blocks, maxIno)
      ensures HasRoom(name) == (AnySlot(blocks, RecLenFor(|name|), maxIno) || (|blocks| < DIRECT_BLOCKS && alloc.superFree > 0))
      ensures Missing(name) == if AnySlot(blocks, RecLenFor(|name|), maxIno) then 0 else 1
    {
    }

    /** Put an absent name into the first slot there is, else into a further block. */
    method InsertEntry(name: Name, ino: nat, ftype: byte) returns (err: Errno, i: nat)
      requires Valid() && 0 < |name| <= NAME_LEN && 0 < ino <= maxIno && ftype <= FT_MAX
      requires Find(blocks, name, maxIno) == None
      modifies this`blocks, this`direct, this`allocHint, this`goalGroup, alloc, alloc.bitmaps, alloc.free
      ensures alloc.Valid() && alloc.bitmaps == old(alloc.bitmaps) && alloc.free == old(alloc.free) && OwnsBlocks()
      ensures err == if old(HasRoom(name)) then Allocator.Ok else Allocator.Enospc
      ensures err != Allocator.Ok ==>
                blocks == old(blocks) && alloc.InUse() == old(alloc.InUse()) && alloc.superFree == old(alloc.superFree)
      ensures old(AnySlot(blocks, RecLenFor(|name|), maxIno)) ==>
                old(alloc.Choice(allocHint, goalGroup)) == alloc.Choice(allocHint, goalGroup)
      ensures err == Allocator.Ok ==>
                && i < |blocks| == |old(blocks)| + old(Missing(name))
                   && Added(old(blocks), blocks, Entry(name, ino, ftype), maxIno)
                && PutIn(old(blocks), blocks, i, Entry(name, ino, ftype), maxIno)
                && alloc.superFree == old(alloc.superFree) - (|blocks| - |old(blocks)|)
      ensures |old(direct)| <= |direct| && direct[..|old(direct)|] == old(direct)
      ensures forall i :: |old(direct)| <= i < |direct| ==> direct[i] !in old(alloc.InUse())
      ensures old(alloc.InUse()) <= alloc.InUse()
    {
      hide *;
      Parts();
      RoomOrSlot(name);
      var o, found;
      found, i, o := FindSlot(RecLenFor(|name|));
      err := Allocator.Ok;
      if found {
        UseSlot(i, o, name, ino, ftype);
      } else if |blocks| >= DIRECT_BLOCKS {
        err := Allocator.Enospc;
      } else {
        i := |blocks|;
        err := AppendBlock(name, ino, ftype);
        OwnsParts();
      }
    }

    method UseSlot(i: nat, o: nat, name: Name, ino: nat, ftype: byte)
      requires Valid() && i < |blocks| && Reach(blocks[i], 0, o, maxIno) && ValidAt(blocks[i], o, maxIno)
      requires 0 < |name| <= NAME_LEN && 0 < ino <= maxIno && ftype <= FT_MAX
      requires SlotAt(blocks[i], o, RecLenFor(|name|)) && Find(blocks, name, maxIno) == None
      modifies this`blocks
      ensures |blocks| == |old(blocks)| && Added(old(blocks), blocks, Entry(name, ino, ftype), maxIno)
      ensures PutIn(old(blocks), blocks, i, Entry(name, ino, ftype), maxIno) && OwnsBlocks()
    {
      hide *;
      Parts();
      LiveStep(blocks[i], o, maxIno);
      PlacedInDir(blocks, i, o, name, ino, ftype, maxIno);
      var b := PlaceEntry(blocks[i], o, name, ino, ftype);
      blocks := blocks[i := b];
      OwnsStill(alloc.InUse());
    }

    /** Enter a name. The entry is in the directory whenever there is room for it; the operation then still fails
        when there is no block left for the index block. */
    method AddEntry(name: Name, ino: nat, ftype: byte) returns (err: Errno)
      requires Valid() && name != [] && 0 < ino <= maxIno && ftype <= FT_MAX && Visible(name)
      modifies this, alloc, alloc.bitmaps, alloc.free
      ensures Valid() && alloc.bitmaps == old(alloc.bitmaps) && alloc.free == old(alloc.free)
      ensures var added := |name| <= NAME_LEN && old(Find(blocks, name, maxIno)) == None && old(HasRoom(name));
              && (added ==>
                    && Added(old(blocks), blocks, Entry(name, ino, ftype), maxIno)
                    && |blocks| == |old(blocks)| + old(Missing(name)))
              && (!added ==>
                    && blocks == old(blocks) && alloc.InUse() == old(alloc.InUse())
                    && alloc.superFree == old(alloc.superFree))
              && err == (if |name| > NAME_LEN then Allocator.Enametoolong
                         else if old(Find(blocks, name, maxIno)).Some? then Allocator.Eexist
                         else if !added then Allocator.Enospc
                         else if indexed && old(indexBlock) == 0 && old(alloc.superFree) == old(Missing(name)) then
                           Allocator.Enospc
                         else Allocator.Ok)
              && (err == Allocator.Ok ==> (index.Some? <==> indexed))
              && (err == Allocator.Enospc && added ==> alloc.superFree == 0)
      ensures err == Allocator.Ok ==>
                IndexKept(old(Shown()), old(blocks), Shown(), blocks, hash, maxIno) && Sees(Shown(), hash, blocks, name, maxIno)
      ensures err == Allocator.Ok && old(IndexMissing()) == 1 ==>
                FirstIndex(found, old(blocks), blocks, hash, Entry(name, ino, ftype), index, maxIno)
      ensures err == Allocator.Ok && old(IndexMissing()) == 1 && old(Missing(name)) == 0 ==>
                indexBlock == old(alloc.Choice(allocHint, goalGroup))
      ensures err != Allocator.Ok ==> Shown() == old(Shown())
      ensures IndexMissing() == if err == Allocator.Ok then 0 else old(IndexMissing())
      ensures old(indexBlock) != 0 ==> indexBlock == old(indexBlock)
      ensures indexBlock != old(indexBlock) ==> indexBlock !in old(alloc.InUse())
      ensures |old(direct)| <= |direct| && direct[..|old(direct)|] == old(direct)
      ensures forall i :: |old(direct)| <= i < |direct| ==> direct[i] !in old(alloc.InUse())
      ensures old(alloc.InUse()) <= alloc.InUse()
      ensures err == Allocator.Ok ==> alloc.superFree == old(alloc.superFree) - old(Missing(name)) - old(IndexMissing())
    {
      hide *;
      Parts();
      ShownIs();
      if |name| > NAME_LEN {
        return Allocator.Enametoolong;
      }
      RoomOrSlot(name);
      Located(name);
      var i, o;
      err, i, o := FindEntry(name);
      if err != Allocator.Enoent {
        return if err == Allocator.Ok then Allocator.Eexist else err;
      }
      ghost var before := blocks;
      err, i := InsertEntry(name, ino, ftype);
      ShownIs();
      if err != Allocator.Ok {
        Whole();
        return;
      }
      AddedFacts(before, blocks, Entry(name, ino, ftype), maxIno);
      OwnsParts();
      ghost var was := alloc.InUse();
      err := IndexAddName(name, i, before, Entry(name, ino, ftype));
      ShownIs();
      OwnsStill(was);
      Whole();
    }

    /** The place of a block in the directory, by its number. */
    method LogicalBlock(number: nat) returns (i: nat)
      requires |direct| == |blocks|
      ensures i <= |direct| && (i < |direct| ==> direct[i] == number)
      ensures forall j :: 0 <= j < i ==> direct[j] != number
    {
      i := 0;
      while i < |blocks|
        invariant i <= |blocks| && forall j :: 0 <= j < i ==> direct[j] != number
      {
        if direct[i] == number {
          return;
        }
        i := i + 1;
      }
    }

    /** Delete a name. The entry is gone whenever there was one; the operation then still fails when an index block
        has to be made and there is none left. */
    method DeleteEntry(name: Name) returns (err: Errno)
      requires Valid() && name != [] && Visible(name)
      modifies this, alloc, alloc.bitmaps, alloc.free
      ensures Valid() && alloc.bitmaps == old(alloc.bitmaps) && alloc.free == old(alloc.free)
      ensures direct == old(direct) && (old(indexBlock) != 0 ==> indexBlock == old(indexBlock))
      ensures indexBlock != old(indexBlock) ==> indexBlock !in old(alloc.InUse())
      ensures err == Allocator.Ok ==> IndexKept(old(Shown()), old(blocks), Shown(), blocks, hash, maxIno)
      ensures err == Allocator.Ok && old(index).None? ==> Exact(Shown(), hash, blocks, maxIno)
      ensures err != Allocator.Ok ==> Shown() == old(Shown())
      ensures var was := old(Find(blocks, name, maxIno));
              && (was.Some? ==> Added(blocks, old(blocks), was.value, maxIno) && was.value.name == name)
              && (was.None? ==> blocks == old(blocks) && alloc.InUse() == old(alloc.InUse()))
              && err == (if was.None? then Allocator.Enoent
                         else if indexed && old(indexBlock) == 0 && old(alloc.superFree) == 0 then Allocator.Enospc
                         else Allocator.Ok)
              && (err == Allocator.Ok ==> (index.Some? <==> indexed))
      ensures old(alloc.InUse()) <= alloc.InUse()
      ensures IndexMissing() == if err == Allocator.Ok then 0 else old(IndexMissing())
      ensures old(Find(blocks, name, maxIno)).Some? ==> AnySlot(blocks, RecLenFor(|name|), maxIno)
      ensures alloc.superFree == old(alloc.superFree) - if err == Allocator.Ok then old(IndexMissing()) else 0
    {
      hide *;
      Parts();
      Located(name);
      ShownIs();
      var i, o, k;
      err, i, o := FindEntry(name);
      if err != Allocator.Ok {
        return;
      }
      k := LogicalBlock(direct[i]);
      assert k == i;
      err := EraseRecord(k, o, Find(blocks, name, maxIno).value);
    }

    /** Mark the record of an entry unused and take its name out of the index. */
    method EraseRecord(i: nat, o: nat, ghost e: Entry) returns (err: Errno)
      requires Valid() && i < |blocks| && Reach(blocks[i], 0, o, maxIno) && ValidAt(blocks[i], o, maxIno)
      requires Ino(blocks[i], o) != 0 && e == Entry(NameAt(blocks[i], o), Ino(blocks[i], o), FileType(blocks[i], o))
      modifies this, alloc, alloc.bitmaps, alloc.free
      ensures Valid() && alloc.bitmaps == old(alloc.bitmaps) && alloc.free == old(alloc.free)
      ensures direct == old(direct) && (old(indexBlock) != 0 ==> indexBlock == old(indexBlock))
      ensures indexBlock != old(indexBlock) ==> indexBlock !in old(alloc.InUse())
      ensures Added(blocks, old(blocks), e, maxIno)
      ensures err == if indexed && old(indexBlock) == 0 && old(alloc.superFree) == 0 then Allocator.Enospc else Allocator.Ok
      ensures err == Allocator.Ok ==> (index.Some? <==> indexed)
      ensures err == Allocator.Ok ==> IndexKept(old(Shown()), old(blocks), Shown(), blocks, hash, maxIno)
      ensures err == Allocator.Ok && old(index).None? ==> Exact(Shown(), hash, blocks, maxIno)
      ensures err != Allocator.Ok ==> Shown() == old(Shown())
      ensures IndexMissing() == if err == Allocator.Ok then 0 else old(IndexMissing())
      ensures AnySlot(blocks, RecLenFor(|e.name|), maxIno) && old(alloc.InUse()) <= alloc.InUse()
      ensures alloc.superFree == old(alloc.superFree) - if err == Allocator.Ok then old(IndexMissing()) else 0
    {
      hide *;
      Parts();
      LiveStep(blocks[i], o, maxIno);
      ErasedIs(blocks[i], o);
      RemovedFromDir(blocks, i, o, maxIno);
      ShownIs();
      ghost var before, was := blocks, alloc.InUse();
      var name := NameAt(blocks[i], o);
      blocks := blocks[i := PutRecord(blocks[i], o, 0, RecLen(blocks[i], o), [], 0)];
      RemovedFacts(blocks, before, e, maxIno);
      ErasedSlot(before[i], i, o, blocks, maxIno);
      ShownIs();
      err := IndexRemoveName(name, i, before, e);
      ShownIs();
      OwnsStill(was);
      Whole();
    }

    /** The inode `..` stands for. Nothing asks a directory whose index hides it. */
    method ParentIno() returns (err: Errno, parent: nat)
      requires Valid() && Visible(DOTDOT)
      ensures match Find(blocks, DOTDOT, maxIno)
              case Some(e) => err == Allocator.Ok && parent == e.ino
              case None => err == Allocator.Enoent
    {
      hide *;
      DotNames();
      Located(DOTDOT);
      var i, o;
      err, i, o := FindEntry(DOTDOT);
      parent := 0;
      if err == Allocator.Ok {
        parent := Ino(blocks[i], o);
      }
    }

    /** Let `..` stand for another directory; nothing else changes. */
    method UpdateParent(parent: nat) returns (err: Errno)
      requires Valid() && 0 < parent <= maxIno && Visible(DOTDOT)
      modifies this`blocks
      ensures Valid() && IndexKept(Shown(), old(blocks), Shown(), blocks, hash, maxIno)
      ensures match old(Find(blocks, DOTDOT, maxIno))
              case Some(e) =>
                && err == Allocator.Ok
                && forall n :: Find(blocks, n, maxIno)
                               == if n == DOTDOT then Some(e.(ino := parent)) else old(Find(blocks, n, maxIno))
              case None => err == Allocator.Enoent && blocks == old(blocks)
    {
      hide *;
      DotNames();
      Parts();
      Located(DOTDOT);
      var i, o;
      err, i, o := FindEntry(DOTDOT);
      if err != Allocator.Ok {
        KeptSame(Shown(), blocks, hash, maxIno);
        return;
      }
      RedirectedInDir(blocks, i, o, parent, maxIno);
      ShownIs();
      ghost var before := blocks;
      RedirectedIs(blocks[i], o, parent);
      blocks := blocks[i := Put(blocks[i], o, Encode(parent, 8))];
      OwnsStill(alloc.InUse());
      DirParts(blocks, maxIno);
      RedirectedInIndex(Shown(), before, blocks, hash, maxIno);
      FitsStill(before);
      ShownIs();
      Whole();
    }

    lemma {:induction false} FitsStill(before: seq<Block>)
      requires IndexFits(before) && |before| == |blocks|
      ensures IndexFits(blocks)
    {
    }

    /** Nothing but `.` and `..`? */
    method IsEmpty() returns (empty: bool)
      requires Valid()
      ensures empty == OnlyDots(All(blocks, maxIno))
    {
      ghost var ls := Lives(blocks, maxIno);
      hide ValidAt, Tiled, Live, Reach, Before, EntryAt, DirOk, IndexFits;
      assert ls[..0] == [] && ls[..|ls|] == ls;
      var i := 0;
      while i < |blocks|
        invariant i <= |blocks| && OnlyDots(Concat(ls[..i]))
      {
        OnlyDotsOneMore(ls, i);
        var only := OnlyDotsIn(i);
        if !only {
          return false;
        }
        i := i + 1;
      }
      empty := true;
    }

    /** The walk over one block. */
    method OnlyDotsIn(i: nat) returns (only: bool)
      requires i < |blocks| && Tiled(blocks[i], 0, maxIno)
      ensures only == OnlyDots(Live(blocks[i], 0, maxIno))
    {
      var b := blocks[i];
      var o := 0;
      hide ValidAt, Tiled, Live, Reach, Before;
      WalkBegin(b, maxIno);
      while o < BLOCK_SIZE
        invariant Reach(b, 0, o, maxIno) && Tiled(b, o, maxIno) && OnlyDots(Before(b, 0, o, maxIno))
        invariant Tiled(b, 0, maxIno) && o <= BLOCK_SIZE
        decreases BLOCK_SIZE - o
      {
        TiledStep(b, o, maxIno);
        OnlyDotsRecord(b, o, maxIno);
        if Ino(b, o) != 0 && NameAt(b, o) != DOT && NameAt(b, o) != DOTDOT {
          return false;
        }
        o := o + RecLen(b, o);
      }
      WalkEnd(b, maxIno);
      LiveSplit(b, 0, o, maxIno);
      only := true;
    }

    // ----- release

    /** The blocks of a directory, that of its index included. */
    ghost function Held(): set<nat>
      reads this
    {
      (set b | b in direct) + if indexBlock != 0 then {indexBlock} else {}
    }

    /** Their number. */
    function Size(): nat
      reads this
    {
      |direct| + if indexBlock != 0 then 1 else 0
    }

    /** Give all blocks back: that of the index, then the others. */
    method Release()
      requires Valid()
      modifies this`indexBlock, alloc, alloc.bitmaps, alloc.free
      ensures alloc.Valid() && alloc.bitmaps == old(alloc.bitmaps) && alloc.free == old(alloc.free)
      ensures alloc.InUse() == old(alloc.InUse()) - old(Held()) && alloc.superFree == old(alloc.superFree) + old(Size())
      ensures indexBlock == 0
    {
      Parts();
      HeldIs();
      hide *;
      if indexBlock != 0 {
        var ok := alloc.FreeBlock(indexBlock);
        indexBlock := 0;
      }
      ReleaseDirect();
    }

    method ReleaseDirect()
      requires alloc.Valid() && forall i :: 0 <= i < |direct| ==> direct[i] in alloc.InUse()
      requires forall i, j :: 0 <= i < j < |direct| ==> direct[i] != direct[j]
      modifies alloc, alloc.bitmaps, alloc.free
      ensures alloc.Valid() && alloc.bitmaps == old(alloc.bitmaps) && alloc.free == old(alloc.free)
      ensures alloc.InUse() == old(alloc.InUse()) - (set b | b in direct)
      ensures alloc.superFree == old(alloc.superFree) + |direct|
    {
      ghost var used, free := alloc.InUse(), alloc.superFree;
      HeldIs();
      hide *;
      for i := 0 to |direct|
        invariant alloc.Valid() && alloc.bitmaps == old(alloc.bitmaps) && alloc.free == old(alloc.free)
        invariant alloc.InUse() == used - Front(direct, i) && alloc.superFree == free + i
      {
        FrontMore(direct, i);
        var ok := alloc.FreeBlock(direct[i]);
      }
      FrontAll(direct);
    }

    /** Blocks of others that are given back. */
    lemma {:induction false} Untouched(gone: set<nat>, was: set<nat>)
      requires alloc.Valid() && maxIno < INO_LIMIT && DirOk(blocks, maxIno) && IndexFits(blocks)
      requires |direct| == |blocks| && forall i :: 0 <= i < |direct| ==> direct[i] in was
      requires forall i, j :: 0 <= i < j < |direct| ==> direct[i] != direct[j]
      requires indexBlock != 0 ==> indexBlock in was && indexBlock !in direct
      requires alloc.InUse() == was - gone && Held() !! gone
      ensures Valid()
    {
      HeldIs();
      hide *;
      forall i | 0 <= i < |direct| ensures direct[i] !in gone {
        assert direct[i] in Held();
      }
      Regain(was - gone);
    }

    lemma {:induction false} HeldIs()
      ensures Held() == (set b | b in direct) + (if indexBlock != 0 then {indexBlock} else {})
      ensures Size() == |direct| + (if indexBlock != 0 then 1 else 0) && Front(direct, 0) == {}
    {
    }

    // ----- the check of a mount

    /** A block passes: its records do, and the bit of every name in it is set. */
    ghost predicate BlockChecked(i: nat)
      requires i < |blocks|
      reads this
    {
      && Tiled(blocks[i], 0, maxIno)
      && (indexBlock != 0 ==>
            && index.Some? && |index.value.masks| == BUCKETS
            && forall n: Name :: n != [] && NameIn(blocks[i], n, maxIno) ==> i in index.value.masks[Bucket(hash, n)])
    }

    /** A directory passes: it has an index that can be read if it has a block for one, all blocks pass, and both dots
        are there. */
    ghost predicate Checked()
      reads this
    {
      && 0 < |blocks| <= DIRECT_BLOCKS
      && (indexBlock != 0 ==> index.Some? && index.value.dirBlocks == |blocks|)
      && (forall i :: 0 <= i < |blocks| ==> BlockChecked(i))
      && (exists i :: 0 <= i < |blocks| && NameIn(blocks[i], DOT, maxIno))
      && (exists i :: 0 <= i < |blocks| && NameIn(blocks[i], DOTDOT, maxIno))
    }

    /** A directory in order passes exactly when its index hides no name. */
    lemma {:induction false} CheckedExactly()
      requires Valid() && blocks != [] && AllTiled(blocks, maxIno) && (indexBlock != 0 ==> index.Some?)
      requires Find(blocks, DOT, maxIno).Some? && Find(blocks, DOTDOT, maxIno).Some?
      ensures Checked() <==> forall n: Name :: n != [] ==> Visible(n)
    {
      Parts();
      BlockWith(blocks, DOT, maxIno);
      BlockWith(blocks, DOTDOT, maxIno);
      var ls := Lives(blocks, maxIno);
      assert forall i, n :: 0 <= i < |blocks| ==> (NameIn(blocks[i], n, maxIno) <==> Lookup(ls[i], n).Some?);
      hide Valid, Live, Lookup, Lives, Tiled, NameIn, Find, IndexFits, OwnsBlocks, DirOk, Bucket;
      assert |ls| == |blocks| by { SameLength(blocks, maxIno); }
      if Checked() {
        forall n: Name | n != [] ensures Visible(n) {
          forall i | 0 <= i < |blocks| && index.Some?
            && Lookup(ls[i], n).Some? ensures i in index.value.masks[Bucket(hash, n)] {
            assert BlockChecked(i);
          }
        }
      }
      if forall n: Name :: n != [] ==> Visible(n) {
        forall i | 0 <= i < |blocks| ensures BlockChecked(i) {
          assert Tiled(blocks[i], 0, maxIno);
          forall n: Name | n != [] && NameIn(blocks[i], n, maxIno)
            && indexBlock != 0 ensures i in index.value.masks[Bucket(hash, n)] {
            assert Visible(n);
          }
        }
      }
    }

    /** The check that a mount makes of the root directory, on arbitrary contents. */
    method ValidateDirBlock() returns (err: Errno)
      requires index.Some? ==> |index.value.masks| == BUCKETS
      ensures err == if Checked() then Allocator.Ok else Allocator.Euclean
    {
      hide BlockChecked, NameIn;
      if |blocks| == 0 || |blocks| > DIRECT_BLOCKS {
        return Allocator.Euclean;
      }
      if indexBlock != 0 && (index.None? || index.value.dirBlocks != |blocks|) {
        return Allocator.Euclean;
      }
      var seenDot, seenDotdot := false, false;
      for i := 0 to |blocks|
        invariant forall j :: 0 <= j < i ==> BlockChecked(j)
        invariant seenDot <==> exists j :: 0 <= j < i && NameIn(blocks[j], DOT, maxIno)
        invariant seenDotdot <==> exists j :: 0 <= j < i && NameIn(blocks[j], DOTDOT, maxIno)
      {
        var ok, dot, dotdot := ValidateBlock(i);
        if !ok {
          return Allocator.Euclean;
        }
        seenDot, seenDotdot := seenDot || dot, seenDotdot || dotdot;
      }
      err := if seenDot && seenDotdot then Allocator.Ok else Allocator.Euclean;
    }

    /** The walk over one block. */
    method ValidateBlock(i: nat) returns (ok: bool, dot: bool, dotdot: bool)
      requires i < |blocks| && (index.Some? ==> |index.value.masks| == BUCKETS) && (indexBlock != 0 ==> index.Some?)
      ensures ok <==> BlockChecked(i)
      ensures ok ==> (dot <==> NameIn(blocks[i], DOT, maxIno)) && (dotdot <==> NameIn(blocks[i], DOTDOT, maxIno))
    {
      var b := blocks[i];
      hide *;
      ghost var seen: set<Name> := {};
      var o := 0;
      ok, dot, dotdot := false, false, false;
      WalkedNothing(b, i);
      while o < BLOCK_SIZE
        invariant Walked(b, o, seen) && AllMarked(i, seen) && o <= BLOCK_SIZE
        invariant (dot <==> DOT in seen) && (dotdot <==> DOTDOT in seen)
        decreases BLOCK_SIZE - o
      {
        RecordChecked(b, o, maxIno);
        if !ValidAt(b, o, maxIno) {
          WalkFails(b, i, o, seen);
          return;
        }
        WalkedMore(b, i, o, seen);
        if Ino(b, o) != 0 {
          var marked := NameMarked(NameAt(b, o), i);
          if !marked {
            return;
          }
          dot, dotdot := dot || NameAt(b, o) == DOT, dotdot || NameAt(b, o) == DOTDOT;
          seen := seen + {NameAt(b, o)};
        }
        o := o + RecLen(b, o);
      }
      WalkedAll(b, i, o, seen);
      ok := true;
    }

    /** Is the bit of the name set? Only an index is asked, and not for an empty name. */
    method NameMarked(name: Name, i: nat) returns (marked: bool)
      requires (index.Some? ==> |index.value.masks| == BUCKETS) && (indexBlock != 0 ==> index.Some?)
      ensures marked <==> AllMarked(i, {name})
    {
      if indexBlock != 0 && |name| != 0 {
        return i in index.value.masks[hash(name) % BUCKETS];
      }
      marked := true;
    }

    ghost predicate AllMarked(i: nat, names: set<Name>)
      reads `index, `indexBlock
    {
      indexBlock != 0 ==>
        index.Some? && |index.value.masks| == BUCKETS && forall n :: n in names && n != [] ==>
            i in index.value.masks[Bucket(hash, n)]
    }

    /** The names seen so far are those in front of `o`. */
    ghost predicate Walked(b: Block, o: nat, seen: set<Name>) {
      && Tiled(b, 0, maxIno) == Tiled(b, o, maxIno)
      && (Tiled(b, o, maxIno) ==>
            o <= BLOCK_SIZE && forall n :: NameIn(b, n, maxIno) <==> n in seen || Lookup(Live(b, o, maxIno), n).Some?)
    }

    lemma {:induction false} WalkedNothing(b: Block, i: nat)
      requires (index.Some? ==> |index.value.masks| == BUCKETS) && (indexBlock != 0 ==> index.Some?)
      ensures Walked(b, 0, {}) && AllMarked(i, {}) && 0 <= BLOCK_SIZE
    {
    }

    lemma {:induction false} WalkFails(b: Block, i: nat, o: nat, seen: set<Name>)
      requires Walked(b, o, seen) && !Tiled(b, o, maxIno) && i < |blocks| && b == blocks[i]
      ensures !BlockChecked(i)
    {
    }

    lemma {:induction false} WalkedMore(b: Block, i: nat, o: nat, seen: set<Name>)
      requires Walked(b, o, seen) && AllMarked(i, seen) && o < BLOCK_SIZE && ValidAt(b, o, maxIno) && i < |blocks|
      requires b == blocks[i]
      ensures o + HEADER + NameLen(b, o) <= BLOCK_SIZE
      ensures Walked(b, o + RecLen(b, o), if Ino(b, o) != 0 then seen + {NameAt(b, o)} else seen)
      ensures Ino(b, o) != 0 && !AllMarked(i, {NameAt(b, o)}) ==> !BlockChecked(i)
      ensures AllMarked(i, {NameAt(b, o)}) ==> AllMarked(i, seen + {NameAt(b, o)})
    {
      NameFits(b, o, maxIno);
      RecordChecked(b, o, maxIno);
      if Tiled(b, o, maxIno) {
        LiveStep(b, o, maxIno);
        WalkedNames(b, o);
      }
      hide Ino, RecLen, NameLen, FileType, ValidAt, Live, Tiled, NameAt, Bucket, Lookup, EntryAt;
    }

    lemma {:induction false} WalkedNames(b: Block, o: nat)
      requires Tiled(b, o, maxIno) && o < BLOCK_SIZE
      ensures ValidAt(b, o, maxIno) && o + HEADER + NameLen(b, o) <= BLOCK_SIZE && Tiled(b, o + RecLen(b, o), maxIno)
      ensures forall n: Name :: Lookup(Live(b, o, maxIno), n).Some?
                                <==> (Ino(b, o) != 0 && n == NameAt(b, o)) || Lookup(Live(b, o + RecLen(b, o), maxIno), n).Some?
    {
      LiveStep(b, o, maxIno);
      hide Ino, RecLen, NameLen, FileType, ValidAt, NameAt;
      forall n: Name
        ensures Lookup(Live(b, o, maxIno), n).Some?
                <==> (Ino(b, o) != 0 && n == NameAt(b, o)) || Lookup(Live(b, o + RecLen(b, o), maxIno), n).Some?
      {
        LookupAppend(EntryAt(b, o), Live(b, o + RecLen(b, o), maxIno), n);
      }
    }

    lemma {:induction false} WalkedAll(b: Block, i: nat, o: nat, seen: set<Name>)
      requires o == BLOCK_SIZE && Walked(b, o, seen) && AllMarked(i, seen) && i < |blocks| && b == blocks[i]
      ensures BlockChecked(i) && forall n :: NameIn(b, n, maxIno) <==> n in seen
    {
      WalkEnd(b, maxIno);
    }
  }

  /** The first `k` blocks. */
  ghost function Front(direct: seq<nat>, k: nat): set<nat>
    requires k <= |direct|
  {
    set b | b in direct[..k]
  }

  lemma {:induction false} FrontMore(direct: seq<nat>, k: nat)
    requires k < |direct| && forall i, j :: 0 <= i < j < |direct| ==> direct[i] != direct[j]
    ensures direct[k] !in Front(direct, k) && Front(direct, k + 1) == Front(direct, k) + {direct[k]}
  {
    assert direct[..k + 1] == direct[..k] + [direct[k]];
  }

  lemma {:induction false} FrontAll(direct: seq<nat>)
    ensures Front(direct, |direct|) == set b | b in direct
  {
    assert direct[..|direct|] == direct;
  }

  // ----- facts about the index

  /** A name that is found is in some block. */
  lemma {:induction false} BlockWith(blocks: seq<Block>, name: Name, maxIno: nat)
    requires AllTiled(blocks, maxIno) && Find(blocks, name, maxIno).Some?
    ensures exists i :: 0 <= i < |blocks| && NameIn(blocks[i], name, maxIno)
  {
    var ls := Lives(blocks, maxIno);
    SomeBlock(ls, name);
    var i :| 0 <= i < |ls| && Lookup(ls[i], name).Some?;
    assert NameIn(blocks[i], name, maxIno);
  }

  lemma {:induction false} SomeBlock(ls: seq<seq<Entry>>, name: Name)
    requires Lookup(Concat(ls), name).Some?
    ensures exists i :: 0 <= i < |ls| && Lookup(ls[i], name).Some?
  {
    LookupAppend(ls[0], Concat(ls[1..]), name);
    if Lookup(ls[0], name).None? {
      SomeBlock(ls[1..], name);
      var i :| 0 <= i < |ls[1..]| && Lookup(ls[1..][i], name).Some?;
      assert ls[i + 1] == ls[1..][i];
    }
  }

  lemma {:induction false} RecordChecked(b: Block, o: nat, maxIno: nat)
    requires o < BLOCK_SIZE
    ensures ValidAt(b, o, maxIno) ==>
              && 0 < RecLen(b, o) && o + RecLen(b, o) <= BLOCK_SIZE && o + HEADER + NameLen(b, o) <= BLOCK_SIZE
              && |NameAt(b, o)| == NameLen(b, o) && Tiled(b, o, maxIno) == Tiled(b, o + RecLen(b, o), maxIno)
    ensures !ValidAt(b, o, maxIno) ==> !Tiled(b, o, maxIno)
  {
  }

  lemma {:induction false} DirParts(blocks: seq<Block>, maxIno: nat)
    requires DirOk(blocks, maxIno)
    ensures AllTiled(blocks, maxIno) && Named(All(blocks, maxIno)) && |blocks| <= DIRECT_BLOCKS
  {
  }

  lemma {:induction false} TiledBlock(blocks: seq<Block>, i: nat, maxIno: nat)
    requires DirOk(blocks, maxIno) && i < |blocks|
    ensures Tiled(blocks[i], 0, maxIno)
  {
  }

  /** A collected index is exact. */
  lemma {:induction false} RebuiltIs(masks: seq<set<nat>>, entries: nat, blocks: seq<Block>, hash: Name -> nat,
                                     maxIno: nat)
    requires DirOk(blocks, maxIno) && AllTiled(blocks, maxIno)
    requires IndexOk(Index(masks, entries, |blocks|), Lives(blocks, maxIno), hash)
    ensures var x := Some(Index(masks, entries, |blocks|)); Readable(x) && Exact(x, hash, blocks, maxIno)
  {
    EntriesBound(blocks, maxIno);
    hide Lives, AllTiled, Concat, Distinct, Named;
  }

  lemma {:induction false} NoIndexKept(before: seq<Block>, after: seq<Block>, hash: Name -> nat, name: Name,
                                       maxIno: nat)
    ensures IndexKept(None, before, None, after, hash, maxIno) && Sees(None, hash, after, name, maxIno)
    ensures Exact(None, hash, after, maxIno)
  {
  }

  lemma {:induction false} BucketIs(hash: Name -> nat, name: Name)
    ensures Bucket(hash, name) == hash(name) % BUCKETS < BUCKETS
  {
  }

  lemma {:induction false} ReadableIs(x: Index)
    ensures Readable(Some(x)) <==> |x.masks| == BUCKETS && x.entries < U32
  {
  }

  lemma {:induction false} AddIs(x: Index, k: nat, i: nat, blocks: nat)
    requires k < |x.masks|
    ensures IndexAdd(x, k, i, blocks) == Index(x.masks[k := x.masks[k] + {i}], (x.entries + 1) % U32, blocks)
  {
  }

  lemma {:induction false} RemoveIs(x: Index, k: nat, i: nat, still: bool, blocks: nat)
    requires k < |x.masks|
    ensures IndexRemove(x, k, i, still, blocks)
            == Index(x.masks[k := if still then x.masks[k] else x.masks[k] - {i}], if x.entries > 0 then x.entries - 1
                     else 0, blocks)
  {
  }

  /** What the first name makes of the index. */
  lemma {:induction false} FirstIs(found: Option<Index>, before: seq<Block>, after: seq<Block>, hash: Name -> nat,
                                   i: nat, e: Entry,
                                   index: Option<Index>, maxIno: nat)
    requires index.Some? && PutIn(before, after, i, e, maxIno) && Readable(found)
    requires found.None? ==> Exact(index, hash, after, maxIno)
    requires found.Some? ==>
                && Bucket(hash, e.name) < |found.value.masks|
                && index.value == IndexAdd(found.value, Bucket(hash, e.name), i, |after|)
    ensures FirstIndex(found, before, after, hash, e, index, maxIno)
  {
    hide PutIn, IndexAdd, Exact, Bucket;
  }

  // ----- facts about the walks

  lemma {:induction false} NoBlocks(hash: Name -> nat)
    ensures forall k :: BlocksWith([], hash, k) == {}
  {
  }

  lemma {:induction false} CollectBegin(ls: seq<seq<Entry>>, i: nat, masks: seq<set<nat>>, hash: Name -> nat)
    requires i < |ls| && MasksOf(masks, ls[..i], hash)
    ensures MasksOf(masks, ls[..i] + [[]], hash)
  {
    hide BlocksWith;
    forall k | 0 <= k < BUCKETS ensures masks[k] == BlocksWith(ls[..i] + [[]], hash, k) {
      BlocksWithEmpty(ls[..i], hash, k);
    }
  }

  lemma {:induction false} CollectStep(masks: seq<set<nat>>, p: seq<seq<Entry>>, seen: seq<Entry>, e: Entry,
                                       hash: Name -> nat)
    requires MasksOf(masks, p + [seen], hash) && e.name != []
    ensures |masks| == BUCKETS
    ensures var bucket := hash(e.name) % BUCKETS;
            MasksOf(masks[bucket := masks[bucket] + {|p|}], p + [seen + [e]], hash)
  {
    hide BlocksWith;
    forall k | 0 <= k < BUCKETS
      ensures BlocksWith(p + [seen + [e]], hash, k) == masks[k] + if Bucket(hash, e.name) == k then {|p|} else {}
    {
      BlocksWithEntry(p, seen, e, hash, k);
    }
  }

  /** What one record adds to the masks. */
  lemma {:induction false} CollectRecord(b: Block, o: nat, masks: seq<set<nat>>, p: seq<seq<Entry>>, seen: seq<Entry>,
                                         hash: Name -> nat, maxIno: nat)
    requires Tiled(b, 0, maxIno) && Reach(b, 0, o, maxIno) && ValidAt(b, o, maxIno) && Named(Live(b, 0, maxIno))
    requires seen == Before(b, 0, o, maxIno) && MasksOf(masks, p + [seen], hash)
    ensures Reach(b, 0, o + RecLen(b, o), maxIno) && seen + EntryAt(b, o) == Before(b, 0, o + RecLen(b, o), maxIno)
    ensures |masks| == BUCKETS
    ensures if Ino(b, o) != 0 && NameLen(b, o) != 0 then
              var bucket := hash(NameAt(b, o)) % BUCKETS;
              && MasksOf(masks[bucket := masks[bucket] + {|p|}], p + [seen + EntryAt(b, o)], hash)
              && |EntryAt(b, o)| == 1
            else EntryAt(b, o) == [] && MasksOf(masks, p + [seen + EntryAt(b, o)], hash)
  {
    ReachStep(b, 0, o, maxIno);
    NamedAt(b, o, maxIno);
    assert |masks| == BUCKETS;
    hide MasksOf, Tiled, Reach, Before, Live, Named, EntryAt, Ino, NameLen, NameAt, RecLen, ValidAt;
    if Ino(b, o) != 0 && NameLen(b, o) != 0 {
      CollectStep(masks, p, seen, Entry(NameAt(b, o), Ino(b, o), FileType(b, o)), hash);
    } else {
      assert seen + EntryAt(b, o) == seen;
    }
  }

  lemma {:induction false} CollectEnd(blocks: seq<Block>, ls: seq<seq<Entry>>, i: nat, o: nat, seen: seq<Entry>,
                                      maxIno: nat)
    requires AllTiled(blocks, maxIno) && ls == Lives(blocks, maxIno) && i < |blocks| && o >= BLOCK_SIZE
    requires Reach(blocks[i], 0, o, maxIno) && Tiled(blocks[i], o, maxIno) && seen == Before(blocks[i], 0, o, maxIno)
    ensures ls[..i] + [seen] == ls[..i + 1] && |Concat(ls[..i + 1])| == |Concat(ls[..i])| + |seen|
  {
    LiveSplit(blocks[i], 0, o, maxIno);
    hide Before, Reach, ValidAt;
    assert o == BLOCK_SIZE && ls[i] == seen + [] && seen + [] == seen;
    assert ls[..i] + [seen] == ls[..i + 1];
    ConcatThree(ls[..i], seen, []);
    assert ls[..i] + [seen] + [] == ls[..i + 1];
  }

  /** What one record says about the names of a bucket in its block. */
  lemma {:induction false} HoldsRecord(b: Block, o: nat, hash: Name -> nat, k: nat, maxIno: nat)
    requires Tiled(b, 0, maxIno) && Reach(b, 0, o, maxIno) && ValidAt(b, o, maxIno)
    ensures Reach(b, 0, o + RecLen(b, o), maxIno)
    ensures var here := Ino(b, o) != 0 && NameLen(b, o) != 0 && Bucket(hash, NameAt(b, o)) == k;
            && (Holds(Before(b, 0, o + RecLen(b, o), maxIno), hash, k) <==> Holds(Before(b, 0, o, maxIno), hash, k) || here)
            && (here ==> Holds(Live(b, 0, maxIno), hash, k))
  {
    hide *;
    LiveStep(b, o, maxIno);
    ReachStep(b, 0, o, maxIno);
    LiveSplit(b, 0, o + RecLen(b, o), maxIno);
    HoldsAppend(Before(b, 0, o, maxIno), EntryAt(b, o), hash, k);
    HoldsAppend(Before(b, 0, o + RecLen(b, o), maxIno), Live(b, o + RecLen(b, o), maxIno), hash, k);
    EntryHolds(b, o, hash, k);
  }

  lemma {:induction false} EntryHolds(b: Block, o: nat, hash: Name -> nat, k: nat)
    requires o + HEADER <= BLOCK_SIZE && o + HEADER + NameLen(b, o) <= BLOCK_SIZE
    ensures Holds(EntryAt(b, o), hash, k) <==> Ino(b, o) != 0 && NameLen(b, o) != 0 && Bucket(hash, NameAt(b, o)) == k
  {
    hide Ino, NameLen, FileType, Bucket;
    if Ino(b, o) != 0 {
      assert EntryAt(b, o)[0].name == NameAt(b, o);
    }
  }

  /** What one record says about the names of its block. */
  lemma {:induction false} OnlyDotsRecord(b: Block, o: nat, maxIno: nat)
    requires Tiled(b, 0, maxIno) && Reach(b, 0, o, maxIno) && ValidAt(b, o, maxIno)
    ensures Reach(b, 0, o + RecLen(b, o), maxIno)
    ensures var here := Ino(b, o) != 0 && NameAt(b, o) != DOT && NameAt(b, o) != DOTDOT;
            && (OnlyDots(Before(b, 0, o + RecLen(b, o), maxIno)) <==> OnlyDots(Before(b, 0, o, maxIno)) && !here)
            && (here ==> !OnlyDots(Live(b, 0, maxIno)))
  {
    hide *;
    LiveStep(b, o, maxIno);
    ReachStep(b, 0, o, maxIno);
    LiveSplit(b, 0, o + RecLen(b, o), maxIno);
    OnlyDotsAppend(Before(b, 0, o, maxIno), EntryAt(b, o));
    OnlyDotsAppend(Before(b, 0, o + RecLen(b, o), maxIno), Live(b, o + RecLen(b, o), maxIno));
    EntryDots(b, o);
  }

  lemma {:induction false} EntryDots(b: Block, o: nat)
    requires o + HEADER <= BLOCK_SIZE && o + HEADER + NameLen(b, o) <= BLOCK_SIZE
    ensures OnlyDots(EntryAt(b, o)) <==> !(Ino(b, o) != 0 && NameAt(b, o) != DOT && NameAt(b, o) != DOTDOT)
  {
    hide Ino, NameLen, FileType;
    if Ino(b, o) != 0 {
      assert EntryAt(b, o)[0].name == NameAt(b, o);
    }
  }

  /** An erased record can take a name as long as the one it held. */
  lemma {:induction false} ErasedSlot(b: Block, i: nat, o: nat, after: seq<Block>, maxIno: nat)
    requires Reach(b, 0, o, maxIno) && ValidAt(b, o, maxIno) && i < |after| && AllTiled(after, maxIno)
    requires maxIno < INO_LIMIT && o + HEADER <= BLOCK_SIZE && after[i] == PutRecord(b, o, 0, RecLen(b, o), [], 0)
    ensures o + HEADER + NameLen(b, o) <= BLOCK_SIZE
    ensures AnySlot(after, RecLenFor(|NameAt(b, o)|), maxIno)
  {
    hide *;
    LiveStep(b, o, maxIno);
    NameFits(b, o, maxIno);
    var c := after[i];
    ErasedReads(b, o, maxIno);
    TiledAll(after, maxIno);
    ErasedIs(b, o);
    PutOutside(b, o, Record(0, RecLen(b, o), [], 0), RecLen(b, o));
    PutIs(b, o);
    ReachBound(b, 0, o, maxIno);
    LiveBefore(b, c, 0, o, maxIno);
    SlotFrom(c, 0, o, RecLenFor(|NameAt(b, o)|), maxIno);
    SlotIn(after, i, RecLenFor(|NameAt(b, o)|), maxIno);
  }

  lemma {:induction false} PutIs(b: Block, o: nat)
    requires o + HEADER <= BLOCK_SIZE
    ensures |Record(0, RecLen(b, o), [], 0)| == HEADER
    ensures PutRecord(b, o, 0, RecLen(b, o), [], 0) == Put(b, o, Record(0, RecLen(b, o), [], 0))
  {
  }

  lemma {:induction false} NameFits(b: Block, o: nat, maxIno: nat)
    requires ValidAt(b, o, maxIno)
    ensures o + HEADER + NameLen(b, o) <= BLOCK_SIZE && |NameAt(b, o)| == NameLen(b, o)
    ensures RecLenFor(NameLen(b, o)) <= RecLen(b, o)
    ensures RecLen(b, o) < 0x1_0000
  {
  }

  lemma {:induction false} ErasedReads(b: Block, o: nat, maxIno: nat)
    requires ValidAt(b, o, maxIno) && maxIno < INO_LIMIT
    ensures o + HEADER <= BLOCK_SIZE
    ensures var c := PutRecord(b, o, 0, RecLen(b, o), [], 0);
            ValidAt(c, o, maxIno) && RecLen(c, o) == RecLen(b, o) && forall need: nat :: need <= RecLen(b, o) ==>
                SlotAt(c, o, need)
  {
    hide Ino, RecLen, NameLen, FileType, NameAt, PutRecord;
    NameFits(b, o, maxIno);
    RecordReadsBack(b, o, 0, RecLen(b, o), [], 0);
  }

  /** A slot on the walk is found from its start. */
  lemma {:induction false} SlotFrom(b: Block, o: nat, to: nat, need: nat, maxIno: nat)
    requires Tiled(b, o, maxIno) && Reach(b, o, to, maxIno) && ValidAt(b, to, maxIno) && to + HEADER <= BLOCK_SIZE
    requires SlotAt(b, to, need)
    ensures HasSlot(b, o, need, maxIno)
    decreases BLOCK_SIZE - o
  {
    hide SlotAt;
    if o < to {
      SlotFrom(b, o + RecLen(b, o), to, need, maxIno);
    }
  }

  lemma {:induction false} SameSize(blocks: seq<Block>, ls: seq<seq<Entry>>, maxIno: nat)
    requires AllTiled(blocks, maxIno) && ls == Lives(blocks, maxIno)
    ensures |ls| == |blocks|
  {
  }

  lemma {:induction false} TiledAll(blocks: seq<Block>, maxIno: nat)
    requires AllTiled(blocks, maxIno)
    ensures forall i :: 0 <= i < |blocks| ==> Tiled(blocks[i], 0, maxIno)
  {
  }

  lemma {:induction false} SlotStep(b: Block, o: nat, need: nat, maxIno: nat)
    requires Tiled(b, o, maxIno) && o < BLOCK_SIZE
    ensures o + HEADER <= BLOCK_SIZE && o + RecLen(b, o) <= BLOCK_SIZE && Tiled(b, o + RecLen(b, o), maxIno)
    ensures HasSlot(b, o, need, maxIno) == (SlotAt(b, o, need) || HasSlot(b, o + RecLen(b, o), need, maxIno))
  {
    hide SlotAt;
  }

  lemma {:induction false} SlotIn(blocks: seq<Block>, i: nat, need: nat, maxIno: nat)
    requires AllTiled(blocks, maxIno) && i < |blocks| && HasSlot(blocks[i], 0, need, maxIno)
    ensures AnySlot(blocks, need, maxIno)
  {
  }

  lemma {:induction false} NoSlot(blocks: seq<Block>, need: nat, maxIno: nat)
    requires AllTiled(blocks, maxIno) && forall j :: 0 <= j < |blocks| ==> !HasSlot(blocks[j], 0, need, maxIno)
    ensures !AnySlot(blocks, need, maxIno)
  {
  }

  lemma {:induction false} NoSlotBehind(b: Block, o: nat, need: nat, maxIno: nat)
    requires Tiled(b, o, maxIno) && o >= BLOCK_SIZE
    ensures !HasSlot(b, o, need, maxIno)
  {
  }

  lemma {:induction false} RemovedFacts(after: seq<Block>, before: seq<Block>, e: Entry, maxIno: nat)
    requires Added(after, before, e, maxIno)
    ensures DirOk(after, maxIno) && AllTiled(after, maxIno) && Named(All(after, maxIno)) && |after| <= DIRECT_BLOCKS
  {
  }

  lemma {:induction false} WalkBegin(b: Block, maxIno: nat)
    ensures Reach(b, 0, 0, maxIno) && Before(b, 0, 0, maxIno) == []
  {
  }

  lemma {:induction false} WalkEnd(b: Block, maxIno: nat)
    ensures Tiled(b, BLOCK_SIZE, maxIno) && Live(b, BLOCK_SIZE, maxIno) == []
  {
  }

  lemma {:induction false} TiledStep(b: Block, o: nat, maxIno: nat)
    requires Tiled(b, o, maxIno) && o < BLOCK_SIZE
    ensures ValidAt(b, o, maxIno) && 0 < HEADER <= RecLen(b, o) && o + RecLen(b, o) <= BLOCK_SIZE
    ensures HEADER + NameLen(b, o) <= RecLen(b, o) && Tiled(b, o + RecLen(b, o), maxIno)
  {
  }

  /** A record in use on the walk of a block of named entries has a name. */
  lemma {:induction false} NamedAt(b: Block, o: nat, maxIno: nat)
    requires Tiled(b, 0, maxIno) && Reach(b, 0, o, maxIno) && o < BLOCK_SIZE && Named(Live(b, 0, maxIno))
    ensures ValidAt(b, o, maxIno) && (Ino(b, o) != 0 ==> NameLen(b, o) != 0 && NameAt(b, o) != [])
    ensures EntryAt(b, o) == if Ino(b, o) == 0 then [] else [Entry(NameAt(b, o), Ino(b, o), FileType(b, o))]
  {
    LiveSplit(b, 0, o, maxIno);
    var p := Before(b, 0, o, maxIno);
    if Ino(b, o) != 0 {
      assert Live(b, 0, maxIno)[|p|] == EntryAt(b, o)[0];
    }
  }

  /** All entries of a directory with names have names in every block. */
  lemma {:induction false} NamedBlock(blocks: seq<Block>, i: nat, maxIno: nat)
    requires AllTiled(blocks, maxIno) && Named(All(blocks, maxIno)) && i < |blocks|
    ensures Tiled(blocks[i], 0, maxIno) && Named(Live(blocks[i], 0, maxIno))
  {
    var ls := Lives(blocks, maxIno);
    ConcatAt(ls, i, ls[i]);
    var p := Concat(ls[..i]);
    forall j | 0 <= j < |ls[i]| ensures ls[i][j].name != [] {
      assert All(blocks, maxIno)[|p| + j] == ls[i][j];
    }
  }

  lemma {:induction false} HoldsAppend(a: seq<Entry>, b: seq<Entry>, hash: Name -> nat, k: nat)
    ensures Holds(a + b, hash, k) <==> Holds(a, hash, k) || Holds(b, hash, k)
  {
    var c := a + b;
    if i :| 0 <= i < |a| && a[i].name != [] && Bucket(hash, a[i].name) == k {
      assert c[i] == a[i];
    }
    if i :| 0 <= i < |b| && b[i].name != [] && Bucket(hash, b[i].name) == k {
      assert c[|a| + i] == b[i];
    }
  }
}
