/** A whole directory as a finite map from names to inodes. */
module DirContent {
  import opened Bytes
  import opened DirBlock
  import opened DirSpec

  const DIRECT_BLOCKS := 12

  /** All entries of a directory in order. */
  ghost function All(blocks: seq<Block>, maxIno: nat): seq<Entry>
    requires AllTiled(blocks, maxIno)
  {
    Concat(Lives(blocks, maxIno))
  }

  predicate Named(es: seq<Entry>) {
    forall i :: 0 <= i < |es| ==> es[i].name != []
  }

  /** Every block is exactly tiled by records that pass the checks, and no name is empty or used twice. */
  ghost predicate DirOk(blocks: seq<Block>, maxIno: nat) {
    && |blocks| <= DIRECT_BLOCKS && AllTiled(blocks, maxIno)
    && Distinct(All(blocks, maxIno)) && Named(All(blocks, maxIno))
  }

  /** The directory as a map. */
  ghost function Find(blocks: seq<Block>, name: Name, maxIno: nat): Option<Entry>
    requires AllTiled(blocks, maxIno)
  {
    Lookup(All(blocks, maxIno), name)
  }

  /** `after` holds what `before` holds and one entry more. */
  ghost predicate Added(before: seq<Block>, after: seq<Block>, e: Entry, maxIno: nat) {
    && DirOk(before, maxIno) && DirOk(after, maxIno)
    && Find(before, e.name, maxIno) == None
    && (forall n :: Find(after, n, maxIno) == if n == e.name then Some(e) else Find(before, n, maxIno))
    && |All(after, maxIno)| == |All(before, maxIno)| + 1
  }

  /** Block `i` replaced. */
  lemma {:induction false} LivesUpdate(blocks: seq<Block>, i: nat, c: Block, maxIno: nat)
    requires AllTiled(blocks, maxIno) && i < |blocks| && Tiled(c, 0, maxIno)
    ensures AllTiled(blocks[i := c], maxIno)
    ensures Lives(blocks[i := c], maxIno) == Lives(blocks, maxIno)[i := Live(c, 0, maxIno)]
  {
    hide Tiled, Live;
  }

  lemma {:induction false} LivesAppend(blocks: seq<Block>, c: Block, maxIno: nat)
    requires AllTiled(blocks, maxIno) && Tiled(c, 0, maxIno)
    ensures AllTiled(blocks + [c], maxIno)
    ensures Lives(blocks + [c], maxIno) == Lives(blocks, maxIno) + [Live(c, 0, maxIno)]
  {
    hide Tiled, Live;
  }

  lemma {:induction false} EntriesInsert(p: seq<Entry>, e: Entry, s: seq<Entry>)
    requires Distinct(p + s) && Named(p + s) && Lookup(p + s, e.name) == None && e.name != []
    ensures Distinct(p + [e] + s) && Named(p + [e] + s) && |p + [e] + s| == |p + s| + 1
    ensures forall n :: Lookup(p + [e] + s, n) == if n == e.name then Some(e) else Lookup(p + s, n)
  {
    DistinctInsert(p, e, s);
    forall n ensures Lookup(p + [e] + s, n) == if n == e.name then Some(e) else Lookup(p + s, n) {
      LookupInsert(p, e, s, n);
    }
    NamedInsert(p, e, s);
  }

  lemma {:induction false} NamedInsert(p: seq<Entry>, e: Entry, s: seq<Entry>)
    ensures Named(p + [e] + s) <==> Named(p + s) && e.name != []
  {
    var with, without := p + [e] + s, p + s;
    if Named(with) {
      assert with[|p|] == e;
      forall i | 0 <= i < |without| ensures without[i].name != [] {
        assert without[i] == with[if i < |p| then i else i + 1];
      }
    }
    if Named(without) && e.name != [] {
      forall i | 0 <= i < |with| ensures with[i].name != [] {
        assert i != |p| ==> with[i] == without[if i < |p| then i else i - 1];
      }
    }
  }

  /** The entries of a directory around a place in block `i`. */
  lemma {:induction false} Around(ls: seq<seq<Entry>>, i: nat, x: seq<Entry>, was: seq<Entry>, now: seq<Entry>,
                                  y: seq<Entry>)
    requires i < |ls| && ls[i] == x + (was + y)
    ensures var p, s := Concat(ls[..i]) + x, y + Concat(ls[i + 1..]);
            Concat(ls) == p + was + s && Concat(ls[i := x + (now + y)]) == p + now + s
  {
    ConcatAt(ls, i, x + (now + y));
    var a, b := Concat(ls[..i]), Concat(ls[i + 1..]);
    hide Concat;
    Regroup(a, x, was, y, b);
    Regroup(a, x, now, y, b);
  }

  lemma {:induction false} Regroup(a: seq<Entry>, x: seq<Entry>, was: seq<Entry>, y: seq<Entry>, b: seq<Entry>)
    ensures a + (x + (was + y)) + b == (a + x) + was + (y + b)
  {
  }

  lemma {:induction false} RegroupAdd(x: seq<Entry>, was: seq<Entry>, e: Entry, y: seq<Entry>)
    ensures x + (was + y) == (x + was) + y && x + (was + [e] + y) == (x + was) + [e] + y
    ensures x + (was + [e]) + y == (x + was) + [e] + y
  {
  }

  lemma {:induction false} RegroupRemove(x: seq<Entry>, e: Entry, y: seq<Entry>)
    ensures x + ([e] + y) == x + [e] + y && x + ([] + y) == x + y && x + [] + y == x + y
  {
  }

  /** An edit of block `i` that puts one entry behind those at its place. */
  lemma {:induction false} AddInBlock(blocks: seq<Block>, i: nat, c: Block, x: seq<Entry>, was: seq<Entry>, e: Entry,
                                      y: seq<Entry>, maxIno: nat)
    requires DirOk(blocks, maxIno) && i < |blocks| && Edit(blocks[i], c, x, was, was + [e], y, maxIno)
    requires Find(blocks, e.name, maxIno) == None && e.name != []
    ensures Added(blocks, blocks[i := c], e, maxIno)
    ensures Lives(blocks, maxIno)[i] == (x + was) + y
    ensures Lives(blocks[i := c], maxIno) == Lives(blocks, maxIno)[i := (x + was) + [e] + y]
  {
    var ls := Lives(blocks, maxIno);
    hide Tiled, Live;
    LivesUpdate(blocks, i, c, maxIno);
    Around(ls, i, x, was, was + [e], y);
    var p, s := Concat(ls[..i]) + x, y + Concat(ls[i + 1..]);
    hide Concat, Lives, AllTiled;
    RegroupAdd(x, was, e, y);
    RegroupAdd(p, was, e, s);
    EntriesInsert(p + was, e, s);
  }

  /** A new block that holds one entry. */
  lemma {:induction false} AddInNewBlock(blocks: seq<Block>, c: Block, e: Entry, maxIno: nat)
    requires DirOk(blocks, maxIno) && |blocks| < DIRECT_BLOCKS && Tiled(c, 0, maxIno) && Live(c, 0, maxIno) == [e]
    requires Find(blocks, e.name, maxIno) == None && e.name != []
    ensures Added(blocks, blocks + [c], e, maxIno)
    ensures Lives(blocks + [c], maxIno) == Lives(blocks, maxIno) + [[e]]
  {
    var ls := Lives(blocks, maxIno);
    hide Tiled, Live;
    LivesAppend(blocks, c, maxIno);
    ConcatLast(ls, e);
    hide Lives, AllTiled, Concat;
    assert DirOk(blocks, maxIno) && Distinct(Concat(ls)) && Named(Concat(ls));
    hide Distinct, Named, Lookup;
    EntriesInsert(Concat(ls), e, []);
  }

  lemma {:induction false} ConcatLast(ls: seq<seq<Entry>>, e: Entry)
    ensures Concat(ls + [[e]]) == Concat(ls) + [e] + [] && Concat(ls) == Concat(ls) + []
  {
    ConcatAppend(ls, [[e]]);
    assert Concat([[e]]) == [e] + [] by { ConcatNothing([[e]][1..]); }
  }

  lemma {:induction false} ConcatNothing(ls: seq<seq<Entry>>)
    requires |ls| == 0
    ensures Concat(ls) == []
  {
  }

  /** An edit of block `i` that takes one entry out. */
  lemma {:induction false} RemoveInBlock(blocks: seq<Block>, i: nat, c: Block, x: seq<Entry>, e: Entry, y: seq<Entry>,
                                         maxIno: nat)
    requires DirOk(blocks, maxIno) && i < |blocks| && Edit(blocks[i], c, x, [e], [], y, maxIno)
    ensures Added(blocks[i := c], blocks, e, maxIno) && e.name != []
    ensures Lives(blocks, maxIno)[i] == x + [e] + y
    ensures Live(c, 0, maxIno) == x + y && Lives(blocks[i := c], maxIno) == Lives(blocks, maxIno)[i := x + y]
  {
    var ls := Lives(blocks, maxIno);
    hide Tiled, Live;
    LivesUpdate(blocks, i, c, maxIno);
    Around(ls, i, x, [e], [], y);
    var p, s := Concat(ls[..i]) + x, y + Concat(ls[i + 1..]);
    hide Concat, Lives, AllTiled;
    RegroupRemove(x, e, y);
    RegroupRemove(p, e, s);
    DistinctInsert(p, e, s);
    NamedInsert(p, e, s);
    EntriesInsert(p, e, s);
  }

  // ----- how good an index is

  /** A search through the index, if there is one, does not pass over the blocks that hold the name. */
  ghost predicate Sees(index: Option<Index>, hash: Name -> nat, blocks: seq<Block>, name: Name, maxIno: nat) {
    index.Some? ==> AllTiled(blocks, maxIno) && Marks(index.value, Lives(blocks, maxIno), hash, name)
  }

  /** The index, if there is one, is exact. */
  ghost predicate Exact(index: Option<Index>, hash: Name -> nat, blocks: seq<Block>, maxIno: nat) {
    index.Some? ==> AllTiled(blocks, maxIno) && IndexOk(index.value, Lives(blocks, maxIno), hash)
  }

  /** What a block shows that can be read as an index. */
  predicate Readable(index: Option<Index>) { index.Some? ==> |index.value.masks| == BUCKETS && index.value.entries < U32 }

  /** No name that could be seen is hidden, and an exact index stays exact. */
  ghost predicate IndexKept(x: Option<Index>, blocks: seq<Block>, x': Option<Index>, blocks': seq<Block>,
                            hash: Name -> nat, maxIno: nat) {
    && (Exact(x, hash, blocks, maxIno) ==> Exact(x', hash, blocks', maxIno))
    && forall n: Name :: n != [] && Sees(x, hash, blocks, n, maxIno) ==> Sees(x', hash, blocks', n, maxIno)
  }

  lemma {:induction false} ExactSees(index: Option<Index>, hash: Name -> nat, blocks: seq<Block>, name: Name,
                                     maxIno: nat)
    requires Exact(index, hash, blocks, maxIno) && name != []
    ensures Sees(index, hash, blocks, name, maxIno)
  {
    if index.Some? {
      ExactMarks(index.value, Lives(blocks, maxIno), hash, name);
    }
  }

  lemma {:induction false} KeptTwice(x: Option<Index>, a: seq<Block>, y: Option<Index>, b: seq<Block>, z: Option<Index>,
                                     c: seq<Block>,
                                     hash: Name -> nat, maxIno: nat)
    requires IndexKept(x, a, y, b, hash, maxIno) && IndexKept(y, b, z, c, hash, maxIno)
    ensures IndexKept(x, a, z, c, hash, maxIno)
  {
    hide Sees, Exact;
  }

  /** An exact index is as good as any. */
  lemma {:induction false} KeptExact(x: Option<Index>, blocks: seq<Block>, x': Option<Index>, blocks': seq<Block>,
                                     hash: Name -> nat, maxIno: nat)
    requires Exact(x', hash, blocks', maxIno)
    ensures IndexKept(x, blocks, x', blocks', hash, maxIno)
  {
    forall n: Name | n != [] ensures Sees(x', hash, blocks', n, maxIno) {
      ExactSees(x', hash, blocks', n, maxIno);
    }
    hide Sees, Exact;
  }

  lemma {:induction false} KeptSame(x: Option<Index>, blocks: seq<Block>, hash: Name -> nat, maxIno: nat)
    ensures IndexKept(x, blocks, x, blocks, hash, maxIno)
  {
  }

  // ----- the edits

  /** What a search through the directory, indexed or not, says about the map. */
  lemma {:induction false} SearchIsFind(blocks: seq<Block>, index: Option<Index>, hash: Name -> nat, name: Name,
                                        maxIno: nat)
    requires AllTiled(blocks, maxIno) && Sees(index, hash, blocks, name, maxIno)
    ensures var mask := if index.Some? then index.value.masks[Bucket(hash, name)] else {};
            match Scan(blocks, 0, mask, name, maxIno)
            case At(j, p) =>
              && j < |blocks| && Reach(blocks[j], 0, p, maxIno) && p < BLOCK_SIZE && ValidAt(blocks[j], p, maxIno)
              && Ino(blocks[j], p) != 0 && NameAt(blocks[j], p) == name
              && Find(blocks, name, maxIno) == Some(Entry(name, Ino(blocks[j], p), FileType(blocks[j], p)))
            case Absent => Find(blocks, name, maxIno) == None
            case Corrupt => false
  {
    hide Scan, Reach, ValidAt, Ino, RecLen, NameLen, NameAt, FileType;
    if index.Some? {
      IndexedSearch(blocks, index.value, hash, name, maxIno);
    }
    ScanFinds(blocks, 0, {}, name, maxIno);
    assert Lives(blocks, maxIno)[0..] == Lives(blocks, maxIno);
  }

  // ----- room for an entry

  /** From `o` on some record is free and long enough, or has enough slack. */
  ghost predicate HasSlot(b: Block, o: nat, need: nat, maxIno: nat)
    requires Tiled(b, o, maxIno)
    decreases BLOCK_SIZE - o
  {
    o < BLOCK_SIZE
    && (SlotAt(b, o, need) || HasSlot(b, o + RecLen(b, o), need, maxIno))
  }

  predicate SlotAt(b: Block, o: nat, need: nat)
    requires o + HEADER <= BLOCK_SIZE
  {
    || (Ino(b, o) == 0 && RecLen(b, o) >= need)
    || RecLen(b, o) >= RecLenFor(NameLen(b, o)) + need
  }

  ghost predicate AnySlot(blocks: seq<Block>, need: nat, maxIno: nat)
    requires AllTiled(blocks, maxIno)
  {
    exists i :: 0 <= i < |blocks| && HasSlot(blocks[i], 0, need, maxIno)
  }

  /** Bytes of a record that its own entry does not need. */
  ghost function Unused(b: Block, o: nat): int
    requires o + HEADER <= BLOCK_SIZE
  {
    RecLen(b, o) - if Ino(b, o) == 0 then 0 else RecLenFor(NameLen(b, o))
  }

  /** Some record of the block, from `o` on, has that many bytes to give away. */
  lemma {:induction false} SlotExactly(b: Block, o: nat, need: nat, maxIno: nat)
    requires Tiled(b, o, maxIno)
    ensures HasSlot(b, o, need, maxIno)
            <==> exists p: nat :: && Reach(b, o, p, maxIno) && p + HEADER <= BLOCK_SIZE && ValidAt(b, p, maxIno)
                                  && Unused(b, p) >= need
    decreases BLOCK_SIZE - o
  {
    hide Ino, RecLen, NameLen;
    if o < BLOCK_SIZE {
      var next := o + RecLen(b, o);
      SlotExactly(b, next, need, maxIno);
      forall p: nat | Reach(b, o, p, maxIno) && p + HEADER <= BLOCK_SIZE && ValidAt(b, p, maxIno) && Unused(b, p) >= need
        ensures HasSlot(b, o, need, maxIno)
      {
        if p != o {
          assert Reach(b, next, p, maxIno);
        }
      }
      if HasSlot(b, next, need, maxIno) {
        var p: nat :| Reach(b, next, p, maxIno) && p + HEADER <= BLOCK_SIZE && ValidAt(b, p, maxIno) && Unused(b, p) >= need;
        ReachBounds(b, next, p, maxIno);
        assert Reach(b, o, p, maxIno);
      }
      if SlotAt(b, o, need) {
        assert Reach(b, o, o, maxIno) && Unused(b, o) >= need;
      }
    }
  }

  lemma {:induction false} ReachBounds(b: Block, o: nat, to: nat, maxIno: nat)
    requires Reach(b, o, to, maxIno)
    ensures o <= to
  {
  }

  /** A name has a slot exactly when some record of some block has as many bytes to give away as its own record takes. */
  lemma {:induction false} RoomExactly(blocks: seq<Block>, name: Name, maxIno: nat)
    requires AllTiled(blocks, maxIno)
    ensures AnySlot(blocks, RecLenFor(|name|), maxIno)
            <==> exists i, p: nat :: && 0 <= i < |blocks| && Reach(blocks[i], 0, p, maxIno) && p + HEADER <= BLOCK_SIZE
                                     && ValidAt(blocks[i], p, maxIno) && Unused(blocks[i], p) >= RecLenFor(|name|)
  {
    hide Reach, ValidAt, Unused, HasSlot, RecLenFor;
    forall i | 0 <= i < |blocks|
      ensures HasSlot(blocks[i], 0, RecLenFor(|name|), maxIno)
              <==> exists p: nat :: && Reach(blocks[i], 0, p, maxIno) && p + HEADER <= BLOCK_SIZE
                                    && ValidAt(blocks[i], p, maxIno) && Unused(blocks[i], p) >= RecLenFor(|name|)
    {
      SlotExactly(blocks[i], 0, RecLenFor(|name|), maxIno);
    }
  }

  // ----- rebuilding the index

  /** The masks collected from some blocks. */
  ghost predicate MasksOf(masks: seq<set<nat>>, ls: seq<seq<Entry>>, hash: Name -> nat) {
    |masks| == BUCKETS && forall k :: 0 <= k < BUCKETS ==> masks[k] == BlocksWith(ls, hash, k)
  }

  /** One entry more in the last block. */
  lemma {:induction false} BlocksWithEntry(ls: seq<seq<Entry>>, seen: seq<Entry>, e: Entry, hash: Name -> nat, k: nat)
    ensures BlocksWith(ls + [seen + [e]], hash, k)
            == BlocksWith(ls + [seen], hash, k) + if e.name != [] && Bucket(hash, e.name) == k then {|ls|} else {}
  {
    HoldsInsert(seen, e, [], hash, k);
    assert seen + [e] + [] == seen + [e] && seen + [] == seen;
    hide Holds, Bucket;
    var p, q := ls + [seen + [e]], ls + [seen];
    forall i: nat | i < |p| ensures Holds(p[i], hash, k)
      <==> Holds(q[i], hash, k) || (i == |ls| && e.name != [] && Bucket(hash, e.name) == k) {
    }
  }

  lemma {:induction false} BlocksWithEmpty(ls: seq<seq<Entry>>, hash: Name -> nat, k: nat)
    ensures BlocksWith(ls + [[]], hash, k) == BlocksWith(ls, hash, k)
  {
    HoldsNothing(hash);
    hide Holds;
    var p := ls + [[]];
    forall i: nat | i < |p| ensures Holds(p[i], hash, k) <==> i < |ls| && Holds(ls[i], hash, k) {
    }
  }

  // ----- a new directory

  const DOT: Name := [46]
  const DOTDOT: Name := [46, 46]
  const FT_DIR := 2

  /** The first block of a new directory. */
  function InitBlock(ino: nat, parent: nat): Block {
    var n := RecLenFor(|DOT|);
    PutRecord(PutRecord(ZeroBlock(), 0, ino, n, DOT, FT_DIR), n, parent, BLOCK_SIZE - n, DOTDOT, FT_DIR)
  }

  lemma {:induction false} InitBlockIs(ino: nat, parent: nat, maxIno: nat)
    requires 0 < ino <= maxIno < INO_LIMIT && 0 < parent <= maxIno
    ensures var b := InitBlock(ino, parent);
            && Tiled(b, 0, maxIno) && Live(b, 0, maxIno) == [Entry(DOT, ino, FT_DIR), Entry(DOTDOT, parent, FT_DIR)]
            && ValidAt(b, 0, maxIno) && RecLen(b, 0) == 16 && ValidAt(b, 16, maxIno) && RecLen(b, 16) == BLOCK_SIZE - 16
            && NameLen(b, 16) == |DOTDOT| && Ino(b, 16) != 0
  {
    hide ZeroBlock, Ino, RecLen, NameLen, NameAt, FileType, Put, Record;
    var z := ZeroBlock();
    var c := PutRecord(z, 0, ino, 16, DOT, FT_DIR);
    var b := InitBlock(ino, parent);
    RecordReadsBack(z, 0, ino, 16, DOT, FT_DIR);
    RecordReadsBack(c, 16, parent, BLOCK_SIZE - 16, DOTDOT, FT_DIR);
    PutOutside(c, 16, Record(parent, BLOCK_SIZE - 16, DOTDOT, FT_DIR), BLOCK_SIZE - 16);
    hide PutRecord, InitBlock;
    PrefixPart(c, b, 0, 16, 16);
    SameEntry(c, b, 0, maxIno);
    assert ValidAt(b, 16, maxIno);
    assert Tiled(b, BLOCK_SIZE, maxIno) && Live(b, BLOCK_SIZE, maxIno) == [];
    assert Tiled(b, 16, maxIno) && Live(b, 16, maxIno) == [Entry(DOTDOT, parent, FT_DIR)];
  }

  /** A new directory is in order and maps `.` to itself and `..` to its parent. */
  lemma {:induction false} InitDirOk(ino: nat, parent: nat, maxIno: nat)
    requires 0 < ino <= maxIno < INO_LIMIT && 0 < parent <= maxIno
    ensures var bs := [InitBlock(ino, parent)];
            && DirOk(bs, maxIno)
            && forall n :: Find(bs, n, maxIno) == if n == DOT then Some(Entry(DOT, ino, FT_DIR))
                                                  else if n == DOTDOT then Some(Entry(DOTDOT, parent, FT_DIR)) else None
  {
    var b := InitBlock(ino, parent);
    var es := [Entry(DOT, ino, FT_DIR), Entry(DOTDOT, parent, FT_DIR)];
    InitBlockIs(ino, parent, maxIno);
    OneBlock(b, maxIno);
    TwoEntries(es[0], es[1]);
    hide Lives, Concat, Distinct, Named, Lookup, InitBlock;
  }

  lemma {:induction false} OneBlock(b: Block, maxIno: nat)
    requires Tiled(b, 0, maxIno)
    ensures AllTiled([b], maxIno) && All([b], maxIno) == Live(b, 0, maxIno)
  {
    hide Tiled, Live;
    var ls := Lives([b], maxIno);
    assert |ls| == 1 && ls[0] == Live(b, 0, maxIno) && ls[1..] == [];
    assert Concat(ls) == ls[0] + [];
  }

  lemma {:induction false} TwoEntries(d: Entry, dd: Entry)
    requires d.name == DOT && dd.name == DOTDOT
    ensures Distinct([d, dd]) && Named([d, dd])
    ensures forall n :: Lookup([d, dd], n) == if n == DOT then Some(d) else if n == DOTDOT then Some(dd) else None
  {
    assert |DOT| == 1 && |DOTDOT| == 2;
    forall n ensures Lookup([d, dd], n) == if n == DOT then Some(d) else if n == DOTDOT then Some(dd) else None {
      LookupAppend([d], [dd], n);
      assert [d] + [dd] == [d, dd];
    }
  }


  // ----- placing an entry

  /** An entry put into a slot: over a free record, or into the slack behind a record. */
  function Placed(b: Block, o: nat, ino: nat, name: Name, ftype: byte): Block
    requires o + HEADER <= BLOCK_SIZE && o + RecLen(b, o) <= BLOCK_SIZE && |name| <= NAME_LEN
    requires SlotAt(b, o, RecLenFor(|name|))
  {
    RecLenForName(|name|);
    if Ino(b, o) == 0 && RecLen(b, o) >= RecLenFor(|name|) then Filled(b, o, ino, name, ftype)
    else Split(b, o, ino, name, ftype)
  }

  lemma {:induction false} PlacedLive(b: Block, o: nat, ino: nat, name: Name, ftype: byte, maxIno: nat)
    returns (x: seq<Entry>, y: seq<Entry>)
    requires Tiled(b, 0, maxIno) && Reach(b, 0, o, maxIno) && ValidAt(b, o, maxIno)
    requires |name| <= NAME_LEN && 0 < ino <= maxIno < INO_LIMIT && ftype <= FT_MAX
    requires SlotAt(b, o, RecLenFor(|name|))
    ensures Edit(b, Placed(b, o, ino, name, ftype), x, EntryAt(b, o), EntryAt(b, o) + [Entry(name, ino, ftype)], y, maxIno)
  {
    hide Tiled, Reach, Live, Filled, Split, RecLenFor, RecLen, Ino, NameLen, NameAt, FileType;
    RecLenForName(|name|);
    if Ino(b, o) == 0 && RecLen(b, o) >= RecLenFor(|name|) {
      x, y := FilledLive(b, o, ino, name, ftype, maxIno);
      assert EntryAt(b, o) + [Entry(name, ino, ftype)] == [Entry(name, ino, ftype)];
    } else {
      x, y := SplitLive(b, o, ino, name, ftype, maxIno);
    }
  }

  /** The first entry of a new block. */
  lemma {:induction false} FirstEntry(ino: nat, name: Name, ftype: byte, maxIno: nat)
    requires |name| <= NAME_LEN && 0 < ino <= maxIno < INO_LIMIT && ftype <= FT_MAX
    ensures RecLen(FreshBlock(), 0) == BLOCK_SIZE && RecLenFor(|name|) <= BLOCK_SIZE && Ino(FreshBlock(), 0) == 0
    ensures var c := Filled(FreshBlock(), 0, ino, name, ftype);
            Tiled(c, 0, maxIno) && Live(c, 0, maxIno) == [Entry(name, ino, ftype)]
  {
    var b := FreshBlock();
    FreshIsTiled(maxIno);
    hide Tiled, Live, FreshBlock, Filled, RecLen, Ino, NameLen, NameAt, FileType;
    assert Reach(b, 0, 0, maxIno);
    var x, y := FilledLive(b, 0, ino, name, ftype, maxIno);
    assert |x + ([] + y)| == 0;
    assert x + ([Entry(name, ino, ftype)] + y) == [Entry(name, ino, ftype)];
  }

  /** One entry more in block `i` of the directory. */
  ghost predicate PutIn(before: seq<Block>, after: seq<Block>, i: nat, e: Entry, maxIno: nat) {
    AllTiled(before, maxIno) && AllTiled(after, maxIno) && PutAt(Lives(before, maxIno), Lives(after, maxIno), i, e)
  }

  /** What the entering of a name makes of an index, whatever that shows. */
  lemma {:induction false} AddedToIndex(x: Index, before: seq<Block>, after: seq<Block>, hash: Name -> nat, i: nat,
                                        e: Entry, maxIno: nat)
    requires PutIn(before, after, i, e, maxIno) && DirOk(before, maxIno) && e.name != [] && Readable(Some(x))
    requires Find(before, e.name, maxIno) == None
    ensures i < |after| && |Lives(after, maxIno)| == |after| && Bucket(hash, e.name) < |x.masks|
    ensures var x' := IndexAdd(x, Bucket(hash, e.name), i, |after|);
            && Readable(Some(x'))
            && IndexKept(Some(x), before, Some(x'), after, hash, maxIno) && Sees(Some(x'), hash, after, e.name, maxIno)
            && (Exact(Some(x'), hash, after, maxIno) <==> Agrees(x, Lives(before, maxIno), hash, Bucket(hash, e.name), i))
  {
    EntriesBound(before, maxIno);
    SameLength(after, maxIno);
    BucketBound(hash, e.name);
    var ls, ls' := Lives(before, maxIno), Lives(after, maxIno);
    var a, b := PutAtParts(ls, ls', i, e);
    hide Lives, AllTiled, PutAt, Agrees, IndexOk, Concat, Bucket, Distinct, Named, Marks;
    IndexAfterAdd(x, ls, ls', hash, i, e);
    forall n: Name | Marks(x, ls, hash, n)
      ensures Marks(IndexAdd(x, Bucket(hash, e.name), i, |ls'|), ls', hash, n)
    {
      MarksAfterAdd(x, ls, ls', hash, i, e, n);
    }
    MarksNew(x, ls, ls', hash, i, e);
  }

  /** What the removal of a name makes of an index. */
  lemma {:induction false} RemovedFromIndex(x: Index, before: seq<Block>, after: seq<Block>, hash: Name -> nat, i: nat,
                                            e: Entry, maxIno: nat)
    requires PutIn(after, before, i, e, maxIno) && i < |after| && e.name != [] && Readable(Some(x))
    ensures Bucket(hash, e.name) < |x.masks|
    ensures var k := Bucket(hash, e.name);
            var x' := IndexRemove(x, k, i, Holds(Live(after[i], 0, maxIno), hash, k), |after|);
            Readable(Some(x')) && IndexKept(Some(x), before, Some(x'), after, hash, maxIno)
  {
    SameLength(after, maxIno);
    BucketBound(hash, e.name);
    var ls, ls' := Lives(before, maxIno), Lives(after, maxIno);
    assert ls'[i] == Live(after[i], 0, maxIno);
    hide Lives, AllTiled, PutAt, IndexOk, Concat, Bucket, Marks, Holds, Live;
    IndexAfterRemove(x, ls, ls', hash, i, e);
  }

  /** The first index of a directory. A block that shows one already is taken for it, and only the new name is entered. */
  ghost predicate FirstIndex(found: Option<Index>, before: seq<Block>, after: seq<Block>, hash: Name -> nat, e: Entry,
                             index: Option<Index>, maxIno: nat) {
    && index.Some?
    && match found
       case None => Exact(index, hash, after, maxIno)
       case Some(x) =>
         && |x.masks| == BUCKETS
         && exists i :: PutIn(before, after, i, e, maxIno) && index.value == IndexAdd(x, Bucket(hash, e.name), i, |after|)
  }

  /** A record takes at least its header. */
  lemma {:induction false} LiveBound(b: Block, o: nat, maxIno: nat)
    requires Tiled(b, o, maxIno) && o <= BLOCK_SIZE
    ensures |Live(b, o, maxIno)| * HEADER <= BLOCK_SIZE - o
    decreases BLOCK_SIZE - o
  {
    if o < BLOCK_SIZE {
      LiveStep(b, o, maxIno);
      LiveBound(b, o + RecLen(b, o), maxIno);
    }
  }

  lemma {:induction false} ConcatBound(ls: seq<seq<Entry>>, n: nat)
    requires forall i :: 0 <= i < |ls| ==> |ls[i]| <= n
    ensures |Concat(ls)| <= |ls| * n
  {
    if ls != [] {
      ConcatBound(ls[1..], n);
    }
  }

  /** More names than any directory can hold. */
  const NAMES := 4098

  lemma {:induction false} EntriesBound(blocks: seq<Block>, maxIno: nat)
    requires DirOk(blocks, maxIno)
    ensures |All(blocks, maxIno)| < NAMES
  {
    var ls := Lives(blocks, maxIno);
    forall i | 0 <= i < |ls| ensures |ls[i]| <= 341 {
      LiveBound(blocks[i], 0, maxIno);
    }
    SameLength(blocks, maxIno);
    hide Lives, AllTiled, Concat, Live, Tiled, Distinct, Named;
    ConcatBound(ls, 341);
    assert |ls| * 341 <= DIRECT_BLOCKS * 341;
  }

  /** Everything a placed entry does to the directory. */
  lemma {:induction false} PlacedInDir(blocks: seq<Block>, i: nat, o: nat, name: Name, ino: nat, ftype: byte,
                                       maxIno: nat)
    requires DirOk(blocks, maxIno)
    requires i < |blocks| && Reach(blocks[i], 0, o, maxIno) && ValidAt(blocks[i], o, maxIno)
    requires 0 < |name| <= NAME_LEN && 0 < ino <= maxIno < INO_LIMIT && ftype <= FT_MAX
    requires SlotAt(blocks[i], o, RecLenFor(|name|)) && Find(blocks, name, maxIno) == None
    ensures var after := blocks[i := Placed(blocks[i], o, ino, name, ftype)];
            Added(blocks, after, Entry(name, ino, ftype), maxIno) && PutIn(blocks, after, i, Entry(name, ino, ftype), maxIno)
  {
    var e, c := Entry(name, ino, ftype), Placed(blocks[i], o, ino, name, ftype);
    var x, y := PlacedLive(blocks[i], o, ino, name, ftype, maxIno);
    hide Placed, Reach, ValidAt, SlotAt, RecLenFor, EntryAt, Edit, Live, Tiled;
    AddInBlock(blocks, i, c, x, EntryAt(blocks[i], o), e, y, maxIno);
    hide Lives, AllTiled;
    SameLength(blocks, maxIno);
    PutAtFrom(Lives(blocks, maxIno), Lives(blocks[i := c], maxIno), i, x + EntryAt(blocks[i], o), e, y);
  }

  lemma {:induction false} AddedFacts(before: seq<Block>, after: seq<Block>, e: Entry, maxIno: nat)
    requires Added(before, after, e, maxIno)
    ensures DirOk(after, maxIno) && AllTiled(after, maxIno) && Named(All(after, maxIno)) && |after| <= DIRECT_BLOCKS
  {
  }

  lemma {:induction false} SameLength(blocks: seq<Block>, maxIno: nat)
    requires AllTiled(blocks, maxIno)
    ensures |Lives(blocks, maxIno)| == |blocks|
  {
  }

  /** Everything an appended block does to the directory. */
  lemma {:induction false} AppendedToDir(blocks: seq<Block>, name: Name, ino: nat, ftype: byte, maxIno: nat)
    requires DirOk(blocks, maxIno)
    requires |blocks| < DIRECT_BLOCKS && Find(blocks, name, maxIno) == None
    requires 0 < |name| <= NAME_LEN && 0 < ino <= maxIno < INO_LIMIT && ftype <= FT_MAX
    ensures RecLen(FreshBlock(), 0) == BLOCK_SIZE
    ensures var after := blocks + [Filled(FreshBlock(), 0, ino, name, ftype)];
            Added(blocks, after, Entry(name, ino, ftype), maxIno)
              && PutIn(blocks, after, |blocks|, Entry(name, ino, ftype), maxIno)
  {
    hide FreshBlock, Filled, Live, Tiled, RecLen, Ino, Distinct, Named, Lookup;
    FirstEntry(ino, name, ftype, maxIno);
    var e, c := Entry(name, ino, ftype), Filled(FreshBlock(), 0, ino, name, ftype);
    AddInNewBlock(blocks, c, e, maxIno);
    hide Lives, AllTiled;
    SameLength(blocks, maxIno);
    var none: seq<Entry> := [];
    assert none + [e] + none == [e] && none + none == [];
    PutAtFrom(Lives(blocks, maxIno), Lives(blocks + [c], maxIno), |blocks|, none, e, none);
  }

  // ----- removing and redirecting an entry

  /** Everything the erasing of a record does to the directory. */
  lemma {:induction false} RemovedFromDir(blocks: seq<Block>, i: nat, o: nat, maxIno: nat)
    requires DirOk(blocks, maxIno) && maxIno < INO_LIMIT
    requires i < |blocks| && Reach(blocks[i], 0, o, maxIno) && ValidAt(blocks[i], o, maxIno) && Ino(blocks[i], o) != 0
    ensures var b := blocks[i];
            var after := blocks[i := Filled(b, o, 0, [], 0)];
            var e := Entry(NameAt(b, o), Ino(b, o), FileType(b, o));
            Added(after, blocks, e, maxIno) && e.name != [] && PutIn(after, blocks, i, e, maxIno)
  {
    var b := blocks[i];
    var c, e := Filled(b, o, 0, [], 0), Entry(NameAt(b, o), Ino(b, o), FileType(b, o));
    var x, y := FilledLive(b, o, 0, [], 0, maxIno);
    assert EntryAt(b, o) == [e];
    hide Filled, Reach, ValidAt, EntryAt, Live, Tiled, Ino, NameAt, FileType, NameLen, RecLen;
    RemoveInBlock(blocks, i, c, x, e, y, maxIno);
    assert Tiled(c, 0, maxIno) by { LivesUpdate(blocks, i, c, maxIno); }
    hide Lives, AllTiled, Edit;
    SameLength(blocks, maxIno);
    var ls, ls' := Lives(blocks, maxIno), Lives(blocks[i := c], maxIno);
    assert ls'[i := x + [e] + y] == ls;
    PutAtFrom(ls', ls, i, x, e, y);
  }

  /** A record with another inode number. */
  function Redirected(b: Block, o: nat, ino: nat): Block
    requires o + HEADER <= BLOCK_SIZE
  {
    Put(b, o, Encode(ino, 8))
  }

  lemma {:induction false} RedirectedLive(b: Block, o: nat, ino: nat, maxIno: nat)
    returns (x: seq<Entry>, y: seq<Entry>)
    requires Tiled(b, 0, maxIno) && Reach(b, 0, o, maxIno) && ValidAt(b, o, maxIno)
    requires 0 < ino <= maxIno < INO_LIMIT
    ensures Edit(b, Redirected(b, o, ino), x, EntryAt(b, o), [Entry(NameAt(b, o), ino, FileType(b, o))], y, maxIno)
  {
    var c, n := Redirected(b, o, ino), RecLen(b, o);
    RedirectedReads(b, o, ino, maxIno);
    hide Redirected, Tiled, Reach, Live, Before, Ino, RecLen, NameLen, NameAt, FileType;
    ReachOne(c, o, maxIno);
    x, y := Replace(b, c, o, o + n, maxIno);
  }

  lemma {:induction false} RedirectedReads(b: Block, o: nat, ino: nat, maxIno: nat)
    requires ValidAt(b, o, maxIno) && 0 < ino <= maxIno < INO_LIMIT
    ensures var c, n := Redirected(b, o, ino), RecLen(b, o);
            && ValidAt(c, o, maxIno) && RecLen(c, o) == n && EntryAt(c, o) == [Entry(NameAt(b, o), ino, FileType(b, o))]
            && b[..o] == c[..o] && b[o + n..] == c[o + n..]
  {
    var c, n := Redirected(b, o, ino), RecLen(b, o);
    hide Value, Encode;
    Widths();
    ValueOfEncode(ino, 8);
    assert c[o..o + 8] == Encode(ino, 8);
    assert c[o + 8..o + 10] == b[o + 8..o + 10];
    var k := NameLen(b, o);
    assert c[o + HEADER..o + HEADER + k] == b[o + HEADER..o + HEADER + k];
    PutOutside(b, o, Encode(ino, 8), n);
  }

  /** Everything redirecting an entry does to the directory. */
  lemma {:induction false} RedirectedInDir(blocks: seq<Block>, i: nat, o: nat, ino: nat, maxIno: nat)
    requires DirOk(blocks, maxIno) && 0 < ino <= maxIno < INO_LIMIT
    requires i < |blocks| && Reach(blocks[i], 0, o, maxIno) && ValidAt(blocks[i], o, maxIno) && Ino(blocks[i], o) != 0
    ensures var b := blocks[i];
            var after := blocks[i := Redirected(b, o, ino)];
            && DirOk(after, maxIno)
            && (forall n :: Find(after, n, maxIno)
                            == if n == NameAt(b, o) then Some(Entry(n, ino, FileType(b, o))) else Find(blocks, n, maxIno))
            && NamesStay(Lives(blocks, maxIno), Lives(after, maxIno))
  {
    var b, ls := blocks[i], Lives(blocks, maxIno);
    var was, now := Entry(NameAt(b, o), Ino(b, o), FileType(b, o)), Entry(NameAt(b, o), ino, FileType(b, o));
    var c := Redirected(b, o, ino);
    var x, y := RedirectedLive(b, o, ino, maxIno);
    assert EntryAt(b, o) == [was];
    hide Redirected, Reach, ValidAt, EntryAt, Live, Tiled, Ino, NameAt, FileType, NameLen, RecLen;
    LivesUpdate(blocks, i, c, maxIno);
    Around(ls, i, x, [was], [now], y);
    var p, s := Concat(ls[..i]) + x, y + Concat(ls[i + 1..]);
    hide AllTiled, Lives;
    SwapEntry(p, was, now, s);
    NamesSwapped(ls, i, x, was, now, y);
  }

  lemma {:induction false} NamesSwapped(ls: seq<seq<Entry>>, i: nat, x: seq<Entry>, was: Entry, now: Entry,
                                        y: seq<Entry>)
    requires i < |ls| && ls[i] == x + ([was] + y) && was.name == now.name
    ensures NamesStay(ls, ls[i := x + ([now] + y)])
  {
  }

  /** Redirecting does not touch the index, and it is as good as before. */
  lemma {:induction false} RedirectedInIndex(index: Option<Index>, before: seq<Block>, after: seq<Block>,
                                             hash: Name -> nat, maxIno: nat)
    requires AllTiled(before, maxIno) && AllTiled(after, maxIno)
    requires NamesStay(Lives(before, maxIno), Lives(after, maxIno))
    ensures IndexKept(index, before, index, after, hash, maxIno)
  {
    if index.Some? {
      IndexStays(index.value, Lives(before, maxIno), Lives(after, maxIno), hash);
    }
    hide Lives, AllTiled, NamesStay, IndexOk, Marks;
  }

  /** An entry replaced by one of the same name. */
  lemma {:induction false} SwapEntry(p: seq<Entry>, was: Entry, now: Entry, s: seq<Entry>)
    requires Distinct(p + [was] + s) && Named(p + [was] + s) && was.name == now.name
    ensures Distinct(p + [now] + s) && Named(p + [now] + s)
    ensures forall n :: Lookup(p + [now] + s, n) == if n == now.name then Some(now) else Lookup(p + [was] + s, n)
  {
    DistinctInsert(p, was, s);
    DistinctInsert(p, now, s);
    NamedInsert(p, was, s);
    NamedInsert(p, now, s);
    forall n ensures Lookup(p + [now] + s, n) == if n == now.name then Some(now) else Lookup(p + [was] + s, n) {
      LookupInsert(p, was, s, n);
      LookupInsert(p, now, s, n);
    }
  }

  /** Nothing but the two entries every directory has. */
  predicate OnlyDots(es: seq<Entry>) {
    forall i :: 0 <= i < |es| ==> es[i].name == DOT || es[i].name == DOTDOT
  }

  lemma {:induction false} OnlyDotsAppend(a: seq<Entry>, b: seq<Entry>)
    ensures OnlyDots(a + b) <==> OnlyDots(a) && OnlyDots(b)
  {
    if OnlyDots(a + b) {
      forall i | 0 <= i < |a| ensures a[i].name == DOT || a[i].name == DOTDOT { assert (a + b)[i] == a[i]; }
      forall i | 0 <= i < |b| ensures b[i].name == DOT || b[i].name == DOTDOT { assert (a + b)[|a| + i] == b[i]; }
    }
  }

  lemma {:induction false} OnlyDotsOneMore(ls: seq<seq<Entry>>, i: nat)
    requires i < |ls|
    ensures OnlyDots(Concat(ls[..i + 1])) <==> OnlyDots(Concat(ls[..i])) && OnlyDots(ls[i])
    ensures OnlyDots(Concat(ls)) ==> OnlyDots(Concat(ls[..i + 1]))
  {
    ConcatCut(ls, i);
    hide Concat, OnlyDots;
    OnlyDotsAppend(Concat(ls[..i]), ls[i]);
    OnlyDotsAppend(Concat(ls[..i + 1]), Concat(ls[i + 1..]));
  }

  lemma {:induction false} ConcatCut(ls: seq<seq<Entry>>, i: nat)
    requires i < |ls|
    ensures Concat(ls[..i + 1]) == Concat(ls[..i]) + ls[i] && Concat(ls) == Concat(ls[..i + 1]) + Concat(ls[i + 1..])
  {
    ConcatAt(ls[..i + 1], i, ls[i]);
    ConcatAppend(ls[..i + 1], ls[i + 1..]);
    hide Concat;
    assert ls[..i + 1] + ls[i + 1..] == ls;
    assert ls[..i + 1][..i] == ls[..i] && |ls[..i + 1][i + 1..]| == 0;
    ConcatNothing(ls[..i + 1][i + 1..]);
    assert Concat(ls[..i]) + ls[i] + [] == Concat(ls[..i]) + ls[i];
  }
}
