/** Extended attributes of an inode (xattr.c) in byte buffers and blocks: packing into a buffer, parsing,
    writing and loading. */
module Xattr {
  import Allocator
  import opened Bytes
  import opened XattrSpec

  /** Copy bytes into a buffer. */
  method CopyBytes(buf: array<byte>, o: nat, s: seq<byte>)
    requires o + |s| <= buf.Length
    modifies buf
    ensures buf[..] == Put(old(buf[..]), o, s)
  {
    var i := 0;
    while i < |s|
      invariant i <= |s|
      invariant forall k :: 0 <= k < buf.Length ==> buf[k] == if o <= k < o + i then s[k - o] else old(buf[..])[k]
    {
      buf[o + i] := s[i];
      i := i + 1;
    }
  }

  /** Bytes written behind the used part of a zeroed buffer. */
  lemma {:induction false} PutBehind(front: seq<byte>, s: seq<byte>, room: nat)
    requires |s| <= room
    ensures Put(front + Zeros(room), |front|, s) == front + s + Zeros(room - |s|)
  {
  }

  /** Bytes written over a part of the same length. */
  lemma {:induction false} PutOver(a: seq<byte>, was: seq<byte>, b: seq<byte>, s: seq<byte>)
    requires |was| == |s|
    ensures Put(a + was + b, |a|, s) == a + s + b
  {
  }

  lemma {:induction false} BodyAppend(items: seq<Item>, it: Item)
    requires AllFit(items) && it.Fits()
    ensures AllFit(items + [it]) && Total(items + [it]) == Total(items) + it.Size()
    ensures Body(items + [it]) == Body(items) + EntryBytes(it)
  {
    hide EntryBytes;
    if items == [] {
      assert [] + [it] == [it];
      BodyNothing();
      BodyCons(it, []);
      assert [it] + [] == [it] && EntryBytes(it) + [] == [] + EntryBytes(it);
    } else {
      BodyAppend(items[1..], it);
      assert (items + [it])[1..] == items[1..] + [it];
    }
  }

  lemma {:induction false} TotalPrefix(items: seq<Item>, i: nat)
    requires i <= |items|
    ensures Total(items[..i]) <= Total(items)
    ensures i < |items| ==> Total(items[..i]) + items[i].Size() <= Total(items)
  {
    hide Item.Size;
    TotalSplit(items[..i], items[i..]);
    assert items[..i] + items[i..] == items;
  }

  /** One more item packed. */
  lemma {:induction false} PackStep(items: seq<Item>, i: nat, h: seq<byte>)
    requires AllFit(items) && i < |items| && |h| == HEADER
    ensures AllFit(items[..i]) && AllFit(items[..i + 1]) && items[i].Fits()
    ensures Total(items[..i + 1]) == Total(items[..i]) + items[i].Size()
    ensures |h + Body(items[..i])| == HEADER + Total(items[..i])
    ensures h + Body(items[..i]) + EntryBytes(items[i]) == h + Body(items[..i + 1])
  {
    hide EntryBytes;
    BodyAppend(items[..i], items[i]);
    assert items[..i] + [items[i]] == items[..i + 1];
    assert h + Body(items[..i]) + EntryBytes(items[i]) == h + (Body(items[..i]) + EntryBytes(items[i]));
  }

  /** Fill a zeroed buffer with a header and some of the items. */
  method Pack(buf: array<byte>, items: seq<Item>, start: nat, entries: nat, overflow: nat) returns (err: Errno)
    requires buf.Length == BLOCK_SIZE && start + entries <= |items| && AllFit(items)
    modifies buf
    ensures var part := items[start..start + entries];
            && AllFit(part)
            && err == (if HEADER + Total(part) <= BLOCK_SIZE then Ok else Enospc)
            && (err == Ok ==> buf[..] == Packed(part, overflow))
  {
    hide *;
    ghost var part := items[start..start + entries];
    ghost var h := Header(entries, 0, overflow);
    PackBegin(items, start, entries, overflow);
    ClearBuffer(buf);
    WriteHeader(buf, entries, overflow);
    var offset, i := HEADER, 0;
    while i < entries
      invariant i <= entries && AllFit(part[..i]) && offset == HEADER + Total(part[..i]) <= BLOCK_SIZE
      invariant buf[..] == h + Body(part[..i]) + Zeros(BLOCK_SIZE - offset)
    {
      var it := items[start + i];
      TotalPrefix(part, i);
      if offset + it.Size() > BLOCK_SIZE {
        return Enospc;
      }
      PackStep(part, i, h);
      WriteEntry(buf, offset, it, h + Body(part[..i]));
      offset := offset + it.Size();
      i := i + 1;
    }
    assert part[..i] == part;
    PackEnd(part, entries, overflow);
    CopyBytes(buf, 6, Encode(offset - HEADER, 2));
    err := Ok;
  }

  lemma {:induction false} PackBegin(items: seq<Item>, start: nat, entries: nat, overflow: nat)
    requires start + entries <= |items| && AllFit(items)
    ensures var part, h := items[start..start + entries], Header(entries, 0, overflow);
            && AllFit(part) && AllFit(part[..0]) && |h| == HEADER == 16 && HEADER < BLOCK_SIZE && Total(part[..0]) == 0
            && h + Body(part[..0]) + Zeros(BLOCK_SIZE - HEADER) == h + Zeros(BLOCK_SIZE - HEADER)
            && forall i :: 0 <= i < entries ==> items[start + i] == part[i]
  {
    hide Encode, Zeros;
    BodyNothing();
    assert items[start..start + entries][..0] == [];
  }

  /** The header completed with the used bytes. */
  lemma {:induction false} PackEnd(part: seq<Item>, entries: nat, overflow: nat)
    requires |part| == entries && AllFit(part) && HEADER + Total(part) <= BLOCK_SIZE
    ensures part[..entries] == part && 8 <= BLOCK_SIZE
    ensures Put(Header(entries, 0, overflow) + Body(part) + Zeros(BLOCK_SIZE - (HEADER + Total(part))), 6,
                Encode(Total(part), 2))
            == Packed(part, overflow)
  {
    var rest := Body(part) + Zeros(BLOCK_SIZE - (HEADER + Total(part)));
    HeaderUsed(entries, Total(part), overflow, rest);
    hide Encode, Put, Header, Body, Zeros, Total;
    var h, h2 := Header(entries, 0, overflow), Header(entries, Total(part), overflow);
    assert h + rest == h + Body(part) + Zeros(BLOCK_SIZE - (HEADER + Total(part)));
    assert h2 + rest == h2 + Body(part) + Zeros(BLOCK_SIZE - (HEADER + Total(part)));
  }

  method ClearBuffer(buf: array<byte>)
    modifies buf
    ensures buf[..] == Zeros(buf.Length)
  {
    for i := 0 to buf.Length
      invariant forall k :: 0 <= k < i ==> buf[k] == 0
    {
      buf[i] := 0;
    }
  }

  /** Magic, number of entries and overflow pointer; the used bytes are not known yet. */
  method WriteHeader(buf: array<byte>, entries: nat, overflow: nat)
    requires buf.Length == BLOCK_SIZE && buf[..] == Zeros(BLOCK_SIZE)
    modifies buf
    ensures buf[..] == Header(entries, 0, overflow) + Zeros(BLOCK_SIZE - HEADER)
  {
    var m, n, ov := Encode(MAGIC, 4), Encode(entries, 2), Encode(overflow, 8);
    CopyBytes(buf, 0, m);
    CopyBytes(buf, 4, n);
    CopyBytes(buf, 8, ov);
    EncodeZero(2);
    hide Encode, Header;
    HeaderIs(entries, overflow, buf[..]);
  }

  lemma {:induction false} EncodeZero(n: nat)
    ensures Encode(0, n) == Zeros(n)
  {
    if n > 0 {
      EncodeZero(n - 1);
      assert Zeros(n) == [0] + Zeros(n - 1);
    }
  }

  lemma {:induction false} HeaderIs(entries: nat, overflow: nat, b: seq<byte>)
    requires b == Put(Put(Put(Zeros(BLOCK_SIZE), 0, Encode(MAGIC, 4)), 4, Encode(entries, 2)), 8, Encode(overflow, 8))
    ensures b == Header(entries, 0, overflow) + Zeros(BLOCK_SIZE - HEADER)
  {
    EncodeZero(2);
    hide Encode;
    assert Header(entries, 0, overflow) == Encode(MAGIC, 4) + Encode(entries, 2) + Zeros(2) + Encode(overflow, 8);
  }

  lemma {:induction false} HeaderUsed(entries: nat, used: nat, overflow: nat, rest: seq<byte>)
    ensures Put(Header(entries, 0, overflow) + rest, 6, Encode(used, 2)) == Header(entries, used, overflow) + rest
  {
    hide Encode, Put;
    var a, b := Encode(MAGIC, 4) + Encode(entries, 2), Encode(overflow, 8) + rest;
    PutOver(a, Encode(0, 2), b, Encode(used, 2));
    assert Header(entries, 0, overflow) + rest == a + Encode(0, 2) + b;
    assert Header(entries, used, overflow) + rest == a + Encode(used, 2) + b;
  }

  /** One entry: lengths and namespace, name, value. */
  method WriteEntry(buf: array<byte>, offset: nat, it: Item, ghost front: seq<byte>)
    requires it.Fits() && offset == |front| && offset + it.Size() <= buf.Length
    requires buf[..] == front + Zeros(buf.Length - offset)
    modifies buf
    ensures buf[..] == front + EntryBytes(it) + Zeros(buf.Length - offset - it.Size())
  {
    EntryParts(front, it);
    hide *;
    ghost var n := buf.Length;
    var lens := [|it.name| as byte, USER] + Encode(|it.value|, 2);
    ghost var f1 := front + lens;
    ghost var f2 := f1 + it.name;
    CopyBytes(buf, offset, lens);
    PutBehind(front, lens, n - offset);
    CopyBytes(buf, offset + ENTRY, it.name);
    PutBehind(f1, it.name, n - offset - ENTRY);
    if |it.value| != 0 {
      CopyBytes(buf, offset + ENTRY + |it.name|, it.value);
      PutBehind(f2, it.value, n - offset - ENTRY - |it.name|);
    } else {
      assert f2 + it.value == f2;
    }
  }

  /** An entry is lengths, name and value. */
  lemma {:induction false} EntryParts(front: seq<byte>, it: Item)
    requires it.Fits()
    ensures |it.name| < 256 && 0 <= USER < 256 && ENTRY == 4
    ensures var lens := [|it.name| as byte, USER] + Encode(|it.value|, 2);
            && |lens| == ENTRY && it.Size() == ENTRY + |it.name| + |it.value|
            && front + lens + it.name + it.value == front + EntryBytes(it)
  {
    hide Encode;
  }

  /** Parse a block, arbitrary as it may be, behind `base` items. */
  method Parse(b: Block, base: nat) returns (err: Errno, items: seq<Item>)
    ensures (err, items) == ParseOp(b, base)
  {
    hide Value, EntryOk, ItemAt;
    items := [];
    var entries, used := Value(b[4..6]), Value(b[6..8]);
    if Value(b[..4]) != MAGIC {
      return Euclean, [];
    }
    if base + entries > MAX_ITEMS || used > BLOCK_SIZE - HEADER {
      return Euclean, [];
    }
    var offset: nat, i := HEADER, 0;
    while i < entries
      invariant i <= entries
      invariant ParseEntries(b, HEADER, entries)
                == match ParseEntries(b, offset, entries - i)
                   case Bad => Bad
                   case Good(rest, e) => Good(items + rest, e)
    {
      if !EntryOk(b, offset) {
        return Euclean, [];
      }
      var it := ItemAt(b, offset);
      assert forall rest: seq<Item> :: items + ([it] + rest) == items + [it] + rest;
      items := items + [it];
      offset := offset + it.Size();
      i := i + 1;
    }
    assert items + [] == items;
    if offset != HEADER + used {
      return Euclean, [];
    }
    err := Ok;
  }

  const NO_GROUP := 0xFFFF_FFFF_FFFF_FFFF

  class XattrInode {
    const alloc: Allocator.Allocator
    /** Overflow blocks are allowed. */
    const large: bool
    /** Contents of blocks on disk. */
    var disk: map<nat, Block>
    /** Number of the attribute block, 0 for none. */
    var root: nat

    constructor (alloc: Allocator.Allocator, large: bool, disk: map<nat, Block>)
      requires alloc.Valid() && alloc.l.blocksCount <= NUMBER_LIMIT
      ensures Valid() && this.alloc == alloc && root == 0 && this.large == large && this.disk == disk
    {
      this.alloc, this.large, this.disk, this.root := alloc, large, disk, 0;
    }

    /** The overflow block that belongs to the inode, 0 for none. */
    function OverflowBlock(): nat
      reads this
    {
      if root in disk && root != 0 then Overflow(disk[root]) else 0
    }

    /** The blocks the attributes take. */
    ghost function Owned(): set<nat>
      reads this
    {
      (if root == 0 then {} else {root}) + (if OverflowBlock() == 0 then {} else {OverflowBlock()})
    }

    ghost predicate Valid()
      reads this, alloc, alloc.bitmaps, alloc.free
    {
      && alloc.Valid() && alloc.l.blocksCount <= NUMBER_LIMIT
      && (root != 0 ==> root in disk) && Owned() <= alloc.InUse() && (root != 0 ==> OverflowBlock() != root)
    }

    /** Read all attributes back. */
    method Load() returns (err: Errno, items: seq<Item>)
      ensures (err, items) == LoadOp(disk, root, large)
    {
      hide ParseOp, Overflow;
      if root == 0 {
        return Ok, [];
      }
      if root !in disk {
        return Eio, [];
      }
      err, items := Parse(disk[root], 0);
      var overflow := Overflow(disk[root]);
      if err != Ok || overflow == 0 {
        if err != Ok {
          items := [];
        }
        return;
      }
      if !large {
        return Euclean, [];
      }
      if overflow !in disk {
        return Eio, [];
      }
      var rest;
      err, rest := Parse(disk[overflow], |items|);
      if err != Ok {
        return err, [];
      }
      if Overflow(disk[overflow]) != 0 {
        return Euclean, [];
      }
      items := items + rest;
    }

    /** Give up all attribute blocks. */
    method FreeStorage()
      requires Valid()
      modifies this`root, alloc, alloc.bitmaps, alloc.free
      ensures Valid() && alloc.bitmaps == old(alloc.bitmaps) && alloc.free == old(alloc.free)
      ensures root == 0 && alloc.InUse() == old(alloc.InUse()) - old(Owned())
    {
      hide Overflow, Allocator.Consistent, Allocator.UsedBlocks, Allocator.Allocator.Valid, Allocator.Allocator.InUse;
      hide Allocator.Allocator.State;
      if root == 0 {
        return;
      }
      var overflow := Overflow(disk[root]);
      var ignored;
      if overflow != 0 {
        ignored := alloc.FreeBlock(overflow);
      }
      ignored := alloc.FreeBlock(root);
      root := 0;
    }

    /** A fresh block. */
    method TakeBlock() returns (err: Errno, block: nat)
      requires alloc.Valid()
      modifies alloc, alloc.bitmaps, alloc.free
      ensures alloc.Valid() && alloc.bitmaps == old(alloc.bitmaps) && alloc.free == old(alloc.free)
      ensures err == if old(alloc.superFree) == 0 then Enospc else Ok
      ensures err == Ok ==>
                && 0 < block < alloc.l.blocksCount && block !in old(alloc.InUse())
                && alloc.InUse() == old(alloc.InUse()) + {block} && alloc.superFree == old(alloc.superFree) - 1
      ensures err != Ok ==> alloc.InUse() == old(alloc.InUse()) && alloc.superFree == old(alloc.superFree)
    {
      assert alloc.l.blocksPerGroup > 0;
      assert forall b: nat :: alloc.l.DataBlock(b) ==> 0 < b < alloc.l.blocksCount;
      hide *;
      var aerr;
      aerr, block := alloc.AllocBlockGoal(0, NO_GROUP);
      err := if aerr == Allocator.Ok then Ok else Enospc;
    }

    /** The two blocks of a list: refused unless its sizes allow it. */
    method PackBoth(items: seq<Item>, overflow: nat) returns (err: Errno, rootBlock: Block, overflowBlock: Block)
      requires AllFit(items)
      ensures var r := GreedyCount(items, HEADER);
              && AllFit(items[..r]) && AllFit(items[r..]) && HEADER + Total(items[..r]) <= BLOCK_SIZE
              && err == (if r == |items| || HEADER + Total(items[r..]) <= BLOCK_SIZE then Ok else Enospc)
              && (err == Ok ==>
                    && rootBlock == Packed(items[..r], if r < |items| then overflow else 0)
                    && (r < |items| ==> overflowBlock == Packed(items[r..], 0)))
    {
      var r := CountRoot(items);
      AllFitParts(items, r);
      GreedyIsLongest(items, HEADER, r);
      var rootBuf := new byte[BLOCK_SIZE](i => 0);
      var overflowBuf := new byte[BLOCK_SIZE](i => 0);
      rootBlock, overflowBlock := Zeros(BLOCK_SIZE), Zeros(BLOCK_SIZE);
      hide *;
      assert items[r..r + (|items| - r)] == items[r..] && items[0..0 + r] == items[..r];
      if r < |items| {
        err := Pack(overflowBuf, items, r, |items| - r, 0);
        if err != Ok {
          return;
        }
        overflowBlock := overflowBuf[..];
      }
      err := Pack(rootBuf, items, 0, r, if r < |items| then overflow else 0);
      rootBlock := rootBuf[..];
    }

    /** How many items the root block takes. */
    method CountRoot(items: seq<Item>) returns (r: nat)
      ensures r == GreedyCount(items, HEADER)
    {
      r := 0;
      var used := HEADER;
      assert items[0..] == items;
      while r < |items|
        invariant r <= |items| && HEADER <= used && GreedyCount(items, HEADER) == r + GreedyCount(items[r..], used)
      {
        assert items[r..][0] == items[r] && items[r..][1..] == items[r + 1..];
        if used + items[r].Size() > BLOCK_SIZE {
          break;
        }
        used := used + items[r].Size();
        r := r + 1;
      }
    }

    /** Is there an item too long for a block? */
    method CheckSizes(items: seq<Item>) returns (err: Errno)
      ensures err == if forall i :: 0 <= i < |items| ==> items[i].Size() <= BLOCK_SIZE - HEADER then Ok else Enospc
    {
      for i := 0 to |items|
        invariant forall j :: 0 <= j < i ==> items[j].Size() <= BLOCK_SIZE - HEADER
      {
        if items[i].Size() > BLOCK_SIZE - HEADER {
          return Enospc;
        }
      }
      err := Ok;
    }

    /** The blocks that have to be allocated to write a list. */
    function Needed(items: seq<Item>): nat
      reads this
    {
      (if root == 0 then 1 else 0) + (if GreedyCount(items, HEADER) < |items| && OverflowBlock() == 0 then 1 else 0)
    }

    /** Allocate what is missing and pack both blocks. When that fails, what was allocated is given back. */
    method Prepare(items: seq<Item>)
      returns (err: Errno, rootBlock: nat, overflow: nat, rootBuf: Block, overflowBuf: Block)
      requires Valid() && AllFit(items)
      modifies alloc, alloc.bitmaps, alloc.free
      ensures alloc.Valid() && alloc.bitmaps == old(alloc.bitmaps) && alloc.free == old(alloc.free)
      ensures err == if Storable(items, large) && Needed(items) <= old(alloc.superFree) then Ok else Enospc
      ensures err != Ok ==> alloc.InUse() == old(alloc.InUse())
      ensures err == Ok ==>
                var r := GreedyCount(items, HEADER);
                && alloc.InUse() == old(alloc.InUse()) + {rootBlock} + (if r < |items| then {overflow} else {})
                && 0 < rootBlock && (root != 0 ==> rootBlock == root) && (root == 0 ==> rootBlock !in old(alloc.InUse()))
                && overflow < NUMBER_LIMIT
                && (r < |items| ==>
                      && large && overflow != 0 && overflow != rootBlock
                      && (if OverflowBlock() != 0 then overflow == OverflowBlock() else overflow !in old(alloc.InUse())))
                && AllFit(items[..r]) && HEADER + Total(items[..r]) <= BLOCK_SIZE
                && rootBuf == Packed(items[..r], if r < |items| then overflow else 0)
                && (r < |items| ==>
                      && AllFit(items[r..]) && HEADER + Total(items[r..]) <= BLOCK_SIZE && overflowBuf == Packed(items[r..], 0))
    {
      OverflowNumber();
      hide Packed, Total, GreedyCount, AllFit, Item.Size, Overflow, Allocator.Layout.DataBlock;
      hide Allocator.Consistent, Allocator.UsedBlocks, Allocator.Allocator.Valid, Allocator.Allocator.InUse;
      hide Allocator.Allocator.State;
      rootBlock, overflow, rootBuf, overflowBuf := root, 0, Zeros(BLOCK_SIZE), Zeros(BLOCK_SIZE);
      var rootNew, overflowNew := root == 0, false;
      if rootNew {
        err, rootBlock := TakeBlock();
        if err != Ok {
          return;
        }
      } else {
        overflow := Overflow(disk[rootBlock]);
      }
      err := CheckSizes(items);
      if err == Ok {
        var r := CountRoot(items);
        if r < |items| {
          if !large {
            err := Enospc;
          } else if overflow == 0 {
            err, overflow := TakeBlock();
            overflowNew := err == Ok;
          }
        }
        if err == Ok {
          err, rootBuf, overflowBuf := PackBoth(items, overflow);
        }
      }
      if err != Ok {
        var ignored;
        if rootNew {
          ignored := alloc.FreeBlock(rootBlock);
        }
        if overflowNew {
          ignored := alloc.FreeBlock(overflow);
        }
      }
    }

    /** Overflow pointers are numbers of 64 bits. */
    lemma {:induction false} OverflowNumber()
      ensures OverflowBlock() < NUMBER_LIMIT
    {
      if root in disk {
        Widths();
        ValueBound(disk[root][8..16]);
      }
    }

    /** Replace all attributes. The list can be loaded back, or it is refused before any block is written. */
    method Write(items: seq<Item>) returns (err: Errno)
      requires Valid() && AllFit(items) && |items| <= MAX_ITEMS
      modifies this`disk, this`root, alloc, alloc.bitmaps, alloc.free
      ensures Valid() && alloc.bitmaps == old(alloc.bitmaps) && alloc.free == old(alloc.free)
      ensures err == if items == [] || (Storable(items, large) && old(Needed(items)) <= old(alloc.superFree)) then Ok
              else Enospc
      ensures err == Ok ==>
                && LoadOp(disk, root, large) == (Ok, items)
                && alloc.InUse() == old(alloc.InUse()) - old(Owned()) + Owned() && Owned() !! old(alloc.InUse()) - old(Owned())
      ensures err != Ok ==> disk == old(disk) && root == old(root) && alloc.InUse() == old(alloc.InUse())
    {
      hide *;
      if |items| == 0 {
        FreeStorage();
        NothingStored(disk, large);
        NothingOwned();
        return Ok;
      }
      ValidParts();
      var rootBlock, overflow, rootBuf, overflowBuf;
      var oldOverflow := if root == 0 then 0 else Overflow(disk[root]);
      err, rootBlock, overflow, rootBuf, overflowBuf := Prepare(items);
      if err != Ok {
        StillValid(old(alloc.InUse()));
        return;
      }
      var r := CountRoot(items);
      CountBound(items);
      PackedOverflow(items[..r], if r < |items| then overflow else 0);
      ghost var after := (if r < |items| then disk[overflow := overflowBuf] else disk)[rootBlock := rootBuf];
      SplitLoads(after, rootBlock, overflow, items, large);
      Install(r < |items|, rootBlock, overflow, rootBuf, overflowBuf, oldOverflow, old(alloc.InUse()));
    }

    lemma {:induction false} ValidParts()
      requires Valid()
      ensures alloc.Valid() && alloc.l.blocksCount <= NUMBER_LIMIT && (root != 0 ==> root in disk)
      ensures Owned() <= alloc.InUse() && (root != 0 ==> OverflowBlock() != root)
      ensures OverflowBlock() == if root == 0 then 0 else Overflow(disk[root])
    {
    }

    lemma {:induction false} StillValid(was: set<nat>)
      requires alloc.Valid() && alloc.l.blocksCount <= NUMBER_LIMIT && (root != 0 ==> root in disk)
      requires Owned() <= was == alloc.InUse() && (root != 0 ==> OverflowBlock() != root)
      ensures Valid()
    {
    }

    lemma {:induction false} NothingOwned()
      requires root == 0
      ensures Owned() == {}
    {
    }

    /** Write the prepared blocks, overflow block first, and free an overflow block that is no longer needed. */
    method Install(split: bool, rootBlock: nat, overflow: nat, rootBuf: Block, overflowBuf: Block, oldOverflow: nat,
                   ghost before: set<nat>)
      requires alloc.Valid() && alloc.l.blocksCount <= NUMBER_LIMIT && 0 < rootBlock
      requires root != 0 ==> root == rootBlock && root in disk
      requires oldOverflow == OverflowBlock() && Owned() <= before && oldOverflow != rootBlock
      requires alloc.InUse() == before + {rootBlock} + if split then {overflow} else {}
      requires root == 0 ==> rootBlock !in before
      requires Overflow(rootBuf) == if split then overflow else 0
      requires split ==> overflow != 0 && overflow != rootBlock && if oldOverflow != 0 then overflow == oldOverflow
               else overflow !in before
      modifies this`disk, this`root, alloc, alloc.bitmaps, alloc.free
      ensures Valid() && alloc.bitmaps == old(alloc.bitmaps) && alloc.free == old(alloc.free)
      ensures root == rootBlock
      ensures disk == (if split then old(disk)[overflow := overflowBuf] else old(disk))[rootBlock := rootBuf]
      ensures alloc.InUse() == before - old(Owned()) + Owned() && Owned() !! before - old(Owned())
    {
      hide Overflow, Allocator.Consistent, Allocator.UsedBlocks, Allocator.Allocator.Valid, Allocator.Allocator.InUse;
      hide Allocator.Allocator.State;
      if split {
        disk := disk[overflow := overflowBuf];
      }
      disk := disk[rootBlock := rootBuf];
      root := rootBlock;
      assert OverflowBlock() == if split then overflow else 0;
      if !split && oldOverflow != 0 {
        var ignored := alloc.FreeBlock(oldOverflow);
      }
    }

    /** Set, replace or remove one attribute. */
    method Set(name: seq<byte>, value: Option<seq<byte>>, create: bool, replace: bool) returns (err: Errno)
      requires Valid()
      modifies this`disk, this`root, alloc, alloc.bitmaps, alloc.free
      ensures Valid() && alloc.bitmaps == old(alloc.bitmaps) && alloc.free == old(alloc.free)
      ensures err != Ok ==> disk == old(disk) && root == old(root) && alloc.InUse() == old(alloc.InUse())
      ensures var was, op := old(LoadOp(disk, root, large)),
                             SetOp(old(LoadOp(disk, root, large).1), name, value, create, replace);
              && (name == [] ==> err == Einval)
              && (|name| > MAX_NAME ==> err == Erange)
              && (0 < |name| <= MAX_NAME && was.0 != Ok ==> err == was.0)
              && (0 < |name| <= MAX_NAME && was.0 == Ok && op.0 != Ok ==> err == op.0)
              && (0 < |name| <= MAX_NAME && was.0 == Ok && op.0 == Ok ==>
                    var needed := old(Needed(SetOp(LoadOp(disk, root, large).1, name, value, create, replace).1));
                    err == if op.1 == [] || (Storable(op.1, large) && needed <= old(alloc.superFree)) then Ok else Enospc)
              && (err == Ok ==> LoadOp(disk, root, large) == (Ok, op.1))
    {
      if name == [] {
        return Einval;
      }
      if |name| > MAX_NAME {
        return Erange;
      }
      var items;
      err, items := Load();
      if err != Ok {
        return;
      }
      LoadedFits(disk, root, large);
      SetFits(items, name, value, create, replace);
      err, items := Edit(items, name, value, create, replace);
      if err != Ok {
        return;
      }
      hide *;
      err := Write(items);
    }

    /** The edit of the loaded list. */
    method Edit(items: seq<Item>, name: seq<byte>, value: Option<seq<byte>>, create: bool, replace: bool)
      returns (err: Errno, after: seq<Item>)
      ensures (err, after) == SetOp(items, name, value, create, replace)
    {
      var i := 0;
      after := items;
      assert items[0..] == items;
      while i < |items| && items[i].name != name
        invariant i <= |items| && IndexOf(items, name) == i + IndexOf(items[i..], name)
      {
        assert items[i..][0] == items[i] && items[i..][1..] == items[i + 1..];
        i := i + 1;
      }
      assert i == IndexOf(items, name);
      hide IndexOf;
      if create && i < |items| {
        return Eexist, items;
      }
      if replace && i == |items| {
        return Enodata, items;
      }
      if value.None? {
        if i == |items| {
          return Enodata, items;
        }
        return Ok, items[..i] + items[i + 1..];
      }
      var it := Item(name, value.value[..|value.value| % VALUE_LIMIT]);
      if i < |items| {
        return Ok, items[i := it];
      }
      if |items| >= MAX_ITEMS {
        return Enospc, items;
      }
      return Ok, items + [it];
    }
  }

  lemma {:induction false} PackedOverflow(items: seq<Item>, overflow: nat)
    requires AllFit(items) && HEADER + Total(items) <= BLOCK_SIZE && overflow < NUMBER_LIMIT
    ensures Overflow(Packed(items, overflow)) == overflow
  {
    hide Encode, Value, Body, Total, Zeros;
    Widths();
    ValueOfEncode(overflow, 8);
    HeaderParts(|items|, Total(items), overflow);
    hide Header;
    LayoutParts(Header(|items|, Total(items), overflow), Body(items), Zeros(BLOCK_SIZE - HEADER - Total(items)));
  }

  /** What loads has names and values that fit, and is not too long. */
  lemma {:induction false} LoadedFits(disk: map<nat, Block>, root: nat, large: bool)
    requires LoadOp(disk, root, large).0 == Ok
    ensures AllFit(LoadOp(disk, root, large).1) && |LoadOp(disk, root, large).1| <= MAX_ITEMS
  {
    hide ParseOp, Overflow, Packed, Item.Fits;
    if root != 0 {
      PackUndoesParse(disk[root], 0);
      if Overflow(disk[root]) != 0 {
        PackUndoesParse(disk[Overflow(disk[root])], |ParseOp(disk[root], 0).1|);
      }
    }
  }

  lemma {:induction false} SetFits(items: seq<Item>, name: seq<byte>, value: Option<seq<byte>>, create: bool,
                                   replace: bool)
    requires AllFit(items) && |items| <= MAX_ITEMS && 0 < |name| <= MAX_NAME
    ensures AllFit(SetOp(items, name, value, create, replace).1)
    ensures |SetOp(items, name, value, create, replace).1| <= MAX_ITEMS
  {
    hide IndexOf;
  }

  lemma {:induction false} NothingStored(disk: map<nat, Block>, large: bool)
    ensures LoadOp(disk, 0, large) == (Ok, [])
  {
  }

  lemma {:induction false} CountBound(items: seq<Item>)
    ensures GreedyCount(items, HEADER) <= |items|
  {
  }
}
