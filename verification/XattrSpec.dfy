/** Extended attribute blocks as values. */
module XattrSpec {
  import opened Bytes

  datatype Errno = Ok | Enospc | Euclean | Eio | Eexist | Enodata | Einval | Erange

  datatype Option<+T> = None | Some(value: T)

  const MAGIC := 0x58415454
  const USER := 1
  const HEADER := 16
  const ENTRY := 4
  const MAX_ITEMS := 32
  const MAX_NAME := 247
  const VALUE_LIMIT := 0x1_0000
  const NUMBER_LIMIT := 0x1_0000_0000_0000_0000

  datatype Item = Item(name: seq<byte>, value: seq<byte>) {
    function Size(): nat { ENTRY + |name| + |value| }

    /** Names are not empty and fit; the length of the value is kept in 16 bits. */
    predicate Fits() { 0 < |name| <= MAX_NAME && |value| < VALUE_LIMIT }
  }

  predicate AllFit(items: seq<Item>) {
    forall i :: 0 <= i < |items| ==> items[i].Fits()
  }

  function Total(items: seq<Item>): nat {
    if items == [] then 0 else items[0].Size() + Total(items[1..])
  }

  // ----- the packed format

  function EntryBytes(it: Item): (s: seq<byte>)
    requires it.Fits()
    ensures |s| == it.Size()
  {
    [|it.name| as byte, USER] + Encode(|it.value|, 2) + it.name + it.value
  }

  function Body(items: seq<Item>): (s: seq<byte>)
    requires AllFit(items)
    ensures |s| == Total(items)
  {
    if items == [] then [] else EntryBytes(items[0]) + Body(items[1..])
  }

  function Header(entries: nat, used: nat, overflow: nat): (s: seq<byte>)
    ensures |s| == HEADER
  {
    Encode(MAGIC, 4) + Encode(entries, 2) + Encode(used, 2) + Encode(overflow, 8)
  }

  /** A block that holds some items and points to an overflow block. */
  function Packed(items: seq<Item>, overflow: nat): Block
    requires AllFit(items) && HEADER + Total(items) <= BLOCK_SIZE
  {
    Header(|items|, Total(items), overflow) + Body(items) + Zeros(BLOCK_SIZE - HEADER - Total(items))
  }

  /** The overflow pointer of a block. */
  function Overflow(b: Block): nat { Value(b[8..16]) }

  // ----- parsing

  datatype Parsed = Good(items: seq<Item>, offset: nat) | Bad

  function NameLen(b: Block, o: nat): nat
    requires o + ENTRY <= BLOCK_SIZE
  {
    b[o]
  }

  function ValueLen(b: Block, o: nat): nat
    requires o + ENTRY <= BLOCK_SIZE
  {
    Value(b[o + 2..o + 4])
  }

  /** The checks on one entry. */
  predicate EntryOk(b: Block, o: nat) {
    && o + ENTRY <= BLOCK_SIZE
    && 0 < NameLen(b, o) <= MAX_NAME && b[o + 1] == USER
    && o + ENTRY + NameLen(b, o) + ValueLen(b, o) <= BLOCK_SIZE
  }

  function ItemAt(b: Block, o: nat): Item
    requires EntryOk(b, o)
  {
    var v := o + ENTRY + NameLen(b, o);
    Item(b[o + ENTRY..v], b[v..v + ValueLen(b, o)])
  }

  /** `n` entries from `o` on, over arbitrary bytes. */
  function ParseEntries(b: Block, o: nat, n: nat): Parsed
    decreases n
  {
    if n == 0 then Good([], o)
    else if !EntryOk(b, o) then Bad
    else
      match ParseEntries(b, o + ItemAt(b, o).Size(), n - 1)
      case Bad => Bad
      case Good(rest, e) => Good([ItemAt(b, o)] + rest, e)
  }

  /** A whole block, behind `base` items that were read before. */
  function ParseOp(b: Block, base: nat): (Errno, seq<Item>)
  {
    var entries, used := Value(b[4..6]), Value(b[6..8]);
    if Value(b[..4]) != MAGIC then (Euclean, [])
    else if base + entries > MAX_ITEMS || used > BLOCK_SIZE - HEADER then (Euclean, [])
    else
      match ParseEntries(b, HEADER, entries)
      case Bad => (Euclean, [])
      case Good(items, e) => if e != HEADER + used then (Euclean, []) else (Ok, items)
  }

  lemma {:induction false} JoinSlices(b: Block, o: nat, m: nat, e: nat)
    requires o <= m <= e <= BLOCK_SIZE
    ensures b[o..e] == b[o..m] + b[m..e]
  {
  }

  lemma {:induction false} BodyNothing()
    ensures AllFit([]) && Total([]) == 0 && Body([]) == []
  {
  }

  lemma {:induction false} BodyCons(it: Item, rest: seq<Item>)
    requires it.Fits() && AllFit(rest)
    ensures AllFit([it] + rest) && Total([it] + rest) == it.Size() + Total(rest)
    ensures Body([it] + rest) == EntryBytes(it) + Body(rest)
  {
    assert ([it] + rest)[1..] == rest;
  }

  /** Packed entries parse to the items they were packed from. */
  lemma {:induction false} ParseBody(b: Block, o: nat, items: seq<Item>)
    requires AllFit(items) && o + Total(items) <= BLOCK_SIZE && b[o..o + Total(items)] == Body(items)
    ensures ParseEntries(b, o, |items|) == Good(items, o + Total(items))
    decreases |items|
  {
    hide *;
    ParseStep(b, o, |items|);
    if items != [] {
      var it, rest := items[0], items[1..];
      BodyParts(b, o, items);
      ParseEntry(b, o, it);
      ParseBody(b, o + it.Size(), rest);
      assert items == [it] + rest;
    } else {
      NoItems();
    }
  }

  lemma {:induction false} NoItems()
    ensures Total([]) == 0 && Body([]) == []
  {
  }

  /** One entry of the parse. */
  lemma {:induction false} ParseStep(b: Block, o: nat, n: nat)
    ensures n == 0 ==> ParseEntries(b, o, n) == Good([], o)
    ensures n > 0 && EntryOk(b, o) ==>
              ParseEntries(b, o, n) == match ParseEntries(b, o + ItemAt(b, o).Size(), n - 1)
                                       case Bad => Bad
                                       case Good(rest, e) => Good([ItemAt(b, o)] + rest, e)
  {
    hide EntryOk, ItemAt, Item.Size;
  }

  /** The bytes of a packed list start with those of its first item. */
  lemma {:induction false} BodyParts(b: Block, o: nat, items: seq<Item>)
    requires items != [] && AllFit(items) && o + Total(items) <= BLOCK_SIZE && b[o..o + Total(items)] == Body(items)
    ensures var n, rest := items[0].Size(), items[1..];
            && items[0].Fits() && AllFit(rest) && Total(items) == n + Total(rest) && o + n <= BLOCK_SIZE
            && b[o..o + n] == EntryBytes(items[0]) && b[o + n..o + n + Total(rest)] == Body(rest)
  {
    var n, rest := items[0].Size(), items[1..];
    var s := b[o..o + Total(items)];
    hide EntryBytes;
    assert s[..n] == EntryBytes(items[0]) && s[n..] == Body(rest);
    assert b[o..o + n] == s[..n] && b[o + n..o + n + Total(rest)] == s[n..];
  }

  lemma {:induction false} ParseEntry(b: Block, o: nat, it: Item)
    requires it.Fits() && o + it.Size() <= BLOCK_SIZE && b[o..o + it.Size()] == EntryBytes(it)
    ensures EntryOk(b, o) && ItemAt(b, o) == it
  {
    var e := EntryBytes(it);
    hide Encode, Value;
    Widths();
    ValueOfEncode(|it.value|, 2);
    var n, v := |it.name|, |it.value|;
    assert e[0] == n && e[1] == USER && e[2..4] == Encode(v, 2) && e[4..4 + n] == it.name && e[4 + n..4 + n + v] == it.value;
    hide EntryBytes;
    assert b[o] == b[o..o + it.Size()][0] && b[o + 1] == b[o..o + it.Size()][1];
    SubSlice(b, o, it.Size(), 2, 4);
    SubSlice(b, o, it.Size(), 4, 4 + n);
    SubSlice(b, o, it.Size(), 4 + n, 4 + n + v);
  }

  /** Whatever parses is the packing of what it parses to. */
  lemma {:induction false} ParsedBody(b: Block, o: nat, n: nat)
    requires o <= BLOCK_SIZE && ParseEntries(b, o, n).Good?
    ensures var items := ParseEntries(b, o, n).items;
            && |items| == n && AllFit(items) && o + Total(items) <= BLOCK_SIZE
            && ParseEntries(b, o, n).offset == o + Total(items) && b[o..o + Total(items)] == Body(items)
    decreases n
  {
    hide EntryOk, ItemAt, EntryBytes, Total, Body, AllFit, Item.Fits, Item.Size;
    if n == 0 {
      BodyNothing();
      assert b[o..o] == [];
    } else {
      var it := ItemAt(b, o);
      ParsedEntry(b, o);
      ParsedBody(b, o + it.Size(), n - 1);
      var rest := ParseEntries(b, o + it.Size(), n - 1).items;
      BodyCons(it, rest);
      JoinSlices(b, o, o + it.Size(), o + it.Size() + Total(rest));
    }
  }

  lemma {:induction false} ParsedEntry(b: Block, o: nat)
    requires EntryOk(b, o)
    ensures ItemAt(b, o).Fits() && o + ItemAt(b, o).Size() <= BLOCK_SIZE
    ensures b[o..o + ItemAt(b, o).Size()] == EntryBytes(ItemAt(b, o))
  {
    var it := ItemAt(b, o);
    hide Encode, Value;
    Widths();
    ValueBound(b[o + 2..o + 4]);
    EncodeOfValue(b[o + 2..o + 4]);
    var n, v := |it.name|, |it.value|;
    assert b[o..o + it.Size()] == [b[o], b[o + 1]] + b[o + 2..o + 4] + b[o + 4..o + 4 + n] + b[o + 4 + n..o + 4 + n + v];
  }

  lemma {:induction false} PackedParts(items: seq<Item>, overflow: nat)
    requires AllFit(items) && HEADER + Total(items) <= BLOCK_SIZE
    requires |items| <= MAX_ITEMS && overflow < NUMBER_LIMIT
    ensures var b := Packed(items, overflow);
            && Value(b[..4]) == MAGIC && Value(b[4..6]) == |items| && Value(b[6..8]) == Total(items)
            && Overflow(b) == overflow && b[HEADER..HEADER + Total(items)] == Body(items)
  {
    hide Encode, Value, Body, Total, Zeros;
    var t := Total(items);
    Widths();
    ValueOfEncode(MAGIC, 4);
    ValueOfEncode(|items|, 2);
    ValueOfEncode(t, 2);
    ValueOfEncode(overflow, 8);
    HeaderParts(|items|, t, overflow);
    hide Header;
    LayoutParts(Header(|items|, t, overflow), Body(items), Zeros(BLOCK_SIZE - HEADER - t));
  }

  lemma {:induction false} HeaderParts(entries: nat, used: nat, overflow: nat)
    ensures var h := Header(entries, used, overflow);
            && |h| == HEADER && h[..4] == Encode(MAGIC, 4) && h[4..6] == Encode(entries, 2) && h[6..8] == Encode(used, 2)
            && h[8..16] == Encode(overflow, 8)
  {
    hide Encode;
  }

  lemma {:induction false} LayoutParts(h: seq<byte>, body: seq<byte>, z: seq<byte>)
    requires |h| == HEADER
    ensures var b := h + body + z;
            && |b| == HEADER + |body| + |z|
            && b[..4] == h[..4] && b[4..6] == h[4..6] && b[6..8] == h[6..8] && b[8..16] == h[8..16]
            && b[HEADER..HEADER + |body|] == body
  {
    var b := h + body + z;
    assert forall i :: 0 <= i < HEADER ==> b[i] == h[i];
  }

  /** Parsing undoes packing. */
  lemma {:induction false} ParseUndoesPack(items: seq<Item>, overflow: nat, base: nat)
    requires AllFit(items) && HEADER + Total(items) <= BLOCK_SIZE
    requires base + |items| <= MAX_ITEMS && overflow < NUMBER_LIMIT
    ensures ParseOp(Packed(items, overflow), base) == (Ok, items) && Overflow(Packed(items, overflow)) == overflow
  {
    hide Packed, Value, Body, Total, ParseEntries, AllFit;
    PackedParts(items, overflow);
    ParseBody(Packed(items, overflow), HEADER, items);
  }

  /** A block that parses agrees with the packing of its items up to the end of the used bytes. */
  lemma {:induction false} PackUndoesParse(b: Block, base: nat)
    requires ParseOp(b, base).0 == Ok
    ensures var items := ParseOp(b, base).1;
            && AllFit(items) && base + |items| <= MAX_ITEMS && HEADER + Total(items) <= BLOCK_SIZE
            && b[..HEADER + Total(items)] == Packed(items, Overflow(b))[..HEADER + Total(items)]
  {
    var n := Value(b[4..6]);
    ParsedBody(b, HEADER, n);
    var items := ParseOp(b, base).1;
    EncodeOfValue(b[..4]);
    EncodeOfValue(b[4..6]);
    EncodeOfValue(b[6..8]);
    EncodeOfValue(b[8..16]);
    hide Encode, Value, Body, Total, Zeros, ParseEntries;
    var t := Total(items);
    assert b[..HEADER + t] == b[..4] + b[4..6] + b[6..8] + b[8..16] + b[HEADER..HEADER + t];
    assert Packed(items, Overflow(b))[..HEADER + t] == Header(|items|, t, Overflow(b)) + Body(items);
  }

  /** The used bytes of a block are the packing of a list that fits behind `base` others. */
  ghost predicate Spells(b: Block, items: seq<Item>, base: nat) {
    && AllFit(items) && base + |items| <= 32 && 16 + Total(items) <= 4096
    && b[..16 + Total(items)] == Packed(items, Overflow(b))[..16 + Total(items)]
  }

  /** Over arbitrary bytes: exactly the blocks whose used bytes are the packing of some list are accepted, and read as
      that list. */
  lemma {:induction false} ParsedExactly(b: Block, base: nat)
    ensures ParseOp(b, base).0 == Ok <==> exists items :: Spells(b, items, base)
    ensures forall items :: Spells(b, items, base) ==> ParseOp(b, base) == (Ok, items)
    ensures ParseOp(b, base).0 == Ok || ParseOp(b, base) == (Euclean, [])
  {
    if ParseOp(b, base).0 == Ok {
      PackUndoesParse(b, base);
      assert Spells(b, ParseOp(b, base).1, base);
    }
    forall items | Spells(b, items, base) ensures ParseOp(b, base) == (Ok, items) {
      SpelledParses(b, items, base);
    }
  }

  lemma {:induction false} SpelledParses(b: Block, items: seq<Item>, base: nat)
    requires Spells(b, items, base)
    ensures ParseOp(b, base) == (Ok, items)
  {
    Widths();
    ValueBound(b[8..16]);
    hide Packed, Value, Body, Total, ParseEntries, AllFit;
    var w, n := Packed(items, Overflow(b)), 16 + Total(items);
    PackedParts(items, Overflow(b));
    SameFront(b, w, n, 0, 4);
    SameFront(b, w, n, 4, 6);
    SameFront(b, w, n, 6, 8);
    SameFront(b, w, n, 16, n);
    ParseBody(b, HEADER, items);
  }

  lemma {:induction false} SameFront(b: Block, w: Block, n: nat, i: nat, j: nat)
    requires i <= j <= n <= BLOCK_SIZE && b[..n] == w[..n]
    ensures b[i..j] == w[i..j]
  {
    assert b[i..j] == b[..n][i..j] && w[i..j] == w[..n][i..j];
  }

  // ----- the split over two blocks

  /** How many items the first block takes: as many from the front as fit. */
  function GreedyCount(items: seq<Item>, used: nat): (n: nat)
    ensures n <= |items|
  {
    if items == [] || used + items[0].Size() > BLOCK_SIZE then 0 else 1 + GreedyCount(items[1..], used + items[0].Size())
  }

  lemma {:induction false} TotalSplit(a: seq<Item>, b: seq<Item>)
    ensures Total(a + b) == Total(a) + Total(b)
  {
    if a == [] {
      assert a + b == b;
    } else {
      TotalSplit(a[1..], b);
      assert (a + b)[1..] == a[1..] + b;
    }
  }

  /** The first block takes the longest front that fits. */
  lemma {:induction false} GreedyIsLongest(items: seq<Item>, used: nat, n: nat)
    requires n <= |items| && used <= BLOCK_SIZE
    ensures used + Total(items[..n]) <= BLOCK_SIZE <==> n <= GreedyCount(items, used)
  {
    if n > 0 {
      assert items[..n][0] == items[0] && items[..n][1..] == items[1..][..n - 1];
      if used + items[0].Size() <= BLOCK_SIZE {
        GreedyIsLongest(items[1..], used + items[0].Size(), n - 1);
      }
    }
  }

  /** The sizes allow the list to be stored: no item is too long for a block, and what the first block does not
      take fits the second, if there may be one. */
  predicate Storable(items: seq<Item>, large: bool) {
    var r := GreedyCount(items, HEADER);
    && (forall i :: 0 <= i < |items| ==> items[i].Size() <= BLOCK_SIZE - HEADER)
    && (r < |items| ==> large && HEADER + Total(items[r..]) <= BLOCK_SIZE)
  }

  /** The list is put into both blocks at some place, or into the first one alone. */
  ghost predicate FitsAt(items: seq<Item>, large: bool, k: nat) {
    && k <= |items| && 16 + Total(items[..k]) <= 4096
    && (k < |items| ==> large && 16 + Total(items[k..]) <= 4096)
  }

  /** The greedy split finds a place whenever there is one. */
  lemma {:induction false} StorableExactly(items: seq<Item>, large: bool)
    ensures Storable(items, large) <==> exists k: nat :: FitsAt(items, large, k)
  {
    var r := GreedyCount(items, HEADER);
    GreedyIsLongest(items, HEADER, r);
    if Storable(items, large) {
      assert FitsAt(items, large, r);
    }
    if k: nat :| FitsAt(items, large, k) {
      GreedyIsLongest(items, HEADER, k);
      assert items[k..] == items[k..r] + items[r..];
      TotalSplit(items[k..r], items[r..]);
      forall i | 0 <= i < |items| ensures items[i].Size() <= BLOCK_SIZE - HEADER {
        if i < k {
          SizeInTotal(items[..k], i);
        } else {
          SizeInTotal(items[k..], i - k);
        }
      }
    }
  }

  lemma {:induction false} SizeInTotal(items: seq<Item>, i: nat)
    requires i < |items|
    ensures items[i].Size() <= Total(items)
  {
    if i > 0 {
      SizeInTotal(items[1..], i - 1);
    }
  }

  /** Reading the list back: the root block, then the overflow block it points to. */
  function LoadOp(disk: map<nat, Block>, root: nat, large: bool): (Errno, seq<Item>) {
    if root == 0 then (Ok, [])
    else if root !in disk then (Eio, [])
    else
      var (err, items) := ParseOp(disk[root], 0);
      var overflow := Overflow(disk[root]);
      if err != Ok then (err, [])
      else if overflow == 0 then (Ok, items)
      else if !large then (Euclean, [])
      else if overflow !in disk then (Eio, [])
      else
        var (err2, rest) := ParseOp(disk[overflow], |items|);
        if err2 != Ok then (err2, [])
        else if Overflow(disk[overflow]) != 0 then (Euclean, [])
        else (Ok, items + rest)
  }

  /** A root block in order, which is there, spells some list. */
  ghost predicate RootInOrder(disk: map<nat, Block>, root: nat) {
    root in disk && exists items :: Spells(disk[root], items, 0)
  }

  /** The root block spells the first `k` items, and the overflow block, when the root block points to one, the others. */
  ghost predicate StoredAt(disk: map<nat, Block>, root: nat, large: bool, items: seq<Item>, k: nat) {
    && root in disk && k <= |items| && Spells(disk[root], items[..k], 0)
    && var overflow := Overflow(disk[root]);
       if overflow == 0 then k == |items|
       else large && overflow in disk && Overflow(disk[overflow]) == 0 && Spells(disk[overflow], items[k..], k)
  }

  /** Over arbitrary contents: a list is loaded exactly when the blocks spell it. Loading fails with EIO exactly when the
      root block, or the overflow block behind a root block in order, cannot be read, and with EUCLEAN otherwise. */
  lemma {:induction false} LoadedExactly(disk: map<nat, Block>, root: nat, large: bool, items: seq<Item>)
    ensures LoadOp(disk, root, large) == (Ok, items)
            <==> if root == 0 then items == [] else exists k: nat :: StoredAt(disk, root, large, items, k)
    ensures LoadOp(disk, root, large).0 == Eio
            <==> root != 0 && (root !in disk || (RootInOrder(disk, root) && large && Overflow(disk[root]) != 0
                                                 && Overflow(disk[root]) !in disk))
    ensures LoadOp(disk, root, large).0 == Ok || LoadOp(disk, root, large) in {(Eio, []), (Euclean, [])}
  {
    hide Spells, ParseOp, Overflow;
    if root != 0 && root in disk {
      ParsedExactly(disk[root], 0);
      var front := ParseOp(disk[root], 0).1;
      var overflow := Overflow(disk[root]);
      if overflow in disk {
        ParsedExactly(disk[overflow], |front|);
      }
      if LoadOp(disk, root, large) == (Ok, items) {
        assert items[..|front|] == front && StoredAt(disk, root, large, items, |front|);
      }
      if k: nat :| StoredAt(disk, root, large, items, k) {
        StoredLoads(disk, root, large, items, k);
      }
    }
  }

  lemma {:induction false} StoredLoads(disk: map<nat, Block>, root: nat, large: bool, items: seq<Item>, k: nat)
    requires root != 0 && StoredAt(disk, root, large, items, k)
    ensures LoadOp(disk, root, large) == (Ok, items)
  {
    hide Spells, ParseOp, Overflow;
    ParsedExactly(disk[root], 0);
    var overflow := Overflow(disk[root]);
    assert items[..k] + items[k..] == items && |items[..k]| == k;
    if overflow != 0 {
      ParsedExactly(disk[overflow], k);
    } else {
      assert items[..k] == items;
    }
  }

  /** The greedy split over root and overflow block loses and reorders nothing. */
  lemma {:induction false} SplitLoads(disk: map<nat, Block>, root: nat, overflow: nat, items: seq<Item>, large: bool)
    requires AllFit(items) && |items| <= MAX_ITEMS && Storable(items, large)
    requires root != 0 && root in disk && overflow < NUMBER_LIMIT
    requires var r := GreedyCount(items, HEADER);
             && HEADER + Total(items[..r]) <= BLOCK_SIZE
             && disk[root] == Packed(items[..r], if r < |items| then overflow else 0)
             && (r < |items| ==> overflow != 0 && overflow in disk && disk[overflow] == Packed(items[r..], 0))
    ensures LoadOp(disk, root, large) == (Ok, items)
  {
    var r := GreedyCount(items, HEADER);
    var ov := if r < |items| then overflow else 0;
    assert items == items[..r] + items[r..] && (r == |items| ==> items[r..] == []);
    AllFitParts(items, r);
    hide Packed, ParseOp, Overflow, Total, GreedyCount, AllFit, LoadOp, Item.Size;
    ParseUndoesPack(items[..r], ov, 0);
    if r < |items| {
      ParseUndoesPack(items[r..], 0, r);
    }
    LoadParts(disk, root, large, items[..r], items[r..], ov);
  }

  lemma {:induction false} AllFitParts(items: seq<Item>, r: nat)
    requires AllFit(items) && r <= |items|
    ensures AllFit(items[..r]) && AllFit(items[r..])
  {
  }

  lemma {:induction false} LoadParts(disk: map<nat, Block>, root: nat, large: bool, items: seq<Item>, rest: seq<Item>,
                                     overflow: nat)
    requires root != 0 && root in disk && ParseOp(disk[root], 0) == (Ok, items) && Overflow(disk[root]) == overflow
    requires if overflow == 0 then rest == []
             else large && overflow in disk && ParseOp(disk[overflow], |items|) == (Ok, rest) && Overflow(disk[overflow]) == 0
    ensures LoadOp(disk, root, large) == (Ok, items + rest)
  {
    hide ParseOp, Overflow;
    assert rest == [] ==> items + rest == items;
  }

  // ----- the list as a map

  function Find(items: seq<Item>, name: seq<byte>): Option<seq<byte>> {
    if items == [] then None else if items[0].name == name then Some(items[0].value) else Find(items[1..], name)
  }

  /** The place of the first item of a name, or the length of the list. */
  function IndexOf(items: seq<Item>, name: seq<byte>): (i: nat)
    ensures i <= |items|
    ensures i < |items| ==> items[i].name == name && Find(items, name) == Some(items[i].value)
    ensures i == |items| ==> Find(items, name) == None
    ensures forall j :: 0 <= j < i ==> items[j].name != name
  {
    if items == [] || items[0].name == name then 0 else 1 + IndexOf(items[1..], name)
  }

  predicate DistinctNames(items: seq<Item>) {
    forall i, j :: 0 <= i < j < |items| ==> items[i].name != items[j].name
  }

  /** Setting, replacing or (without a value) removing an attribute in the list. The length of a value is kept in
      16 bits, so a longer value loses its multiples of 65536 bytes. */
  function SetOp(items: seq<Item>, name: seq<byte>, value: Option<seq<byte>>, create: bool,
                 replace: bool): (Errno, seq<Item>) {
    var i := IndexOf(items, name);
    if create && i < |items| then (Eexist, items)
    else if replace && i == |items| then (Enodata, items)
    else
      match value
      case None => if i == |items| then (Enodata, items) else (Ok, items[..i] + items[i + 1..])
      case Some(v) =>
        var it := Item(name, v[..|v| % VALUE_LIMIT]);
        if i < |items| then (Ok, items[i := it])
        else if |items| >= MAX_ITEMS then (Enospc, items)
        else (Ok, items + [it])
  }

  /** What the list and the flags decide. A refused edit leaves the list as it is. */
  lemma {:induction false} SetExactly(items: seq<Item>, name: seq<byte>, value: Option<seq<byte>>, create: bool,
                                      replace: bool)
    ensures var (err, after), there := SetOp(items, name, value, create, replace), Find(items, name).Some?;
            && (err == Eexist <==> create && there)
            && (err == Enodata <==> !there && (replace || value == None))
            && (err == Enospc <==> !there && !replace && value.Some? && |items| >= 32)
            && (err == Ok <==> if there then !create else !replace && value.Some? && |items| < 32)
            && (err != Ok ==> after == items)
  {
  }

  lemma {:induction false} FindAppend(a: seq<Item>, b: seq<Item>, name: seq<byte>)
    ensures Find(a + b, name) == if Find(a, name).Some? then Find(a, name) else Find(b, name)
  {
    if a == [] {
      assert a + b == b;
    } else {
      FindAppend(a[1..], b, name);
      assert (a + b)[1..] == a[1..] + b;
    }
  }

  lemma {:induction false} FindNone(items: seq<Item>, name: seq<byte>)
    requires forall i :: 0 <= i < |items| ==> items[i].name != name
    ensures Find(items, name) == None
  {
    if items != [] {
      FindNone(items[1..], name);
    }
  }

  /** Setting an attribute changes exactly that attribute of the map. */
  lemma {:induction false} SetIsUpdate(items: seq<Item>, name: seq<byte>, value: Option<seq<byte>>, create: bool,
                                       replace: bool, n: seq<byte>)
    requires DistinctNames(items) && SetOp(items, name, value, create, replace).0 == Ok
    ensures var after := SetOp(items, name, value, create, replace).1;
            && DistinctNames(after)
            && Find(after, n) == if n != name then Find(items, n)
                                 else if value.Some? then Some(value.value[..|value.value| % VALUE_LIMIT]) else None
  {
    var i := IndexOf(items, name);
    var a := items[..i];
    var x := if i < |items| then [items[i]] else [];
    var b := if i < |items| then items[i + 1..] else [];
    assert items == a + x + b;
    var y := if value.Some? then [Item(name, value.value[..|value.value| % VALUE_LIMIT])] else [];
    assert SetOp(items, name, value, create, replace).1 == a + y + b;
    OthersDistinct(a, x, b, name);
    hide SetOp, IndexOf;
    FindAround(a, x, b, name, n);
    FindAround(a, y, b, name, n);
    DistinctAround(a, x, y, b, name);
  }

  lemma {:induction false} OthersDistinct(a: seq<Item>, x: seq<Item>, b: seq<Item>, name: seq<byte>)
    requires DistinctNames(a + x + b) && |x| <= 1 && (x == [] ==> b == [])
    requires forall i :: 0 <= i < |x| ==> x[i].name == name
    ensures forall i :: 0 <= i < |b| ==> b[i].name != name
  {
    var c := a + x + b;
    forall i | 0 <= i < |b| ensures b[i].name != name {
      assert c[|a|] == x[0] && c[|a| + 1 + i] == b[i];
    }
  }

  /** At most one item of a name, between items of other names. */
  lemma {:induction false} FindAround(a: seq<Item>, x: seq<Item>, b: seq<Item>, name: seq<byte>, n: seq<byte>)
    requires |x| <= 1 && forall i :: 0 <= i < |x| ==> x[i].name == name
    requires (forall i :: 0 <= i < |a| ==> a[i].name != name) && forall i :: 0 <= i < |b| ==> b[i].name != name
    ensures Find(a + x + b, n) == if n == name then (if x == [] then None else Some(x[0].value))
                                  else if Find(a, n).Some? then Find(a, n) else Find(b, n)
  {
    FindNone(a, name);
    FindNone(b, name);
    FindAppend(a + x, b, n);
    FindAppend(a, x, n);
    if x != [] {
      assert x == [x[0]] && x[1..] == [];
    }
  }

  lemma {:induction false} DistinctAround(a: seq<Item>, x: seq<Item>, y: seq<Item>, b: seq<Item>, name: seq<byte>)
    requires |x| <= 1 && |y| <= 1 && forall i :: 0 <= i < |y| ==> y[i].name == name
    requires (forall i :: 0 <= i < |a| ==> a[i].name != name) && forall i :: 0 <= i < |b| ==> b[i].name != name
    requires DistinctNames(a + x + b)
    ensures DistinctNames(a + y + b)
  {
    var c, d := a + x + b, a + y + b;
    forall i, j | 0 <= i < j < |d| ensures d[i].name != d[j].name {
      if i < |a| {
        assert d[i] == a[i] == c[i];
      }
      if j < |a| {
        assert d[j] == a[j] == c[j];
      }
      if i >= |a| + |y| {
        assert d[i] == b[i - |a| - |y|] == c[i - |y| + |x|];
      }
      if j >= |a| + |y| {
        assert d[j] == b[j - |a| - |y|] == c[j - |y| + |x|];
      }
    }
  }

  /** The largest value the VFS passes on. */
  const XATTR_SIZE_MAX := 0x1_0000

  /** What is set is what can be read back, except for a value of exactly the largest size, which is stored
      empty. */
  lemma {:induction false} SetStoresExactly(items: seq<Item>, name: seq<byte>, v: seq<byte>, create: bool,
                                            replace: bool)
    requires DistinctNames(items) && |v| <= XATTR_SIZE_MAX && SetOp(items, name, Some(v), create, replace).0 == Ok
    ensures Find(SetOp(items, name, Some(v), create, replace).1, name) == Some(v) <==> |v| < XATTR_SIZE_MAX
    ensures |v| == XATTR_SIZE_MAX ==> Find(SetOp(items, name, Some(v), create, replace).1, name) == Some([])
  {
    SetIsUpdate(items, name, Some(v), create, replace, name);
    if |v| < XATTR_SIZE_MAX {
      assert v[..|v| % VALUE_LIMIT] == v;
    }
  }

  /** A value of the largest size: setting it succeeds, and what is read back is empty. */
  lemma {:induction false} LargestValue(name: seq<byte>)
    requires 0 < |name| <= MAX_NAME
    ensures var v, r := seq(XATTR_SIZE_MAX, i => 1), SetOp([], name, Some(seq(XATTR_SIZE_MAX, i => 1)), false, false);
            r.0 == Ok && Find(r.1, name) == Some([]) && v != []
  {
    SetStoresExactly([], name, seq(XATTR_SIZE_MAX, i => 1), false, false);
  }
}
