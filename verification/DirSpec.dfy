/** Directories as values: block edits, lookup, index. */
module DirSpec {
  import opened Bytes
  import opened DirBlock

  datatype Option<+T> = None | Some(value: T)

  // ----- edits of one block

  /** Both blocks are tiled; where `b` has the entries `was`, `c` has the entries `now`. */
  ghost predicate Edit(b: Block, c: Block, x: seq<Entry>, was: seq<Entry>, now: seq<Entry>, y: seq<Entry>,
                       maxIno: nat) {
    && Tiled(b, 0, maxIno) && Tiled(c, 0, maxIno)
    && Live(b, 0, maxIno) == x + (was + y) && Live(c, 0, maxIno) == x + (now + y)
  }

  /** Replacing the record at `to` by records that tile the same bytes. */
  lemma {:induction false} Replace(b: Block, c: Block, to: nat, q: nat, maxIno: nat)
    returns (x: seq<Entry>, y: seq<Entry>)
    requires Tiled(b, 0, maxIno) && Reach(b, 0, to, maxIno) && ValidAt(b, to, maxIno)
    requires q == to + RecLen(b, to) && b[..to] == c[..to] && b[q..] == c[q..]
    requires Reach(c, to, q, maxIno)
    ensures Edit(b, c, x, EntryAt(b, to), Before(c, to, q, maxIno), y, maxIno)
  {
    hide RecLen, ValidAt, EntryAt;
    LiveStep(b, to, maxIno);
    LiveSplit(b, 0, to, maxIno);
    LiveBehind(b, c, q, maxIno);
    TiledUpTo(c, to, q, maxIno);
    LiveSplit(c, to, q, maxIno);
    LiveBefore(b, c, 0, to, maxIno);
    LiveSplit(c, 0, to, maxIno);
    x, y := Before(b, 0, to, maxIno), Live(b, q, maxIno);
  }

  lemma {:induction false} TiledUpTo(c: Block, o: nat, q: nat, maxIno: nat)
    requires Reach(c, o, q, maxIno) && Tiled(c, q, maxIno)
    ensures Tiled(c, o, maxIno)
    decreases BLOCK_SIZE - o
  {
    if o < q {
      TiledUpTo(c, o + RecLen(c, o), q, maxIno);
    }
  }

  /** One record and nothing else. */
  lemma {:induction false} ReachOne(c: Block, o: nat, maxIno: nat)
    requires ValidAt(c, o, maxIno)
    ensures Reach(c, o, o + RecLen(c, o), maxIno) && Before(c, o, o + RecLen(c, o), maxIno) == EntryAt(c, o)
  {
    hide EntryAt;
    assert Reach(c, o + RecLen(c, o), o + RecLen(c, o), maxIno);
    assert Before(c, o + RecLen(c, o), o + RecLen(c, o), maxIno) == [];
  }

  /** Writing an entry over the record at `o` without changing its length. */
  function Filled(b: Block, o: nat, ino: nat, name: Name, ftype: byte): Block
    requires o + HEADER <= BLOCK_SIZE && |name| <= NAME_LEN && o + HEADER + |name| <= BLOCK_SIZE
  {
    PutRecord(b, o, ino, RecLen(b, o), name, ftype)
  }

  lemma {:induction false} FilledLive(b: Block, o: nat, ino: nat, name: Name, ftype: byte, maxIno: nat)
    returns (x: seq<Entry>, y: seq<Entry>)
    requires Tiled(b, 0, maxIno) && Reach(b, 0, o, maxIno) && ValidAt(b, o, maxIno)
    requires |name| <= NAME_LEN && HEADER + |name| <= RecLen(b, o) && ino <= maxIno < INO_LIMIT && ftype <= FT_MAX
    ensures Edit(b, Filled(b, o, ino, name, ftype), x, EntryAt(b, o), if ino == 0 then []
                 else [Entry(name, ino, ftype)], y, maxIno)
  {
    var n := RecLen(b, o);
    var c := Filled(b, o, ino, name, ftype);
    hide Tiled, Live, Reach, Before;
    RecordReadsBack(b, o, ino, n, name, ftype);
    assert ValidAt(c, o, maxIno);
    ReachOne(c, o, maxIno);
    PutOutside(b, o, Record(ino, n, name, ftype), n);
    x, y := Replace(b, c, o, o + n, maxIno);
  }

  lemma {:induction false} PutOutside(b: Block, o: nat, bytes: seq<byte>, n: nat)
    requires |bytes| <= n && o + n <= BLOCK_SIZE
    ensures var c := Put(b, o, bytes); b[..o] == c[..o] && b[o + n..] == c[o + n..]
  {
  }

  /** A record cut to `n` bytes. */
  function Cut(b: Block, o: nat, n: nat): Block
    requires o + HEADER <= BLOCK_SIZE
  {
    Put(b, o + 8, Encode(n, 2))
  }

  lemma {:induction false} CutReads(b: Block, o: nat, n: nat, maxIno: nat)
    requires ValidAt(b, o, maxIno) && n < 0x1_0000
    ensures var c := Cut(b, o, n);
            && RecLen(c, o) == n && Ino(c, o) == Ino(b, o) && NameLen(c, o) == NameLen(b, o)
            && NameAt(c, o) == NameAt(b, o) && FileType(c, o) == FileType(b, o)
  {
    var c := Cut(b, o, n);
    hide Value, Encode;
    Widths();
    ValueOfEncode(n, 2);
    assert c[o..o + 8] == b[o..o + 8];
    assert c[o + 8..o + 10] == Encode(n, 2);
    var k := NameLen(b, o);
    assert c[o + HEADER..o + HEADER + k] == b[o + HEADER..o + HEADER + k];
  }

  /** The slack behind the record at `o` made into a record of its own that holds a new entry. */
  function Split(b: Block, o: nat, ino: nat, name: Name, ftype: byte): Block
    requires o + HEADER <= BLOCK_SIZE && |name| <= NAME_LEN
    requires RecLenFor(NameLen(b, o)) + RecLenFor(|name|) <= RecLen(b, o) && o + RecLen(b, o) <= BLOCK_SIZE
  {
    var n := RecLenFor(NameLen(b, o));
    PutRecord(Cut(b, o, n), o + n, ino, RecLen(b, o) - n, name, ftype)
  }

  lemma {:induction false} SplitLive(b: Block, o: nat, ino: nat, name: Name, ftype: byte, maxIno: nat)
    returns (x: seq<Entry>, y: seq<Entry>)
    requires Tiled(b, 0, maxIno) && Reach(b, 0, o, maxIno) && ValidAt(b, o, maxIno)
    requires |name| <= NAME_LEN && 0 < ino <= maxIno < INO_LIMIT && ftype <= FT_MAX
    requires RecLenFor(NameLen(b, o)) + RecLenFor(|name|) <= RecLen(b, o)
    ensures Edit(b, Split(b, o, ino, name, ftype), x, EntryAt(b, o), EntryAt(b, o) + [Entry(name, ino, ftype)], y, maxIno)
  {
    hide *;
    LiveStep(b, o, maxIno);
    var n, size := RecLenFor(NameLen(b, o)), RecLen(b, o);
    var c := Split(b, o, ino, name, ftype);
    SplitReads(b, o, ino, name, ftype, maxIno);
    ReachTwo(c, o, maxIno);
    x, y := Replace(b, c, o, o + size, maxIno);
  }

  lemma {:induction false} RecLenForName(nameLen: nat)
    ensures HEADER + nameLen <= RecLenFor(nameLen) <= HEADER + nameLen + 3 && RecLenFor(nameLen) % 4 == 0
  {
  }

  /** What a split writes: the old entry in a shorter record, the new one behind it, nothing else. */
  lemma {:induction false} SplitReads(b: Block, o: nat, ino: nat, name: Name, ftype: byte, maxIno: nat)
    requires ValidAt(b, o, maxIno)
    requires |name| <= NAME_LEN && 0 < ino <= maxIno < INO_LIMIT && ftype <= FT_MAX
    requires RecLenFor(NameLen(b, o)) + RecLenFor(|name|) <= RecLen(b, o)
    ensures var c, n, q := Split(b, o, ino, name, ftype), RecLenFor(NameLen(b, o)), o + RecLen(b, o);
            && ValidAt(c, o, maxIno) && RecLen(c, o) == n && EntryAt(c, o) == EntryAt(b, o)
            && ValidAt(c, o + n, maxIno) && o + n + RecLen(c, o + n) == q && EntryAt(c, o + n) == [Entry(name, ino, ftype)]
            && b[..o] == c[..o] && b[q..] == c[q..]
  {
    hide Ino, RecLen, NameLen, NameAt, FileType, Put, Record, RecLenFor;
    RecLenForName(NameLen(b, o));
    RecLenForName(|name|);
    var n, size := RecLenFor(NameLen(b, o)), RecLen(b, o);
    var d := Cut(b, o, n);
    var c := Split(b, o, ino, name, ftype);
    CutReads(b, o, n, maxIno);
    RecordReadsBack(d, o + n, ino, size - n, name, ftype);
    PutOutside(b, o + 8, Encode(n, 2), size - 8);
    PutOutside(d, o + n, Record(ino, size - n, name, ftype), size - n);
    hide Cut, PutRecord, Split;
    Prefixes(b, d, c, o, o + 8, o + n, o + size);
    SameEntry(d, c, o, maxIno);
  }

  lemma {:induction false} Prefixes(b: Block, d: Block, c: Block, o: nat, o8: nat, m: nat, q: nat)
    requires o <= o8 <= m <= q <= BLOCK_SIZE
    requires b[..o8] == d[..o8] && b[q..] == d[q..] && d[..m] == c[..m] && d[q..] == c[q..]
    ensures b[..o] == c[..o] && b[q..] == c[q..] && d[o..m] == c[o..m]
  {
    assert b[..o] == b[..o8][..o] && d[..o] == d[..o8][..o];
    assert d[..o] == d[..m][..o] && c[..o] == c[..m][..o];
    assert d[o..m] == d[..m][o..] && c[o..m] == c[..m][o..];
  }

  lemma {:induction false} ReachTwo(c: Block, o: nat, maxIno: nat)
    requires ValidAt(c, o, maxIno) && ValidAt(c, o + RecLen(c, o), maxIno)
    ensures var m := o + RecLen(c, o); var q := m + RecLen(c, m);
            Reach(c, o, q, maxIno) && Before(c, o, q, maxIno) == EntryAt(c, o) + EntryAt(c, m)
  {
    hide EntryAt;
    ReachOne(c, o, maxIno);
    ReachStep(c, o, o + RecLen(c, o), maxIno);
  }

  function ZeroBlock(): Block { seq(BLOCK_SIZE, i => 0) }

  /** A block that holds one unused record. */
  function FreshBlock(): Block {
    PutRecord(ZeroBlock(), 0, 0, BLOCK_SIZE, [], 0)
  }

  lemma {:induction false} FreshIsTiled(maxIno: nat)
    ensures var b := FreshBlock();
            && RecLen(b, 0) == BLOCK_SIZE && Ino(b, 0) == 0 && ValidAt(b, 0, maxIno)
            && Tiled(b, 0, maxIno) && Live(b, 0, maxIno) == []
  {
    hide ZeroBlock, PutRecord, Ino, RecLen, NameLen, NameAt, FileType;
    var b := FreshBlock();
    RecordReadsBack(ZeroBlock(), 0, 0, BLOCK_SIZE, [], 0);
    assert Tiled(b, BLOCK_SIZE, maxIno) && Live(b, BLOCK_SIZE, maxIno) == [];
  }

  // ----- entries

  /** The first entry with a name. */
  function Lookup(es: seq<Entry>, name: Name): Option<Entry> {
    if es == [] then None else if es[0].name == name then Some(es[0]) else Lookup(es[1..], name)
  }

  /** No name is used twice. */
  predicate Distinct(es: seq<Entry>) {
    forall i, j :: 0 <= i < j < |es| ==> es[i].name != es[j].name
  }

  lemma {:induction false} LookupAppend(a: seq<Entry>, b: seq<Entry>, name: Name)
    ensures Lookup(a + b, name) == if Lookup(a, name).Some? then Lookup(a, name) else Lookup(b, name)
  {
    if a == [] {
      assert a + b == b;
    } else {
      LookupAppend(a[1..], b, name);
      assert (a + b)[1..] == a[1..] + b;
    }
  }

  lemma {:induction false} LookupNone(es: seq<Entry>, name: Name)
    ensures Lookup(es, name).None? <==> forall i :: 0 <= i < |es| ==> es[i].name != name
    ensures Lookup(es, name).Some? ==> Lookup(es, name).value in es && Lookup(es, name).value.name == name
  {
    if es != [] {
      LookupNone(es[1..], name);
    }
  }

  /** With distinct names, one entry more is one name more in the map, wherever it is put. */
  lemma {:induction false} LookupInsert(x: seq<Entry>, e: Entry, y: seq<Entry>, n: Name)
    requires Lookup(x + y, e.name).None?
    ensures Lookup(x + [e] + y, n) == if n == e.name then Some(e) else Lookup(x + y, n)
  {
    LookupAppend(x, y, n);
    LookupAppend(x, y, e.name);
    LookupAppend(x + [e], y, n);
    LookupAppend(x, [e], n);
  }

  lemma {:induction false} DistinctInsert(x: seq<Entry>, e: Entry, y: seq<Entry>)
    ensures Distinct(x + [e] + y) <==> Distinct(x + y) && Lookup(x + y, e.name).None?
  {
    LookupNone(x + y, e.name);
    var with, without := x + [e] + y, x + y;
    forall i | 0 <= i < |without| ensures without[i] == with[if i < |x| then i else i + 1] {}
    if Distinct(with) {
      forall i | 0 <= i < |without| ensures without[i].name != e.name {
        assert without[i] == with[if i < |x| then i else i + 1] && e == with[|x|];
      }
      forall i, j | 0 <= i < j < |without| ensures without[i].name != without[j].name {
        assert without[i] == with[if i < |x| then i else i + 1];
        assert without[j] == with[if j < |x| then j else j + 1];
      }
    }
    if Distinct(without) && Lookup(without, e.name).None? {
      forall i, j | 0 <= i < j < |with| ensures with[i].name != with[j].name {
        assert i != |x| ==> with[i] == without[if i < |x| then i else i - 1];
        assert j != |x| ==> with[j] == without[if j < |x| then j else j - 1];
      }
    }
  }

  /** The entries of several blocks in order. */
  function Concat(ls: seq<seq<Entry>>): seq<Entry> {
    if ls == [] then [] else ls[0] + Concat(ls[1..])
  }

  lemma {:induction false} ConcatAppend(a: seq<seq<Entry>>, b: seq<seq<Entry>>)
    ensures Concat(a + b) == Concat(a) + Concat(b)
  {
    if a == [] {
      assert a + b == b;
    } else {
      ConcatAppend(a[1..], b);
      assert (a + b)[1..] == a[1..] + b;
    }
  }

  lemma {:induction false} ConcatAt(ls: seq<seq<Entry>>, i: nat, l: seq<Entry>)
    requires i < |ls|
    ensures Concat(ls) == Concat(ls[..i]) + ls[i] + Concat(ls[i + 1..])
    ensures Concat(ls[i := l]) == Concat(ls[..i]) + l + Concat(ls[i + 1..])
  {
    ConcatThree(ls[..i], ls[i], ls[i + 1..]);
    ConcatThree(ls[..i], l, ls[i + 1..]);
    hide Concat;
    assert ls == ls[..i] + [ls[i]] + ls[i + 1..];
    assert ls[i := l] == ls[..i] + [l] + ls[i + 1..];
  }

  lemma {:induction false} ConcatThree(a: seq<seq<Entry>>, l: seq<Entry>, b: seq<seq<Entry>>)
    ensures Concat(a + [l] + b) == Concat(a) + l + Concat(b)
  {
    ConcatAppend(a + [l], b);
    ConcatAppend(a, [l]);
    assert [l][1..] == [] && Concat([l]) == l + [];
  }

  // ----- the bucket index

  const BUCKETS := 64

  /** `masks[k]` holds the numbers of the blocks whose bit is set in bucket `k`. */
  datatype Index = Index(masks: seq<set<nat>>, entries: nat, dirBlocks: nat)

  function Bucket(hash: Name -> nat, name: Name): nat { hash(name) % BUCKETS }

  predicate Holds(es: seq<Entry>, hash: Name -> nat, k: nat) {
    exists i :: 0 <= i < |es| && es[i].name != [] && Bucket(hash, es[i].name) == k
  }

  /** The blocks that hold a name of bucket `k`. */
  ghost function BlocksWith(ls: seq<seq<Entry>>, hash: Name -> nat, k: nat): set<nat> {
    set i: nat | i < |ls| && Holds(ls[i], hash, k)
  }

  /** The index is exact: bit `i` of bucket `k` is set exactly when block `i` holds a name of that bucket, and
      the stored number of entries is right. */
  ghost predicate IndexOk(x: Index, ls: seq<seq<Entry>>, hash: Name -> nat) {
    && |x.masks| == BUCKETS && x.entries == |Concat(ls)| && x.dirBlocks == |ls|
    && forall k :: 0 <= k < BUCKETS ==> x.masks[k] == BlocksWith(ls, hash, k)
  }

  /** The bits of a name are set: each block that holds it is in the mask of its bucket. */
  ghost predicate Marks(x: Index, ls: seq<seq<Entry>>, hash: Name -> nat, name: Name) {
    |x.masks| == BUCKETS && forall i :: 0 <= i < |ls| && Lookup(ls[i], name).Some? ==> i in x.masks[Bucket(hash, name)]
  }

  /** An exact index marks every name. */
  lemma {:induction false} ExactMarks(x: Index, ls: seq<seq<Entry>>, hash: Name -> nat, name: Name)
    requires IndexOk(x, ls, hash) && name != []
    ensures Marks(x, ls, hash, name)
  {
    forall i | 0 <= i < |ls| && Lookup(ls[i], name).Some? ensures i in x.masks[Bucket(hash, name)] {
      LookupNone(ls[i], name);
      assert Holds(ls[i], hash, Bucket(hash, name));
    }
  }

  /** One entry more in block `i`, an old one or a new one. */
  ghost predicate PutAt(ls: seq<seq<Entry>>, ls': seq<seq<Entry>>, i: nat, e: Entry) {
    && i <= |ls|
    && var was := if i < |ls| then ls[i] else [];
       exists j :: 0 <= j <= |was| && ls' == ls[..i] + [was[..j] + [e] + was[j..]] + if i < |ls| then ls[i + 1..] else []
  }

  lemma {:induction false} PutAtFrom(ls: seq<seq<Entry>>, ls': seq<seq<Entry>>, i: nat, a: seq<Entry>, e: Entry,
                                     b: seq<Entry>)
    requires (i < |ls| && ls[i] == a + b && ls' == ls[i := a + [e] + b])
             || (i == |ls| && a + b == [] && ls' == ls + [a + [e] + b])
    ensures PutAt(ls, ls', i, e)
  {
    var was := if i < |ls| then ls[i] else [];
    assert was[..|a|] == a && was[|a|..] == b;
  }

  lemma {:induction false} PutAtParts(ls: seq<seq<Entry>>, ls': seq<seq<Entry>>, i: nat, e: Entry)
    returns (a: seq<Entry>, b: seq<Entry>)
    requires PutAt(ls, ls', i, e)
    ensures i < |ls'| && |ls'| == (if i < |ls| then |ls| else |ls| + 1) && ls'[i] == a + [e] + b
    ensures if i < |ls| then ls[i] == a + b && ls' == ls[i := a + [e] + b]
            else i == |ls| && a + b == [] && ls' == ls + [a + [e] + b]
    ensures forall j :: 0 <= j < |ls'| && j != i ==> ls'[j] == ls[j]
  {
    var was := if i < |ls| then ls[i] else [];
    var j :| 0 <= j <= |was| && ls' == ls[..i] + [was[..j] + [e] + was[j..]] + if i < |ls| then ls[i + 1..] else [];
    a, b := was[..j], was[j..];
    assert was == a + b;
  }

  lemma {:induction false} HoldsInsert(x: seq<Entry>, e: Entry, y: seq<Entry>, hash: Name -> nat, k: nat)
    ensures Holds(x + [e] + y, hash, k) <==> Holds(x + y, hash, k) || (e.name != [] && Bucket(hash, e.name) == k)
  {
    var with, without := x + [e] + y, x + y;
    if i :| 0 <= i < |with| && with[i].name != [] && Bucket(hash, with[i].name) == k {
      assert i != |x| ==> with[i] == without[if i < |x| then i else i - 1];
    }
    if i :| 0 <= i < |without| && without[i].name != [] && Bucket(hash, without[i].name) == k {
      assert without[i] == with[if i < |x| then i else i + 1];
    }
    assert with[|x|] == e;
  }

  const U32 := 0x1_0000_0000

  /** The index after an entry was added to block `i`, as the code updates it; entries are counted in 32 bits. */
  function IndexAdd(x: Index, k: nat, i: nat, blocks: nat): Index
    requires k < |x.masks|
  {
    Index(x.masks[k := x.masks[k] + {i}], (x.entries + 1) % U32, blocks)
  }

  /** The index after an entry was removed from block `i`; the bit stays when the block still holds a name of
      the bucket. */
  function IndexRemove(x: Index, k: nat, i: nat, still: bool, blocks: nat): Index
    requires k < |x.masks|
  {
    Index(x.masks[k := if still then x.masks[k] else x.masks[k] - {i}], if x.entries > 0 then x.entries - 1 else 0, blocks)
  }

  /** The index is exact but for what an entry of bucket `k` in block `i` sets anyway. */
  ghost predicate Agrees(x: Index, ls: seq<seq<Entry>>, hash: Name -> nat, k: nat, i: nat) {
    && |x.masks| == BUCKETS && x.entries == |Concat(ls)|
    && forall m :: 0 <= m < BUCKETS ==>
         if m == k then x.masks[m] - {i} == BlocksWith(ls, hash, m) - {i} else x.masks[m] == BlocksWith(ls, hash, m)
  }

  /** What an entry makes of an index, whatever that shows: exactly one that agrees but for the bit of the entry becomes
      exact, so an exact one stays so. */
  lemma {:induction false} IndexAfterAdd(x: Index, ls: seq<seq<Entry>>, ls': seq<seq<Entry>>, hash: Name -> nat, i: nat,
                                         e: Entry)
    requires PutAt(ls, ls', i, e) && e.name != [] && |x.masks| == BUCKETS && x.entries < U32 && |Concat(ls)| + 1 < U32
    ensures IndexOk(IndexAdd(x, Bucket(hash, e.name), i, |ls'|), ls', hash) <==> Agrees(x, ls, hash, Bucket(hash, e.name), i)
    ensures IndexOk(x, ls, hash) ==> IndexOk(IndexAdd(x, Bucket(hash, e.name), i, |ls'|), ls', hash)
  {
    hide Holds, Concat, Bucket, PutAt;
    var k := Bucket(hash, e.name);
    BucketBound(hash, e.name);
    var a, b := PutAtParts(ls, ls', i, e);
    CountAdd(ls, ls', i, a, e, b);
    var x' := IndexAdd(x, k, i, |ls'|);
    HoldsNothing(hash);
    forall m | 0 <= m < BUCKETS
      ensures BlocksWith(ls', hash, m) == BlocksWith(ls, hash, m) + if m == k then {i} else {}
      ensures x'.masks[m] == if m == k then x.masks[m] + {i} else x.masks[m]
    {
      HoldsInsert(a, e, b, hash, m);
    }
    hide BlocksWith;
    assert x'.entries == |Concat(ls')| <==> x.entries == |Concat(ls)|;
    var xs, ys := x.masks[k], BlocksWith(ls, hash, k);
    WithOrWithout(xs, ys, i);
  }

  lemma {:induction false} WithOrWithout(s: set<nat>, t: set<nat>, i: nat)
    ensures s + {i} == t + {i} <==> s - {i} == t - {i}
  {
    assert s + {i} == (s - {i}) + {i} && t + {i} == (t - {i}) + {i};
    assert s - {i} == (s + {i}) - {i} && t - {i} == (t + {i}) - {i};
  }

  lemma {:induction false} LookupInsertSome(a: seq<Entry>, e: Entry, b: seq<Entry>, name: Name)
    ensures Lookup(a + [e] + b, name).Some? <==> Lookup(a + b, name).Some? || e.name == name
  {
    LookupAppend(a + [e], b, name);
    LookupAppend(a, [e], name);
    LookupAppend(a, b, name);
  }

  /** Which names an index marks when an entry was added: those it marked, and the others whose only bit missing was that
      of the entry. */
  lemma {:induction false} MarksAfterAdd(x: Index, ls: seq<seq<Entry>>, ls': seq<seq<Entry>>, hash: Name -> nat, i: nat,
                                         e: Entry, name: Name)
    requires PutAt(ls, ls', i, e) && |x.masks| == BUCKETS
    ensures Bucket(hash, e.name) < |x.masks|
    ensures Marks(IndexAdd(x, Bucket(hash, e.name), i, |ls'|), ls', hash, name)
            <==> forall j :: 0 <= j < |ls| && Lookup(ls[j], name).Some? ==>
                   j in x.masks[Bucket(hash, name)] || (j == i && Bucket(hash, name) == Bucket(hash, e.name))
    ensures Marks(x, ls, hash, name) ==> Marks(IndexAdd(x, Bucket(hash, e.name), i, |ls'|), ls', hash, name)
  {
    hide PutAt, Bucket, Lookup;
    BucketBound(hash, e.name);
    BucketBound(hash, name);
    var a, b := PutAtParts(ls, ls', i, e);
    LookupInsertSome(a, e, b, name);
    NothingFound(name);
    var x' := IndexAdd(x, Bucket(hash, e.name), i, |ls'|);
    forall j | 0 <= j < |ls'|
      ensures Lookup(ls'[j], name).Some? <==> (j < |ls| && Lookup(ls[j], name).Some?) || (j == i && e.name == name)
    {
    }
  }

  lemma {:induction false} NothingFound(name: Name)
    ensures Lookup([], name) == None
  {
  }

  /** A name that was nowhere is marked once it is entered. */
  lemma {:induction false} MarksNew(x: Index, ls: seq<seq<Entry>>, ls': seq<seq<Entry>>, hash: Name -> nat, i: nat,
                                    e: Entry)
    requires PutAt(ls, ls', i, e) && |x.masks| == BUCKETS && Lookup(Concat(ls), e.name) == None
    ensures Bucket(hash, e.name) < |x.masks| && Marks(IndexAdd(x, Bucket(hash, e.name), i, |ls'|), ls', hash, e.name)
  {
    MarksAfterAdd(x, ls, ls', hash, i, e, e.name);
    forall j | 0 <= j < |ls| ensures Lookup(ls[j], e.name) == None {
      ConcatAt(ls, j, ls[j]);
      LookupAppend(Concat(ls[..j]) + ls[j], Concat(ls[j + 1..]), e.name);
      LookupAppend(Concat(ls[..j]), ls[j], e.name);
    }
  }

  lemma {:induction false} HoldsNothing(hash: Name -> nat)
    ensures forall m :: !Holds([], hash, m)
  {
  }

  lemma {:induction false} BucketBound(hash: Name -> nat, name: Name)
    ensures Bucket(hash, name) < BUCKETS
  {
  }

  lemma {:induction false} CountAdd(ls: seq<seq<Entry>>, ls': seq<seq<Entry>>, i: nat, a: seq<Entry>, e: Entry,
                                    b: seq<Entry>)
    requires (i < |ls| && ls[i] == a + b && ls' == ls[i := a + [e] + b])
             || (i == |ls| && a + b == [] && ls' == ls + [a + [e] + b])
    ensures |Concat(ls')| == |Concat(ls)| + 1
  {
    if i < |ls| {
      ConcatAt(ls, i, a + [e] + b);
    } else {
      ConcatThree(ls, a + [e] + b, []);
      assert ls + [a + [e] + b] + [] == ls + [a + [e] + b];
    }
  }

  /** Removing keeps an exact index exact, and every name marked that was. */
  lemma {:induction false} IndexAfterRemove(x: Index, ls: seq<seq<Entry>>, ls': seq<seq<Entry>>, hash: Name -> nat,
                                            i: nat, e: Entry)
    requires PutAt(ls', ls, i, e) && i < |ls'| && e.name != [] && |x.masks| == BUCKETS
    ensures var x' := IndexRemove(x, Bucket(hash, e.name), i, Holds(ls'[i], hash, Bucket(hash, e.name)), |ls'|);
            && (IndexOk(x, ls, hash) ==> IndexOk(x', ls', hash))
            && forall n: Name :: n != [] && Marks(x, ls, hash, n) ==> Marks(x', ls', hash, n)
  {
    hide Holds, Concat, Bucket, PutAt, Lookup;
    var k := Bucket(hash, e.name);
    BucketBound(hash, e.name);
    var a, b := PutAtParts(ls', ls, i, e);
    CountAdd(ls', ls, i, a, e, b);
    var x' := IndexRemove(x, k, i, Holds(a + b, hash, k), |ls'|);
    forall m | 0 <= m < BUCKETS && IndexOk(x, ls, hash) ensures x'.masks[m] == BlocksWith(ls', hash, m) {
      HoldsInsert(a, e, b, hash, m);
      assert x.masks[m] == BlocksWith(ls, hash, m);
    }
    forall n: Name | n != [] && Marks(x, ls, hash, n) ensures Marks(x', ls', hash, n) {
      LookupInsertSome(a, e, b, n);
      HasHolds(a + b, hash, n);
      BucketBound(hash, n);
    }
  }

  lemma {:induction false} HasHolds(es: seq<Entry>, hash: Name -> nat, name: Name)
    requires name != []
    ensures Lookup(es, name).Some? ==> Holds(es, hash, Bucket(hash, name))
  {
    LookupNone(es, name);
  }

  /** The same names in the same blocks. */
  ghost predicate NamesStay(ls: seq<seq<Entry>>, ls': seq<seq<Entry>>) {
    && |ls'| == |ls|
    && forall i :: 0 <= i < |ls| ==> |ls'[i]| == |ls[i]| && forall j :: 0 <= j < |ls[i]| ==> ls'[i][j].name == ls[i][j].name
  }

  /** An index is as good for the same names. */
  lemma {:induction false} IndexStays(x: Index, ls: seq<seq<Entry>>, ls': seq<seq<Entry>>, hash: Name -> nat)
    requires NamesStay(ls, ls')
    ensures IndexOk(x, ls, hash) ==> IndexOk(x, ls', hash)
    ensures forall n: Name :: Marks(x, ls, hash, n) ==> Marks(x, ls', hash, n)
  {
    SameCount(ls, ls');
    forall k ensures BlocksWith(ls', hash, k) == BlocksWith(ls, hash, k) {
      forall i: nat | i < |ls| ensures Holds(ls'[i], hash, k) <==> Holds(ls[i], hash, k) {
        if j :| 0 <= j < |ls[i]| && ls[i][j].name != [] && Bucket(hash, ls[i][j].name) == k {
          assert ls'[i][j].name == ls[i][j].name;
        }
        if j :| 0 <= j < |ls'[i]| && ls'[i][j].name != [] && Bucket(hash, ls'[i][j].name) == k {
          assert ls'[i][j].name == ls[i][j].name;
        }
      }
    }
    hide Concat, BlocksWith, Lookup, Bucket;
    forall n: Name | Marks(x, ls, hash, n) ensures Marks(x, ls', hash, n) {
      forall i | 0 <= i < |ls| ensures Lookup(ls'[i], n).Some? ==> Lookup(ls[i], n).Some? {
        LookupNone(ls[i], n);
        LookupNone(ls'[i], n);
      }
    }
  }

  lemma {:induction false} SameCount(ls: seq<seq<Entry>>, ls': seq<seq<Entry>>)
    requires NamesStay(ls, ls')
    ensures |Concat(ls')| == |Concat(ls)|
  {
    if ls != [] {
      SameCount(ls[1..], ls'[1..]);
    }
  }

  // ----- searching

  datatype Found = At(block: nat, offset: nat) | Absent | Corrupt

  /** The walk over one block. */
  function ScanBlock(b: Block, i: nat, o: nat, name: Name, maxIno: nat): Found
    decreases BLOCK_SIZE - o
  {
    if o >= BLOCK_SIZE then Absent
    else if !ValidAt(b, o, maxIno) then Corrupt
    else if Ino(b, o) != 0 && NameAt(b, o) == name then At(i, o)
    else ScanBlock(b, i, o + RecLen(b, o), name, maxIno)
  }

  /** The walk over the blocks; an empty mask skips none. */
  function Scan(blocks: seq<Block>, i: nat, mask: set<nat>, name: Name, maxIno: nat): Found
    decreases |blocks| - i
  {
    if i >= |blocks| then Absent
    else if mask != {} && i !in mask then Scan(blocks, i + 1, mask, name, maxIno)
    else
      var r := ScanBlock(blocks[i], i, 0, name, maxIno);
      if r == Absent then Scan(blocks, i + 1, mask, name, maxIno) else r
  }

  ghost predicate AllTiled(blocks: seq<Block>, maxIno: nat) {
    forall i :: 0 <= i < |blocks| ==> Tiled(blocks[i], 0, maxIno)
  }

  /** The entries of each block. */
  ghost function Lives(blocks: seq<Block>, maxIno: nat): seq<seq<Entry>>
    requires AllTiled(blocks, maxIno)
  {
    seq(|blocks|, i requires 0 <= i < |blocks| => Live(blocks[i], 0, maxIno))
  }

  /** On a tiled block the walk is lookup. */
  lemma {:induction false} ScanBlockFinds(b: Block, i: nat, o: nat, name: Name, maxIno: nat)
    requires Tiled(b, o, maxIno)
    ensures match ScanBlock(b, i, o, name, maxIno)
            case At(j, p) =>
              && j == i && Reach(b, o, p, maxIno) && p < BLOCK_SIZE && ValidAt(b, p, maxIno)
              && Ino(b, p) != 0 && NameAt(b, p) == name
              && Lookup(Live(b, o, maxIno), name) == Some(Entry(name, Ino(b, p), FileType(b, p)))
            case Absent => Lookup(Live(b, o, maxIno), name) == None
            case Corrupt => false
    decreases BLOCK_SIZE - o
  {
    hide Ino, RecLen, NameLen, NameAt, FileType;
    if o < BLOCK_SIZE {
      LiveStep(b, o, maxIno);
      ScanBlockFinds(b, i, o + RecLen(b, o), name, maxIno);
      LookupAppend(EntryAt(b, o), Live(b, o + RecLen(b, o), maxIno), name);
    }
  }

  /** A search through an exact mask of a directory finds what the full walk finds, which is lookup. */
  lemma {:induction false} ScanFinds(blocks: seq<Block>, i: nat, mask: set<nat>, name: Name, maxIno: nat)
    requires AllTiled(blocks, maxIno) && i <= |blocks|
    requires mask == {} || forall j :: i <= j < |blocks| && Lookup(Lives(blocks, maxIno)[j], name).Some? ==> j in mask
    ensures Scan(blocks, i, mask, name, maxIno) == Scan(blocks, i, {}, name, maxIno)
    ensures match Scan(blocks, i, mask, name, maxIno)
            case At(j, p) =>
              && i <= j < |blocks| && Reach(blocks[j], 0, p, maxIno) && p < BLOCK_SIZE && ValidAt(blocks[j], p, maxIno)
              && Ino(blocks[j], p) != 0 && NameAt(blocks[j], p) == name
              && Lookup(Concat(Lives(blocks, maxIno)[i..]),
                        name) == Some(Entry(name, Ino(blocks[j], p), FileType(blocks[j], p)))
            case Absent => Lookup(Concat(Lives(blocks, maxIno)[i..]), name) == None
            case Corrupt => false
    decreases |blocks| - i
  {
    hide Ino, RecLen, NameLen, NameAt, FileType, ValidAt, Tiled, Live, Reach;
    var ls := Lives(blocks, maxIno);
    if i < |blocks| {
      ScanBlockFinds(blocks[i], i, 0, name, maxIno);
      ScanFinds(blocks, i + 1, mask, name, maxIno);
      assert ls[i..][1..] == ls[i + 1..] && ls[i..][0] == ls[i];
      LookupAppend(ls[i], Concat(ls[i + 1..]), name);
      assert ls[i] == Live(blocks[i], 0, maxIno);
    }
  }

  /** Of a name that an index marks, indexed lookup returns what the linear scan returns. */
  lemma {:induction false} IndexedSearch(blocks: seq<Block>, x: Index, hash: Name -> nat, name: Name, maxIno: nat)
    requires AllTiled(blocks, maxIno) && Marks(x, Lives(blocks, maxIno), hash, name)
    ensures Scan(blocks, 0, x.masks[Bucket(hash, name)], name, maxIno) == Scan(blocks, 0, {}, name, maxIno)
  {
    ScanFinds(blocks, 0, x.masks[Bucket(hash, name)], name, maxIno);
    ScanFinds(blocks, 0, {}, name, maxIno);
  }
}
