/** The writers of metadata that record a block after they changed it. */
module UndoSites {
  import opened UndoLayout
  import opened UndoSpec
  import opened UndoCrash
  import opened UndoLate
  import Bytes
  import opened DirBlock
  import opened DirSpec
  import opened ExtentSpec
  import opened InodeSpec

  // ----- extent leaves and index blocks

  /** The bytes of a leaf tell its extents. */
  lemma {:induction false} LeafDetermines(a: seq<Extent>, b: seq<Extent>)
    requires |a| <= PER_LEAF && |b| <= PER_LEAF && ExtentsFit(a) && ExtentsFit(b)
    requires LeafBytes(a) == LeafBytes(b)
    ensures a == b
  {
    hide LeafBytes, ExtentAt, ExtentFits, Bytes.Value;
    LeafHeader(a);
    LeafHeader(b);
    forall i | 0 <= i < |a| ensures a[i] == b[i] {
      LeafReads(a, i);
      LeafReads(b, i);
    }
  }

  /** A leaf is cleared and filled before it is recorded. So a crash brings back the extents it had at begin exactly
      when it was recorded before in the same transaction, or they did not change. */
  lemma {:induction false} LeafUndoneExactly(g: Geometry, st: Store, v: Vol, img: Disk, leaf: Leaf, was: seq<Extent>)
    requires InTransaction(g, st, v, img) && g.Kept(leaf.block) && |st.view| == |st.may| && |img| == g.blocksCount
    requires |leaf.extents| <= PER_LEAF && ExtentsFit(leaf.extents) && |was| <= PER_LEAF && ExtentsFit(was)
    requires g.Wf() && img[leaf.block] == Data(LeafBytes(was))
    ensures (forall e :: Crash(PerformAll(st, LateActs(g, v, leaf.block, Data(LeafBytes(leaf.extents)))), e) ==>
             Recovers(g, e, img))
            <==> leaf.block in v.homes || leaf.extents == was
  {
    hide InTransaction, LateActs, PerformAll, Recovers, LeafBytes, ExtentFits;
    LateRecordExactly(g, st, v, img, leaf.block, Data(LeafBytes(leaf.extents)));
    if LeafBytes(leaf.extents) == LeafBytes(was) {
      LeafDetermines(leaf.extents, was);
    }
  }

  /** The same for the bucket index of a directory, whatever bytes it is stored in. */
  lemma {:induction false} IndexUndoneExactly(g: Geometry, st: Store, v: Vol, img: Disk, block: nat,
                                              bytes: Index -> seq<nat>,
                                              index: Index, was: Index)
    requires InTransaction(g, st, v, img) && g.Kept(block) && |st.view| == |st.may| && |img| == g.blocksCount
    requires forall x, y :: bytes(x) == bytes(y) ==> x == y
    requires g.Wf() && img[block] == Data(bytes(was))
    ensures (forall e :: Crash(PerformAll(st, LateActs(g, v, block, Data(bytes(index)))), e) ==> Recovers(g, e, img))
            <==> block in v.homes || index == was
  {
    hide InTransaction, LateActs, PerformAll, Recovers;
    LateRecordExactly(g, st, v, img, block, Data(bytes(index)));
  }

  // ----- the split of a directory record

  /** A directory block when it is recorded in the middle of a split: the old record is shortened, and what follows it
      has a length and otherwise the bytes that were there. */
  function HalfSplit(b: Bytes.Block, o: nat): Bytes.Block
    requires o + HEADER <= Bytes.BLOCK_SIZE
    requires var n := RecLenFor(NameLen(b, o)); n + HEADER <= RecLen(b, o) && o + RecLen(b, o) <= Bytes.BLOCK_SIZE
  {
    var n := RecLenFor(NameLen(b, o));
    Cut(Cut(b, o, n), o + n, RecLen(b, o) - n)
  }

  lemma {:induction false} CutFields(b: Bytes.Block, o: nat, n: nat)
    requires o + HEADER <= Bytes.BLOCK_SIZE && n < 0x1_0000
    ensures var c := Cut(b, o, n);
            && RecLen(c, o) == n && Ino(c, o) == Ino(b, o) && NameLen(c, o) == NameLen(b, o) && FileType(c, o) == FileType(b, o)
            && b[..o + 8] == c[..o + 8] && b[o + 10..] == c[o + 10..]
  {
    var c := Cut(b, o, n);
    hide Bytes.Value, Bytes.Encode;
    Bytes.Widths();
    Bytes.ValueOfEncode(n, 2);
    assert c[o..o + 8] == b[o..o + 8];
    assert c[o + 8..o + 10] == Bytes.Encode(n, 2);
  }

  /** How the two records read then. */
  lemma {:induction false} HalfReads(b: Bytes.Block, o: nat, maxIno: nat)
    requires ValidAt(b, o, maxIno)
    requires RecLenFor(NameLen(b, o)) + HEADER <= RecLen(b, o)
    ensures var c, n, q := HalfSplit(b, o), RecLenFor(NameLen(b, o)), o + RecLen(b, o);
            && ValidAt(c, o, maxIno) && RecLen(c, o) == n && EntryAt(c, o) == EntryAt(b, o)
            && RecLen(c, o + n) == q - (o + n) && Ino(c, o + n) == Ino(b, o + n)
            && NameLen(c, o + n) == NameLen(b, o + n) && FileType(c, o + n) == FileType(b, o + n)
            && b[..o] == c[..o] && b[q..] == c[q..]
  {
    hide Ino, RecLen, NameLen, NameAt, FileType, Bytes.Put, RecLenFor;
    RecLenForName(NameLen(b, o));
    var n, size := RecLenFor(NameLen(b, o)), RecLen(b, o);
    var d := Cut(b, o, n);
    var c := HalfSplit(b, o);
    CutReads(b, o, n, maxIno);
    CutFields(b, o, n);
    CutFields(d, o + n, size - n);
    assert ValidAt(d, o, maxIno) && EntryAt(d, o) == EntryAt(b, o);
    hide Cut, HalfSplit;
    HalfParts(b, d, c, o, n, o + size);
    SameEntry(d, c, o, maxIno);
    SameFields(b, d, o, o + n);
  }

  /** Which bytes the two cuts leave alone. */
  lemma {:induction false} HalfParts(b: Bytes.Block, d: Bytes.Block, c: Bytes.Block, o: nat, n: nat, q: nat)
    requires HEADER <= n && o + n + HEADER <= q <= Bytes.BLOCK_SIZE
    requires b[..o + 8] == d[..o + 8] && b[o + 10..] == d[o + 10..]
    requires d[..o + n + 8] == c[..o + n + 8] && d[o + n + 10..] == c[o + n + 10..]
    ensures b[..o] == c[..o] && b[q..] == c[q..] && d[o..o + n] == c[o..o + n]
  {
    assert b[..o] == b[..o + 8][..o] && d[..o] == d[..o + 8][..o];
    assert d[..o] == d[..o + n + 8][..o] && c[..o] == c[..o + n + 8][..o];
    assert d[o..o + n] == d[..o + n + 8][o..o + n] && c[o..o + n] == c[..o + n + 8][o..o + n];
    assert b[q..] == b[o + 10..][q - o - 10..] && d[q..] == d[o + 10..][q - o - 10..];
    assert d[q..] == d[o + n + 10..][q - o - n - 10..] && c[q..] == c[o + n + 10..][q - o - n - 10..];
  }

  /** The fields of a record behind the cut. */
  lemma {:induction false} SameFields(b: Bytes.Block, d: Bytes.Block, o: nat, m: nat)
    requires o + HEADER <= m && m + HEADER <= Bytes.BLOCK_SIZE && b[o + 10..] == d[o + 10..]
    ensures Ino(b, m) == Ino(d, m) && NameLen(b, m) == NameLen(d, m) && FileType(b, m) == FileType(d, m)
  {
    hide Bytes.Value;
    assert forall i :: m <= i < Bytes.BLOCK_SIZE ==> b[i] == b[o + 10..][i - o - 10] && d[i] == d[o + 10..][i - o - 10];
    assert b[m..m + 8] == d[m..m + 8];
  }

  /** May the bytes behind the name of the record at `o` be read as an empty record of `room` bytes? */
  predicate EmptySlack(b: Bytes.Block, m: nat, room: nat) {
    m + HEADER <= Bytes.BLOCK_SIZE && Ino(b, m) == 0 && HEADER + NameLen(b, m) <= room && FileType(b, m) <= FT_MAX
  }

  /** With slack that reads as a record the block stays tiled. */
  lemma {:induction false} HalfTiled(b: Bytes.Block, o: nat, n: nat, maxIno: nat) returns (x: seq<Entry>, y: seq<Entry>)
    requires Tiled(b, 0, maxIno) && Reach(b, 0, o, maxIno) && ValidAt(b, o, maxIno)
    requires n == RecLenFor(NameLen(b, o)) && n + HEADER <= RecLen(b, o)
    requires ValidAt(HalfSplit(b, o), o + n, maxIno)
    ensures var c := HalfSplit(b, o);
            Edit(b, c, x, EntryAt(b, o), EntryAt(b, o) + EntryAt(c, o + n), y, maxIno)
  {
    hide *;
    RecordFacts(b, o, maxIno);
    var c, size := HalfSplit(b, o), RecLen(b, o);
    HalfReads(b, o, maxIno);
    ReachTwo(c, o, maxIno);
    x, y := Replace(b, c, o, o + size, maxIno);
  }

  /** The record behind the cut passes the checks exactly when its number and type do and its name fits. */
  lemma {:induction false} HalfValid(b: Bytes.Block, o: nat, n: nat, maxIno: nat)
    requires ValidAt(b, o, maxIno) && n == RecLenFor(NameLen(b, o)) && n + HEADER <= RecLen(b, o)
    ensures var c := HalfSplit(b, o);
            && ValidAt(c, o, maxIno) && RecLen(c, o) == n && b[..o] == c[..o]
            && (EmptySlack(b, o + n, RecLen(b, o) - n) <==> ValidAt(c, o + n, maxIno) && EntryAt(c, o + n) == [])
  {
    hide *;
    RecordFacts(b, o, maxIno);
    HalfReads(b, o, maxIno);
    RecLenForName(NameLen(b, o));
    var c, m, room := HalfSplit(b, o), o + n, RecLen(b, o) - n;
    SlackParts(b, m, room);
    EmptyRecord(c, m, maxIno, room);
  }

  lemma {:induction false} RecordFacts(b: Bytes.Block, o: nat, maxIno: nat)
    requires ValidAt(b, o, maxIno)
    ensures o + HEADER <= o + RecLen(b, o) <= Bytes.BLOCK_SIZE && RecLen(b, o) % 4 == 0 && HEADER == 12
  {
  }

  lemma {:induction false} SlackParts(b: Bytes.Block, m: nat, room: nat)
    requires m + HEADER <= Bytes.BLOCK_SIZE
    ensures EmptySlack(b, m, room) <==> Ino(b, m) == 0 && HEADER + NameLen(b, m) <= room && FileType(b, m) <= FT_MAX
  {
  }

  /** A record of `room` bytes that holds no entry. */
  lemma {:induction false} EmptyRecord(c: Bytes.Block, m: nat, maxIno: nat, room: nat)
    requires m + HEADER <= Bytes.BLOCK_SIZE && RecLen(c, m) == room && room >= HEADER && room % 4 == 0
    requires m + room <= Bytes.BLOCK_SIZE
    ensures ValidAt(c, m, maxIno) && EntryAt(c, m) == []
            <==> Ino(c, m) == 0 && HEADER + NameLen(c, m) <= room && FileType(c, m) <= FT_MAX
  {
    hide Ino, RecLen, NameLen, FileType, NameAt;
  }

  /** What the undo journal saves in the middle of a split is a directory block with the entries of before exactly when
      the slack reads as an empty record. */
  lemma {:induction false} HalfSplitExactly(b: Bytes.Block, o: nat, maxIno: nat)
    requires Tiled(b, 0, maxIno) && Reach(b, 0, o, maxIno) && ValidAt(b, o, maxIno)
    requires RecLenFor(NameLen(b, o)) + HEADER <= RecLen(b, o)
    ensures var c, n := HalfSplit(b, o), RecLenFor(NameLen(b, o));
            Tiled(c, 0, maxIno) && Live(c, 0, maxIno) == Live(b, 0, maxIno) <==> EmptySlack(b, o + n, RecLen(b, o) - n)
  {
    var c, n := HalfSplit(b, o), RecLenFor(NameLen(b, o));
    HalfValid(b, o, n, maxIno);
    assert o + n + HEADER <= Bytes.BLOCK_SIZE;
    if ValidAt(c, o + n, maxIno) {
      var x, y := HalfTiled(b, o, n, maxIno);
      var entry, more := EntryAt(b, o), EntryAt(c, o + n);
      hide Tiled, Live, Reach, HalfSplit, RecLenFor, EntryAt, ValidAt, EmptySlack;
      assert |Live(c, 0, maxIno)| == |Live(b, 0, maxIno)| + |more|;
      assert more == [] ==> entry + more == entry;
    } else {
      hide *;
      SplitBroken(b, c, o, n, maxIno);
    }
  }

  /** A record that fails the checks breaks the tiling. */
  lemma {:induction false} SplitBroken(b: Bytes.Block, c: Bytes.Block, o: nat, n: nat, maxIno: nat)
    requires Reach(b, 0, o, maxIno) && o + n < Bytes.BLOCK_SIZE && b[..o] == c[..o]
    requires ValidAt(c, o, maxIno) && RecLen(c, o) == n && !ValidAt(c, o + n, maxIno)
    ensures !Tiled(c, 0, maxIno)
  {
    hide ValidAt, RecLen, Live, Before;
    if Tiled(c, 0, maxIno) {
      LiveBefore(b, c, 0, o, maxIno);
      LiveSplit(c, 0, o, maxIno);
      assert false;
    }
  }

  /** A split of a block that the transaction has not recorded yet is never undone: some crash brings back the block in
      the middle of the split. It has the entries of before exactly when the slack reads as an empty record. */
  lemma {:induction false} SplitUndoneExactly(g: Geometry, st: Store, v: Vol, img: Disk, home: nat, b: Bytes.Block,
                                              o: nat, maxIno: nat)
    returns (e: Disk)
    requires InTransaction(g, st, v, img) && g.Kept(home) && home !in v.homes && |st.view| == |st.may|
    requires |img| == g.blocksCount
    requires Tiled(b, 0, maxIno) && Reach(b, 0, o, maxIno) && ValidAt(b, o, maxIno) && g.Wf() && img[home] == Data(b)
    requires RecLenFor(NameLen(b, o)) + HEADER <= RecLen(b, o)
    ensures var c, n := HalfSplit(b, o), RecLenFor(NameLen(b, o));
            && Crash(PerformAll(st, LateActs(g, v, home, Data(c))), e)
            && Recovers(g, e, img[home := Data(c)]) && !Recovers(g, e, img)
            && (Tiled(c, 0, maxIno) && Live(c, 0, maxIno) == Live(b, 0, maxIno) <==> EmptySlack(b, o + n, RecLen(b, o) - n))
  {
    var c := HalfSplit(b, o);
    HalfReads(b, o, maxIno);
    HalfSplitExactly(b, o, maxIno);
    hide Tiled, Live, Reach, HalfSplit, RecLenFor, EntryAt, ValidAt, EmptySlack, InTransaction, LateActs, PerformAll;
    hide Recovers, Crash;
    hide NameLen, FileType;
    e := NotUndone(g, st, v, img, home, Data(c));
    SameHome(g, e, img, img[home := Data(c)], home);
  }

  /** A deleted name leaves its bytes behind. When a shorter name takes over its record, the slack starts with a byte of
      the old one, and the block that is saved in the middle of the next split does not have the entries of before. */
  lemma {:induction false} StaleName(b: Bytes.Block, o: nat, long: Name, short: Name, ino: nat, ino': nat, maxIno: nat)
    requires Tiled(b, 0, maxIno) && Reach(b, 0, o, maxIno) && ValidAt(b, o, maxIno)
    requires |long| <= NAME_LEN && HEADER + |long| <= RecLen(b, o) && 0 < ino <= maxIno < INO_LIMIT
    requires 0 < ino' <= maxIno
    requires |short| <= NAME_LEN && RecLenFor(|short|) + HEADER <= RecLen(b, o)
    requires var k := RecLenFor(|short|) - HEADER; k < |long| && long[k] != 0
    ensures var c := Filled(Filled(Filled(b, o, ino, long, 1), o, 0, [], 0), o, ino', short, 1);
            && Tiled(c, 0, maxIno) && RecLenFor(NameLen(c, o)) + HEADER <= RecLen(c, o)
            && o + RecLen(c, o) <= Bytes.BLOCK_SIZE
            && var d := HalfSplit(c, o);
               !(Tiled(d, 0, maxIno) && Live(d, 0, maxIno) == Live(c, 0, maxIno))
  {
    hide *;
    RecLenForName(|short|);
    StaleFacts(b, o, maxIno);
    var b1 := Filled(b, o, ino, long, 1);
    FilledKeeps(b, o, ino, long, 1, maxIno);
    var b2 := Filled(b1, o, 0, [], 0);
    FilledKeeps(b1, o, 0, [], 0, maxIno);
    var c := Filled(b2, o, ino', short, 1);
    FilledKeeps(b2, o, ino', short, 1, maxIno);
    var n := RecLenFor(|short|);
    StaleByte(b, o, long, short, ino, ino');
    HalfSplitExactly(c, o, maxIno);
    NotEmpty(c, o + n, RecLen(c, o) - n);
  }

  lemma {:induction false} StaleFacts(b: Bytes.Block, o: nat, maxIno: nat)
    requires ValidAt(b, o, maxIno)
    ensures 1 <= FT_MAX < 256 && HEADER == 12 && o + HEADER <= o + RecLen(b, o) <= Bytes.BLOCK_SIZE
    ensures NAME_LEN == 255
  {
  }

  lemma {:induction false} NotEmpty(b: Bytes.Block, m: nat, room: int)
    requires m + HEADER <= Bytes.BLOCK_SIZE && Ino(b, m) != 0 && room >= 0
    ensures !EmptySlack(b, m, room)
  {
  }

  lemma {:induction false} FilledKeeps(b: Bytes.Block, o: nat, ino: nat, name: Name, ftype: Bytes.byte, maxIno: nat)
    requires Tiled(b, 0, maxIno) && Reach(b, 0, o, maxIno) && ValidAt(b, o, maxIno)
    requires |name| <= NAME_LEN && HEADER + |name| <= RecLen(b, o) && ino <= maxIno < INO_LIMIT && ftype <= FT_MAX
    ensures var c := Filled(b, o, ino, name, ftype);
            && Tiled(c, 0, maxIno) && Reach(c, 0, o, maxIno) && ValidAt(c, o, maxIno)
            && RecLen(c, o) == RecLen(b, o) && NameLen(c, o) == |name|
  {
    var c := Filled(b, o, ino, name, ftype);
    hide Tiled, Reach, Live;
    RecordReadsBack(b, o, ino, RecLen(b, o), name, ftype);
    PutOutside(b, o, Record(ino, RecLen(b, o), name, ftype), RecLen(b, o));
    var x, y := FilledLive(b, o, ino, name, ftype, maxIno);
    hide Filled, ValidAt, RecLen;
    LiveBefore(b, c, 0, o, maxIno);
  }

  /** The byte of the old name is still there. */
  lemma {:induction false} StaleByte(b: Bytes.Block, o: nat, long: Name, short: Name, ino: nat, ino': nat)
    requires o + HEADER + |long| <= Bytes.BLOCK_SIZE && |long| <= NAME_LEN && |short| <= NAME_LEN
    requires o + RecLenFor(|short|) + HEADER <= Bytes.BLOCK_SIZE
    requires var k := RecLenFor(|short|) - HEADER; 0 <= k < |long| && long[k] != 0
    ensures HEADER + |short| <= RecLenFor(|short|)
    ensures var c := Filled(Filled(Filled(b, o, ino, long, 1), o, 0, [], 0), o, ino', short, 1);
            Ino(c, o + RecLenFor(|short|)) != 0
  {
    hide *;
    RecLenForName(|short|);
    Numbers();
    var b1 := Filled(b, o, ino, long, 1);
    var b2 := Filled(b1, o, 0, [], 0);
    var c := Filled(b2, o, ino', short, 1);
    var n := RecLenFor(|short|);
    FilledByte(b, o, ino, long, 1, n);
    FilledByte(b1, o, 0, [], 0, n);
    FilledByte(b2, o, ino', short, 1, n);
    InoBytes(c, o + n);
  }

  lemma {:induction false} Numbers()
    ensures HEADER == 12 && NAME_LEN == 255 && Bytes.BLOCK_SIZE == 4096
  {
  }

  /** The byte at place `n` of a record that was written. */
  lemma {:induction false} FilledByte(b: Bytes.Block, o: nat, ino: nat, name: Name, ftype: Bytes.byte, n: nat)
    requires |name| <= NAME_LEN && o + HEADER + |name| <= Bytes.BLOCK_SIZE && HEADER <= n && o + n < Bytes.BLOCK_SIZE
    ensures Filled(b, o, ino, name, ftype)[o + n] == if n < HEADER + |name| then name[n - HEADER] else b[o + n]
  {
    hide RecLen, Bytes.Encode;
    var r := Record(ino, RecLen(b, o), name, ftype);
    var c := Filled(b, o, ino, name, ftype);
    if n < HEADER + |name| {
      assert c[o..o + |r|] == r && r[n] == name[n - HEADER];
      assert c[o + n] == c[o..o + |r|][n];
    }
  }

  lemma {:induction false} InoBytes(c: Bytes.Block, m: nat)
    requires m + HEADER <= Bytes.BLOCK_SIZE && c[m] != 0
    ensures Ino(c, m) != 0
  {
    hide Bytes.Value;
    var s := c[m..m + 8];
    assert s[0] == c[m];
    FirstByte(s);
  }

  lemma {:induction false} FirstByte(s: seq<Bytes.byte>)
    requires s != [] && s[0] != 0
    ensures Bytes.Value(s) != 0
  {
  }

  // ----- an input

  /** A device of six blocks: the superblock, a journal of four, and one data block. */
  function SmallDevice(sum: UndoLayout.Block -> nat): Geometry {
    Geometry(1, 4, 6, b => b >= 5, sum, b => true)
  }

  /** On it, with an idle journal, one transaction that changes the data block and records it afterwards is not undone,
      while one that records it first is. */
  lemma {:induction false} LateWitness(sum: UndoLayout.Block -> nat, was: UndoLayout.Block, now: UndoLayout.Block)
    requires was != now
    ensures var g := SmallDevice(sum);
            var d := [ZERO, MakeControl(g, 0, 0, 0), ZERO, ZERO, ZERO, was];
            var st := PerformAll(Settled(d), BeginActs(g, 0));
            && Idle(g, Settled(d), Vol(0, []), d)
            && (exists e :: Crash(PerformAll(st, LateActs(g, Vol(1, []), 5, now)), e) && !Recovers(g, e, d))
            && var r := RecordOp(g, Vol(1, []), 5, was);
               forall e :: Crash(Perform(PerformAll(st, r.acts), Lazy(5, now)), e) ==> Recovers(g, e, d)
  {
    var g := SmallDevice(sum);
    var d := [ZERO, MakeControl(g, 0, 0, 0), ZERO, ZERO, ZERO, was];
    var v := Vol(1, []);
    SmallIdle(g, d, sum, was);
    var begin := BeginActs(g, 0);
    assert |begin| == 4 && begin[..4] == begin;
    BeginStages(g, Settled(d), Vol(0, []), d, 4);
    var st := PerformAll(Settled(d), begin);
    var r := RecordOp(g, v, 5, was);
    assert |r.acts| == 3 && r.acts[..3] == r.acts && r.vol.homes == [5];
    hide Idle, InTransaction, PerformAll, BeginActs, RecordOp, LateActs, Perform, Recovers, Settled, MakeControl;
    LateRecordExactly(g, st, v, d, 5, now);
    RecordStages(g, st, v, d, 5, was, 3);
    HomeWrite(g, PerformAll(st, r.acts), r.vol, d, 5, now);
    forall e | Crash(Perform(PerformAll(st, r.acts), Lazy(5, now)), e) ensures Recovers(g, e, d) {
      TransactionCrash(g, Perform(PerformAll(st, r.acts), Lazy(5, now)), r.vol, d, e);
      UndoableRecovers(g, e, d);
    }
  }

  lemma {:induction false} UndoableRecovers(g: Geometry, e: Disk, img: Disk)
    requires Undoable(g, e, img)
    ensures Recovers(g, e, img)
  {
    ReplayRestores(g, e, img);
  }

  lemma {:induction false} SmallIdle(g: Geometry, d: Disk, sum: UndoLayout.Block -> nat, was: UndoLayout.Block)
    requires g == SmallDevice(sum) && d == [ZERO, MakeControl(g, 0, 0, 0), ZERO, ZERO, ZERO, was]
    ensures Idle(g, Settled(d), Vol(0, []), d)
  {
    IdleControl(g, 0);
  }
}
