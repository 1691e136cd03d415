/** Directory blocks (dir.c, cryexts_fs.h): 4096 bytes tiled by variable-length records, each with a header
    of twelve bytes and a name. */
module DirBlock {
  import opened Bytes

  const HEADER := 12
  const NAME_LEN := 255
  const ROOT_INO := 1
  const FT_MAX := 3
  const INO_LIMIT := 0x1_0000_0000_0000_0000

  type Name = seq<byte>

  /** Length of a record that holds a name, a multiple of four. */
  function RecLenFor(nameLen: nat): nat { (HEADER + nameLen + 3) / 4 * 4 }

  // ----- one record

  function Ino(b: Block, o: nat): nat
    requires o + HEADER <= BLOCK_SIZE
  {
    Value(b[o..o + 8])
  }

  function RecLen(b: Block, o: nat): nat
    requires o + HEADER <= BLOCK_SIZE
  {
    Value(b[o + 8..o + 10])
  }

  function NameLen(b: Block, o: nat): nat
    requires o + HEADER <= BLOCK_SIZE
  {
    b[o + 10]
  }

  function FileType(b: Block, o: nat): nat
    requires o + HEADER <= BLOCK_SIZE
  {
    b[o + 11]
  }

  function NameAt(b: Block, o: nat): Name
    requires o + HEADER <= BLOCK_SIZE && o + HEADER + NameLen(b, o) <= BLOCK_SIZE
  {
    b[o + HEADER..o + HEADER + NameLen(b, o)]
  }

  /** The checks every reader makes of a record. A header that does not fit fails them whatever it holds. */
  predicate ValidAt(b: Block, o: nat, maxIno: nat) {
    && o + HEADER <= BLOCK_SIZE
    && RecLen(b, o) >= HEADER && RecLen(b, o) % 4 == 0 && o + RecLen(b, o) <= BLOCK_SIZE
    && HEADER + NameLen(b, o) <= RecLen(b, o)
    && (Ino(b, o) != 0 ==> ROOT_INO <= Ino(b, o) <= maxIno)
    && FileType(b, o) <= FT_MAX
  }

  /** Header and name of a record as bytes. */
  function Record(ino: nat, recLen: nat, name: Name, ftype: byte): (s: seq<byte>)
    requires |name| <= NAME_LEN
    ensures |s| == HEADER + |name|
  {
    Encode(ino, 8) + Encode(recLen, 2) + [|name| as byte] + [ftype] + name
  }

  /** A record stored at `o`. */
  function PutRecord(b: Block, o: nat, ino: nat, recLen: nat, name: Name, ftype: byte): Block
    requires |name| <= NAME_LEN && o + HEADER + |name| <= BLOCK_SIZE
  {
    Put(b, o, Record(ino, recLen, name, ftype))
  }

  /** A stored record reads back. */
  lemma {:induction false} RecordReadsBack(b: Block, o: nat, ino: nat, recLen: nat, name: Name, ftype: byte)
    requires |name| <= NAME_LEN && o + HEADER + |name| <= BLOCK_SIZE && ino < INO_LIMIT && recLen < 0x1_0000
    ensures var c := PutRecord(b, o, ino, recLen, name, ftype);
            Ino(c, o) == ino && RecLen(c, o) == recLen && NameLen(c, o) == |name| && NameAt(c, o) == name
              && FileType(c, o) == ftype
  {
    var r := Record(ino, recLen, name, ftype);
    var c := PutRecord(b, o, ino, recLen, name, ftype);
    hide Encode, Value, Put, Record;
    RecordParts(ino, recLen, name, ftype);
    assert c[o..o + |r|] == r;
    assert c[o..o + 8] == r[..8];
    assert c[o + 8..o + 10] == r[8..10];
    assert c[o + 10] == r[10] && c[o + 11] == r[11];
    assert c[o + HEADER..o + HEADER + |name|] == r[HEADER..];
    Widths();
    ValueOfEncode(ino, 8);
    ValueOfEncode(recLen, 2);
  }

  lemma {:induction false} RecordParts(ino: nat, recLen: nat, name: Name, ftype: byte)
    requires |name| <= NAME_LEN
    ensures var r := Record(ino, recLen, name, ftype);
            && |r| == HEADER + |name| && r[..8] == Encode(ino, 8) && r[8..10] == Encode(recLen, 2)
            && r[10] == |name| && r[11] == ftype && r[HEADER..] == name
  {
    hide Encode;
  }

  /** The least multiple of four that holds header and name. */
  lemma {:induction false} RecLenLeast(nameLen: nat)
    ensures RecLenFor(nameLen) % 4 == 0 && 12 + nameLen <= RecLenFor(nameLen) < 12 + nameLen + 4
  {
  }

  /** Where the fields of a stored record lie. */
  lemma {:induction false} RecordLayout(b: Block, o: nat, ino: nat, recLen: nat, name: Name, ftype: byte)
    requires |name| <= 255 && o + 12 + |name| <= 4096
    ensures var c := PutRecord(b, o, ino, recLen, name, ftype);
            && c[o..o + 8] == Encode(ino, 8) && c[o + 8..o + 10] == Encode(recLen, 2)
            && c[o + 10] == |name| && c[o + 11] == ftype && c[o + 12..o + 12 + |name|] == name
            && forall i :: 0 <= i < 4096 && !(o <= i < o + 12 + |name|) ==> c[i] == b[i]
  {
    var r := Record(ino, recLen, name, ftype);
    var c := PutRecord(b, o, ino, recLen, name, ftype);
    RecordParts(ino, recLen, name, ftype);
    hide Encode, Put, Record;
    assert c[o..o + |r|] == r;
    SubSlice(c, o, |r|, 0, 8);
    SubSlice(c, o, |r|, 8, 10);
    SubSlice(c, o, |r|, 12, |r|);
    assert c[o + 10] == r[10] && c[o + 11] == r[11];
  }

  /** A reader accepts exactly the records that lie in the block, are as long as their names need and a multiple of four,
      and name no inode beyond the last one nor an unknown type. */
  lemma {:induction false} ValidExactly(b: Block, o: nat, maxIno: nat)
    ensures ValidAt(b, o, maxIno)
            <==> && o + 12 <= 4096 && RecLen(b, o) % 4 == 0 && RecLenFor(NameLen(b, o)) <= RecLen(b, o) <= 4096 - o
                 && Ino(b, o) <= maxIno && FileType(b, o) <= 3
  {
    hide Value;
  }

  /** Blocks that agree on the bytes of a record read the same there. */
  lemma {:induction false} SameRecord(b: Block, c: Block, o: nat, maxIno: nat)
    requires ValidAt(b, o, maxIno) && b[o..o + RecLen(b, o)] == c[o..o + RecLen(b, o)]
    ensures ValidAt(c, o, maxIno) && RecLen(c, o) == RecLen(b, o) && Ino(c, o) == Ino(b, o)
    ensures NameAt(c, o) == NameAt(b, o) && FileType(c, o) == FileType(b, o)
  {
    hide Value;
    var n := RecLen(b, o);
    var p, q := b[o..o + n], c[o..o + n];
    assert p[..8] == b[o..o + 8] && q[..8] == c[o..o + 8];
    assert p[8..10] == b[o + 8..o + 10] && q[8..10] == c[o + 8..o + 10];
    assert p[10] == b[o + 10] && q[10] == c[o + 10] && p[11] == b[o + 11] && q[11] == c[o + 11];
    var k := NameLen(b, o);
    assert p[HEADER..HEADER + k] == b[o + HEADER..o + HEADER + k] && q[HEADER..HEADER + k] == c[o + HEADER..o + HEADER + k];
  }

  // ----- tilings

  datatype Entry = Entry(name: Name, ino: nat, ftype: nat)

  /** From `o` to the end the block is exactly tiled by records that pass the checks. */
  ghost predicate Tiled(b: Block, o: nat, maxIno: nat)
    decreases BLOCK_SIZE - o
  {
    o == BLOCK_SIZE || (ValidAt(b, o, maxIno) && Tiled(b, o + RecLen(b, o), maxIno))
  }

  /** The entry of a record, if it is in use. */
  function EntryAt(b: Block, o: nat): seq<Entry>
    requires o + HEADER <= BLOCK_SIZE && o + HEADER + NameLen(b, o) <= BLOCK_SIZE
  {
    if Ino(b, o) == 0 then [] else [Entry(NameAt(b, o), Ino(b, o), FileType(b, o))]
  }

  /** The entries of a block in order, from `o` on. */
  ghost function Live(b: Block, o: nat, maxIno: nat): seq<Entry>
    requires Tiled(b, o, maxIno)
    decreases BLOCK_SIZE - o
  {
    if o == BLOCK_SIZE then [] else EntryAt(b, o) + Live(b, o + RecLen(b, o), maxIno)
  }

  /** `to` is the offset of a record, or the end, on the walk from `o`. */
  ghost predicate Reach(b: Block, o: nat, to: nat, maxIno: nat)
    decreases BLOCK_SIZE - o
  {
    o == to || (o < to && ValidAt(b, o, maxIno) && Reach(b, o + RecLen(b, o), to, maxIno))
  }

  /** The entries between two offsets of the walk. */
  ghost function Before(b: Block, o: nat, to: nat, maxIno: nat): seq<Entry>
    requires Reach(b, o, to, maxIno)
    decreases BLOCK_SIZE - o
  {
    if o == to then [] else EntryAt(b, o) + Before(b, o + RecLen(b, o), to, maxIno)
  }

  lemma {:induction false} LiveSplit(b: Block, o: nat, to: nat, maxIno: nat)
    requires Tiled(b, o, maxIno) && Reach(b, o, to, maxIno)
    ensures Tiled(b, to, maxIno) && Live(b, o, maxIno) == Before(b, o, to, maxIno) + Live(b, to, maxIno)
    decreases BLOCK_SIZE - o
  {
    hide ValidAt, EntryAt, RecLen, Ino, NameLen, NameAt, FileType;
    if o < to {
      LiveStep(b, o, maxIno);
      LiveSplit(b, o + RecLen(b, o), to, maxIno);
    }
  }

  lemma {:induction false} LiveStep(b: Block, o: nat, maxIno: nat)
    requires ValidAt(b, o, maxIno)
    ensures o + HEADER <= BLOCK_SIZE && HEADER <= RecLen(b, o) <= BLOCK_SIZE - o
    ensures o + HEADER + NameLen(b, o) <= BLOCK_SIZE
  {
  }

  /** One more record walked over. */
  lemma {:induction false} ReachStep(b: Block, o: nat, to: nat, maxIno: nat)
    requires Reach(b, o, to, maxIno) && ValidAt(b, to, maxIno)
    ensures Reach(b, o, to + RecLen(b, to), maxIno)
    ensures Before(b, o, to + RecLen(b, to), maxIno) == Before(b, o, to, maxIno) + EntryAt(b, to)
    decreases BLOCK_SIZE - o
  {
    hide ValidAt, EntryAt, RecLen, Ino, NameLen, NameAt, FileType;
    LiveStep(b, to, maxIno);
    if o < to {
      LiveStep(b, o, maxIno);
      var n := o + RecLen(b, o);
      ReachStep(b, n, to, maxIno);
      assert EntryAt(b, o) + (Before(b, n, to, maxIno) + EntryAt(b, to))
             == EntryAt(b, o) + Before(b, n, to, maxIno) + EntryAt(b, to);
    } else {
      assert Reach(b, o + RecLen(b, o), to + RecLen(b, to), maxIno);
    }
  }

  /** Changes in front of `o` do not matter from `o` on. */
  lemma {:induction false} LiveBehind(b: Block, c: Block, o: nat, maxIno: nat)
    requires o <= BLOCK_SIZE && Tiled(b, o, maxIno) && b[o..] == c[o..]
    ensures Tiled(c, o, maxIno) && Live(c, o, maxIno) == Live(b, o, maxIno)
    decreases BLOCK_SIZE - o
  {
    if o < BLOCK_SIZE {
      var n := RecLen(b, o);
      hide EntryAt, RecLen, ValidAt;
      LiveStep(b, o, maxIno);
      SuffixParts(b, c, o, n);
      SameEntry(b, c, o, maxIno);
      LiveBehind(b, c, o + n, maxIno);
    }
  }

  lemma {:induction false} SuffixParts(b: Block, c: Block, o: nat, n: nat)
    requires o + n <= BLOCK_SIZE && b[o..] == c[o..]
    ensures b[o..o + n] == c[o..o + n] && b[o + n..] == c[o + n..]
  {
    assert b[o..][..n] == b[o..o + n] && c[o..][..n] == c[o..o + n];
    assert b[o..][n..] == b[o + n..] && c[o..][n..] == c[o + n..];
  }

  lemma {:induction false} SameEntry(b: Block, c: Block, o: nat, maxIno: nat)
    requires ValidAt(b, o, maxIno) && b[o..o + RecLen(b, o)] == c[o..o + RecLen(b, o)]
    ensures ValidAt(c, o, maxIno) && RecLen(c, o) == RecLen(b, o) && EntryAt(c, o) == EntryAt(b, o)
  {
    hide Value;
    SameRecord(b, c, o, maxIno);
  }

  /** Changes from `to` on do not matter for the walk up to `to`. */
  lemma {:induction false} LiveBefore(b: Block, c: Block, o: nat, to: nat, maxIno: nat)
    requires Reach(b, o, to, maxIno) && to <= BLOCK_SIZE && b[..to] == c[..to]
    ensures Reach(c, o, to, maxIno) && Before(c, o, to, maxIno) == Before(b, o, to, maxIno)
    ensures Tiled(c, to, maxIno) ==> Tiled(c, o, maxIno)
    decreases BLOCK_SIZE - o
  {
    if o < to {
      var n := RecLen(b, o);
      hide EntryAt, RecLen, ValidAt;
      LiveStep(b, o, maxIno);
      ReachBound(b, o + n, to, maxIno);
      PrefixPart(b, c, o, n, to);
      SameEntry(b, c, o, maxIno);
      LiveBefore(b, c, o + n, to, maxIno);
    }
  }

  lemma {:induction false} PrefixPart(b: Block, c: Block, o: nat, n: nat, to: nat)
    requires o + n <= to <= BLOCK_SIZE && b[..to] == c[..to]
    ensures b[o..o + n] == c[o..o + n]
  {
    assert b[..to][o..o + n] == b[o..o + n] && c[..to][o..o + n] == c[o..o + n];
  }

  lemma {:induction false} ReachBound(b: Block, o: nat, to: nat, maxIno: nat)
    requires Reach(b, o, to, maxIno)
    ensures o <= to
  {
  }
}
