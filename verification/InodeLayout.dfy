/** The bytes of inodes and leaves (cryexts_fs.h), and that nothing else than what is written is accepted. */
module InodeLayout {
  import opened Bytes
  import opened ExtentSpec
  import opened InodeSpec

  // ----- where the fields lie

  /** A leaf: four numbers of two bytes, then one entry of 24 bytes for each extent, the last four of them zero. */
  lemma {:induction false} LeafLayout(es: seq<Extent>, j: nat)
    requires |es| <= 170 && j < |es|
    ensures PER_LEAF == 170
    ensures var b, o := LeafBytes(es), 8 + 24 * j;
            && b[..8] == Encode(0x4558, 2) + Encode(|es|, 2) + Encode(170, 2) + Encode(0, 2)
            && b[o..o + 8] == Encode(es[j].logical, 8) && b[o + 8..o + 16] == Encode(es[j].physical, 8)
            && b[o + 16..o + 20] == Encode(es[j].length, 4) && b[o + 20..o + 24] == [0, 0, 0, 0]
  {
    LeafFront(es);
    LeafSlice(es, j);
    ExtentsSlice(es, j);
    ExtentLayout(es[j]);
    hide LeafBytes, ExtentsBytes, ExtentBytes, Encode;
    var b, o := LeafBytes(es), 8 + 24 * j;
    SubSlice(b, o, 24, 0, 8);
    SubSlice(b, o, 24, 8, 16);
    SubSlice(b, o, 24, 16, 20);
    SubSlice(b, o, 24, 20, 24);
  }

  /** A block holds a leaf of `n` extents exactly when a leaf may have as many. */
  lemma {:induction false} LeafHolds(n: nat)
    ensures n <= PER_LEAF <==> 8 + 24 * n <= 4096
  {
  }

  lemma {:induction false} LeafFront(es: seq<Extent>)
    requires |es| <= PER_LEAF
    ensures LeafBytes(es)[..8] == Encode(0x4558, 2) + Encode(|es|, 2) + Encode(170, 2) + Encode(0, 2)
  {
    hide Encode, ExtentsBytes, Zeros;
  }

  lemma {:induction false} ExtentLayout(e: Extent)
    ensures var s := ExtentBytes(e);
            && s[..8] == Encode(e.logical, 8) && s[8..16] == Encode(e.physical, 8) && s[16..20] == Encode(e.length, 4)
            && s[20..24] == [0, 0, 0, 0]
  {
    EncodeZero();
    hide Encode;
  }

  lemma {:induction false} EncodeZero()
    ensures Encode(0, 4) == [0, 0, 0, 0]
  {
    assert Encode(0, 3) == [0, 0, 0] by {
      assert Encode(0, 1) == [0];
      assert Encode(0, 2) == [0, 0];
    }
  }

  /** Behind the entries a leaf is zero. */
  lemma {:induction false} LeafTail(es: seq<Extent>, j: nat)
    requires |es| <= 170 && 8 + 24 * |es| <= j < 4096
    ensures LeafBytes(es)[j] == 0
  {
    hide Encode, ExtentsBytes;
  }

  /** The reserved area: the header, four references of 22 bytes, and the trailer from byte 96 on. */
  lemma {:induction false} AreaLayout(refs: seq<Ref>, count: nat, x: Extra, i: nat)
    requires |refs| == 4 && i < 4
    ensures var a, o := AreaBytes(refs, count, x), 8 + 22 * i;
            && a[..8] == Encode(0x4558, 2) + Encode(count, 2) + Encode(4, 2) + Encode(1, 2)
            && a[o..o + 8] == Encode(refs[i].logical, 8) && a[o + 8..o + 16] == Encode(refs[i].block, 8)
            && a[o + 16..o + 18] == Encode(refs[i].entries, 2) && a[o + 18..o + 22] == Encode(refs[i].checksum, 4)
            && a[96..104] == Encode(x.xattr, 8) && a[104..108] == Encode(x.policy, 4) && a[108..116] == Encode(x.orphan, 8)
  {
    AreaSlice(refs, count, x, i);
    RefLayout(refs[i]);
    AreaEnds(refs, count, x);
    hide AreaBytes, RefBytes, Encode;
    var a, o := AreaBytes(refs, count, x), 8 + 22 * i;
    SubSlice(a, o, 22, 0, 8);
    SubSlice(a, o, 22, 8, 16);
    SubSlice(a, o, 22, 16, 18);
    SubSlice(a, o, 22, 18, 22);
  }

  lemma {:induction false} RefLayout(r: Ref)
    ensures var s := RefBytes(r);
            && s[..8] == Encode(r.logical, 8) && s[8..16] == Encode(r.block, 8) && s[16..18] == Encode(r.entries, 2)
            && s[18..22] == Encode(r.checksum, 4)
  {
    hide Encode;
  }

  lemma {:induction false} AreaEnds(refs: seq<Ref>, count: nat, x: Extra)
    requires |refs| == ROOT_REFS
    ensures var a := AreaBytes(refs, count, x);
            && a[..8] == Encode(0x4558, 2) + Encode(count, 2) + Encode(4, 2) + Encode(1, 2) && a[96..] == ExtraBytes(x)
            && a[96..104] == Encode(x.xattr, 8) && a[104..108] == Encode(x.policy, 4) && a[108..116] == Encode(x.orphan, 8)
  {
    hide Encode, RefBytes;
  }

  // ----- what is accepted

  /** A number of `n` bytes is what it should be exactly when its bytes are. */
  lemma {:induction false} SameNumber(s: seq<byte>, v: nat)
    requires v < Pow256(|s|)
    ensures Value(s) == v <==> s == Encode(v, |s|)
  {
    ValueOfEncode(v, |s|);
    EncodeOfValue(s);
  }

  lemma {:induction false} RefSpelled(a: Area, i: nat)
    requires i < ROOT_REFS
    ensures a[8 + 22 * i..8 + 22 * i + 22] == RefBytes(RefAt(a, i))
  {
    var o := 8 + 22 * i;
    EncodeOfValue(a[o..o + 8]);
    EncodeOfValue(a[o + 8..o + 16]);
    EncodeOfValue(a[o + 16..o + 18]);
    EncodeOfValue(a[o + 18..o + 22]);
    hide Encode, Value;
    assert a[o..o + 22] == a[o..o + 8] + a[o + 8..o + 16] + a[o + 16..o + 18] + a[o + 18..o + 22];
  }

  lemma {:induction false} ExtraSpelled(a: Area)
    ensures a[96..] == ExtraBytes(ExtraAt(a))
  {
    EncodeOfValue(a[96..104]);
    EncodeOfValue(a[104..108]);
    EncodeOfValue(a[108..116]);
    hide Encode, Value;
    assert a[96..] == a[96..104] + a[104..108] + a[108..116];
  }

  /** Over arbitrary bytes: the header of an inode is accepted exactly when the whole area is the one that is written for
      the references and the trailer it holds, with a number of leaves that it has references for. */
  lemma {:induction false} AreaExactly(a: Area)
    ensures HeaderOk(a) <==> && Value(a[2..4]) <= 4
                             && a == AreaBytes([RefAt(a, 0), RefAt(a, 1), RefAt(a, 2), RefAt(a, 3)], Value(a[2..4]), ExtraAt(a))
  {
    hide *;
    HeaderNumbers(a);
    TwoBytes();
    var count, w := Value(a[2..4]), Respelled(a);
    SameNumber(a[..2], 0x4558);
    SameNumber(a[4..6], 4);
    SameNumber(a[6..8], 1);
    EncodeOfValue(a[2..4]);
    SameHead(a, count);
    RespelledParts(a, 0);
    RespelledParts(a, 1);
    RespelledParts(a, 2);
    RespelledParts(a, 3);
    SixParts(a, w);
    RespelledIs(a);
  }

  lemma {:induction false} TwoBytes()
    ensures Pow256(2) == 0x1_0000
  {
    Widths();
  }

  /** The area that is written for what an area holds. */
  function Respelled(a: Area): Area {
    AreaBytes([RefAt(a, 0), RefAt(a, 1), RefAt(a, 2), RefAt(a, 3)], Value(a[2..4]), ExtraAt(a))
  }

  lemma {:induction false} RespelledIs(a: Area)
    ensures Respelled(a)
            == AreaBytes([RefAt(a, 0), RefAt(a, 1), RefAt(a, 2), RefAt(a, 3)], Value(a[2..4]), ExtraAt(a))
  {
    hide AreaBytes, RefAt, Value, ExtraAt;
  }

  lemma {:induction false} RespelledParts(a: Area, i: nat)
    requires i < 4
    ensures |a| == |Respelled(a)| == 116 && Respelled(a)[96..] == a[96..]
    ensures Respelled(a)[..8] == Encode(0x4558, 2) + Encode(Value(a[2..4]), 2) + Encode(4, 2) + Encode(1, 2)
    ensures Respelled(a)[8 + 22 * i..30 + 22 * i] == a[8 + 22 * i..30 + 22 * i]
  {
    var refs := [RefAt(a, 0), RefAt(a, 1), RefAt(a, 2), RefAt(a, 3)];
    AreaEnds(refs, Value(a[2..4]), ExtraAt(a));
    AreaSlice(refs, Value(a[2..4]), ExtraAt(a), i);
    RefSpelled(a, i);
    ExtraSpelled(a);
    hide AreaBytes, RefBytes, RefAt, Value, ExtraAt, Encode;
  }

  lemma {:induction false} HeaderNumbers(a: Area)
    ensures HeaderOk(a) <==> Value(a[..2]) == 0x4558 && Value(a[4..6]) == 4 && Value(a[2..4]) <= 4 && Value(a[6..8]) == 1
    ensures LEAF_HEADER == 8 && REF_SIZE == 22 && ROOT_REFS == 4 && |a| == 116
  {
    hide Value;
  }

  lemma {:induction false} SameHead(a: Area, count: nat)
    requires |a| == 116 && a[2..4] == Encode(count, 2)
    ensures a[..8] == Encode(0x4558, 2) + Encode(count, 2) + Encode(4, 2) + Encode(1, 2)
            <==> a[..2] == Encode(0x4558, 2) && a[4..6] == Encode(4, 2) && a[6..8] == Encode(1, 2)
  {
    hide Encode;
    var m, n, x, d := Encode(0x4558, 2), Encode(count, 2), Encode(4, 2), Encode(1, 2);
    assert a[..8] == a[..2] + a[2..4] + a[4..6] + a[6..8];
    var s := m + n + x + d;
    assert s[..2] == m && s[2..4] == n && s[4..6] == x && s[6..8] == d;
    assert a[..8][..2] == a[..2] && a[..8][4..6] == a[4..6] && a[..8][6..8] == a[6..8];
  }

  /** Two areas that agree from byte 8 on. */
  lemma {:induction false} SixParts(a: Area, w: Area)
    requires |a| == |w| == 116 && a[96..] == w[96..]
    requires a[8..30] == w[8..30] && a[30..52] == w[30..52] && a[52..74] == w[52..74] && a[74..96] == w[74..96]
    ensures a == w <==> a[..8] == w[..8]
  {
    assert a == a[..8] + a[8..30] + a[30..52] + a[52..74] + a[74..96] + a[96..];
    assert w == w[..8] + w[8..30] + w[30..52] + w[52..74] + w[74..96] + w[96..];
  }

  /** Over arbitrary bytes: a leaf is accepted exactly when the reference names a block with the checksum it gives, whose
      header is the one written for that many extents. */
  lemma {:induction false} LeafExactly(r: Ref, disk: map<nat, Block>, checksum: (nat, Block) -> nat)
    ensures LeafOk(r, disk, checksum)
            <==> && r.block != 0 && 0 < r.entries <= 170 && r.block in disk && r.checksum == checksum(r.block, disk[r.block])
                 && disk[r.block][..6] == Encode(0x4558, 2) + Encode(r.entries, 2) + Encode(170, 2)
  {
    if r.block in disk && r.entries <= 170 {
      var b := disk[r.block];
      Widths();
      SameNumber(b[..2], 0x4558);
      SameNumber(b[2..4], r.entries);
      SameNumber(b[4..6], 170);
      hide Encode, Value, Pow256;
      var s := Encode(0x4558, 2) + Encode(r.entries, 2) + Encode(170, 2);
      assert s[..2] == Encode(0x4558, 2) && s[2..4] == Encode(r.entries, 2) && s[4..6] == Encode(170, 2);
      assert b[..6] == b[..2] + b[2..4] + b[4..6];
      assert b[..6][..2] == b[..2] && b[..6][2..4] == b[2..4] && b[..6][4..6] == b[4..6];
    }
  }
}
