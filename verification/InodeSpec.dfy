/** Extent inodes on disk (inode.c, cryexts_fs.h): leaf blocks, the reserved area of the inode with its references
    to them, and what loading and validation make of both. */
module InodeSpec {
  import opened Bytes
  import opened ExtentSpec

  datatype Errno = Ok | Euclean | Eio

  const EXTENT_MAGIC := 0x4558
  const DEPTH := 1
  const LEAF_HEADER := 8
  const EXTENT_SIZE := 24
  const REF_SIZE := 22
  const EXTRA_SIZE := 20
  const AREA_SIZE := 116
  const LIMIT64 := 0x1_0000_0000_0000_0000
  const LIMIT32 := 0x1_0000_0000

  /** A reference of the inode to a leaf. */
  datatype Ref = Ref(logical: nat, block: nat, entries: nat, checksum: nat) {
    predicate Fits() { logical < LIMIT64 && block < LIMIT64 && entries < 0x1_0000 && checksum < LIMIT32 }
  }

  /** The trailer of the reserved area. */
  datatype Extra = Extra(xattr: nat, policy: nat, orphan: nat) {
    predicate Fits() { xattr < LIMIT64 && policy < LIMIT32 && orphan < LIMIT64 }
  }

  predicate ExtentFits(e: Extent) { e.logical < LIMIT64 && e.physical < LIMIT64 && e.length < LIMIT32 }

  predicate ExtentsFit(es: seq<Extent>) {
    forall i :: 0 <= i < |es| ==> ExtentFits(es[i])
  }

  // ----- bytes

  function ExtentBytes(e: Extent): (s: seq<byte>)
    ensures |s| == EXTENT_SIZE
  {
    Encode(e.logical, 8) + Encode(e.physical, 8) + Encode(e.length, 4) + Encode(0, 4)
  }

  function ExtentsBytes(es: seq<Extent>): (s: seq<byte>)
    ensures |s| == EXTENT_SIZE * |es|
  {
    if es == [] then [] else ExtentBytes(es[0]) + ExtentsBytes(es[1..])
  }

  /** A leaf block. */
  function LeafBytes(es: seq<Extent>): Block
    requires |es| <= PER_LEAF
  {
    (Encode(EXTENT_MAGIC, 2) + Encode(|es|, 2) + Encode(PER_LEAF, 2) + Encode(0, 2))
    + ExtentsBytes(es) + Zeros(BLOCK_SIZE - LEAF_HEADER - EXTENT_SIZE * |es|)
  }

  function RefBytes(r: Ref): (s: seq<byte>)
    ensures |s| == REF_SIZE
  {
    Encode(r.logical, 8) + Encode(r.block, 8) + Encode(r.entries, 2) + Encode(r.checksum, 4)
  }

  function ExtraBytes(x: Extra): (s: seq<byte>)
    ensures |s| == EXTRA_SIZE
  {
    Encode(x.xattr, 8) + Encode(x.policy, 4) + Encode(x.orphan, 8)
  }

  type Area = s: seq<byte> | |s| == AREA_SIZE witness seq(AREA_SIZE, i => 0)

  /** The reserved area: a header, four references, and the trailer, which fill it exactly. */
  function AreaBytes(refs: seq<Ref>, count: nat, x: Extra): Area
    requires |refs| == ROOT_REFS
  {
    (Encode(EXTENT_MAGIC, 2) + Encode(count, 2) + Encode(ROOT_REFS, 2) + Encode(DEPTH, 2))
    + (RefBytes(refs[0]) + RefBytes(refs[1]) + RefBytes(refs[2]) + RefBytes(refs[3])) + ExtraBytes(x)
  }

  // ----- reading

  function ExtentAt(b: Block, j: nat): Extent
    requires LEAF_HEADER + EXTENT_SIZE * (j + 1) <= BLOCK_SIZE
  {
    var o := LEAF_HEADER + EXTENT_SIZE * j;
    Extent(Value(b[o..o + 8]), Value(b[o + 8..o + 16]), Value(b[o + 16..o + 20]))
  }

  function ReadExtents(b: Block, n: nat): seq<Extent>
    requires n <= PER_LEAF
  {
    seq(n, j requires 0 <= j < n => ExtentAt(b, j))
  }

  function RefAt(a: Area, i: nat): Ref
    requires i < ROOT_REFS
  {
    var o := LEAF_HEADER + REF_SIZE * i;
    Ref(Value(a[o..o + 8]), Value(a[o + 8..o + 16]), Value(a[o + 16..o + 18]), Value(a[o + 18..o + 22]))
  }

  function ExtraAt(a: Area): Extra {
    Extra(Value(a[96..104]), Value(a[104..108]), Value(a[108..116]))
  }

  predicate HeaderOk(a: Area) {
    && Value(a[..2]) == EXTENT_MAGIC && Value(a[4..6]) == ROOT_REFS && Value(a[2..4]) <= ROOT_REFS
    && Value(a[6..8]) == DEPTH
  }

  /** A leaf block is what the reference says. */
  predicate LeafOk(r: Ref, disk: map<nat, Block>, checksum: (nat, Block) -> nat) {
    && r.block != 0 && 0 < r.entries <= PER_LEAF && r.block in disk
    && var b := disk[r.block];
       && Value(b[..2]) == EXTENT_MAGIC && Value(b[4..6]) == PER_LEAF && Value(b[2..4]) == r.entries
       && r.checksum == checksum(r.block, b)
  }

  /** Leaves from reference `i` on. */
  function LoadLeaves(a: Area, i: nat, count: nat, disk: map<nat, Block>,
                      checksum: (nat, Block) -> nat): Option<seq<Leaf>>
    requires i <= count <= ROOT_REFS
    decreases count - i
  {
    if i == count then Some([])
    else
      var r := RefAt(a, i);
      if !LeafOk(r, disk, checksum) then None
      else
        match LoadLeaves(a, i + 1, count, disk, checksum)
        case None => None
        case Some(rest) => Some([Leaf(r.block, ReadExtents(disk[r.block], r.entries))] + rest)
  }

  /** Loading an inode. */
  function LoadOp(a: Area, disk: map<nat, Block>, checksum: (nat, Block) -> nat): Option<seq<Leaf>> {
    if !HeaderOk(a) then None else LoadLeaves(a, 0, Value(a[2..4]), disk, checksum)
  }

  // ----- writing

  /** The reference to a leaf that has been written. */
  function RefOf(leaf: Leaf, checksum: (nat, Block) -> nat): Ref
    requires 0 < |leaf.extents| <= PER_LEAF
  {
    Ref(leaf.extents[0].logical, leaf.block, |leaf.extents|, checksum(leaf.block, LeafBytes(leaf.extents)))
  }

  const NO_REF := Ref(0, 0, 0, 0)

  predicate LeavesFit(leaves: seq<Leaf>) {
    && |leaves| <= ROOT_REFS
    && forall i :: 0 <= i < |leaves| ==>
         0 < leaves[i].block < LIMIT64 && 0 < |leaves[i].extents| <= PER_LEAF && ExtentsFit(leaves[i].extents)
  }

  function RefNumber(leaves: seq<Leaf>, i: nat, checksum: (nat, Block) -> nat): Ref
    requires LeavesFit(leaves)
  {
    if i < |leaves| then RefOf(leaves[i], checksum) else NO_REF
  }

  /** The references of a tree, padded with empty ones. */
  function RefsOf(leaves: seq<Leaf>, checksum: (nat, Block) -> nat): (refs: seq<Ref>)
    requires LeavesFit(leaves)
    ensures |refs| == ROOT_REFS
  {
    [RefNumber(leaves, 0, checksum), RefNumber(leaves, 1, checksum), RefNumber(leaves, 2, checksum),
     RefNumber(leaves, 3, checksum)]
  }

  /** The leaf blocks of a tree are on disk. */
  predicate LeavesOnDisk(leaves: seq<Leaf>, disk: map<nat, Block>)
    requires LeavesFit(leaves)
  {
    forall i :: 0 <= i < |leaves| ==> leaves[i].block in disk && disk[leaves[i].block] == LeafBytes(leaves[i].extents)
  }

  // ----- what is written reads back

  lemma {:induction false} ExtentsSlice(es: seq<Extent>, j: nat)
    requires j < |es|
    ensures ExtentsBytes(es)[EXTENT_SIZE * j..EXTENT_SIZE * (j + 1)] == ExtentBytes(es[j])
  {
    hide ExtentBytes;
    if j > 0 {
      var rest := ExtentsBytes(es[1..]);
      ExtentsSlice(es[1..], j - 1);
      var all := ExtentsBytes(es);
      assert all == ExtentBytes(es[0]) + rest;
      assert all[EXTENT_SIZE * j..EXTENT_SIZE * (j + 1)] == rest[EXTENT_SIZE * (j - 1)..EXTENT_SIZE * j];
    }
  }

  lemma {:induction false} ExtentParts(e: Extent)
    requires ExtentFits(e)
    ensures var s := ExtentBytes(e);
            Value(s[0..8]) == e.logical && Value(s[8..16]) == e.physical && Value(s[16..20]) == e.length
  {
    hide Encode, Value;
    Widths();
    ValueOfEncode(e.logical, 8);
    ValueOfEncode(e.physical, 8);
    ValueOfEncode(e.length, 4);
    var s := ExtentBytes(e);
    assert s[0..8] == Encode(e.logical, 8) && s[8..16] == Encode(e.physical, 8) && s[16..20] == Encode(e.length, 4);
  }

  lemma {:induction false} LeafReads(es: seq<Extent>, j: nat)
    requires |es| <= PER_LEAF && ExtentsFit(es) && j < |es|
    ensures ExtentAt(LeafBytes(es), j) == es[j]
  {
    var b, o, n := LeafBytes(es), LEAF_HEADER + EXTENT_SIZE * j, EXTENT_SIZE;
    hide Encode, Value, ExtentsBytes, ExtentBytes, Zeros;
    LeafSlice(es, j);
    ExtentsSlice(es, j);
    hide LeafBytes;
    SubSlice(b, o, n, 0, 8);
    SubSlice(b, o, n, 8, 16);
    SubSlice(b, o, n, 16, 20);
    ExtentParts(es[j]);
  }

  lemma {:induction false} LeafSlice(es: seq<Extent>, j: nat)
    requires |es| <= PER_LEAF && j < |es|
    ensures var o := LEAF_HEADER + EXTENT_SIZE * j;
            LeafBytes(es)[o..o + EXTENT_SIZE] == ExtentsBytes(es)[EXTENT_SIZE * j..EXTENT_SIZE * (j + 1)]
  {
    hide Encode, ExtentsBytes, Zeros;
    var h := Encode(EXTENT_MAGIC, 2) + Encode(|es|, 2) + Encode(PER_LEAF, 2) + Encode(0, 2);
    var s, z := ExtentsBytes(es), Zeros(BLOCK_SIZE - LEAF_HEADER - EXTENT_SIZE * |es|);
    MiddleSlice(h, s, z, EXTENT_SIZE * j, EXTENT_SIZE * (j + 1));
  }

  lemma {:induction false} MiddleSlice(h: seq<byte>, s: seq<byte>, z: seq<byte>, i: nat, j: nat)
    requires i <= j <= |s|
    ensures (h + s + z)[|h| + i..|h| + j] == s[i..j]
  {
  }

  lemma {:induction false} LeafHeader(es: seq<Extent>)
    requires |es| <= PER_LEAF
    ensures var b := LeafBytes(es);
            Value(b[..2]) == EXTENT_MAGIC && Value(b[2..4]) == |es| && Value(b[4..6]) == PER_LEAF
  {
    hide Encode, Value, ExtentsBytes, Zeros;
    Widths();
    ValueOfEncode(EXTENT_MAGIC, 2);
    ValueOfEncode(|es|, 2);
    ValueOfEncode(PER_LEAF, 2);
    HeaderSlices(Encode(EXTENT_MAGIC, 2), Encode(|es|, 2), Encode(PER_LEAF, 2), Encode(0, 2),
                 ExtentsBytes(es) + Zeros(BLOCK_SIZE - LEAF_HEADER - EXTENT_SIZE * |es|));
    var h := Encode(EXTENT_MAGIC, 2) + Encode(|es|, 2) + Encode(PER_LEAF, 2) + Encode(0, 2);
    assert h + (ExtentsBytes(es) + Zeros(BLOCK_SIZE - LEAF_HEADER - EXTENT_SIZE * |es|)) == LeafBytes(es);
  }

  lemma {:induction false} HeaderSlices(m: seq<byte>, n: seq<byte>, x: seq<byte>, d: seq<byte>, rest: seq<byte>)
    requires |m| == |n| == |x| == |d| == 2
    ensures var s := m + n + x + d + rest; s[..2] == m && s[2..4] == n && s[4..6] == x && s[6..8] == d
  {
  }

  /** A leaf that was written is accepted under its reference, and its extents are read back. */
  lemma {:induction false} LeafReadsBack(leaf: Leaf, disk: map<nat, Block>, checksum: (nat, Block) -> nat)
    requires 0 < leaf.block && 0 < |leaf.extents| <= PER_LEAF && ExtentsFit(leaf.extents)
    requires leaf.block in disk && disk[leaf.block] == LeafBytes(leaf.extents)
    ensures LeafOk(RefOf(leaf, checksum), disk, checksum)
    ensures ReadExtents(disk[leaf.block], |leaf.extents|) == leaf.extents
  {
    hide LeafBytes, Value, ExtentAt;
    LeafHeader(leaf.extents);
    var es := ReadExtents(disk[leaf.block], |leaf.extents|);
    forall j | 0 <= j < |es| ensures es[j] == leaf.extents[j] {
      LeafReads(leaf.extents, j);
    }
  }

  lemma {:induction false} RefParts(r: Ref)
    requires r.Fits()
    ensures var s := RefBytes(r);
            && Value(s[0..8]) == r.logical && Value(s[8..16]) == r.block && Value(s[16..18]) == r.entries
            && Value(s[18..22]) == r.checksum
  {
    hide Encode, Value;
    Widths();
    ValueOfEncode(r.logical, 8);
    ValueOfEncode(r.block, 8);
    ValueOfEncode(r.entries, 2);
    ValueOfEncode(r.checksum, 4);
    var s := RefBytes(r);
    assert s[0..8] == Encode(r.logical, 8) && s[8..16] == Encode(r.block, 8) && s[16..18] == Encode(r.entries, 2);
    assert s[18..22] == Encode(r.checksum, 4);
  }

  /** The parts of the reserved area do not overlap: each reference, and the trailer, reads back. */
  lemma {:induction false} AreaReads(refs: seq<Ref>, count: nat, x: Extra, i: nat)
    requires |refs| == ROOT_REFS && count <= ROOT_REFS && x.Fits() && i < ROOT_REFS && refs[i].Fits()
    ensures var a := AreaBytes(refs, count, x);
            HeaderOk(a) && Value(a[2..4]) == count && RefAt(a, i) == refs[i] && ExtraAt(a) == x
  {
    var a, o := AreaBytes(refs, count, x), LEAF_HEADER + REF_SIZE * i;
    AreaHeader(refs, count, x);
    AreaExtra(refs, count, x);
    AreaSlice(refs, count, x, i);
    hide AreaBytes, Value;
    SubSlice(a, o, REF_SIZE, 0, 8);
    SubSlice(a, o, REF_SIZE, 8, 16);
    SubSlice(a, o, REF_SIZE, 16, 18);
    SubSlice(a, o, REF_SIZE, 18, 22);
    RefParts(refs[i]);
  }

  lemma {:induction false} AreaHeader(refs: seq<Ref>, count: nat, x: Extra)
    requires |refs| == ROOT_REFS && count <= ROOT_REFS
    ensures HeaderOk(AreaBytes(refs, count, x)) && Value(AreaBytes(refs, count, x)[2..4]) == count
  {
    hide Encode, Value, RefBytes, ExtraBytes;
    Widths();
    ValueOfEncode(EXTENT_MAGIC, 2);
    ValueOfEncode(count, 2);
    ValueOfEncode(ROOT_REFS, 2);
    ValueOfEncode(DEPTH, 2);
    var r := RefBytes(refs[0]) + RefBytes(refs[1]) + RefBytes(refs[2]) + RefBytes(refs[3]);
    HeaderSlices(Encode(EXTENT_MAGIC, 2), Encode(count, 2), Encode(ROOT_REFS, 2), Encode(DEPTH, 2), r + ExtraBytes(x));
    var h := Encode(EXTENT_MAGIC, 2) + Encode(count, 2) + Encode(ROOT_REFS, 2) + Encode(DEPTH, 2);
    assert h + (r + ExtraBytes(x)) == AreaBytes(refs, count, x);
  }

  lemma {:induction false} AreaSlice(refs: seq<Ref>, count: nat, x: Extra, i: nat)
    requires |refs| == ROOT_REFS && i < ROOT_REFS
    ensures var o := LEAF_HEADER + REF_SIZE * i; AreaBytes(refs, count, x)[o..o + REF_SIZE] == RefBytes(refs[i])
  {
    hide Encode, RefBytes, ExtraBytes;
    var h := Encode(EXTENT_MAGIC, 2) + Encode(count, 2) + Encode(ROOT_REFS, 2) + Encode(DEPTH, 2);
    var r := RefBytes(refs[0]) + RefBytes(refs[1]) + RefBytes(refs[2]) + RefBytes(refs[3]);
    MiddleSlice(h, r, ExtraBytes(x), REF_SIZE * i, REF_SIZE * i + REF_SIZE);
    assert r[REF_SIZE * i..REF_SIZE * i + REF_SIZE] == RefBytes(refs[i]);
  }

  lemma {:induction false} AreaExtra(refs: seq<Ref>, count: nat, x: Extra)
    requires |refs| == ROOT_REFS && x.Fits()
    ensures ExtraAt(AreaBytes(refs, count, x)) == x
  {
    hide Encode, Value, RefBytes;
    Widths();
    ValueOfEncode(x.xattr, 8);
    ValueOfEncode(x.policy, 4);
    ValueOfEncode(x.orphan, 8);
    var a := AreaBytes(refs, count, x);
    assert a[96..104] == Encode(x.xattr, 8) && a[104..108] == Encode(x.policy, 4) && a[108..116] == Encode(x.orphan, 8);
  }

  /** Main result: a tree that is written loads back to the same leaves and trailer. */
  lemma {:induction false} LoadUndoesWrite(leaves: seq<Leaf>, x: Extra, disk: map<nat, Block>,
                                           checksum: (nat, Block) -> nat)
    requires LeavesFit(leaves) && LeavesOnDisk(leaves, disk) && x.Fits() && forall b, c :: checksum(b, c) < LIMIT32
    ensures var a := AreaBytes(RefsOf(leaves, checksum), |leaves|, x);
            LoadOp(a, disk, checksum) == Some(leaves) && ExtraAt(a) == x
  {
    var a := AreaBytes(RefsOf(leaves, checksum), |leaves|, x);
    AreaHeader(RefsOf(leaves, checksum), |leaves|, x);
    AreaExtra(RefsOf(leaves, checksum), |leaves|, x);
    LoadRest(leaves, x, disk, checksum, 0);
    assert leaves[0..] == leaves;
  }

  lemma {:induction false} LoadRest(leaves: seq<Leaf>, x: Extra, disk: map<nat, Block>, checksum: (nat, Block) -> nat,
                                    i: nat)
    requires LeavesFit(leaves) && LeavesOnDisk(leaves, disk) && x.Fits() && forall b, c :: checksum(b, c) < LIMIT32
    requires i <= |leaves|
    ensures LoadLeaves(AreaBytes(RefsOf(leaves, checksum), |leaves|, x), i, |leaves|, disk, checksum) == Some(leaves[i..])
    decreases |leaves| - i
  {
    hide *;
    var a := AreaBytes(RefsOf(leaves, checksum), |leaves|, x);
    FitParts(leaves, disk);
    LoadStep(a, i, |leaves|, disk, checksum);
    if i < |leaves| {
      RefReads(leaves, x, checksum, i);
      LeafReadsBack(leaves[i], disk, checksum);
      RefIs(leaves[i], checksum);
      LoadRest(leaves, x, disk, checksum, i + 1);
      assert leaves[i..] == [leaves[i]] + leaves[i + 1..];
    } else {
      assert leaves[i..] == [];
    }
  }

  lemma {:induction false} FitParts(leaves: seq<Leaf>, disk: map<nat, Block>)
    requires LeavesFit(leaves) && LeavesOnDisk(leaves, disk)
    ensures |leaves| <= ROOT_REFS
    ensures forall i :: 0 <= i < |leaves| ==>
              && 0 < leaves[i].block && 0 < |leaves[i].extents| <= PER_LEAF && ExtentsFit(leaves[i].extents)
              && leaves[i].block in disk && disk[leaves[i].block] == LeafBytes(leaves[i].extents)
  {
    hide LeafBytes, ExtentsFit;
  }

  lemma {:induction false} RefIs(leaf: Leaf, checksum: (nat, Block) -> nat)
    requires 0 < |leaf.extents| <= PER_LEAF
    ensures RefOf(leaf, checksum).block == leaf.block && RefOf(leaf, checksum).entries == |leaf.extents|
  {
    hide LeafBytes;
  }

  /** One reference of the load. */
  lemma {:induction false} LoadStep(a: Area, i: nat, count: nat, disk: map<nat, Block>, checksum: (nat, Block) -> nat)
    requires i <= count <= ROOT_REFS
    ensures i == count ==> LoadLeaves(a, i, count, disk, checksum) == Some([])
    ensures i < count && LeafOk(RefAt(a, i), disk, checksum) ==>
              && RefAt(a, i).block in disk && RefAt(a, i).entries <= PER_LEAF
              && LoadLeaves(a, i, count, disk, checksum)
                 == match LoadLeaves(a, i + 1, count, disk, checksum)
                    case None => None
                    case Some(rest) => Some([Leaf(RefAt(a, i).block,
                                                  ReadExtents(disk[RefAt(a, i).block], RefAt(a, i).entries))] + rest)
  {
    hide RefAt, ReadExtents, Value;
  }

  lemma {:induction false} RefReads(leaves: seq<Leaf>, x: Extra, checksum: (nat, Block) -> nat, i: nat)
    requires LeavesFit(leaves) && x.Fits() && i < |leaves| && forall b, c :: checksum(b, c) < LIMIT32
    ensures var a := AreaBytes(RefsOf(leaves, checksum), |leaves|, x);
            HeaderOk(a) && Value(a[2..4]) == |leaves| && RefAt(a, i) == RefOf(leaves[i], checksum)
  {
    hide AreaBytes, LeafBytes;
    var refs := RefsOf(leaves, checksum);
    assert refs[i] == RefNumber(leaves, i, checksum);
    assert refs[i].Fits() by { assert ExtentFits(leaves[i].extents[0]); }
    AreaReads(refs, |leaves|, x, i);
  }
}
