/** Adding one mapping to an extent tree. */
module ExtentGrow {
  import opened ExtentSpec
  import opened ExtentSteps

  /** What adding a mapping promises: a well-formed tree, one more mapping, and the blocks it took. */
  ghost predicate Grown(before: seq<Leaf>, after: seq<Leaf>, logical: nat, physical: nat, added: set<nat>) {
    && TreeOk(after)
    && (forall l: nat :: Resolve(Flat(after), l) == if l == logical then Some(physical) else Resolve(Flat(before), l))
    && Owned(after) == Owned(before) + added
  }

  lemma {:induction false} GrownFacts(before: seq<Leaf>, after: seq<Leaf>, logical: nat, physical: nat, added: set<nat>)
    requires Grown(before, after, logical, physical, added)
    ensures TreeOk(after) && Owned(after) == Owned(before) + added
    ensures forall l: nat :: Resolve(Flat(after), l) == if l == logical then Some(physical) else Resolve(Flat(before), l)
  {
    hide TreeOk, Resolve, Flat, Owned;
  }

  /** All extents start at or before `l`. */
  predicate StartBy(es: seq<Extent>, l: nat) {
    forall i :: 0 <= i < |es| ==> es[i].logical <= l
  }

  /** The leaf an extent for `l` belongs in: the first one holding an extent that starts behind `l`. */
  function Target(leaves: seq<Leaf>, l: nat): (t: nat)
    ensures t <= |leaves|
    ensures t < |leaves| ==> !StartBy(leaves[t].extents, l)
    ensures forall i :: 0 <= i < t ==> StartBy(leaves[i].extents, l)
  {
    if leaves == [] || !StartBy(leaves[0].extents, l) then 0 else 1 + Target(leaves[1..], l)
  }

  lemma {:induction false} TargetIs(leaves: seq<Leaf>, l: nat, t: nat)
    requires t <= |leaves| && (t < |leaves| ==> !StartBy(leaves[t].extents, l))
    requires forall i :: 0 <= i < t ==> StartBy(leaves[i].extents, l)
    ensures Target(leaves, l) == t
  {
    hide StartBy;
    if t > 0 {
      assert StartBy(leaves[0].extents, l);
      TargetIs(leaves[1..], l, t - 1);
    }
  }

  /** Room for a new extent: its leaf is not full, or behind the last full leaf another one can be made. */
  predicate HasRoom(leaves: seq<Leaf>, l: nat, free: nat) {
    var t := Target(leaves, l);
    if t < |leaves| then |leaves[t].extents| < PER_LEAF
    else if leaves == [] || |leaves[|leaves| - 1].extents| >= PER_LEAF then |leaves| < ROOT_REFS && free > 0
    else true
  }

  /** Every extent of the leaves in front of leaf `i` starts at or before `l`. */
  ghost predicate InFront(leaves: seq<Leaf>, i: nat, l: nat)
    requires i <= |leaves|
  {
    forall k, j :: 0 <= k < i && 0 <= j < |leaves[k].extents| ==> leaves[k].extents[j].logical <= l
  }

  /** Where an extent has room: in the first leaf with an extent behind it, or in the last leaf when there is none, if
      that holds fewer than 170 extents; or in a new leaf behind a last one that is full, if there are fewer than four and
      a block is free. */
  lemma {:induction false} RoomExactly(leaves: seq<Leaf>, l: nat, free: nat)
    ensures HasRoom(leaves, l, free)
            <==> || (exists i :: && 0 <= i < |leaves| && |leaves[i].extents| < 170 && InFront(leaves, i, l)
                                 && (InFront(leaves, i + 1, l) ==> i == |leaves| - 1))
                 || (InFront(leaves, |leaves|, l) && (leaves == [] || |leaves[|leaves| - 1].extents| >= 170) && |leaves| < 4
                     && free > 0)
  {
    var t := Target(leaves, l);
    forall i | 0 <= i <= |leaves| ensures InFront(leaves, i, l) <==> i <= t {
      if i <= t {
        forall k, j | 0 <= k < i && 0 <= j < |leaves[k].extents| ensures leaves[k].extents[j].logical <= l {
          assert StartBy(leaves[k].extents, l);
        }
      }
    }
    hide InFront, Target, StartBy;
    var last := |leaves| - 1;
    if t < |leaves| && |leaves[t].extents| < 170 {
      assert InFront(leaves, t, l) && !InFront(leaves, t + 1, l);
    }
    if t == |leaves| > 0 && |leaves[last].extents| < 170 {
      assert InFront(leaves, last, l);
    }
    if i :| 0 <= i < |leaves| && |leaves[i].extents| < 170 && InFront(leaves, i, l)
            && (InFront(leaves, i + 1, l) ==> i == last) {
      assert i == t || (i == last && t == |leaves|);
    }
  }

  /** The leaves with one extent more behind all others, in a new leaf `block` when the last one is full. */
  function Appended(leaves: seq<Leaf>, e: Extent, block: nat): seq<Leaf> {
    if leaves == [] || |leaves[|leaves| - 1].extents| >= PER_LEAF then leaves + [Leaf(block, [e])]
    else leaves[..|leaves| - 1] + [leaves[|leaves| - 1].(extents := leaves[|leaves| - 1].extents + [e])]
  }

  /** An extent behind all others was appended. */
  ghost predicate GoesLast(before: seq<Leaf>, after: seq<Leaf>, logical: nat, physical: nat) {
    Target(before, logical) == |before| ==> exists block :: after == Appended(before, Extent(logical, physical, 1), block)
  }

  lemma {:induction false} StartByFlat(leaves: seq<Leaf>, l: nat)
    requires forall i :: 0 <= i < |leaves| ==> StartBy(leaves[i].extents, l)
    ensures StartBy(Flat(leaves), l)
  {
    if leaves != [] {
      StartByFlat(leaves[1..], l);
    }
  }

  /** One leaf's extents replaced. */
  function Edited(leaves: seq<Leaf>, li: nat, es: seq<Extent>): seq<Leaf>
    requires li < |leaves|
  {
    leaves[li := leaves[li].(extents := es)]
  }

  lemma {:induction false} EditedLeaf(leaves: seq<Leaf>, li: nat, es: seq<Extent>)
    requires li < |leaves|
    ensures var after := Edited(leaves, li, es);
            && Flat(after) == Flat(leaves[..li]) + es + Flat(leaves[li + 1..])
            && LeafBlocks(after) == LeafBlocks(leaves)
            && (DistinctLeaves(leaves) ==> DistinctLeaves(after))
  {
    EditedForm(leaves, li, es);
    hide Flat, LeafBlocks, DistinctLeaves, Edited;
    MiddleLeaf(leaves[..li], leaves[li], leaves[li + 1..]);
    MiddleLeaf(leaves[..li], leaves[li].(extents := es), leaves[li + 1..]);
  }

  lemma {:induction false} EditedSame(leaves: seq<Leaf>, li: nat, es: seq<Extent>)
    requires li < |leaves| && DistinctLeaves(leaves)
    ensures LeafBlocks(Edited(leaves, li, es)) == LeafBlocks(leaves) && DistinctLeaves(Edited(leaves, li, es))
  {
    hide *;
    EditedLeaf(leaves, li, es);
  }

  lemma {:induction false} EditedSize(leaves: seq<Leaf>, li: nat, es: seq<Extent>)
    requires li < |leaves| && 0 < |es| <= PER_LEAF
    requires forall i :: 0 <= i < |leaves| ==> 0 < |leaves[i].extents| <= PER_LEAF
    ensures |Edited(leaves, li, es)| == |leaves|
    ensures forall i :: 0 <= i < |leaves| ==> 0 < |Edited(leaves, li, es)[i].extents| <= PER_LEAF
  {
  }

  lemma {:induction false} EditedForm(leaves: seq<Leaf>, li: nat, es: seq<Extent>)
    requires li < |leaves|
    ensures leaves == leaves[..li] + [leaves[li]] + leaves[li + 1..]
    ensures Edited(leaves, li, es) == leaves[..li] + [leaves[li].(extents := es)] + leaves[li + 1..]
  {
  }

  lemma {:induction false} MiddleLeaf(a: seq<Leaf>, leaf: Leaf, c: seq<Leaf>)
    ensures Flat(a + [leaf] + c) == Flat(a) + leaf.extents + Flat(c)
    ensures LeafBlocks(a + [leaf] + c) == LeafBlocks(a) + {leaf.block} + LeafBlocks(c)
    ensures DistinctLeaves(a + [leaf] + c)
            <==> && DistinctLeaves(a) && DistinctLeaves(c) && LeafBlocks(a) !! {leaf.block}
                 && LeafBlocks(a) + {leaf.block} !! LeafBlocks(c)
  {
    hide Flat, LeafBlocks, DistinctLeaves;
    FlatAppend(a, [leaf]);
    FlatAppend(a + [leaf], c);
    LeafSingle(leaf, 0, 0);
    LeafBlocksAppend(a, [leaf]);
    LeafBlocksAppend(a + [leaf], c);
  }

  lemma {:induction false} StartByAppend(a: seq<Extent>, b: seq<Extent>, l: nat)
    requires StartBy(a, l) && StartBy(b, l)
    ensures StartBy(a + b, l)
  {
  }

  lemma {:induction false} Regroup(a: seq<Extent>, b: seq<Extent>, e: Extent, c: seq<Extent>, d: seq<Extent>)
    ensures a + (b + [e] + c) + d == a + b + [e] + (c + d)
  {
    assert a + (b + [e] + c) + d == a + b + [e] + c + d;
    assert a + b + [e] + c + d == a + b + [e] + (c + d);
  }

  /** The place of insertion in the flat list. */
  lemma {:induction false} EditedInsert(leaves: seq<Leaf>, li: nat, ei: nat, e: Extent)
    requires li < |leaves| && ei <= |leaves[li].extents|
    requires StartBy(Flat(leaves[..li]), e.logical) && StartBy(leaves[li].extents[..ei], e.logical)
    requires if ei < |leaves[li].extents| then e.logical < leaves[li].extents[ei].logical else li == |leaves| - 1
    ensures var es := leaves[li].extents;
            Flat(Edited(leaves, li, es[..ei] + [e] + es[ei..])) == Insert(Flat(leaves), e)
  {
    var es := leaves[li].extents;
    EditedLeaf(leaves, li, es[..ei] + [e] + es[ei..]);
    FlatSplit(leaves, li, ei);
    var a, b, c := Flat(leaves[..li]), es[..ei], es[ei..] + Flat(leaves[li + 1..]);
    assert ei == |es| ==> Flat(leaves[li + 1..]) == [];
    hide Flat, Insert, Edited, LeafBlocks, DistinctLeaves;
    StartByAppend(a, b, e.logical);
    InsertSplit(a + b, c, e);
    Regroup(a, b, e, es[ei..], Flat(leaves[li + 1..]));
  }

  /** A new one-block extent put into a leaf with room, between those that start before and behind it. */
  lemma {:induction false} GrowInsert(leaves: seq<Leaf>, li: nat, ei: nat, logical: nat, physical: nat)
    requires TreeOk(leaves) && li < |leaves| && ei <= |leaves[li].extents| < PER_LEAF
    requires Resolve(Flat(leaves), logical) == None && physical !in Owned(leaves)
    requires StartBy(Flat(leaves[..li]), logical) && StartBy(leaves[li].extents[..ei], logical)
    requires if ei < |leaves[li].extents| then logical < leaves[li].extents[ei].logical else li == |leaves| - 1
    ensures var es := leaves[li].extents;
            Grown(leaves, Edited(leaves, li, es[..ei] + [Extent(logical, physical, 1)] + es[ei..]), logical, physical,
                  {physical})
  {
    var es, e := leaves[li].extents, Extent(logical, physical, 1);
    var after := Edited(leaves, li, es[..ei] + [e] + es[ei..]);
    hide Flat, LeafBlocks, DistinctLeaves, Sorted, Unshared, Resolve, Insert, Blocks, StartBy;
    EditedInsert(leaves, li, ei, e);
    EditedLeaf(leaves, li, es[..ei] + [e] + es[ei..]);
    EditedSize(leaves, li, es[..ei] + [e] + es[ei..]);
    hide Edited;
    InsertTree(leaves, after, e);
  }

  /** A tree whose flat list is the old one with a new extent inserted. */
  lemma {:induction false} InsertTree(leaves: seq<Leaf>, after: seq<Leaf>, e: Extent)
    requires TreeOk(leaves) && e.length == 1
    requires Resolve(Flat(leaves), e.logical) == None && e.physical !in Owned(leaves)
    requires Flat(after) == Insert(Flat(leaves), e)
    requires |after| <= ROOT_REFS && DistinctLeaves(after) && e.physical !in LeafBlocks(after)
    requires forall i :: 0 <= i < |after| ==> 0 < |after[i].extents| <= PER_LEAF
    requires LeafBlocks(after) !! Blocks(Flat(leaves))
    ensures TreeOk(after) && Owned(after) == Blocks(Flat(leaves)) + {e.physical} + LeafBlocks(after)
    ensures forall l: nat :: Resolve(Flat(after), l) == if l == e.logical then Some(e.physical) else Resolve(Flat(leaves), l)
  {
    hide Flat, LeafBlocks, DistinctLeaves, Sorted, Unshared, Resolve, Insert, Blocks;
    var es := Flat(leaves);
    InsertSorted(es, e, 0);
    assert e.Blocks() == {e.physical} by { assert Within(e.physical, e.physical, e.physical + 1); }
    InsertBlocks(es, e);
    forall l: nat ensures Resolve(Insert(es, e), l) == if l == e.logical then Some(e.physical) else Resolve(es, l) {
      InsertResolves(es, e, 0, l);
    }
  }

  /** A new leaf behind all others, holding only the new extent. */
  lemma {:induction false} GrowLeaf(leaves: seq<Leaf>, block: nat, logical: nat, physical: nat)
    requires TreeOk(leaves) && |leaves| < ROOT_REFS && StartBy(Flat(leaves), logical)
    requires Resolve(Flat(leaves), logical) == None
    requires physical !in Owned(leaves) && block !in Owned(leaves) && block != physical
    ensures Grown(leaves, leaves + [Leaf(block, [Extent(logical, physical, 1)])], logical, physical, {physical, block})
  {
    var e := Extent(logical, physical, 1);
    var leaf := Leaf(block, [e]);
    LeafFits(leaves, leaf);
    OwnedIs(leaves);
    hide *;
    LeafAdded(leaves, leaf);
    InsertEnd(Flat(leaves), e);
    InsertTree(leaves, leaves + [leaf], e);
  }

  lemma {:induction false} OwnedIs(leaves: seq<Leaf>)
    ensures Owned(leaves) == LeafBlocks(leaves) + Blocks(Flat(leaves))
  {
  }

  lemma {:induction false} LeafFits(leaves: seq<Leaf>, leaf: Leaf)
    requires TreeOk(leaves) && |leaves| < ROOT_REFS && |leaf.extents| == 1
    ensures DistinctLeaves(leaves) && |leaves + [leaf]| <= ROOT_REFS
    ensures forall i :: 0 <= i < |leaves + [leaf]| ==> 0 < |(leaves + [leaf])[i].extents| <= PER_LEAF
  {
    hide Flat, LeafBlocks, DistinctLeaves, Sorted, Unshared, Blocks;
  }

  lemma {:induction false} InsertEnd(es: seq<Extent>, e: Extent)
    requires StartBy(es, e.logical)
    ensures Insert(es, e) == es + [e]
  {
    hide Insert;
    InsertSplit(es, [], e);
    assert es + [] == es && es + [e] + [] == es + [e];
  }

  lemma {:induction false} LeafAdded(leaves: seq<Leaf>, leaf: Leaf)
    ensures Flat(leaves + [leaf]) == Flat(leaves) + leaf.extents
    ensures LeafBlocks(leaves + [leaf]) == LeafBlocks(leaves) + {leaf.block}
    ensures DistinctLeaves(leaves) && leaf.block !in LeafBlocks(leaves) ==> DistinctLeaves(leaves + [leaf])
  {
    hide Flat, LeafBlocks, DistinctLeaves;
    FlatAppend(leaves, [leaf]);
    LeafSingle(leaf, 0, 0);
    LeafBlocksAppend(leaves, [leaf]);
  }

  /** The last extent of the last leaf made one block longer. */
  lemma {:induction false} GrowLast(leaves: seq<Leaf>, physical: nat)
    requires TreeOk(leaves) && leaves != []
    requires var es := leaves[|leaves| - 1].extents; var last := es[|es| - 1];
             physical == last.physical + last.length && last.length < MAX_LENGTH
    requires physical !in Owned(leaves)
    ensures var es := leaves[|leaves| - 1].extents; var last := es[|es| - 1];
            var longer := es[..|es| - 1] + [last.(length := last.length + 1)];
            Grown(leaves, Edited(leaves, |leaves| - 1, longer), last.End(), physical, {physical})
  {
    TreeSizes(leaves);
    hide *;
    var li := |leaves| - 1;
    var es := leaves[li].extents;
    var more := es[|es| - 1].(length := es[|es| - 1].length + 1);
    var after := Edited(leaves, li, es[..|es| - 1] + [more]);
    EditedLast(leaves, more);
    EditedEnd(leaves, more);
    ExtendTree(leaves, after, physical);
  }

  lemma {:induction false} TreeSizes(leaves: seq<Leaf>)
    requires TreeOk(leaves)
    ensures |leaves| <= ROOT_REFS && DistinctLeaves(leaves)
    ensures forall i :: 0 <= i < |leaves| ==> 0 < |leaves[i].extents| <= PER_LEAF
  {
  }

  lemma {:induction false} EditedEnd(leaves: seq<Leaf>, more: Extent)
    requires leaves != [] && DistinctLeaves(leaves) && forall i :: 0 <= i < |leaves| ==> 0 < |leaves[i].extents| <= PER_LEAF
    ensures var es := leaves[|leaves| - 1].extents;
            var after := Edited(leaves, |leaves| - 1, es[..|es| - 1] + [more]);
            && LeafBlocks(after) == LeafBlocks(leaves) && DistinctLeaves(after) && |after| == |leaves|
            && forall i :: 0 <= i < |after| ==> 0 < |after[i].extents| <= PER_LEAF
  {
    hide *;
    var es := leaves[|leaves| - 1].extents;
    var longer := es[..|es| - 1] + [more];
    assert |longer| == |es|;
    EditedSame(leaves, |leaves| - 1, longer);
    EditedSize(leaves, |leaves| - 1, longer);
  }

  /** A tree whose flat list is the old one with the last extent one block longer. */
  lemma {:induction false} ExtendTree(leaves: seq<Leaf>, after: seq<Leaf>, physical: nat)
    requires TreeOk(leaves) && Flat(leaves) != [] && physical !in Owned(leaves)
    requires var flat := Flat(leaves); var last := flat[|flat| - 1];
             && physical == last.physical + last.length && last.length < MAX_LENGTH
             && Flat(after) == flat[..|flat| - 1] + [last.(length := last.length + 1)]
    requires LeafBlocks(after) == LeafBlocks(leaves) && DistinctLeaves(after) && |after| <= ROOT_REFS
    requires forall i :: 0 <= i < |after| ==> 0 < |after[i].extents| <= PER_LEAF
    ensures Grown(leaves, after, Flat(leaves)[|Flat(leaves)| - 1].End(), physical, {physical})
  {
    hide Flat, LeafBlocks, DistinctLeaves, Sorted, Unshared, Resolve, Blocks;
    var flat := Flat(leaves);
    var last := flat[|flat| - 1];
    ExtendBlocks(flat);
    ExtendResolves(flat, 0, 0);
    forall l: nat ensures Resolve(Flat(after), l) == if l == last.End() then Some(physical) else Resolve(flat, l) {
      ExtendResolves(flat, 0, l);
    }
  }

  /** The last extent of the last leaf is the last of the flat list. */
  lemma {:induction false} EditedLast(leaves: seq<Leaf>, more: Extent)
    requires leaves != [] && leaves[|leaves| - 1].extents != []
    ensures var es, flat := leaves[|leaves| - 1].extents, Flat(leaves);
            && flat != [] && flat[|flat| - 1] == es[|es| - 1]
            && Flat(Edited(leaves, |leaves| - 1, es[..|es| - 1] + [more])) == flat[..|flat| - 1] + [more]
  {
    var li := |leaves| - 1;
    var es := leaves[li].extents;
    var flat, front := Flat(leaves), Flat(leaves[..li]);
    EditedLeaf(leaves, li, es);
    assert Edited(leaves, li, es) == leaves && Flat(leaves[li + 1..]) == [];
    hide Flat, Edited;
    assert flat == front + es;
    EditedLeaf(leaves, li, es[..|es| - 1] + [more]);
    assert flat[..|flat| - 1] == front + es[..|es| - 1];
  }

  /** The extent with the highest number is the last one of the last leaf. */
  lemma {:induction false} LastEntry(leaves: seq<Leaf>, li: nat, ei: nat)
    requires TreeOk(leaves) && li < |leaves| && ei < |leaves[li].extents|
    requires |Flat(leaves)| == |Flat(leaves[..li])| + ei + 1
    ensures li == |leaves| - 1 && ei == |leaves[li].extents| - 1
  {
    FlatSplit(leaves, li, 0);
    var es := leaves[li].extents;
    assert es[ei..] + Flat(leaves[li + 1..]) != [];
  }

  lemma {:induction false} FrontStarts(leaves: seq<Leaf>, li: nat, l: nat)
    requires li < |leaves| && StartBy(Flat(leaves), l)
    ensures StartBy(Flat(leaves[..li]), l) && StartBy(leaves[li].extents, l)
    ensures leaves[li].extents[..|leaves[li].extents|] == leaves[li].extents
  {
    FlatSplit(leaves, li, |leaves[li].extents|);
    var es := leaves[li].extents;
    assert es[..|es|] == es;
    StartByParts(Flat(leaves[..li]), es, es[|es|..] + Flat(leaves[li + 1..]), l);
  }

  lemma {:induction false} StartByParts(a: seq<Extent>, b: seq<Extent>, c: seq<Extent>, l: nat)
    requires StartBy(a + b + c, l)
    ensures StartBy(a, l) && StartBy(b, l)
  {
    forall i | 0 <= i < |a| ensures a[i].logical <= l { assert (a + b + c)[i] == a[i]; }
    forall i | 0 <= i < |b| ensures b[i].logical <= l { assert (a + b + c)[|a| + i] == b[i]; }
  }

  lemma {:induction false} EditedBlocks(leaves: seq<Leaf>, li: nat, es: seq<Extent>)
    requires li < |leaves|
    ensures |Edited(leaves, li, es)| == |leaves|
    ensures forall i :: 0 <= i < |leaves| ==> Edited(leaves, li, es)[i].block == leaves[i].block
  {
  }

  /** Extent `ei` of leaf `li` made one block longer. */
  function Longer(leaves: seq<Leaf>, li: nat, ei: nat): seq<Leaf>
    requires li < |leaves| && ei < |leaves[li].extents|
  {
    var es := leaves[li].extents;
    Edited(leaves, li, es[ei := es[ei].(length := es[ei].length + 1)])
  }

  /** The last extent became one block longer, and nothing else changed. */
  ghost predicate Extended(before: seq<Leaf>, after: seq<Leaf>) {
    && |after| == |before| && (forall i :: 0 <= i < |before| ==> after[i].block == before[i].block)
    && var flat := Flat(before);
       && flat != []
       && Flat(after) == flat[..|flat| - 1] + [flat[|flat| - 1].(length := flat[|flat| - 1].length + 1)]
  }

  /** The extent with the highest number made one block longer. */
  lemma {:induction false} MergedLast(leaves: seq<Leaf>, li: nat, ei: nat, physical: nat)
    requires TreeOk(leaves) && li < |leaves| && ei < |leaves[li].extents|
    requires |Flat(leaves)| == |Flat(leaves[..li])| + ei + 1
    requires var last := leaves[li].extents[ei]; physical == last.physical + last.length && last.length < MAX_LENGTH
    requires physical !in Owned(leaves)
    ensures var last := leaves[li].extents[ei];
            var after := Longer(leaves, li, ei);
            && Grown(leaves, after, last.logical + last.length, physical, {physical})
            && TreeOk(after) && Owned(after) == Owned(leaves) + {physical} && Extended(leaves, after)
  {
    LastEntry(leaves, li, ei);
    EditedLast(leaves, leaves[li].extents[ei].(length := leaves[li].extents[ei].length + 1));
    EditedBlocks(leaves, li, leaves[li].extents[..ei] + [leaves[li].extents[ei].(length := leaves[li].extents[ei].length + 1)]);
    hide TreeOk, Owned, Flat, Edited;
    var es := leaves[li].extents;
    var more := es[ei].(length := es[ei].length + 1);
    assert es[ei := more] == es[..ei] + [more];
    GrowLast(leaves, physical);
    GrownFacts(leaves, Edited(leaves, li, es[ei := more]), es[ei].End(), physical, {physical});
  }

  lemma {:induction false} LastLeaf(leaves: seq<Leaf>, block: nat, logical: nat, physical: nat)
    requires leaves == [] || |leaves[|leaves| - 1].extents| >= PER_LEAF
    ensures GoesLast(leaves, leaves + [Leaf(block, [Extent(logical, physical, 1)])], logical, physical)
  {
    hide Target;
    assert leaves + [Leaf(block, [Extent(logical, physical, 1)])] == Appended(leaves, Extent(logical, physical, 1), block);
  }

  /** An extent put into its place goes behind all others exactly when no other one starts behind it. */
  lemma {:induction false} LastPlace(leaves: seq<Leaf>, li: nat, ei: nat, logical: nat, physical: nat)
    requires li < |leaves| && ei <= |leaves[li].extents| < PER_LEAF
    requires Target(leaves, logical) == |leaves| ==> li == |leaves| - 1 && ei == |leaves[li].extents|
    ensures var es := leaves[li].extents;
            GoesLast(leaves, Edited(leaves, li, es[..ei] + [Extent(logical, physical, 1)] + es[ei..]), logical, physical)
  {
    hide Target;
    var es, e := leaves[li].extents, Extent(logical, physical, 1);
    var after := Edited(leaves, li, es[..ei] + [e] + es[ei..]);
    if li == |leaves| - 1 && ei == |es| {
      assert es[..ei] + [e] + es[ei..] == es + [e];
      assert after == Appended(leaves, e, 0);
    }
  }
}
