/** Steps of punching and truncating a tree. */
module ExtentSteps {
  import opened ExtentSpec

  lemma {:induction false} TruncateWhole(leaves: seq<Leaf>, keep: nat, end: nat)
    requires TreeOk(leaves) && end == Max(keep + 1, Bound(Flat(leaves)))
    ensures Truncated(leaves, keep) == PunchLeaves(leaves, keep, end) && keep < end && Bound(Flat(leaves)) <= end
    ensures TreeOk(Truncated(leaves, keep)) && Owned(Truncated(leaves, keep)) <= Owned(leaves)
    ensures Gone(leaves, keep, end) == Owned(leaves) - Owned(Truncated(leaves, keep))
  {
    TruncateAllFits(leaves, keep, end);
    PunchTree(leaves, keep, end);
    GoneIsDifference(leaves, keep, end);
  }

  /** The leaves after truncation to `keep` logical blocks. */
  function Truncated(leaves: seq<Leaf>, keep: nat): seq<Leaf> {
    PunchLeaves(leaves, keep, Max(keep + 1, Bound(Flat(leaves))))
  }

  lemma {:induction false} BoundAt(es: seq<Extent>, j: nat)
    requires j < |es|
    ensures es[j].End() <= Bound(es)
  {
    if j > 0 {
      BoundAt(es[1..], j - 1);
    }
  }

  lemma {:induction false} LeafBound(leaves: seq<Leaf>, i: nat)
    requires i < |leaves|
    ensures Bound(leaves[i].extents) <= Bound(Flat(leaves))
  {
    FlatSplit(leaves, i, 0);
    var es := leaves[i].extents;
    assert es[0..] == es;
    BoundAppend(Flat(leaves[..i]) + es[..0], es + Flat(leaves[i + 1..]));
    BoundAppend(es, Flat(leaves[i + 1..]));
  }

  lemma {:induction false} TruncateAllFits(leaves: seq<Leaf>, keep: nat, end: nat)
    requires TreeOk(leaves) && Bound(Flat(leaves)) <= end
    ensures Fits(leaves, keep, end)
  {
    forall i | 0 <= i < |leaves| ensures |Punch(leaves[i].extents, keep, end)| <= PER_LEAF {
      LeafBound(leaves, i);
      TruncateFits(leaves[i].extents, keep, end);
    }
  }

  lemma {:induction false} TruncatedCases(e: Extent, keep: nat, end: nat)
    requires e.length > 0 && e.End() <= end && keep < end
    ensures e.End() == e.logical + e.length
    ensures PunchOne(e, keep, end)
            == if keep >= e.End() then [e] else if keep <= e.logical then [] else [e.(length := keep - e.logical)]
    ensures FreedOne(e, keep, end)
            == if keep >= e.End() then {}
               else if keep <= e.logical then Range(e.physical, e.physical + e.length)
               else Range(e.physical + (keep - e.logical), e.physical + e.length)
  {
    TruncateIsPunch(e, keep, end);
  }

  /** Main result on truncation: exactly the mappings below `keep` remain. */
  lemma {:induction false} TruncateTree(leaves: seq<Leaf>, keep: nat)
    requires TreeOk(leaves)
    ensures TreeOk(Truncated(leaves, keep))
    ensures forall l: nat :: Resolve(Flat(Truncated(leaves, keep)), l) == if l < keep then Resolve(Flat(leaves), l) else None
    ensures Owned(Truncated(leaves, keep)) <= Owned(leaves)
  {
    var end := Max(keep + 1, Bound(Flat(leaves)));
    TruncateAllFits(leaves, keep, end);
    PunchTree(leaves, keep, end);
    forall l: nat
      ensures Resolve(Flat(Truncated(leaves, keep)), l) == if l < keep then Resolve(Flat(leaves), l) else None
    {
      BoundCovers(Flat(leaves), l);
    }
  }

  /** Truncating to one size and then to another is truncating to the smaller one. */
  lemma {:induction false} TruncateTwice(leaves: seq<Leaf>, a: nat, b: nat)
    requires TreeOk(leaves)
    ensures Flat(Truncated(Truncated(leaves, a), b)) == Flat(Truncated(leaves, Min(a, b)))
  {
    var es := Flat(leaves);
    var end := Max(a + 1, Bound(es));
    var once := Truncated(leaves, a);
    PunchFlat(leaves, a, end);
    var end2 := Max(b + 1, Bound(Flat(once)));
    PunchFlat(once, b, end2);
    PunchTwice(es, 0, a, b, end, end2);
    var end3 := Max(Min(a, b) + 1, Bound(es));
    PunchFlat(leaves, Min(a, b), end3);
    BoundIrrelevant(es, 0, Min(a, b), end, end3);
  }

  lemma {:induction false} BoundIrrelevant(es: seq<Extent>, from: nat, keep: nat, end: nat, end2: nat)
    requires Sorted(es, from) && Bound(es) <= end && Bound(es) <= end2 && keep < end && keep < end2
    ensures Punch(es, keep, end) == Punch(es, keep, end2)
  {
    if es != [] {
      BoundIrrelevant(es[1..], es[0].End(), keep, end, end2);
    }
  }

  lemma {:induction false} OwnedShrinks(leaves: seq<Leaf>, first: nat, end: nat)
    requires TreeOk(leaves) && Fits(leaves, first, end)
    ensures Owned(PunchLeaves(leaves, first, end)) <= Owned(leaves)
    ensures Owned(PunchLeaves(leaves, first, end)) !! Gone(leaves, first, end)
  {
    PunchTree(leaves, first, end);
  }

  /** The blocks one leaf gives up: those in the hole, and its own when it is emptied. */
  ghost function LeafGone(leaf: Leaf, first: nat, end: nat): set<nat> {
    Freed(leaf.extents, first, end) + if Punch(leaf.extents, first, end) == [] then {leaf.block} else {}
  }

  /** The blocks a list of leaves gives up. */
  ghost function Gone(leaves: seq<Leaf>, first: nat, end: nat): set<nat> {
    Freed(Flat(leaves), first, end) + DroppedLeaves(leaves, first, end)
  }

  lemma {:induction false} LeavesBegin(leaves: seq<Leaf>, first: nat, end: nat)
    ensures PunchLeaves(leaves[..0], first, end) == [] && Gone(leaves[..0], first, end) == {} && leaves[0..] == leaves
  {
  }

  lemma {:induction false} LeafSingle(leaf: Leaf, first: nat, end: nat)
    ensures Flat([leaf]) == leaf.extents && LeafBlocks([leaf]) == {leaf.block} && DistinctLeaves([leaf])
    ensures PunchLeaves([leaf], first, end) == PunchLeaf(leaf, first, end)
    ensures DroppedLeaves([leaf], first, end) == if Punch(leaf.extents, first, end) == [] then {leaf.block} else {}
  {
    assert [leaf][1..] == [];
    assert Flat([leaf]) == leaf.extents + [];
    assert PunchLeaves([leaf], first, end) == PunchLeaf(leaf, first, end) + [];
  }

  /** One more leaf processed. */
  lemma {:induction false} LeafStep(leaves: seq<Leaf>, i: nat, first: nat, end: nat)
    requires i < |leaves|
    ensures PunchLeaves(leaves[..i + 1], first, end) == PunchLeaves(leaves[..i], first, end) + PunchLeaf(leaves[i], first, end)
    ensures Gone(leaves[..i + 1], first, end)
            == Gone(leaves[..i], first, end) + LeafGone(leaves[i], first, end)
    ensures var before, k := PunchLeaves(leaves[..i], first, end) + leaves[i..], |PunchLeaves(leaves[..i], first, end)|;
            before[..k] + PunchLeaf(leaves[i], first, end) + before[k + 1..]
            == PunchLeaves(leaves[..i + 1], first, end) + leaves[i + 1..]
  {
    hide Punch, PunchLeaf;
    var a, b := leaves[..i], [leaves[i]];
    var p := PunchLeaves(a, first, end);
    assert (p + leaves[i..])[..|p|] == p && (p + leaves[i..])[|p| + 1..] == leaves[i + 1..];
    assert leaves[..i + 1] == a + b;
    PunchLeavesAppend(a, b, first, end);
    DroppedAppend(a, b, first, end);
    FlatAppend(a, b);
    PunchAppend(Flat(a), Flat(b), first, end);
    LeafSingle(leaves[i], first, end);
  }

  /** Leaf `i` of a well-formed tree is a sorted list of its own blocks. */
  lemma {:induction false} LeafFacts(leaves: seq<Leaf>, i: nat, first: nat, end: nat)
    requires TreeOk(leaves) && i < |leaves|
    ensures Sorted(leaves[i].extents, 0) && Unshared(leaves[i].extents)
    ensures 0 < |leaves[i].extents| <= PER_LEAF
    ensures Blocks(leaves[i].extents) <= Owned(leaves)
    ensures Blocks(leaves[i].extents) !! Gone(leaves[..i], first, end)
  {
    hide Punch, PunchLeaf;
    var a, b, c := leaves[..i], [leaves[i]], leaves[i + 1..];
    assert leaves == a + b + c && leaves == a + (b + c);
    FlatAppend(a, b + c);
    FlatAppend(b, c);
    LeafSingle(leaves[i], first, end);
    var es := leaves[i].extents;
    SortedSplit(Flat(a), es + Flat(c), 0);
    SortedSplit(es, Flat(c), 0);
    BlocksAppend(Flat(a), es + Flat(c));
    BlocksAppend(es, Flat(c));
    PunchBlocks(Flat(a), first, end);
    LeafBlocksAppend(a, b + c);
    DroppedSubset(a, first, end);
  }

  lemma {:induction false} LeafBlocksAppend(a: seq<Leaf>, b: seq<Leaf>)
    ensures LeafBlocks(a + b) == LeafBlocks(a) + LeafBlocks(b)
    ensures DistinctLeaves(a + b) <==> DistinctLeaves(a) && DistinctLeaves(b) && LeafBlocks(a) !! LeafBlocks(b)
  {
    if a == [] {
      assert a + b == b;
    } else {
      LeafBlocksAppend(a[1..], b);
      assert (a + b)[1..] == a[1..] + b;
    }
  }

  lemma {:induction false} DroppedSubset(leaves: seq<Leaf>, first: nat, end: nat)
    ensures DroppedLeaves(leaves, first, end) <= LeafBlocks(leaves)
  {
    if leaves != [] {
      DroppedSubset(leaves[1..], first, end);
    }
  }

  /** A hole behind everything touches nothing. */
  lemma {:induction false} PunchBeyond(es: seq<Extent>, first: nat, end: nat)
    requires Bound(es) <= first || first >= end
    ensures Punch(es, first, end) == es && Freed(es, first, end) == {}
  {
    if es != [] {
      PunchBeyond(es[1..], first, end);
    }
  }

  lemma {:induction false} LeavesBeyond(leaves: seq<Leaf>, first: nat, end: nat)
    requires Bound(Flat(leaves)) <= first || first >= end
    requires forall i :: 0 <= i < |leaves| ==> leaves[i].extents != []
    ensures PunchLeaves(leaves, first, end) == leaves && Gone(leaves, first, end) == {}
  {
    if leaves != [] {
      BoundAppend(leaves[0].extents, Flat(leaves[1..]));
      LeavesBeyond(leaves[1..], first, end);
      PunchBeyond(leaves[0].extents, first, end);
      PunchBeyond(Flat(leaves), first, end);
    }
  }

  lemma {:induction false} SortedBound(a: seq<Extent>, b: seq<Extent>, from: nat)
    requires Sorted(a + b, from) && b != []
    ensures Bound(a) <= b[0].logical && from <= b[0].logical
  {
    if a == [] {
      assert a + b == b;
    } else {
      assert (a + b)[1..] == a[1..] + b;
      SortedBound(a[1..], b, a[0].End());
    }
  }

  /** The flat list cut at extent `j` of leaf `i`. */
  lemma {:induction false} FlatSplit(leaves: seq<Leaf>, i: nat, j: nat)
    requires i < |leaves| && j <= |leaves[i].extents|
    ensures var es := leaves[i].extents;
            Flat(leaves) == Flat(leaves[..i]) + es[..j] + (es[j..] + Flat(leaves[i + 1..]))
  {
    var es := leaves[i].extents;
    var a, c := leaves[..i], leaves[i + 1..];
    assert leaves == a + ([leaves[i]] + c);
    FlatAppend(a, [leaves[i]] + c);
    FlatAppend([leaves[i]], c);
    LeafSingle(leaves[i], 0, 0);
    assert es == es[..j] + es[j..];
  }

  /** A leaf that refuses a split lies behind leaves the hole does not reach. */
  lemma {:induction false} SplitLeaf(leaves: seq<Leaf>, i: nat, first: nat, end: nat)
    requires TreeOk(leaves) && i < |leaves|
    requires exists j ::
               0 <= j < |leaves[i].extents| && leaves[i].extents[j].logical < first && end < leaves[i].extents[j].End()
    ensures PunchLeaves(leaves[..i], first, end) == leaves[..i] && Gone(leaves[..i], first, end) == {}
  {
    hide Gone, PunchLeaves, Flat, Sorted, Unshared, Blocks, LeafBlocks, DistinctLeaves;
    var es := leaves[i].extents;
    var j :| 0 <= j < |es| && es[j].logical < first && end < es[j].End();
    FlatSplit(leaves, i, j);
    SortedBound(Flat(leaves[..i]) + es[..j], es[j..] + Flat(leaves[i + 1..]), 0);
    BoundAppend(Flat(leaves[..i]), es[..j]);
    LeavesBeyond(leaves[..i], first, end);
  }

  /** What a whole punch gives up is the difference of what the tree owns. */
  lemma {:induction false} GoneIsDifference(leaves: seq<Leaf>, first: nat, end: nat)
    requires TreeOk(leaves) && Fits(leaves, first, end)
    ensures Gone(leaves, first, end) == Owned(leaves) - Owned(PunchLeaves(leaves, first, end))
  {
    PunchTree(leaves, first, end);
    PunchBlocks(Flat(leaves), first, end);
    DroppedSubset(leaves, first, end);
  }

  lemma {:induction false} PunchedSize(e: Extent, first: nat, end: nat)
    requires e.length > 0 && first < end && e.logical < end && first < e.End()
    ensures |PunchOne(e, first, end)| <= if first > e.logical && end < e.End() then 2 else 1
    ensures FreedOne(e, first, end) != {}
  {
    PunchedOne(e, first, end);
  }

  lemma {:induction false} PunchEnds(es: seq<Extent>, first: nat, end: nat)
    ensures Punch(es[..0], first, end) == [] && Freed(es[..0], first, end) == {}
    ensures es[0..] == es
  {
  }

  lemma {:induction false} PunchSingle(e: Extent, first: nat, end: nat)
    ensures Punch([e], first, end) == PunchOne(e, first, end) && Freed([e], first, end) == FreedOne(e, first, end)
  {
    assert [e][1..] == [];
    assert Punch([e], first, end) == PunchOne(e, first, end) + [];
  }

  /** One more extent processed. */
  lemma {:induction false} PunchStep(es: seq<Extent>, j: nat, first: nat, end: nat, from: nat)
    requires j < |es| && Sorted(es, from)
    ensures Punch(es[..j + 1], first, end) == Punch(es[..j], first, end) + PunchOne(es[j], first, end)
    ensures Freed(es[..j + 1], first, end) == Freed(es[..j], first, end) + FreedOne(es[j], first, end)
    ensures var cur, k := Punch(es[..j], first, end) + es[j..], |Punch(es[..j], first, end)|;
            && cur[k] == es[j] && es[j].length > 0
            && cur[..k] + PunchOne(es[j], first, end) + cur[k + 1..] == Punch(es[..j + 1], first, end) + es[j + 1..]
  {
    hide *;
    var p := Punch(es[..j], first, end);
    assert (p + es[j..])[..|p|] == p && (p + es[j..])[|p| + 1..] == es[j + 1..];
    assert es[j..][0] == es[j];
    assert es[..j + 1] == es[..j] + [es[j]];
    PunchAppend(es[..j], [es[j]], first, end);
    PunchSingle(es[j], first, end);
    SortedLength(es, j, from);
  }

  lemma {:induction false} SortedLength(es: seq<Extent>, j: nat, from: nat)
    requires j < |es| && Sorted(es, from)
    ensures es[j].length > 0
  {
    assert es == es[..j] + es[j..];
    SortedSplit(es[..j], es[j..], from);
  }

  /** Behind the hole nothing changes. */
  lemma {:induction false} PunchRest(es: seq<Extent>, j: nat, first: nat, end: nat, from: nat)
    requires j < |es| && Sorted(es, from) && end <= es[j].logical
    ensures Punch(es, first, end) == Punch(es[..j], first, end) + es[j..]
    ensures Freed(es, first, end) == Freed(es[..j], first, end)
  {
    assert es == es[..j] + es[j..];
    SortedSplit(es[..j], es[j..], from);
    PunchAppend(es[..j], es[j..], first, end);
    assert Sorted(es[j..], es[j].logical);
    PunchFront(es[j..], es[j].logical, first, end);
  }

  lemma {:induction false} UntouchedOne(e: Extent, first: nat, end: nat)
    requires first >= e.End()
    ensures PunchOne(e, first, end) == [e] && FreedOne(e, first, end) == {}
  {
  }

  /** The cases of one extent that meets the hole. */
  lemma {:induction false} PunchedOne(e: Extent, first: nat, end: nat)
    requires 0 < e.length && first < end && e.logical < end && first < e.End()
    ensures var s, t := Max(first, e.logical), Min(end, e.End());
            && e.logical <= s < t <= e.End()
            && PunchOne(e, first, end)
               == (if s > e.logical then [e.(length := s - e.logical)] else [])
                  + (if t < e.End() then [Extent(t, e.physical + (s - e.logical) + (t - s), e.End() - t)] else [])
            && FreedOne(e, first, end) == Range(e.physical + (s - e.logical), e.physical + (s - e.logical) + (t - s))
            && FreedOne(e, first, end) != {}
  {
    var s := Max(first, e.logical);
    assert Within(e.physical + (s - e.logical), e.physical + (s - e.logical), e.physical + (Min(end, e.End()) - e.logical));
    assert e.physical + (s - e.logical) in FreedOne(e, first, end);
  }

  lemma {:induction false} PunchedCases(e: Extent, first: nat, end: nat, s: nat, t: nat)
    requires 0 < e.length && first < end && e.logical < end && first < e.End()
    requires s == Max(first, e.logical) && t == Min(end, e.End())
    ensures e.logical <= s < t <= e.End()
    ensures var head := e.(length := s - e.logical);
            var tail := Extent(t, e.physical + (s - e.logical) + (t - s), e.End() - t);
            PunchOne(e, first, end)
            == if s > e.logical && t < e.End() then [head, tail]
               else if s == e.logical && t == e.End() then []
               else if s == e.logical then [tail] else [head]
    ensures FreedOne(e, first, end) == Range(e.physical + (s - e.logical), e.physical + (s - e.logical) + (t - s))
  {
    PunchedOne(e, first, end);
  }

  /** The blocks of an extent are still in use when its turn comes. */
  lemma {:induction false} FreedStays(es: seq<Extent>, j: nat, first: nat, end: nat)
    requires j < |es| && Unshared(es)
    ensures FreedOne(es[j], first, end) <= Blocks(es) && FreedOne(es[j], first, end) !! Freed(es[..j], first, end)
  {
    assert es == es[..j] + es[j..];
    BlocksAppend(es[..j], es[j..]);
    PunchBlocks(es[..j], first, end);
    PunchOneBlocks(es[j], first, end);
  }

  /** When the hole splits an extent, nothing before or behind it was or will be touched. */
  lemma {:induction false} SplitFirst(es: seq<Extent>, j: nat, first: nat, end: nat, from: nat)
    requires j < |es| && Sorted(es, from) && es[j].logical < first < end < es[j].End()
    ensures Punch(es[..j], first, end) == es[..j] && Freed(es[..j], first, end) == {}
    ensures |Punch(es, first, end)| == |es| + 1 && Punch(es[..j], first, end) + es[j..] == es
  {
    var a, b := es[..j], es[j + 1..];
    assert es == a + ([es[j]] + b);
    SortedSplit(a, [es[j]] + b, from);
    assert ([es[j]] + b)[1..] == b;
    PunchBehind(a, from, first, end);
    PunchFront(b, es[j].End(), first, end);
    PunchAppend(a, [es[j]] + b, first, end);
    PunchAppend([es[j]], b, first, end);
    PunchSingle(es[j], first, end);
  }

  /** The hole lies strictly inside an extent of a leaf that has no room for the second half. */
  predicate SplitsFullLeaf(leaves: seq<Leaf>, first: nat, end: nat) {
    exists i :: 0 <= i < |leaves| && |leaves[i].extents| >= PER_LEAF && SplitsIn(leaves[i].extents, first, end)
  }

  predicate SplitsIn(es: seq<Extent>, first: nat, end: nat) {
    exists j :: 0 <= j < |es| && es[j].logical < first && end < es[j].End()
  }

  lemma {:induction false} NoSplitNoGrowth(es: seq<Extent>, first: nat, end: nat)
    requires first < end && !SplitsIn(es, first, end)
    ensures |Punch(es, first, end)| <= |es|
  {
    if es != [] {
      forall j | 0 <= j < |es[1..]| ensures !(es[1..][j].logical < first && end < es[1..][j].End()) {
        assert es[1..][j] == es[j + 1];
      }
      NoSplitNoGrowth(es[1..], first, end);
      assert !(es[0].logical < first && end < es[0].End());
    }
  }

  /** A hole is refused exactly when it would split an extent of a full leaf. */
  lemma {:induction false} RefusedExactly(leaves: seq<Leaf>, first: nat, end: nat)
    requires TreeOk(leaves) && first < end
    ensures Fits(leaves, first, end) <==> !SplitsFullLeaf(leaves, first, end)
  {
    forall i | 0 <= i < |leaves|
      ensures |Punch(leaves[i].extents, first, end)| > PER_LEAF
              <==> |leaves[i].extents| >= PER_LEAF && SplitsIn(leaves[i].extents, first, end)
    {
      LeafFacts(leaves, i, first, end);
      LeafGrowth(leaves[i].extents, first, end);
    }
  }

  /** Extents of three blocks each, one behind the other. */
  function Dense(n: nat, from: nat): (es: seq<Extent>)
    ensures |es| == n
  {
    if n == 0 then [] else [Extent(from, from + 10, 3)] + Dense(n - 1, from + 3)
  }

  lemma {:induction false} DenseSorted(n: nat, from: nat)
    ensures Sorted(Dense(n, from), from) && Unshared(Dense(n, from)) && forall b :: b in Blocks(Dense(n, from)) ==>
              b >= from + 10
    ensures n > 0 ==> Dense(n, from)[0] == Extent(from, from + 10, 3)
  {
    if n > 0 {
      DenseSorted(n - 1, from + 3);
      assert Dense(n, from)[1..] == Dense(n - 1, from + 3);
      SortedFrom(Dense(n - 1, from + 3), from + 3);
    }
  }

  lemma {:induction false} SortedFrom(es: seq<Extent>, from: nat)
    ensures Sorted(es, from) ==> forall lower: nat :: lower <= from ==> Sorted(es, lower)
  {
  }

  /** A leaf full of such extents refuses a hole of one block in the middle of the first. */
  lemma {:induction false} FullLeafRefuses()
    ensures var leaves := [Leaf(1, Dense(PER_LEAF, 0))]; TreeOk(leaves) && !Fits(leaves, 1, 2)
  {
    var es := Dense(PER_LEAF, 0);
    var leaves := [Leaf(1, es)];
    DenseSorted(PER_LEAF, 0);
    LeafSingle(leaves[0], 1, 2);
    hide Flat, LeafBlocks, Blocks, Sorted, Unshared, Dense, DistinctLeaves;
    RefusedExactly(leaves, 1, 2);
    assert leaves[0].extents[0].logical < 1 && 2 < leaves[0].extents[0].End();
  }

  lemma {:induction false} LeafGrowth(es: seq<Extent>, first: nat, end: nat)
    requires Sorted(es, 0) && first < end
    ensures |Punch(es, first, end)| > |es| <==> SplitsIn(es, first, end)
    ensures |Punch(es, first, end)| <= |es| + 1
  {
    hide Punch, Sorted;
    if j :| 0 <= j < |es| && es[j].logical < first && end < es[j].End() {
      SplitFirst(es, j, first, end, 0);
    } else {
      NoSplitNoGrowth(es, first, end);
    }
  }

  /** The whole outcome of punching a hole that is not refused, also of an empty one. */
  lemma {:induction false} PunchOutcome(leaves: seq<Leaf>, first: nat, end: nat)
    requires TreeOk(leaves) && (first < end ==> Fits(leaves, first, end))
    ensures var after := PunchLeaves(leaves, first, end);
            && (first >= end ==> after == leaves)
            && (forall l: nat :: Resolve(Flat(after), l) == if first <= l < end then None else Resolve(Flat(leaves), l))
            && Owned(after) == Owned(leaves) - Freed(Flat(leaves), first, end) - DroppedLeaves(leaves, first, end)
  {
    if first < end {
      PunchTree(leaves, first, end);
    } else {
      LeavesBeyond(leaves, first, end);
    }
  }
}
