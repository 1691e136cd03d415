/** Extent lists and leaves as values. */
module ExtentSpec {
  const PER_LEAF := 170        // (4096 - 8) / 24
  const ROOT_REFS := 4
  const MAX_LENGTH := 65535
  const FILE_BLOCKS_MAX := 44563800 // ROOT_REFS * PER_LEAF * MAX_LENGTH

  datatype Option<+T> = None | Some(value: T)

  predicate Within(p: nat, lo: nat, hi: nat) { lo <= p < hi }

  /** The numbers from `lo` up to but not including `hi`. */
  function Range(lo: nat, hi: nat): set<nat> {
    set p: nat | lo <= p < hi && Within(p, lo, hi)
  }

  /** `length` logical blocks from `logical` on lie in the physical blocks from `physical` on. */
  datatype Extent = Extent(logical: nat, physical: nat, length: nat) {
    function End(): nat { logical + length }

    predicate Covers(l: nat) { logical <= l < logical + length }

    /** The physical blocks of the extent. */
    function Blocks(): set<nat> { Range(physical, physical + length) }
  }

  datatype Leaf = Leaf(block: nat, extents: seq<Extent>)

  // ----- meaning

  /** The physical block of a logical one: the first extent that covers it, as the scan finds it. */
  function Resolve(es: seq<Extent>, l: nat): Option<nat> {
    if es == [] then None
    else if es[0].Covers(l) then Some(es[0].physical + (l - es[0].logical))
    else Resolve(es[1..], l)
  }

  /** Extents are non-empty, in order, do not overlap, and start at `from` or later. */
  ghost predicate Sorted(es: seq<Extent>, from: nat) {
    es != [] ==> es[0].logical >= from && 0 < es[0].length <= MAX_LENGTH && Sorted(es[1..], es[0].End())
  }

  /** All physical blocks of a list. */
  ghost function Blocks(es: seq<Extent>): set<nat> {
    if es == [] then {} else es[0].Blocks() + Blocks(es[1..])
  }

  /** No physical block belongs to two extents. */
  ghost predicate Unshared(es: seq<Extent>) {
    es != [] ==> es[0].Blocks() !! Blocks(es[1..]) && Unshared(es[1..])
  }

  /** All extents of all leaves, in order. */
  function Flat(leaves: seq<Leaf>): seq<Extent> {
    if leaves == [] then [] else leaves[0].extents + Flat(leaves[1..])
  }

  ghost function LeafBlocks(leaves: seq<Leaf>): set<nat> {
    if leaves == [] then {} else {leaves[0].block} + LeafBlocks(leaves[1..])
  }

  ghost predicate DistinctLeaves(leaves: seq<Leaf>) {
    leaves != [] ==> leaves[0].block !in LeafBlocks(leaves[1..]) && DistinctLeaves(leaves[1..])
  }

  /** Everything the tree owns. */
  ghost function Owned(leaves: seq<Leaf>): set<nat> {
    Blocks(Flat(leaves)) + LeafBlocks(leaves)
  }

  /** The invariant of the extent tree. */
  ghost predicate TreeOk(leaves: seq<Leaf>) {
    && |leaves| <= ROOT_REFS
    && (forall i :: 0 <= i < |leaves| ==> 0 < |leaves[i].extents| <= PER_LEAF)
    && DistinctLeaves(leaves)
    && Sorted(Flat(leaves), 0) && Unshared(Flat(leaves))
    && LeafBlocks(leaves) !! Blocks(Flat(leaves))
  }

  // ----- hole punching

  function Max(a: nat, b: nat): nat { if a > b then a else b }

  function Min(a: nat, b: nat): nat { if a < b then a else b }

  /** What remains of one extent. */
  function PunchOne(e: Extent, first: nat, end: nat): seq<Extent> {
    if first >= end || end <= e.logical || first >= e.End() then [e]
    else
      var from := Max(first, e.logical);
      var to := Min(end, e.End());
      (if from > e.logical then [e.(length := from - e.logical)] else [])
      + (if to < e.End() then [Extent(to, e.physical + (to - e.logical), e.End() - to)] else [])
  }

  /** The physical blocks the hole takes from one extent. */
  function FreedOne(e: Extent, first: nat, end: nat): set<nat> {
    if first >= end || end <= e.logical || first >= e.End() then {}
    else Range(e.physical + (Max(first, e.logical) - e.logical), e.physical + (Min(end, e.End()) - e.logical))
  }

  function Punch(es: seq<Extent>, first: nat, end: nat): seq<Extent> {
    if es == [] then [] else PunchOne(es[0], first, end) + Punch(es[1..], first, end)
  }

  ghost function Freed(es: seq<Extent>, first: nat, end: nat): set<nat> {
    if es == [] then {} else FreedOne(es[0], first, end) + Freed(es[1..], first, end)
  }

  /** Punching leaf by leaf; emptied leaves disappear. */
  function PunchLeaves(leaves: seq<Leaf>, first: nat, end: nat): seq<Leaf> {
    if leaves == [] then [] else PunchLeaf(leaves[0], first, end) + PunchLeaves(leaves[1..], first, end)
  }

  function PunchLeaf(leaf: Leaf, first: nat, end: nat): seq<Leaf> {
    var es := Punch(leaf.extents, first, end);
    if es == [] then [] else [Leaf(leaf.block, es)]
  }

  /** Leaf blocks that punching gives up. */
  ghost function DroppedLeaves(leaves: seq<Leaf>, first: nat, end: nat): set<nat> {
    if leaves == [] then {}
    else (if Punch(leaves[0].extents, first, end) == [] then {leaves[0].block} else {}) + DroppedLeaves(leaves[1..], first, end)
  }

  lemma {:induction false} PunchAppend(a: seq<Extent>, b: seq<Extent>, first: nat, end: nat)
    ensures Punch(a + b, first, end) == Punch(a, first, end) + Punch(b, first, end)
    ensures Freed(a + b, first, end) == Freed(a, first, end) + Freed(b, first, end)
  {
    hide PunchOne, FreedOne;
    if a == [] {
      assert a + b == b;
    } else {
      PunchAppend(a[1..], b, first, end);
      assert (a + b)[1..] == a[1..] + b;
    }
  }

  lemma {:induction false} ResolveAppend(a: seq<Extent>, b: seq<Extent>, l: nat)
    ensures Resolve(a + b, l) == if Resolve(a, l).Some? then Resolve(a, l) else Resolve(b, l)
  {
    if a == [] {
      assert a + b == b;
    } else {
      ResolveAppend(a[1..], b, l);
      assert (a + b)[1..] == a[1..] + b;
    }
  }

  lemma {:induction false} ResolveBound(es: seq<Extent>, from: nat, l: nat)
    requires Sorted(es, from) && l < from
    ensures Resolve(es, l) == None
  {
    if es != [] {
      ResolveBound(es[1..], es[0].End(), l);
    }
  }

  lemma {:induction false} SortedWeaken(es: seq<Extent>, from: nat, lower: nat)
    requires Sorted(es, from) && lower <= from
    ensures Sorted(es, lower)
  {
  }

  /** A sorted list in front of one that starts behind it. */
  lemma {:induction false} SortedAppend(a: seq<Extent>, b: seq<Extent>, from: nat, mid: nat)
    requires Sorted(a, from) && Sorted(b, mid) && from <= mid
    requires a != [] ==> a[|a| - 1].End() <= mid
    ensures Sorted(a + b, from)
  {
    if a == [] {
      assert a + b == b;
      SortedWeaken(b, mid, from);
    } else {
      assert (a + b)[1..] == a[1..] + b;
      if |a| > 1 {
        SortedLast(a, from);
      }
      SortedAppend(a[1..], b, a[0].End(), mid);
    }
  }

  lemma {:induction false} SortedLast(es: seq<Extent>, from: nat)
    requires Sorted(es, from) && es != []
    ensures es[|es| - 1].End() > from && es[|es| - 1].End() >= es[0].End()
  {
    if |es| > 1 {
      SortedLast(es[1..], es[0].End());
    }
  }

  /** Punching keeps the list sorted, and removes exactly the mappings of the hole. */
  lemma {:induction false} PunchSorted(es: seq<Extent>, first: nat, end: nat, from: nat)
    requires Sorted(es, from)
    ensures Sorted(Punch(es, first, end), from)
  {
    if es != [] {
      PunchSorted(es[1..], first, end, es[0].End());
      SortedAppend(PunchOne(es[0], first, end), Punch(es[1..], first, end), from, es[0].End());
    }
  }

  /** The map after punching is the old map without the hole. */
  lemma {:induction false} PunchResolves(es: seq<Extent>, first: nat, end: nat, l: nat)
    ensures Resolve(Punch(es, first, end), l) == if first <= l < end then None else Resolve(es, l)
  {
    if es != [] {
      PunchResolves(es[1..], first, end, l);
      PunchOneResolves(es[0], first, end, l);
      ResolveAppend(PunchOne(es[0], first, end), Punch(es[1..], first, end), l);
    }
  }

  lemma {:induction false} PunchOneResolves(e: Extent, first: nat, end: nat, l: nat)
    ensures Resolve(PunchOne(e, first, end), l)
            == if !(first <= l < end) && e.Covers(l) then Some(e.physical + (l - e.logical)) else None
  {
    var ps := PunchOne(e, first, end);
    ResolveSingle(ps, l);
    if |ps| == 2 {
      assert ps == ps[..1] + ps[1..];
      ResolveSingle(ps[..1], l);
      ResolveSingle(ps[1..], l);
      ResolveAppend(ps[..1], ps[1..], l);
    }
  }

  lemma {:induction false} ResolveSingle(es: seq<Extent>, l: nat)
    ensures |es| == 1 ==> Resolve(es, l) == if es[0].Covers(l) then Some(es[0].physical + (l - es[0].logical)) else None
    ensures |es| == 1 ==> Blocks(es) == es[0].Blocks() && Unshared(es)
  {
    if |es| == 1 {
      assert es[1..] == [];
    }
  }

  /** One extent splits its blocks between what remains and what the hole frees. */
  lemma {:induction false} PunchOneBlocks(e: Extent, first: nat, end: nat)
    ensures Blocks(PunchOne(e, first, end)) == e.Blocks() - FreedOne(e, first, end)
    ensures FreedOne(e, first, end) <= e.Blocks()
    ensures Unshared(PunchOne(e, first, end))
  {
    var ps := PunchOne(e, first, end);
    ResolveSingle(ps, 0);
    if |ps| == 2 {
      assert ps == ps[..1] + ps[1..];
      ResolveSingle(ps[..1], 0);
      ResolveSingle(ps[1..], 0);
      BlocksAppend(ps[..1], ps[1..]);
    }
  }

  lemma {:induction false} BlocksAppend(a: seq<Extent>, b: seq<Extent>)
    ensures Blocks(a + b) == Blocks(a) + Blocks(b)
    ensures Unshared(a + b) <==> Unshared(a) && Unshared(b) && Blocks(a) !! Blocks(b)
  {
    if a == [] {
      assert a + b == b;
    } else {
      BlocksAppend(a[1..], b);
      assert (a + b)[1..] == a[1..] + b;
    }
  }

  /** Over a whole list: punching frees exactly the blocks it removes, and shares none. */
  lemma {:induction false} PunchBlocks(es: seq<Extent>, first: nat, end: nat)
    requires Unshared(es)
    ensures Blocks(Punch(es, first, end)) == Blocks(es) - Freed(es, first, end)
    ensures Freed(es, first, end) <= Blocks(es) && Unshared(Punch(es, first, end))
  {
    if es != [] {
      PunchBlocks(es[1..], first, end);
      PunchOneBlocks(es[0], first, end);
      BlocksAppend(PunchOne(es[0], first, end), Punch(es[1..], first, end));
    }
  }

  /** The freed blocks are exactly those the hole's logical blocks were mapped to. */
  lemma {:induction false} FreedIsMapped(es: seq<Extent>, first: nat, end: nat, from: nat, p: nat)
    requires Sorted(es, from)
    ensures p in Freed(es, first, end) <==> exists l: nat :: first <= l < end && Resolve(es, l) == Some(p)
  {
    if p in Freed(es, first, end) {
      var l := FreedWitness(es, first, end, from, p);
    }
    if l: nat :| first <= l < end && Resolve(es, l) == Some(p) {
      MappedFreed(es, first, end, l);
    }
  }

  lemma {:induction false} FreedWitness(es: seq<Extent>, first: nat, end: nat, from: nat, p: nat) returns (l: nat)
    requires Sorted(es, from) && p in Freed(es, first, end)
    ensures from <= l && first <= l < end && Resolve(es, l) == Some(p)
  {
    if p in FreedOne(es[0], first, end) {
      l := es[0].logical + (p - es[0].physical);
    } else {
      l := FreedWitness(es[1..], first, end, es[0].End(), p);
    }
  }

  lemma {:induction false} MappedFreed(es: seq<Extent>, first: nat, end: nat, l: nat)
    requires first <= l < end && Resolve(es, l).Some?
    ensures Resolve(es, l).value in Freed(es, first, end)
  {
    if es[0].Covers(l) {
      assert Within(Resolve(es, l).value, es[0].physical + (Max(first, es[0].logical) - es[0].logical),
                    es[0].physical + (Min(end, es[0].End()) - es[0].logical));
    } else {
      MappedFreed(es[1..], first, end, l);
    }
  }

  lemma {:induction false} FlatAppend(a: seq<Leaf>, b: seq<Leaf>)
    ensures Flat(a + b) == Flat(a) + Flat(b)
  {
    if a == [] {
      assert a + b == b;
    } else {
      FlatAppend(a[1..], b);
      assert (a + b)[1..] == a[1..] + b;
      assert a[0].extents + (Flat(a[1..]) + Flat(b)) == a[0].extents + Flat(a[1..]) + Flat(b);
    }
  }

  lemma {:induction false} PunchFlat(leaves: seq<Leaf>, first: nat, end: nat)
    ensures Flat(PunchLeaves(leaves, first, end)) == Punch(Flat(leaves), first, end)
  {
    if leaves != [] {
      PunchFlat(leaves[1..], first, end);
      PunchAppend(leaves[0].extents, Flat(leaves[1..]), first, end);
      var es := Punch(leaves[0].extents, first, end);
      var head := if es == [] then [] else [Leaf(leaves[0].block, es)];
      assert Flat(head) == es by { if es != [] { assert head[1..] == []; } }
      FlatAppend(head, PunchLeaves(leaves[1..], first, end));
    }
  }

  lemma {:induction false} PunchLeavesAppend(a: seq<Leaf>, b: seq<Leaf>, first: nat, end: nat)
    ensures PunchLeaves(a + b, first, end) == PunchLeaves(a, first, end) + PunchLeaves(b, first, end)
  {
    hide PunchLeaf;
    if a == [] {
      assert a + b == b;
    } else {
      PunchLeavesAppend(a[1..], b, first, end);
      assert (a + b)[1..] == a[1..] + b;
      assert PunchLeaf(a[0], first, end) + (PunchLeaves(a[1..], first, end) + PunchLeaves(b, first, end))
             == PunchLeaf(a[0], first, end) + PunchLeaves(a[1..], first, end) + PunchLeaves(b, first, end);
    }
  }

  lemma {:induction false} DroppedAppend(a: seq<Leaf>, b: seq<Leaf>, first: nat, end: nat)
    ensures DroppedLeaves(a + b, first, end) == DroppedLeaves(a, first, end) + DroppedLeaves(b, first, end)
  {
    hide Punch;
    if a == [] {
      assert a + b == b;
    } else {
      DroppedAppend(a[1..], b, first, end);
      assert (a + b)[1..] == a[1..] + b;
    }
  }

  /** A hole behind a list does not touch it. */
  lemma {:induction false} PunchBehind(es: seq<Extent>, from: nat, first: nat, end: nat)
    requires Sorted(es, from) && (es != [] ==> es[|es| - 1].End() <= first)
    ensures Punch(es, first, end) == es && Freed(es, first, end) == {}
  {
    if es != [] {
      SortedLast(es, from);
      PunchBehind(es[1..], es[0].End(), first, end);
    }
  }

  /** A hole in front of a list does not touch it. */
  lemma {:induction false} PunchFront(es: seq<Extent>, from: nat, first: nat, end: nat)
    requires Sorted(es, from) && end <= from
    ensures Punch(es, first, end) == es && Freed(es, first, end) == {}
  {
    if es != [] {
      PunchFront(es[1..], es[0].End(), first, end);
    }
  }

  /** A piece of a sorted list is sorted from where it starts. */
  lemma {:induction false} SortedSplit(a: seq<Extent>, b: seq<Extent>, from: nat)
    requires Sorted(a + b, from)
    ensures Sorted(a, from) && Sorted(b, from)
    ensures a != [] ==> Sorted(b, a[|a| - 1].End())
  {
    if a == [] {
      assert a + b == b;
    } else {
      assert (a + b)[1..] == a[1..] + b;
      SortedSplit(a[1..], b, a[0].End());
    }
  }

  /** The leaves after punching: same invariants, and exactly the freed and dropped blocks gone. */
  lemma {:induction false} PunchLeavesBlocks(leaves: seq<Leaf>, first: nat, end: nat)
    requires DistinctLeaves(leaves)
    ensures DistinctLeaves(PunchLeaves(leaves, first, end))
    ensures LeafBlocks(PunchLeaves(leaves, first, end)) == LeafBlocks(leaves) - DroppedLeaves(leaves, first, end)
    ensures DroppedLeaves(leaves, first, end) <= LeafBlocks(leaves)
    ensures |PunchLeaves(leaves, first, end)| <= |leaves|
    ensures forall i :: 0 <= i < |PunchLeaves(leaves, first, end)| ==> PunchLeaves(leaves, first, end)[i].extents != []
  {
    if leaves != [] {
      PunchLeavesBlocks(leaves[1..], first, end);
      var es := Punch(leaves[0].extents, first, end);
      var rest := PunchLeaves(leaves[1..], first, end);
      if es != [] {
        assert ([Leaf(leaves[0].block, es)] + rest)[1..] == rest;
      } else {
        assert [] + rest == rest;
      }
    }
  }

  /** Every leaf keeps its room: the hole splits no extent of a full leaf. */
  ghost predicate Fits(leaves: seq<Leaf>, first: nat, end: nat) {
    forall i :: 0 <= i < |leaves| ==> |Punch(leaves[i].extents, first, end)| <= PER_LEAF
  }

  lemma {:induction false} PunchLeavesFit(leaves: seq<Leaf>, first: nat, end: nat)
    requires Fits(leaves, first, end)
    ensures forall i :: 0 <= i < |PunchLeaves(leaves, first, end)| ==>
              |PunchLeaves(leaves, first, end)[i].extents| <= PER_LEAF
  {
    if leaves != [] {
      PunchLeavesFit(leaves[1..], first, end);
    }
  }

  /** Main result on hole punching: the tree stays well formed, its map is the old one without the hole,
      and it gives up exactly the blocks the hole was mapped to and the blocks of emptied leaves. */
  lemma {:induction false} PunchTree(leaves: seq<Leaf>, first: nat, end: nat)
    requires TreeOk(leaves) && Fits(leaves, first, end)
    ensures var after := PunchLeaves(leaves, first, end);
            && TreeOk(after)
            && (forall l: nat :: Resolve(Flat(after), l) == if first <= l < end then None else Resolve(Flat(leaves), l))
            && Owned(after) == Owned(leaves) - Freed(Flat(leaves), first, end) - DroppedLeaves(leaves, first, end)
  {
    var after := PunchLeaves(leaves, first, end);
    var es := Flat(leaves);
    PunchFlat(leaves, first, end);
    PunchSorted(es, first, end, 0);
    PunchBlocks(es, first, end);
    PunchLeavesBlocks(leaves, first, end);
    PunchLeavesFit(leaves, first, end);
    forall l: nat ensures Resolve(Flat(after), l) == if first <= l < end then None else Resolve(es, l) {
      PunchResolves(es, first, end, l);
    }
  }

  // ----- truncation

  /** An upper bound of all mapped logical blocks. */
  function Bound(es: seq<Extent>): nat {
    if es == [] then 0 else Max(es[0].End(), Bound(es[1..]))
  }

  /** What truncation to `keep` blocks leaves of one extent. */
  function TruncateOne(e: Extent, keep: nat): seq<Extent> {
    if keep >= e.End() then [e] else if keep <= e.logical then [] else [e.(length := keep - e.logical)]
  }

  lemma {:induction false} TruncateIsPunch(e: Extent, keep: nat, end: nat)
    requires e.length > 0 && e.End() <= end
    ensures PunchOne(e, keep, end) == TruncateOne(e, keep)
  {
  }

  lemma {:induction false} BoundCovers(es: seq<Extent>, l: nat)
    ensures Resolve(es, l).Some? ==> l < Bound(es)
  {
    if es != [] {
      BoundCovers(es[1..], l);
    }
  }

  /** Truncation never splits an extent. */
  lemma {:induction false} TruncateFits(es: seq<Extent>, keep: nat, end: nat)
    requires Bound(es) <= end
    ensures |Punch(es, keep, end)| <= |es|
  {
    if es != [] {
      TruncateFits(es[1..], keep, end);
    }
  }

  lemma {:induction false} TruncateOneTwice(e: Extent, a: nat, b: nat, end: nat, end2: nat)
    requires e.length > 0 && e.End() <= end && Bound(PunchOne(e, a, end)) <= end2
    ensures Punch(PunchOne(e, a, end), b, end2) == PunchOne(e, Min(a, b), end)
  {
    TruncateIsPunch(e, a, end);
    TruncateIsPunch(e, Min(a, b), end);
    var ps := TruncateOne(e, a);
    if ps != [] {
      assert ps == [ps[0]] && ps[1..] == [];
      TruncateIsPunch(ps[0], b, end2);
      assert Punch(ps, b, end2) == PunchOne(ps[0], b, end2) + [];
    }
  }

  /** Truncating twice is truncating to the smaller size. */
  lemma {:induction false} PunchTwice(es: seq<Extent>, from: nat, a: nat, b: nat, end: nat, end2: nat)
    requires Sorted(es, from)
    requires Bound(es) <= end && Bound(Punch(es, a, end)) <= end2
    ensures Punch(Punch(es, a, end), b, end2) == Punch(es, Min(a, b), end)
  {
    if es != [] {
      var e, rest := PunchOne(es[0], a, end), Punch(es[1..], a, end);
      BoundAppend(e, rest);
      PunchTwice(es[1..], es[0].End(), a, b, end, end2);
      PunchAppend(e, rest, b, end2);
      hide PunchOne;
      TruncateOneTwice(es[0], a, b, end, end2);
    }
  }

  lemma {:induction false} BoundAppend(a: seq<Extent>, b: seq<Extent>)
    ensures Bound(a + b) == Max(Bound(a), Bound(b))
  {
    if a == [] {
      assert a + b == b;
    } else {
      BoundAppend(a[1..], b);
      assert (a + b)[1..] == a[1..] + b;
    }
  }

  // ----- insertion

  /** A new extent goes in front of the first one that starts behind it. */
  function Insert(es: seq<Extent>, e: Extent): seq<Extent> {
    if es == [] || e.logical < es[0].logical then [e] + es else [es[0]] + Insert(es[1..], e)
  }

  lemma {:induction false} InsertSorted(es: seq<Extent>, e: Extent, from: nat)
    requires Sorted(es, from) && from <= e.logical && e.length == 1 && Resolve(es, e.logical) == None
    ensures Sorted(Insert(es, e), from)
  {
    if es == [] || e.logical < es[0].logical {
      assert ([e] + es)[1..] == es;
    } else {
      InsertSorted(es[1..], e, es[0].End());
      assert Insert(es, e)[1..] == Insert(es[1..], e);
    }
  }

  lemma {:induction false} InsertResolves(es: seq<Extent>, e: Extent, from: nat, l: nat)
    requires Sorted(es, from) && from <= e.logical && e.length == 1 && Resolve(es, e.logical) == None
    ensures Resolve(Insert(es, e), l) == if l == e.logical then Some(e.physical) else Resolve(es, l)
  {
    if es == [] || e.logical < es[0].logical {
      assert ([e] + es)[1..] == es;
    } else {
      InsertResolves(es[1..], e, es[0].End(), l);
      assert Insert(es, e)[1..] == Insert(es[1..], e);
    }
  }

  lemma {:induction false} InsertBlocks(es: seq<Extent>, e: Extent)
    ensures Blocks(Insert(es, e)) == Blocks(es) + e.Blocks()
    ensures Unshared(es) && e.Blocks() !! Blocks(es) ==> Unshared(Insert(es, e))
  {
    if es == [] || e.logical < es[0].logical {
      assert ([e] + es)[1..] == es;
    } else {
      InsertBlocks(es[1..], e);
      assert Insert(es, e)[1..] == Insert(es[1..], e);
    }
  }

  /** Extents in front of the place of insertion, and from it on. */
  lemma {:induction false} InsertSplit(a: seq<Extent>, b: seq<Extent>, e: Extent)
    requires forall i :: 0 <= i < |a| ==> a[i].logical <= e.logical
    requires b != [] ==> e.logical < b[0].logical
    ensures Insert(a + b, e) == a + [e] + b
  {
    if a == [] {
      assert a + b == b;
    } else {
      assert (a + b)[1..] == a[1..] + b;
      InsertSplit(a[1..], b, e);
    }
  }

  /** The last extent made one block longer. */
  lemma {:induction false} ExtendResolves(es: seq<Extent>, from: nat, l: nat)
    requires Sorted(es, from) && es != []
    ensures var last := es[|es| - 1];
            var longer := es[..|es| - 1] + [last.(length := last.length + 1)];
            && Resolve(longer, l) == (if l == last.End() then Some(last.physical + last.length) else Resolve(es, l))
            && (last.length < MAX_LENGTH ==> Sorted(longer, from))
            && Resolve(es, last.End()) == None
  {
    var last := es[|es| - 1];
    var longer := es[..|es| - 1] + [last.(length := last.length + 1)];
    if |es| == 1 {
      assert es[1..] == [] && longer[1..] == [];
    } else {
      ExtendResolves(es[1..], es[0].End(), l);
      SortedLast(es[1..], es[0].End());
      assert longer[1..] == es[1..][..|es| - 2] + [last.(length := last.length + 1)];
      ResolveBound(es[1..], es[0].End(), es[0].logical);
    }
  }

  lemma {:induction false} ExtendBlocks(es: seq<Extent>)
    requires es != []
    ensures var last := es[|es| - 1];
            var longer := es[..|es| - 1] + [last.(length := last.length + 1)];
            && Blocks(longer) == Blocks(es) + {last.physical + last.length}
            && (Unshared(es) && last.physical + last.length !in Blocks(es) ==> Unshared(longer))
  {
    var init, last := es[..|es| - 1], es[|es| - 1];
    var more := last.(length := last.length + 1);
    assert es == init + [last];
    BlocksAppend(init, [last]);
    BlocksAppend(init, [more]);
    ResolveSingle([last], 0);
    ResolveSingle([more], 0);
    assert more.Blocks() == last.Blocks() + {last.physical + last.length} by {
      assert Within(last.physical + last.length, more.physical, more.physical + more.length);
    }
  }

  // ----- counting

  function TotalLength(es: seq<Extent>): nat {
    if es == [] then 0 else es[0].length + TotalLength(es[1..])
  }

  lemma {:induction false} NoExtents(es: seq<Extent>)
    ensures TotalLength(es[..0]) == 0
  {
  }

  lemma {:induction false} TotalLengthAppend(es: seq<Extent>, e: Extent)
    ensures TotalLength(es + [e]) == TotalLength(es) + e.length
  {
    if es == [] {
      assert ([] + [e])[1..] == [];
    } else {
      TotalLengthAppend(es[1..], e);
      assert (es + [e])[1..] == es[1..] + [e];
    }
  }

  lemma {:induction false} RangeSize(lo: nat, hi: nat)
    requires lo <= hi
    ensures |Range(lo, hi)| == hi - lo
  {
    if lo == hi {
      assert Range(lo, hi) == {};
    } else {
      RangeSize(lo, hi - 1);
      assert Range(lo, hi) == Range(lo, hi - 1) + {hi - 1} by {
        assert Within(hi - 1, lo, hi);
      }
    }
  }

  lemma {:induction false} BlocksSize(es: seq<Extent>)
    requires Unshared(es)
    ensures |Blocks(es)| == TotalLength(es)
  {
    if es != [] {
      BlocksSize(es[1..]);
      RangeSize(es[0].physical, es[0].physical + es[0].length);
    }
  }

  lemma {:induction false} LeavesSize(leaves: seq<Leaf>)
    requires DistinctLeaves(leaves)
    ensures |LeafBlocks(leaves)| == |leaves|
  {
    if leaves != [] {
      LeavesSize(leaves[1..]);
    }
  }

  /** No well-formed tree maps more blocks than a file may have. */
  lemma {:induction false} TreeHolds(leaves: seq<Leaf>)
    requires TreeOk(leaves)
    ensures TotalLength(Flat(leaves)) <= |leaves| * (PER_LEAF * MAX_LENGTH) <= FILE_BLOCKS_MAX
  {
    LeavesHold(leaves, 0);
  }

  lemma {:induction false} LeavesHold(leaves: seq<Leaf>, from: nat)
    requires (forall i :: 0 <= i < |leaves| ==> |leaves[i].extents| <= PER_LEAF) && Sorted(Flat(leaves), from)
    ensures TotalLength(Flat(leaves)) <= |leaves| * (PER_LEAF * MAX_LENGTH)
  {
    if leaves != [] {
      var es, rest := leaves[0].extents, Flat(leaves[1..]);
      SortedSplit(es, rest, from);
      LengthOfBoth(es, rest);
      ExtentsHold(es, from);
      LeavesHold(leaves[1..], from);
      hide Flat, Sorted, TotalLength;
      assert |es| * MAX_LENGTH <= PER_LEAF * MAX_LENGTH;
    }
  }

  lemma {:induction false} LengthOfBoth(a: seq<Extent>, b: seq<Extent>)
    ensures TotalLength(a + b) == TotalLength(a) + TotalLength(b)
  {
    if a == [] {
      assert a + b == b;
    } else {
      LengthOfBoth(a[1..], b);
      assert (a + b)[1..] == a[1..] + b;
    }
  }

  lemma {:induction false} ExtentsHold(es: seq<Extent>, from: nat)
    requires Sorted(es, from)
    ensures TotalLength(es) <= |es| * MAX_LENGTH
  {
    if es != [] {
      ExtentsHold(es[1..], es[0].End());
    }
  }

  /** The block count of the inode is the number of blocks the tree owns in the bitmap. */
  lemma {:induction false} BlockCountIsOwned(leaves: seq<Leaf>)
    requires TreeOk(leaves)
    ensures TotalLength(Flat(leaves)) + |leaves| == |Owned(leaves)|
  {
    BlocksSize(Flat(leaves));
    LeavesSize(leaves);
  }
}
