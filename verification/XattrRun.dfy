/** Setting an attribute and reading it back. */
module XattrRun {
  import opened Allocator
  import opened Bytes
  import opened XattrSpec
  import Mkfs
  import NewDevice
  import X = Xattr

  /** What is set is what is read back from disk, unless it has the largest size. */
  method SetThenGet(x: X.XattrInode, name: seq<byte>, v: seq<byte>, create: bool, replace: bool)
    returns (err: XattrSpec.Errno, got: Option<seq<byte>>)
    requires x.Valid() && |v| <= XATTR_SIZE_MAX
    requires LoadOp(x.disk, x.root, x.large).0 == XattrSpec.Ok && DistinctNames(LoadOp(x.disk, x.root, x.large).1)
    modifies x`disk, x`root, x.alloc, x.alloc.bitmaps, x.alloc.free
    ensures x.Valid() && x.alloc.bitmaps == old(x.alloc.bitmaps) && x.alloc.free == old(x.alloc.free)
    ensures var op := SetOp(old(LoadOp(x.disk, x.root, x.large).1), name, Some(v), create, replace);
            err == XattrSpec.Ok <==> 0 < |name| <= MAX_NAME && op.0 == XattrSpec.Ok
                                     && Storable(op.1, x.large)
                                     && old(x.Needed(SetOp(LoadOp(x.disk, x.root, x.large).1, name, Some(v), create,
                                                           replace).1))
                                        <= old(x.alloc.superFree)
    ensures err == XattrSpec.Ok ==>
              && (got == Some(v) <==> |v| < XATTR_SIZE_MAX)
              && (|v| == XATTR_SIZE_MAX ==> got == Some([]))
    ensures err != XattrSpec.Ok ==> got == Find(old(LoadOp(x.disk, x.root, x.large).1), name)
  {
    hide *;
    ghost var items0 := LoadOp(x.disk, x.root, x.large).1;
    SetNotEmpty(items0, name, v, create, replace);
    err := x.Set(name, Some(v), create, replace);
    var e, items := x.Load();
    got := Find(items, name);
    if err == XattrSpec.Ok {
      SetStoresExactly(items0, name, v, create, replace);
    }
  }

  lemma {:induction false} SetNotEmpty(items: seq<Item>, name: seq<byte>, v: seq<byte>, create: bool, replace: bool)
    ensures SetOp(items, name, Some(v), create, replace).0 == XattrSpec.Ok ==>
              SetOp(items, name, Some(v), create, replace).1 != []
  {
  }

  lemma {:induction false} OneEmptyValue(name: seq<byte>, v: seq<byte>)
    requires 0 < |name| <= MAX_NAME && |v| == XATTR_SIZE_MAX
    ensures LoadOp(map[], 0, true) == (XattrSpec.Ok, []) && DistinctNames([])
    ensures SetOp([], name, Some(v), false, false) == (XattrSpec.Ok, [Item(name, [])])
    ensures Storable([Item(name, [])], true) && GreedyCount([Item(name, [])], HEADER) == 1
  {
    var items := [Item(name, [])];
    assert items[1..] == [];
    assert |v| % VALUE_LIMIT == 0 && v[..0] == [];
    var none: seq<Item> := [];
    assert none + items == items && IndexOf(none, name) == 0;
    assert Item(name, v[..|v| % VALUE_LIMIT]) == items[0];
  }

  lemma {:induction false} NeededIs(x: X.XattrInode, items: seq<Item>)
    ensures x.root == 0 && GreedyCount(items, HEADER) == |items| ==> x.Needed(items) == 1
  {
  }

  /** On any new filesystem: a value of the largest size is set, and an empty one is read back. */
  method LargestRun(p: Mkfs.Plan, prealloc: bool, name: seq<byte>, v: seq<byte>)
    returns (err: XattrSpec.Errno, got: Option<seq<byte>>)
    requires p.Real() && p.Tail() >= Mkfs.GROUP_META && p.blocksCount <= NUMBER_LIMIT
    requires 0 < |name| <= MAX_NAME && |v| == XATTR_SIZE_MAX
    ensures err == XattrSpec.Ok && got == Some([])
  {
    Mkfs.RealIsOk(p);
    assert p.LayoutOf(prealloc).blocksCount == p.blocksCount;
    hide *;
    OneEmptyValue(name, v);
    var alloc := NewDevice.NewAllocator(p, prealloc);
    var x := new X.XattrInode(alloc, true, map[]);
    NeededIs(x, [Item(name, [])]);
    err, got := SetThenGet(x, name, v, false, false);
  }
}
