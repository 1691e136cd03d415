/** The directory graph (dir.c) stays a tree. */
module DirTree {
  import DirBlock

  datatype Errno = Ok | Einval | Enoent | Eexist | Enotdir | Eisdir | Enotempty | Enametoolong | Enospc | Euclean

  const ROOT := 1
  const NAME_LEN := 255

  type Name = DirBlock.Name

  datatype Node = Node(ino: nat, isDir: bool)

  /** A directory: what `..` stands for, and its other entries. */
  datatype Dir = Dir(parent: nat, entries: map<Name, Node>)

  type Dirs = map<nat, Dir>

  // ----- the tree

  /** The root is `n` steps up from `d`. */
  ghost predicate Depth(ds: Dirs, d: nat, n: nat)
    decreases n
  {
    d in ds && if d == ROOT then n == 0 else n > 0 && Depth(ds, ds[d].parent, n - 1)
  }

  /** The directories on the way from `d` up to the root. */
  ghost function Path(ds: Dirs, d: nat, n: nat): set<nat>
    requires Depth(ds, d, n)
    decreases n
  {
    if d == ROOT then {d} else {d} + Path(ds, ds[d].parent, n - 1)
  }

  ghost predicate Rooted(ds: Dirs, d: nat) {
    exists n: nat :: Depth(ds, d, n)
  }

  /** Every directory reaches the root. */
  ghost predicate Tree(ds: Dirs) {
    ROOT in ds && forall d :: d in ds ==> Rooted(ds, d)
  }

  /** `a` is `d` or above it. */
  ghost predicate Above(ds: Dirs, a: nat, d: nat) {
    exists n: nat :: Depth(ds, d, n) && a in Path(ds, d, n)
  }

  lemma {:induction false} DepthUnique(ds: Dirs, d: nat, m: nat, n: nat)
    requires Depth(ds, d, m) && Depth(ds, d, n)
    ensures m == n
    decreases m
  {
    if d != ROOT {
      DepthUnique(ds, ds[d].parent, m - 1, n - 1);
    }
  }

  lemma {:induction false} PathDepths(ds: Dirs, d: nat, n: nat, a: nat) returns (m: nat)
    requires Depth(ds, d, n) && a in Path(ds, d, n)
    ensures m <= n && Depth(ds, a, m) && (m == n ==> a == d)
    decreases n
  {
    if a == d {
      m := n;
    } else {
      m := PathDepths(ds, ds[d].parent, n - 1, a);
    }
  }

  /** A path visits no directory twice. */
  lemma {:induction false} PathSize(ds: Dirs, d: nat, n: nat)
    requires Depth(ds, d, n)
    ensures |Path(ds, d, n)| == n + 1 && Path(ds, d, n) <= ds.Keys
    decreases n
  {
    if d != ROOT {
      var p := ds[d].parent;
      PathSize(ds, p, n - 1);
      if d in Path(ds, p, n - 1) {
        var m := PathDepths(ds, p, n - 1, d);
        DepthUnique(ds, d, m, n);
        assert false;
      }
    }
  }

  lemma {:induction false} CountUpTo(s: set<nat>, max: nat)
    requires forall x :: x in s ==> 1 <= x <= max
    ensures |s| <= max
  {
    if max == 0 {
      assert s == {};
    } else {
      var t := s - {max};
      CountUpTo(t, max - 1);
      assert s <= t + {max};
      CardinalityOfSubset(s, t + {max});
    }
  }

  lemma {:induction false} CardinalityOfSubset(a: set<nat>, b: set<nat>)
    requires a <= b
    ensures |a| <= |b|
  {
    if a != {} {
      var x :| x in a;
      CardinalityOfSubset(a - {x}, b - {x});
    }
  }

  // ----- the ancestor test

  datatype Answer = Yes | No | Fails(err: Errno)

  /** The climb from a directory, over arbitrary `..` links. */
  function Climb(ds: Dirs, cursor: nat, ancestor: nat, steps: nat): (answer: Answer)
    requires cursor in ds
    ensures answer.Fails? ==> answer.err == Euclean || answer.err == Enoent
    decreases steps
  {
    if steps == 0 then Fails(Euclean)
    else if cursor == ancestor then Yes
    else if cursor == ROOT || ds[cursor].parent == cursor then No
    else if ds[cursor].parent !in ds then Fails(Enoent)
    else Climb(ds, ds[cursor].parent, ancestor, steps - 1)
  }

  /** A way up from `d`, over arbitrary links, that passes neither the root nor a directory that is its own parent. */
  ghost predicate Way(ds: Dirs, d: nat, path: seq<nat>) {
    && path != [] && path[0] == d && (forall i :: 0 <= i < |path| ==> path[i] in ds)
    && forall i :: 0 <= i < |path| - 1 ==>
         path[i] != ROOT && path[i + 1] == ds[path[i]].parent && path[i + 1] != path[i]
  }

  /** What the answer means on any graph. The climb goes up until it meets the ancestor, the root, a directory that is its
      own parent, or a parent that is not there, and gives up after `steps` directories. */
  lemma {:induction false} ClimbMeans(ds: Dirs, d: nat, ancestor: nat, steps: nat) returns (path: seq<nat>)
    requires d in ds
    ensures Way(ds, d, path) && ancestor !in path[..|path| - 1] && |path| <= steps + 1
    ensures var last, answer := path[|path| - 1], Climb(ds, d, ancestor, steps);
            && (answer == Fails(Euclean) <==> |path| == steps + 1)
            && (answer == Yes <==> |path| <= steps && last == ancestor)
            && (answer == No <==> |path| <= steps && last != ancestor && (last == ROOT || ds[last].parent == last))
            && (answer == Fails(Enoent) <==> && |path| <= steps && last != ancestor && last != ROOT && ds[last].parent != last
                                             && ds[last].parent !in ds)
    decreases steps
  {
    path := [d];
    if steps > 0 && d != ancestor && d != ROOT && ds[d].parent != d && ds[d].parent in ds {
      var rest := ClimbMeans(ds, ds[d].parent, ancestor, steps - 1);
      path := [d] + rest;
      assert path[..|path| - 1] == [d] + rest[..|rest| - 1];
    }
  }

  lemma {:induction false} ClimbIsPath(ds: Dirs, d: nat, n: nat, ancestor: nat, steps: nat)
    requires Depth(ds, d, n) && n < steps
    ensures Climb(ds, d, ancestor, steps) == if ancestor in Path(ds, d, n) then Yes else No
    decreases n
  {
    if d != ancestor && d != ROOT {
      if ds[d].parent == d {
        DepthUnique(ds, d, n, n - 1);
        assert false;
      }
      ClimbIsPath(ds, ds[d].parent, n - 1, ancestor, steps - 1);
    }
  }

  /** On a tree the depth bound always suffices: the answer is yes exactly when the ancestor is on the way up. */
  lemma {:induction false} ClimbAnswers(ds: Dirs, d: nat, ancestor: nat, maxIno: nat)
    requires Tree(ds) && d in ds && forall i :: i in ds ==> 1 <= i <= maxIno
    ensures Climb(ds, d, ancestor, maxIno + 1) == if Above(ds, ancestor, d) then Yes else No
  {
    var n: nat :| Depth(ds, d, n);
    PathSize(ds, d, n);
    CardinalityOfSubset(Path(ds, d, n), ds.Keys);
    CountUpTo(ds.Keys, maxIno);
    ClimbIsPath(ds, d, n, ancestor, maxIno + 1);
    if m: nat :| Depth(ds, d, m) && ancestor in Path(ds, d, m) {
      DepthUnique(ds, d, m, n);
    }
  }

  // ----- changing the graph

  /** Directory `x` moved below `q`. */
  function Moved(ds: Dirs, x: nat, q: nat): Dirs
    requires x in ds
  {
    ds[x := ds[x].(parent := q)]
  }

  /** Nothing changes for a directory that is not below `x`. */
  lemma {:induction false} MoveElsewhere(ds: Dirs, x: nat, q: nat, d: nat, n: nat)
    requires x in ds && Depth(ds, d, n) && x !in Path(ds, d, n)
    ensures Depth(Moved(ds, x, q), d, n)
    decreases n
  {
    if d != ROOT {
      MoveElsewhere(ds, x, q, ds[d].parent, n - 1);
    }
  }

  lemma {:induction false} MoveRooted(ds: Dirs, x: nat, q: nat, d: nat, n: nat)
    requires x in ds && x != ROOT && Depth(ds, d, n) && Rooted(Moved(ds, x, q), q)
    ensures Rooted(Moved(ds, x, q), d)
    decreases n
  {
    var ds' := Moved(ds, x, q);
    if d == x {
      var m: nat :| Depth(ds', q, m);
      assert Depth(ds', x, m + 1);
    } else if d != ROOT {
      MoveRooted(ds, x, q, ds[d].parent, n - 1);
      var m: nat :| Depth(ds', ds[d].parent, m);
      assert Depth(ds', d, m + 1);
    } else {
      assert Depth(ds', ROOT, 0);
    }
  }

  /** When `x` is on the way up from `d` it still is after the move, and it is no deeper than `d`. */
  lemma {:induction false} MoveCycle(ds: Dirs, x: nat, q: nat, d: nat, n: nat, m: nat) returns (k: nat)
    requires x in ds && Depth(ds, d, n) && x in Path(ds, d, n) && Depth(Moved(ds, x, q), d, m)
    ensures k <= m && Depth(Moved(ds, x, q), x, k)
    decreases n
  {
    if d == x {
      k := m;
    } else {
      k := MoveCycle(ds, x, q, ds[d].parent, n - 1, m - 1);
    }
  }

  /** Moving a directory keeps the graph a tree exactly when the directory is not above its new parent. */
  lemma {:induction false} MoveExactly(ds: Dirs, x: nat, q: nat)
    requires Tree(ds) && x in ds && x != ROOT && q in ds
    ensures Tree(Moved(ds, x, q)) <==> !Above(ds, x, q)
  {
    var ds' := Moved(ds, x, q);
    var n: nat :| Depth(ds, q, n);
    if Above(ds, x, q) {
      var m: nat :| Depth(ds, q, m) && x in Path(ds, q, m);
      if Tree(ds') {
        assert Rooted(ds', x);
        var k: nat :| Depth(ds', x, k);
        assert Depth(ds', q, k - 1);
        var j := MoveCycle(ds, x, q, q, m, k - 1);
        DepthUnique(ds', x, j, k);
        assert false;
      }
    } else {
      MoveElsewhere(ds, x, q, q, n);
      forall d | d in ds' ensures Rooted(ds', d) {
        var k: nat :| Depth(ds, d, k);
        MoveRooted(ds, x, q, d, k);
      }
    }
  }

  /** Entries do not matter for the tree. */
  ghost predicate SameParents(ds: Dirs, ds': Dirs) {
    ds'.Keys == ds.Keys && forall d :: d in ds ==> ds'[d].parent == ds[d].parent
  }

  lemma {:induction false} SameDepth(ds: Dirs, ds': Dirs, d: nat, n: nat)
    requires SameParents(ds, ds')
    ensures Depth(ds, d, n) <==> Depth(ds', d, n)
    decreases n
  {
    if n > 0 && d in ds {
      SameDepth(ds, ds', ds[d].parent, n - 1);
    }
  }

  lemma {:induction false} SameTree(ds: Dirs, ds': Dirs)
    requires SameParents(ds, ds')
    ensures Tree(ds) <==> Tree(ds')
  {
    forall d, n: nat ensures Depth(ds, d, n) <==> Depth(ds', d, n) {
      SameDepth(ds, ds', d, n);
    }
    assert forall d :: Rooted(ds, d) <==> Rooted(ds', d);
  }

  lemma {:induction false} LeafGone(ds: Dirs, v: nat, d: nat, n: nat)
    requires Depth(ds, d, n) && d != v && v != ROOT
    requires forall c :: c in ds && c != ROOT ==> ds[c].parent != v
    ensures Depth(ds - {v}, d, n)
    decreases n
  {
    if d != ROOT {
      LeafGone(ds, v, ds[d].parent, n - 1);
    }
  }

  lemma {:induction false} LeafAdded(ds: Dirs, c: nat, dir: Dir, d: nat, n: nat)
    requires c !in ds && Depth(ds, d, n)
    ensures Depth(ds[c := dir], d, n)
    decreases n
  {
    if d != ROOT {
      LeafAdded(ds, c, dir, ds[d].parent, n - 1);
    }
  }

  /** A directory without subdirectories can be taken out. */
  lemma {:induction false} LeafGoneTree(ds: Dirs, v: nat)
    requires Tree(ds) && v != ROOT && forall c :: c in ds && c != ROOT ==> ds[c].parent != v
    ensures Tree(ds - {v})
  {
    forall d | d in ds - {v} ensures Rooted(ds - {v}, d) {
      var n: nat :| Depth(ds, d, n);
      LeafGone(ds, v, d, n);
    }
  }

  /** A new directory can be added below an old one. */
  lemma {:induction false} LeafAddedTree(ds: Dirs, c: nat, dir: Dir)
    requires Tree(ds) && c !in ds && dir.parent in ds
    ensures Tree(ds[c := dir])
  {
    var ds' := ds[c := dir];
    forall d | d in ds' ensures Rooted(ds', d) {
      var from := if d == c then dir.parent else d;
      var n: nat :| Depth(ds, from, n);
      LeafAdded(ds, c, dir, from, n);
      if d == c {
        assert Depth(ds', c, n + 1);
      }
    }
  }

  // ----- entries and links agree

  ghost predicate Entry(ds: Dirs, p: nat, name: Name, node: Node) {
    p in ds && name in ds[p].entries && ds[p].entries[name] == node
  }

  /** Each directory but the root is entered once, in the directory its `..` stands for. */
  ghost predicate Linked(ds: Dirs) {
    && (forall p, name, c :: Entry(ds, p, name, Node(c, true)) ==> c in ds && c != ROOT && ds[c].parent == p)
    && (forall d :: d in ds && d != ROOT ==> exists name :: Entry(ds, ds[d].parent, name, Node(d, true)))
    && (forall p, n1, n2, c :: Entry(ds, p, n1, Node(c, true)) && Entry(ds, p, n2, Node(c, true)) ==> n1 == n2)
  }

  ghost predicate Valid(ds: Dirs, maxIno: nat) {
    Tree(ds) && Linked(ds) && forall i :: i in ds ==> 1 <= i <= maxIno
  }

  /** An empty directory is nobody's parent. */
  lemma {:induction false} EmptyHasNoChildren(ds: Dirs, v: nat)
    requires Linked(ds) && v in ds && ds[v].entries == map[]
    ensures forall c :: c in ds && c != ROOT ==> ds[c].parent != v
  {
    forall c | c in ds && c != ROOT ensures ds[c].parent != v {
      var name :| Entry(ds, ds[c].parent, name, Node(c, true));
    }
  }

  // ----- operations

  function WithEntry(ds: Dirs, p: nat, name: Name, node: Node): Dirs
    requires p in ds
  {
    ds[p := ds[p].(entries := ds[p].entries[name := node])]
  }

  function WithoutEntry(ds: Dirs, p: nat, name: Name): Dirs
    requires p in ds
  {
    ds[p := ds[p].(entries := ds[p].entries - {name})]
  }

  /** `room` says whether the parent has room for one more entry. */
  function MkdirOp(ds: Dirs, p: nat, name: Name, ino: nat, room: bool): (Errno, Dirs)
    requires p in ds
  {
    if |name| > NAME_LEN then (Enametoolong, ds)
    else if name in ds[p].entries then (Eexist, ds)
    else if !room then (Enospc, ds)
    else (Ok, WithEntry(ds[ino := Dir(p, map[])], p, name, Node(ino, true)))
  }

  function RmdirOp(ds: Dirs, p: nat, name: Name): (Errno, Dirs)
    requires p in ds && name in ds[p].entries && ds[p].entries[name].ino in ds
  {
    var v := ds[p].entries[name].ino;
    if ds[v].entries != map[] then (Enotempty, ds)
    else (Ok, WithoutEntry(ds, p, name) - {v})
  }

  /** Why a rename is refused before anything changes, if it is. */
  function RenameRefused(ds: Dirs, op: nat, on: Name, np: nat, nn: Name, room: bool, maxIno: nat): Errno
    requires op in ds && np in ds
  {
    if on !in ds[op].entries then Enoent
    else if |on| > NAME_LEN || |nn| > NAME_LEN then Enametoolong
    else
      var x := ds[op].entries[on];
      var answer := if x.isDir then Climb(ds, np, x.ino, maxIno + 1) else No;
      if answer == Yes then Einval
      else if answer.Fails? then answer.err
      else if nn in ds[np].entries then
        var v := ds[np].entries[nn];
        if x.isDir && !v.isDir then Enotdir
        else if !x.isDir && v.isDir then Eisdir
        else if v.isDir && v.ino in ds && ds[v.ino].entries != map[] then Enotempty
        else Ok
      else if !room then Enospc
      else Ok
  }

  /** The graph after a rename that is not refused: the target's entry goes, the new one comes, `..` is
      redirected, the old entry goes. A replaced directory leaves the graph. */
  function Renamed(ds: Dirs, op: nat, on: Name, np: nat, nn: Name): Dirs
    requires op in ds && np in ds && on in ds[op].entries
    requires nn in ds[np].entries && ds[np].entries[nn].isDir ==>
               ds[np].entries[nn].ino !in {op, np, ds[op].entries[on].ino}
    requires ds[op].entries[on].isDir ==> ds[op].entries[on].ino in ds
  {
    var x := ds[op].entries[on];
    var gone := if nn in ds[np].entries && ds[np].entries[nn].isDir then ds - {ds[np].entries[nn].ino} else ds;
    var added := WithEntry(gone, np, nn, x);
    var moved := if x.isDir && op != np then Moved(added, x.ino, np) else added;
    WithoutEntry(moved, op, on)
  }

  // ----- what each step does to entries and links

  lemma {:induction false} WithEntryFacts(ds: Dirs, p: nat, name: Name, node: Node)
    requires p in ds
    ensures SameParents(ds, WithEntry(ds, p, name, node))
    ensures forall q: nat, m, k :: Entry(WithEntry(ds, p, name, node), q, m, k)
                              <==> (q == p && m == name && k == node) || (Entry(ds, q, m, k) && (q, m) != (p, name))
  {
  }

  lemma {:induction false} WithoutEntryFacts(ds: Dirs, p: nat, name: Name)
    requires p in ds
    ensures SameParents(ds, WithoutEntry(ds, p, name))
    ensures forall q: nat, m, k :: Entry(WithoutEntry(ds, p, name), q, m, k) <==> Entry(ds, q, m, k) && (q, m) != (p, name)
  {
  }

  lemma {:induction false} MovedFacts(ds: Dirs, x: nat, q: nat)
    requires x in ds
    ensures Moved(ds, x, q).Keys == ds.Keys
    ensures forall d :: d in ds ==> Moved(ds, x, q)[d].parent == if d == x then q else ds[d].parent
    ensures forall p: nat, m, k :: Entry(Moved(ds, x, q), p, m, k) <==> Entry(ds, p, m, k)
  {
  }

  lemma {:induction false} GoneFacts(ds: Dirs, v: nat)
    requires v in ds && ds[v].entries == map[]
    ensures (ds - {v}).Keys == ds.Keys - {v}
    ensures forall d :: d in ds - {v} ==> (ds - {v})[d] == ds[d]
    ensures forall p: nat, m, k :: Entry(ds - {v}, p, m, k) <==> Entry(ds, p, m, k)
  {
  }

  lemma {:induction false} NewFacts(ds: Dirs, c: nat, p: nat)
    requires c !in ds
    ensures forall d :: d in ds ==> ds[c := Dir(p, map[])][d] == ds[d]
    ensures forall q: nat, m, k :: Entry(ds[c := Dir(p, map[])], q, m, k) <==> Entry(ds, q, m, k)
  {
  }

  // ----- what the operations keep

  lemma {:induction false} MkdirKeeps(ds: Dirs, p: nat, name: Name, ino: nat, room: bool, maxIno: nat)
    requires Valid(ds, maxIno) && p in ds && ino !in ds && 1 <= ino <= maxIno
    ensures Valid(MkdirOp(ds, p, name, ino, room).1, maxIno)
  {
    var (err, ds') := MkdirOp(ds, p, name, ino, room);
    if err == Ok {
      var t := ds[ino := Dir(p, map[])];
      LeafAddedTree(ds, ino, Dir(p, map[]));
      NewFacts(ds, ino, p);
      WithEntryFacts(t, p, name, Node(ino, true));
      SameTree(t, ds');
      hide Tree, WithEntry, Entry;
      NewLinked(ds, ds', p, name, ino);
    }
  }

  lemma {:induction false} NewLinked(ds: Dirs, ds': Dirs, p: nat, name: Name, c: nat)
    requires Linked(ds) && p in ds && c !in ds && c != ROOT
    requires ds'.Keys == ds.Keys + {c} && ds'[c].parent == p && forall d :: d in ds ==> ds'[d].parent == ds[d].parent
    requires forall q: nat, m, k :: Entry(ds', q, m, k)

                                    <==> (q == p && m == name && k == Node(c, true))
                                         || (Entry(ds, q, m, k) && (q, m) != (p, name))
    requires forall k :: !Entry(ds, p, name, k)
    ensures Linked(ds')
  {
    hide Entry;
    forall d | d in ds' && d != ROOT ensures exists m :: Entry(ds', ds'[d].parent, m, Node(d, true)) {
      if d == c {
        assert Entry(ds', p, name, Node(c, true));
      } else {
        var m :| Entry(ds, ds[d].parent, m, Node(d, true));
        assert Entry(ds', ds'[d].parent, m, Node(d, true));
      }
    }
  }

  lemma {:induction false} RmdirKeeps(ds: Dirs, p: nat, name: Name, v: nat, maxIno: nat)
    requires Valid(ds, maxIno) && Entry(ds, p, name, Node(v, true))
    ensures v in ds && v != p && Valid(RmdirOp(ds, p, name).1, maxIno)
  {
    hide *;
    ValidParts(ds, maxIno);
    ChildOf(ds, p, name, v);
    NotOwnParent(ds, v);
    if ds[v].entries == map[] {
      var ds' := WithoutEntry(ds, p, name) - {v};
      RmdirIs(ds, p, name, v);
      EmptyHasNoChildren(ds, v);
      LeafGoneTree(ds, v);
      WithoutEntryFacts(ds, p, name);
      SameKeys(ds, WithoutEntry(ds, p, name));
      GoneFacts(WithoutEntry(ds, p, name), v);
      SameGone(ds, WithoutEntry(ds, p, name), v);
      SameTree(ds - {v}, ds');
      GoneLinked(ds, ds', p, name, v);
      ValidWhole(ds', maxIno);
    } else {
      RmdirIs(ds, p, name, v);
    }
  }

  lemma {:induction false} ValidParts(ds: Dirs, maxIno: nat)
    requires Valid(ds, maxIno)
    ensures Tree(ds) && Linked(ds) && forall i :: i in ds ==> 1 <= i <= maxIno
  {
  }

  lemma {:induction false} ValidWhole(ds: Dirs, maxIno: nat)
    requires Tree(ds) && Linked(ds) && forall i :: i in ds ==> 1 <= i <= maxIno
    ensures Valid(ds, maxIno)
  {
  }

  lemma {:induction false} ChildOf(ds: Dirs, p: nat, name: Name, v: nat)
    requires Linked(ds) && Entry(ds, p, name, Node(v, true))
    ensures v in ds && v != ROOT && ds[v].parent == p && p in ds && name in ds[p].entries
    ensures ds[p].entries[name] == Node(v, true)
  {
  }

  lemma {:induction false} RmdirIs(ds: Dirs, p: nat, name: Name, v: nat)
    requires p in ds && name in ds[p].entries && ds[p].entries[name].ino == v && v in ds
    ensures RmdirOp(ds, p, name) == if ds[v].entries != map[] then (Enotempty, ds) else (Ok, WithoutEntry(ds, p, name) - {v})
    ensures v != p ==> v in WithoutEntry(ds, p, name) && WithoutEntry(ds, p, name)[v] == ds[v]
  {
  }

  lemma {:induction false} SameKeys(ds: Dirs, ds': Dirs)
    requires SameParents(ds, ds')
    ensures ds'.Keys == ds.Keys && forall d :: d in ds ==> ds'[d].parent == ds[d].parent
  {
  }

  lemma {:induction false} SameGone(ds: Dirs, ds': Dirs, v: nat)
    requires SameParents(ds, ds')
    ensures SameParents(ds - {v}, ds' - {v})
  {
  }

  /** Entries and links still agree when an empty directory and its entry are gone. */
  lemma {:induction false} GoneLinked(ds: Dirs, ds': Dirs, p: nat, name: Name, v: nat)
    requires Linked(ds) && ds'.Keys == ds.Keys - {v} && forall d :: d in ds' ==> ds'[d].parent == ds[d].parent
    requires v in ds && v != ROOT && ds[v].parent == p && Entry(ds, p, name, Node(v, true))
    requires forall c :: c in ds && c != ROOT ==> ds[c].parent != v
    requires forall q: nat, m, k :: Entry(ds', q, m, k) <==> Entry(ds, q, m, k) && (q, m) != (p, name)
    ensures Linked(ds')
  {
    hide Entry;
    forall d | d in ds' && d != ROOT ensures exists m :: Entry(ds', ds'[d].parent, m, Node(d, true)) {
      var m :| Entry(ds, ds[d].parent, m, Node(d, true));
      assert m == name && ds[d].parent == p ==>
               Node(d, true) == Node(v, true) by { OneNode(ds, p, name, Node(d, true), Node(v, true)); }
      assert Entry(ds', ds'[d].parent, m, Node(d, true));
    }
    forall q, m, c | Entry(ds', q, m, Node(c, true)) ensures c in ds' && c != ROOT && ds'[c].parent == q {
      assert Entry(ds, q, m, Node(c, true));
    }
  }

  lemma {:induction false} OneNode(ds: Dirs, p: nat, name: Name, a: Node, b: Node)
    ensures Entry(ds, p, name, a) && Entry(ds, p, name, b) ==> a == b
  {
  }

  lemma {:induction false} NotOwnParent(ds: Dirs, d: nat)
    requires Tree(ds) && d in ds && d != ROOT
    ensures ds[d].parent != d && ds[d].parent in ds
  {
    assert Rooted(ds, d);
    var n: nat :| Depth(ds, d, n);
    assert Depth(ds, ds[d].parent, n - 1);
    if ds[d].parent == d {
      DepthUnique(ds, d, n, n - 1);
      assert false;
    }
  }

  /** A rename that is not refused, of two different names. */
  ghost predicate Renames(ds: Dirs, op: nat, on: Name, np: nat, nn: Name, maxIno: nat) {
    && op in ds && np in ds && (op, on) != (np, nn)
    && RenameRefused(ds, op, on, np, nn, true, maxIno) == Ok
  }

  lemma {:induction false} RefusedFacts(ds: Dirs, op: nat, on: Name, np: nat, nn: Name, maxIno: nat)
    requires Renames(ds, op, on, np, nn, maxIno)
    ensures on in ds[op].entries
    ensures var x := ds[op].entries[on];
            && (x.isDir ==> Climb(ds, np, x.ino, maxIno + 1) == No)
            && (nn in ds[np].entries ==>
                  var v := ds[np].entries[nn];
                  && x.isDir == v.isDir && (v.isDir && v.ino in ds ==> ds[v.ino].entries == map[]))
  {
    hide Climb;
  }

  /** The replaced directory is none of the others. */
  lemma {:induction false} VictimApart(ds: Dirs, op: nat, on: Name, np: nat, nn: Name, maxIno: nat)
    requires Valid(ds, maxIno) && Renames(ds, op, on, np, nn, maxIno)
    ensures on in ds[op].entries
    ensures (ds[op].entries[on].isDir ==> ds[op].entries[on].ino in ds && ds[op].entries[on].ino != ROOT)
    ensures nn in ds[np].entries && ds[np].entries[nn].isDir ==>
              var v := ds[np].entries[nn].ino;
              && v in ds && v != ROOT && ds[v].entries == map[] && v !in {op, np, ds[op].entries[on].ino}
              && ds[op].entries[on].isDir && forall c :: c in ds && c != ROOT ==> ds[c].parent != v
  {
    RefusedFacts(ds, op, on, np, nn, maxIno);
    hide Renames;
    var x := ds[op].entries[on];
    if x.isDir {
      assert Entry(ds, op, on, Node(x.ino, true));
    }
    if nn in ds[np].entries && ds[np].entries[nn].isDir {
      var v := ds[np].entries[nn].ino;
      assert Entry(ds, np, nn, Node(v, true));
      NotOwnParent(ds, v);
      EmptyHasNoChildren(ds, v);
    }
  }

  /** What a rename does to entries and to `..` links. */
  lemma {:induction false} RenamedFacts(ds: Dirs, op: nat, on: Name, np: nat, nn: Name, maxIno: nat)
    requires Valid(ds, maxIno) && Renames(ds, op, on, np, nn, maxIno)
    requires on in ds[op].entries && (ds[op].entries[on].isDir ==> ds[op].entries[on].ino in ds)
    requires nn in ds[np].entries && ds[np].entries[nn].isDir ==>
               ds[np].entries[nn].ino !in {op, np, ds[op].entries[on].ino} && ds[np].entries[nn].ino in ds
               && ds[ds[np].entries[nn].ino].entries == map[]
    ensures var ds', x := Renamed(ds, op, on, np, nn), ds[op].entries[on];
            && ds'.Keys == ds.Keys - (if nn in ds[np].entries && ds[np].entries[nn].isDir then {ds[np].entries[nn].ino} else {})
            && (forall d :: d in ds' ==> ds'[d].parent == if x.isDir && op != np && d == x.ino then np else ds[d].parent)
            && (forall q, m, node :: Entry(ds', q, m, node)
                  <==> (q == np && m == nn && node == x) || (Entry(ds, q, m, node) && (q, m) != (op, on) && (q, m) != (np, nn)))
  {
    var x := ds[op].entries[on];
    var gone := if nn in ds[np].entries && ds[np].entries[nn].isDir then ds - {ds[np].entries[nn].ino} else ds;
    if nn in ds[np].entries && ds[np].entries[nn].isDir {
      GoneFacts(ds, ds[np].entries[nn].ino);
    }
    var added := WithEntry(gone, np, nn, x);
    WithEntryFacts(gone, np, nn, x);
    var moved := if x.isDir && op != np then Moved(added, x.ino, np) else added;
    if x.isDir && op != np {
      MovedFacts(added, x.ino, np);
    }
    WithoutEntryFacts(moved, op, on);
    hide WithEntry, WithoutEntry, Moved, Entry, Valid, Renames;
  }

  /** Rename keeps the directory graph a tree, and entries and `..` links in agreement. */
  lemma {:induction false} RenameKeeps(ds: Dirs, op: nat, on: Name, np: nat, nn: Name, maxIno: nat)
    requires Valid(ds, maxIno) && Renames(ds, op, on, np, nn, maxIno)
    ensures on in ds[op].entries && (ds[op].entries[on].isDir ==> ds[op].entries[on].ino in ds)
    ensures nn in ds[np].entries && ds[np].entries[nn].isDir ==>
              ds[np].entries[nn].ino !in {op, np, ds[op].entries[on].ino}
    ensures Valid(Renamed(ds, op, on, np, nn), maxIno)
  {
    VictimApart(ds, op, on, np, nn, maxIno);
    RefusedFacts(ds, op, on, np, nn, maxIno);
    RenamedFacts(ds, op, on, np, nn, maxIno);
    RenameTree(ds, op, on, np, nn, maxIno);
    hide Tree, Linked, Renames, Renamed, Entry;
    RenameLinked(ds, Renamed(ds, op, on, np, nn), op, on, np, nn);
  }

  lemma {:induction false} RenameTree(ds: Dirs, op: nat, on: Name, np: nat, nn: Name, maxIno: nat)
    requires Valid(ds, maxIno) && Renames(ds, op, on, np, nn, maxIno)
    ensures on in ds[op].entries && (ds[op].entries[on].isDir ==> ds[op].entries[on].ino in ds)
    ensures nn in ds[np].entries && ds[np].entries[nn].isDir ==>
              ds[np].entries[nn].ino !in {op, np, ds[op].entries[on].ino}
    ensures Tree(Renamed(ds, op, on, np, nn))
  {
    hide *;
    ValidParts(ds, maxIno);
    RenamesParts(ds, op, on, np, nn, maxIno);
    VictimApart(ds, op, on, np, nn, maxIno);
    RefusedFacts(ds, op, on, np, nn, maxIno);
    RenamedFacts(ds, op, on, np, nn, maxIno);
    var x := ds[op].entries[on];
    var moved := if x.isDir && op != np then Moved(ds, x.ino, np) else ds;
    if x.isDir && op != np {
      ClimbAnswers(ds, np, x.ino, maxIno);
      MoveExactly(ds, x.ino, np);
      MovedFacts(ds, x.ino, np);
    }
    if nn in ds[np].entries && ds[np].entries[nn].isDir {
      var v := ds[np].entries[nn].ino;
      LeafGoneTree(moved, v);
      SameBy(moved - {v}, Renamed(ds, op, on, np, nn));
      SameTree(moved - {v}, Renamed(ds, op, on, np, nn));
    } else {
      SameBy(moved, Renamed(ds, op, on, np, nn));
      SameTree(moved, Renamed(ds, op, on, np, nn));
    }
  }

  lemma {:induction false} RenamesParts(ds: Dirs, op: nat, on: Name, np: nat, nn: Name, maxIno: nat)
    requires Renames(ds, op, on, np, nn, maxIno)
    ensures op in ds && np in ds && (op, on) != (np, nn)
  {
  }

  lemma {:induction false} SameBy(ds: Dirs, ds': Dirs)
    requires ds'.Keys == ds.Keys && forall d :: d in ds ==> ds'[d].parent == ds[d].parent
    ensures SameParents(ds, ds')
  {
  }

  lemma {:induction false} RenameLinked(ds: Dirs, ds': Dirs, op: nat, on: Name, np: nat, nn: Name)
    requires Linked(ds) && op in ds && np in ds && on in ds[op].entries && (op, on) != (np, nn)
    requires nn in ds[np].entries && ds[np].entries[nn].isDir ==>
               forall c :: c in ds && c != ROOT ==> ds[c].parent != ds[np].entries[nn].ino
    requires var x := ds[op].entries[on];
             && (nn in ds[np].entries && ds[np].entries[nn].isDir ==> x.isDir && x.ino != ds[np].entries[nn].ino)
             && (nn in ds[np].entries && x.isDir ==> ds[np].entries[nn].isDir)
             && ds'.Keys
                == ds.Keys - (if nn in ds[np].entries && ds[np].entries[nn].isDir then {ds[np].entries[nn].ino} else {})
             && (forall d :: d in ds' ==> ds'[d].parent == if x.isDir && op != np && d == x.ino then np else ds[d].parent)
             && (forall q, m, node :: Entry(ds', q, m, node)
                   <==> (q == np && m == nn && node == x)
                        || (Entry(ds, q, m, node) && (q, m) != (op, on) && (q, m) != (np, nn)))
    ensures Linked(ds')
  {
    var x := ds[op].entries[on];
    assert Entry(ds, op, on, x) && (nn in ds[np].entries ==> Entry(ds, np, nn, ds[np].entries[nn]));
    forall d | d in ds' && d != ROOT ensures exists m :: Entry(ds', ds'[d].parent, m, Node(d, true)) {
      if x == Node(d, true) {
        assert Entry(ds', np, nn, x);
      } else {
        var m :| Entry(ds, ds[d].parent, m, Node(d, true));
        assert Entry(ds', ds'[d].parent, m, Node(d, true));
      }
    }
    forall p, m, c | Entry(ds', p, m, Node(c, true)) ensures c in ds' && c != ROOT && ds'[c].parent == p {
    }
  }

  /** A rename makes a cycle exactly when the moved directory is above the new parent. */
  lemma {:induction false} CycleExactly(ds: Dirs, op: nat, on: Name, np: nat, maxIno: nat)
    requires Valid(ds, maxIno) && op in ds && np in ds && on in ds[op].entries && ds[op].entries[on].isDir
    ensures var x := ds[op].entries[on].ino;
            && x in ds && (Above(ds, x, np) <==> !Tree(Moved(ds, x, np)))
            && Climb(ds, np, x, maxIno + 1) == if Above(ds, x, np) then Yes else No
  {
    var x := ds[op].entries[on].ino;
    assert Entry(ds, op, on, Node(x, true));
    ClimbAnswers(ds, np, x, maxIno);
    MoveExactly(ds, x, np);
  }

  ghost predicate Empty(ds: Dirs, d: nat) {
    d in ds && ds[d].entries == map[]
  }

  /** Names that a directory can hold, and no cycle. */
  ghost predicate Movable(ds: Dirs, op: nat, on: Name, np: nat, nn: Name)
    requires op in ds && np in ds
  {
    && on in ds[op].entries && |on| <= 255 && |nn| <= 255
    && !(ds[op].entries[on].isDir && Above(ds, ds[op].entries[on].ino, np))
  }

  /** A rename that nothing but a lack of room can stop: a name that is taken stands for an object of the same kind, a
      file or an empty directory. */
  ghost predicate Accepts(ds: Dirs, op: nat, on: Name, np: nat, nn: Name)
    requires op in ds && np in ds
  {
    && Movable(ds, op, on, np, nn)
    && (nn in ds[np].entries ==>
          var x, v := ds[op].entries[on], ds[np].entries[nn];
          && x.isDir == v.isDir && (v.isDir ==> Empty(ds, v.ino)))
  }

  /** Every outcome of the checks of a rename, by names, kinds and entries. */
  lemma {:induction false} RenameRefusedExactly(ds: Dirs, op: nat, on: Name, np: nat, nn: Name, room: bool, maxIno: nat)
    requires Valid(ds, maxIno) && op in ds && np in ds
    ensures var r, there, taken := RenameRefused(ds, op, on, np, nn, room, maxIno), on in ds[op].entries, nn in ds[np].entries;
            && (r == Ok <==> Accepts(ds, op, on, np, nn) && (taken || room))
            && (r == Enoent <==> !there)
            && (r == Enametoolong <==> there && (|on| > 255 || |nn| > 255))
            && (r == Einval <==> there && |on| <= 255 && |nn| <= 255 && ds[op].entries[on].isDir
                                 && Above(ds, ds[op].entries[on].ino, np))
            && var passes := Movable(ds, op, on, np, nn);
               && (r == Enospc <==> passes && !taken && !room)
               && (r == Enotdir <==> passes && taken && ds[op].entries[on].isDir && !ds[np].entries[nn].isDir)
               && (r == Eisdir <==> passes && taken && !ds[op].entries[on].isDir && ds[np].entries[nn].isDir)
               && (r == Enotempty <==> passes && taken && ds[op].entries[on].isDir && ds[np].entries[nn].isDir
                                       && !Empty(ds, ds[np].entries[nn].ino))
  {
    if on in ds[op].entries && ds[op].entries[on].isDir {
      CycleExactly(ds, op, on, np, maxIno);
    }
    if nn in ds[np].entries && ds[np].entries[nn].isDir {
      assert Entry(ds, np, nn, Node(ds[np].entries[nn].ino, true));
    }
    hide Climb, Tree, Above;
  }

  /** When a directory is made, and what the graph is then. */
  lemma {:induction false} MkdirExactly(ds: Dirs, p: nat, name: Name, ino: nat, room: bool)
    requires p in ds && ino !in ds
    ensures var (err, after) := MkdirOp(ds, p, name, ino, room);
            && (err == Ok <==> |name| <= 255 && name !in ds[p].entries && room)
            && (err == Enametoolong <==> |name| > 255)
            && (err == Eexist <==> |name| <= 255 && name in ds[p].entries)
            && (err == Enospc <==> |name| <= 255 && name !in ds[p].entries && !room)
            && (err != Ok ==> after == ds)
            && (err == Ok ==>
                  && after.Keys == ds.Keys + {ino} && after[ino] == Dir(p, map[])
                  && (forall d :: d in ds ==> after[d].parent == ds[d].parent)
                  && forall q: nat, m, k :: Entry(after, q, m, k)
                                       <==> Entry(ds, q, m, k) || (q, m, k) == (p, name, Node(ino, true)))
  {
    if name !in ds[p].entries {
      NewFacts(ds, ino, p);
      WithEntryFacts(ds[ino := Dir(p, map[])], p, name, Node(ino, true));
      FreeName(ds, p, name);
    }
    hide Entry;
  }

  /** When a directory is removed, and what the graph is then. */
  lemma {:induction false} RmdirExactly(ds: Dirs, p: nat, name: Name, v: nat)
    requires Entry(ds, p, name, Node(v, true)) && v in ds && v != p
    ensures var (err, after) := RmdirOp(ds, p, name);
            && (err == if forall m, k :: !Entry(ds, v, m, k) then Ok else Enotempty)
            && (err != Ok ==> after == ds)
            && (err == Ok ==>
                  && after.Keys == ds.Keys - {v} && (forall d :: d in after ==> after[d].parent == ds[d].parent)
                  && forall q: nat, m, k :: Entry(after, q, m, k) <==> Entry(ds, q, m, k) && (q, m) != (p, name))
  {
    RmdirIs(ds, p, name, v);
    WithoutEntryFacts(ds, p, name);
    NoEntries(ds, v);
    var cut := WithoutEntry(ds, p, name);
    assert forall m, k :: Entry(cut, v, m, k) <==> Entry(ds, v, m, k);
  }

  lemma {:induction false} NoEntries(ds: Dirs, v: nat)
    requires v in ds
    ensures ds[v].entries == map[] <==> forall m, k :: !Entry(ds, v, m, k)
  {
    if ds[v].entries != map[] {
      var m :| m in ds[v].entries;
      assert Entry(ds, v, m, ds[v].entries[m]);
    }
  }

  // ----- files

  lemma {:induction false} FileLinkKeeps(ds: Dirs, p: nat, name: Name, ino: nat, maxIno: nat)
    requires Valid(ds, maxIno) && p in ds && name !in ds[p].entries
    ensures Valid(WithEntry(ds, p, name, Node(ino, false)), maxIno)
  {
    var ds' := WithEntry(ds, p, name, Node(ino, false));
    hide WithEntry, Tree, Entry;
    WithEntryFacts(ds, p, name, Node(ino, false));
    SameTree(ds, ds');
    FreeName(ds, p, name);
    forall d | d in ds' && d != ROOT ensures exists m :: Entry(ds', ds'[d].parent, m, Node(d, true)) {
      var m :| Entry(ds, ds[d].parent, m, Node(d, true));
      assert Entry(ds', ds'[d].parent, m, Node(d, true));
    }
  }

  lemma {:induction false} FreeName(ds: Dirs, p: nat, name: Name)
    requires p in ds && name !in ds[p].entries
    ensures forall k :: !Entry(ds, p, name, k)
  {
  }

  lemma {:induction false} FileUnlinkKeeps(ds: Dirs, p: nat, name: Name, maxIno: nat)
    requires Valid(ds, maxIno) && p in ds && name in ds[p].entries && !ds[p].entries[name].isDir
    ensures Valid(WithoutEntry(ds, p, name), maxIno)
  {
    WithoutEntryFacts(ds, p, name);
    var ds' := WithoutEntry(ds, p, name);
    SameTree(ds, ds');
    hide WithoutEntry, Tree;
    forall d | d in ds' && d != ROOT ensures exists m :: Entry(ds', ds'[d].parent, m, Node(d, true)) {
      var m :| Entry(ds, ds[d].parent, m, Node(d, true));
      assert Entry(ds', ds'[d].parent, m, Node(d, true));
    }
  }

  // ----- runs

  datatype Event =
    | Mkdir(p: nat, name: Name, ino: nat, room: bool)
    | Rmdir(p: nat, name: Name)
    | Rename(op: nat, on: Name, np: nat, nn: Name, room: bool)
    | Link(p: nat, name: Name, ino: nat, room: bool)
    | Unlink(p: nat, name: Name)

  /** What the VFS sees to: parents are directories, a new inode is not in use, and the object named is of the kind
      the operation is for. */
  predicate Allowed(ds: Dirs, e: Event, maxIno: nat) {
    match e
    case Mkdir(p, _, ino, _) => p in ds && ino !in ds && 1 <= ino <= maxIno
    case Rmdir(p, name) => p in ds && name in ds[p].entries && ds[p].entries[name].isDir
    case Rename(op, _, np, _, _) => op in ds && np in ds
    case Link(p, _, _, _) => p in ds
    case Unlink(p, name) => p in ds && name in ds[p].entries && !ds[p].entries[name].isDir
  }

  ghost function RenameOp(ds: Dirs, op: nat, on: Name, np: nat, nn: Name, room: bool, maxIno: nat): (Errno, Dirs)
    requires Valid(ds, maxIno) && op in ds && np in ds
  {
    if on !in ds[op].entries then (Enoent, ds)
    else if op == np && on == nn then (Ok, ds)
    else
      var refused := RenameRefused(ds, op, on, np, nn, room, maxIno);
      if refused != Ok then (refused, ds)
      else
        RenameKeeps(ds, op, on, np, nn, maxIno);
        (Ok, Renamed(ds, op, on, np, nn))
  }

  ghost function Step(ds: Dirs, e: Event, maxIno: nat): Dirs
    requires Valid(ds, maxIno) && Allowed(ds, e, maxIno)
  {
    match e
    case Mkdir(p, name, ino, room) => MkdirOp(ds, p, name, ino, room).1
    case Rmdir(p, name) =>
      RmdirKeeps(ds, p, name, ds[p].entries[name].ino, maxIno);
      RmdirOp(ds, p, name).1
    case Rename(op, on, np, nn, room) => RenameOp(ds, op, on, np, nn, room, maxIno).1
    case Link(p, name, ino, room) =>
      if |name| > NAME_LEN || name in ds[p].entries || !room then ds else WithEntry(ds, p, name, Node(ino, false))
    case Unlink(p, name) => WithoutEntry(ds, p, name)
  }

  lemma {:induction false} StepKeeps(ds: Dirs, e: Event, maxIno: nat)
    requires Valid(ds, maxIno) && Allowed(ds, e, maxIno)
    ensures Valid(Step(ds, e, maxIno), maxIno)
  {
    hide Valid, Renamed, Renames;
    match e
    case Mkdir(p, name, ino, room) => MkdirKeeps(ds, p, name, ino, room, maxIno);
    case Rmdir(p, name) =>
      assert Entry(ds, p, name, Node(ds[p].entries[name].ino, true));
      RmdirKeeps(ds, p, name, ds[p].entries[name].ino, maxIno);
    case Rename(op, on, np, nn, room) => RenameOpKeeps(ds, op, on, np, nn, room, maxIno);
    case Link(p, name, ino, room) =>
      if name !in ds[p].entries {
        FileLinkKeeps(ds, p, name, ino, maxIno);
      }
    case Unlink(p, name) => FileUnlinkKeeps(ds, p, name, maxIno);
  }

  lemma {:induction false} NotRefused(ds: Dirs, op: nat, on: Name, np: nat, nn: Name, room: bool, maxIno: nat)
    requires op in ds && np in ds && (op, on) != (np, nn) && RenameRefused(ds, op, on, np, nn, room, maxIno) == Ok
    ensures Renames(ds, op, on, np, nn, maxIno)
  {
    hide Climb;
  }

  lemma {:induction false} RenameOpKeeps(ds: Dirs, op: nat, on: Name, np: nat, nn: Name, room: bool, maxIno: nat)
    requires Valid(ds, maxIno) && op in ds && np in ds
    ensures Valid(RenameOp(ds, op, on, np, nn, room, maxIno).1, maxIno)
  {
    if on in ds[op].entries && (op, on) != (np, nn) && RenameRefused(ds, op, on, np, nn, room, maxIno) == Ok {
      assert Renames(ds, op, on, np, nn, maxIno);
      RenameKeeps(ds, op, on, np, nn, maxIno);
    }
    hide Valid, Renamed, RenameRefused;
  }

  /** The states a run of allowed events passes through. */
  ghost predicate Run(states: seq<Dirs>, events: seq<Event>, maxIno: nat) {
    && |states| == |events| + 1 && Valid(states[0], maxIno)
    && forall i :: 0 <= i < |events| ==>
         && Valid(states[i], maxIno) ==>
               && Allowed(states[i], events[i], maxIno)
               && states[i + 1] == Step(states[i], events[i], maxIno)
  }

  /** Over every run the directory graph stays a tree. */
  lemma {:induction false} RunsKeepTree(states: seq<Dirs>, events: seq<Event>, maxIno: nat, i: nat)
    requires Run(states, events, maxIno) && i < |states|
    ensures Valid(states[i], maxIno)
    ensures forall d :: d in states[i] ==> Above(states[i], ROOT, d)
    decreases i
  {
    hide *;
    RunParts(states, events, maxIno, i);
    if i > 0 {
      RunsKeepTree(states, events, maxIno, i - 1);
      StepKeeps(states[i - 1], events[i - 1], maxIno);
    }
    AllAbove(states[i], maxIno);
  }

  lemma {:induction false} RunParts(states: seq<Dirs>, events: seq<Event>, maxIno: nat, i: nat)
    requires Run(states, events, maxIno) && i < |states|
    ensures |states| == |events| + 1 && (i == 0 ==> Valid(states[0], maxIno))
    ensures i > 0 && Valid(states[i - 1], maxIno) ==>
              Allowed(states[i - 1], events[i - 1], maxIno) && states[i] == Step(states[i - 1], events[i - 1], maxIno)
  {
    hide Valid, Allowed, Step;
    if i > 0 {
      var k := i - 1;
      assert Valid(states[k], maxIno) ==>
                  && Allowed(states[k], events[k], maxIno)
                  && states[k + 1] == Step(states[k], events[k], maxIno);
    }
  }

  lemma {:induction false} AllAbove(ds: Dirs, maxIno: nat)
    requires Valid(ds, maxIno)
    ensures forall d :: d in ds ==> Above(ds, ROOT, d)
  {
    hide Linked;
    forall d | d in ds ensures Above(ds, ROOT, d) {
      assert Rooted(ds, d);
      var n: nat :| Depth(ds, d, n);
      RootOnPath(ds, d, n);
    }
  }

  lemma {:induction false} RootOnPath(ds: Dirs, d: nat, n: nat)
    requires Depth(ds, d, n)
    ensures ROOT in Path(ds, d, n)
    decreases n
  {
    if d != ROOT {
      RootOnPath(ds, ds[d].parent, n - 1);
    }
  }

  // ----- the operations in place

  /** The order in which a rename changes directories does not matter for its result. */
  lemma {:induction false} RenameOrder(ds: Dirs, op: nat, on: Name, np: nat, nn: Name, maxIno: nat)
    requires Valid(ds, maxIno) && Renames(ds, op, on, np, nn, maxIno)
    ensures on in ds[op].entries && (ds[op].entries[on].isDir ==> ds[op].entries[on].ino in ds)
    ensures nn in ds[np].entries && ds[np].entries[nn].isDir ==>
              ds[np].entries[nn].ino !in {op, np, ds[op].entries[on].ino}
    ensures var x := ds[op].entries[on];
            var cleared := if nn in ds[np].entries then WithoutEntry(ds, np, nn) else ds;
            var added := WithEntry(cleared, np, nn, x);
            var moved := if x.isDir && op != np then Moved(added, x.ino, np) else added;
            var cut := WithoutEntry(moved, op, on);
            (if nn in ds[np].entries && ds[np].entries[nn].isDir then cut - {ds[np].entries[nn].ino} else cut)
            == Renamed(ds, op, on, np, nn)
  {
    VictimApart(ds, op, on, np, nn, maxIno);
    hide Valid, Renames;
    var x := ds[op].entries[on];
    if nn in ds[np].entries {
      var v := ds[np].entries[nn];
      ReplaceEntry(ds, np, nn, x);
      if v.isDir {
        var added := WithEntry(ds, np, nn, x);
        var moved := if op != np then Moved(added, x.ino, np) else added;
        DropEarlier(ds, added, v.ino, np, nn, x);
        if op != np {
          DropBeforeMove(added, v.ino, x.ino, np);
        }
        DropBeforeCut(moved, v.ino, op, on);
        hide WithEntry, WithoutEntry, Moved;
      }
    }
  }

  lemma {:induction false} ReplaceEntry(ds: Dirs, p: nat, name: Name, node: Node)
    requires p in ds
    ensures WithEntry(WithoutEntry(ds, p, name), p, name, node) == WithEntry(ds, p, name, node)
  {
    var entries := ds[p].entries;
    assert (entries - {name})[name := node] == entries[name := node];
  }

  lemma {:induction false} DropEarlier(ds: Dirs, added: Dirs, v: nat, p: nat, name: Name, node: Node)
    requires p in ds && v != p && added == WithEntry(ds, p, name, node)
    ensures WithEntry(ds - {v}, p, name, node) == added - {v}
  {
  }

  lemma {:induction false} DropBeforeMove(ds: Dirs, v: nat, x: nat, q: nat)
    requires x in ds && v != x
    ensures Moved(ds - {v}, x, q) == Moved(ds, x, q) - {v}
  {
  }

  lemma {:induction false} DropBeforeCut(ds: Dirs, v: nat, p: nat, name: Name)
    requires p in ds && v != p
    ensures WithoutEntry(ds - {v}, p, name) == WithoutEntry(ds, p, name) - {v}
  {
  }

  class Namespace {
    const maxIno: nat
    var dirs: Dirs

    /** A filesystem with nothing but its root directory. */
    constructor (maxIno: nat)
      requires maxIno >= ROOT
      ensures Valid(dirs, maxIno) && this.maxIno == maxIno && dirs == map[ROOT := Dir(ROOT, map[])]
    {
      this.maxIno, dirs := maxIno, map[ROOT := Dir(ROOT, map[])];
      new;
      assert Depth(dirs, ROOT, 0);
    }

    /** Is `ancestor` the directory itself or above it? On any graph the climb ends. */
    method HasAncestor(dir: nat, ancestor: nat) returns (answer: Answer)
      requires dir in dirs
      ensures answer == Climb(dirs, dir, ancestor, maxIno + 1)
    {
      var cursor := dir;
      for depth := 0 to maxIno + 1
        invariant cursor in dirs
        invariant Climb(dirs, dir, ancestor, maxIno + 1) == Climb(dirs, cursor, ancestor, maxIno + 1 - depth)
      {
        if cursor == ancestor {
          return Yes;
        }
        if cursor == ROOT {
          return No;
        }
        var parent := dirs[cursor].parent;
        if parent == cursor {
          return No;
        }
        if parent !in dirs {
          return Fails(Enoent);
        }
        cursor := parent;
      }
      answer := Fails(Euclean);
    }

    method Mkdir(p: nat, name: Name, ino: nat, room: bool) returns (err: Errno)
      requires Valid(dirs, maxIno) && Allowed(dirs, Event.Mkdir(p, name, ino, room), maxIno)
      modifies this
      ensures Valid(dirs, maxIno) && (err, dirs) == MkdirOp(old(dirs), p, name, ino, room)
    {
      MkdirKeeps(dirs, p, name, ino, room, maxIno);
      hide Valid;
      if |name| > NAME_LEN {
        return Enametoolong;
      }
      if name in dirs[p].entries {
        return Eexist;
      }
      if !room {
        return Enospc;
      }
      dirs := dirs[ino := Dir(p, map[])];
      dirs := dirs[p := dirs[p].(entries := dirs[p].entries[name := Node(ino, true)])];
      err := Ok;
    }

    method Rmdir(p: nat, name: Name) returns (err: Errno)
      requires Valid(dirs, maxIno) && Allowed(dirs, Event.Rmdir(p, name), maxIno)
      modifies this
      ensures Valid(dirs, maxIno) && old(dirs[p].entries[name].ino in dirs)
      ensures (err, dirs) == RmdirOp(old(dirs), p, name)
    {
      var v := dirs[p].entries[name].ino;
      assert Entry(dirs, p, name, Node(v, true));
      RmdirKeeps(dirs, p, name, v, maxIno);
      hide Valid;
      if dirs[v].entries != map[] {
        return Enotempty;
      }
      dirs := dirs[p := dirs[p].(entries := dirs[p].entries - {name})];
      dirs := dirs - {v};
      err := Ok;
    }

    /** Rename. What is checked before anything changes decides the result. */
    method Rename(op: nat, on: Name, np: nat, nn: Name, room: bool) returns (err: Errno)
      requires Valid(dirs, maxIno) && op in dirs && np in dirs
      modifies this
      ensures Valid(dirs, maxIno) && (err, dirs) == RenameOp(old(dirs), op, on, np, nn, room, maxIno)
    {
      RenameOpKeeps(dirs, op, on, np, nn, room, maxIno);
      hide Valid, Renamed, RenameRefused;
      if on !in dirs[op].entries {
        return Enoent;
      }
      if op == np && on == nn {
        return Ok;
      }
      err := CheckRename(op, on, np, nn, room);
      if err != Ok {
        return;
      }
      NotRefused(dirs, op, on, np, nn, room, maxIno);
      hide Renames;
      var replaced := nn in dirs[np].entries;
      Relink(op, on, np, nn, dirs[op].entries[on], replaced, if replaced then dirs[np].entries[nn] else dirs[op].entries[on]);
    }

    /** The checks. */
    method CheckRename(op: nat, on: Name, np: nat, nn: Name, room: bool) returns (err: Errno)
      requires op in dirs && np in dirs && on in dirs[op].entries
      ensures err == RenameRefused(dirs, op, on, np, nn, room, maxIno)
    {
      hide Climb;
      if |on| > NAME_LEN || |nn| > NAME_LEN {
        return Enametoolong;
      }
      var x := dirs[op].entries[on];
      if x.isDir {
        var answer := HasAncestor(np, x.ino);
        if answer != No {
          return if answer == Yes then Einval else answer.err;
        }
      }
      if nn in dirs[np].entries {
        var victim := dirs[np].entries[nn];
        if x.isDir && !victim.isDir {
          return Enotdir;
        }
        if !x.isDir && victim.isDir {
          return Eisdir;
        }
        if victim.isDir && victim.ino in dirs && dirs[victim.ino].entries != map[] {
          return Enotempty;
        }
      } else if !room {
        return Enospc;
      }
      err := Ok;
    }

    /** The changes of a rename: the replaced entry goes, the new one comes, `..` is redirected, the old one goes. */
    method Relink(op: nat, on: Name, np: nat, nn: Name, x: Node, replaced: bool, victim: Node)
      requires Valid(dirs, maxIno) && Renames(dirs, op, on, np, nn, maxIno) && on in dirs[op].entries
      requires x == dirs[op].entries[on]
      requires replaced == (nn in dirs[np].entries) && (replaced ==> victim == dirs[np].entries[nn])
      modifies this
      ensures on in old(dirs)[op].entries && (x.isDir ==> x.ino in old(dirs))
      ensures replaced && victim.isDir ==> victim.ino !in {op, np, x.ino}
      ensures dirs == Renamed(old(dirs), op, on, np, nn)
    {
      RenameOrder(dirs, op, on, np, nn, maxIno);
      hide Valid, Renames, Renamed, WithEntry, WithoutEntry;
      if replaced {
        dirs := WithoutEntry(dirs, np, nn);
      }
      dirs := WithEntry(dirs, np, nn, x);
      if x.isDir && op != np {
        dirs := Moved(dirs, x.ino, np);
      }
      dirs := WithoutEntry(dirs, op, on);
      if replaced && victim.isDir {
        dirs := dirs - {victim.ino};
      }
    }
  }
}
