/** The graph of directories that the stored ones stand for. */
module DirGraph {
  import opened Bytes
  import opened DirBlock
  import opened DirSpec
  import opened DirContent
  import opened DirRename
  import DirTree

  predicate Dots(n: Name) { n == DOT || n == DOTDOT }

  /** The names in use. */
  ghost function Names(blocks: seq<Block>, maxIno: nat): set<Name>
    requires AllTiled(blocks, maxIno)
  {
    set i | 0 <= i < |All(blocks, maxIno)| :: All(blocks, maxIno)[i].name
  }

  lemma {:induction false} NamesAreFound(blocks: seq<Block>, maxIno: nat, n: Name)
    requires AllTiled(blocks, maxIno)
    ensures n in Names(blocks, maxIno) <==> Find(blocks, n, maxIno).Some?
  {
    FoundSomewhere(All(blocks, maxIno), n);
    hide All, AllTiled, Lookup;
  }

  lemma {:induction false} FoundSomewhere(es: seq<Entry>, n: Name)
    ensures Lookup(es, n).Some? <==> exists i :: 0 <= i < |es| && es[i].name == n
  {
    if es != [] {
      FoundSomewhere(es[1..], n);
      if i :| 0 <= i < |es| && es[i].name == n {
        assert i == 0 || es[1..][i - 1] == es[i];
      }
      if i :| 0 <= i < |es[1..]| && es[1..][i].name == n {
        assert es[i + 1] == es[1..][i];
      }
    }
  }

  function NodeOf(e: Entry): DirTree.Node { DirTree.Node(e.ino, e.ftype == FT_DIR) }

  /** A directory as a node of the graph: where `..` leads, and its other entries. */
  ghost function View(blocks: seq<Block>, maxIno: nat): DirTree.Dir
    requires AllTiled(blocks, maxIno) && Find(blocks, DOTDOT, maxIno).Some?
  {
    DirTree.Dir(Find(blocks, DOTDOT, maxIno).value.ino,
                map n | n in Names(blocks, maxIno) && !Dots(n)
                  && Find(blocks, n, maxIno).Some? :: NodeOf(Find(blocks, n, maxIno).value))
  }

  lemma {:induction false} ViewFacts(blocks: seq<Block>, maxIno: nat)
    requires AllTiled(blocks, maxIno) && Find(blocks, DOTDOT, maxIno).Some?
    ensures var v := View(blocks, maxIno);
            && v.parent == Find(blocks, DOTDOT, maxIno).value.ino
            && forall n: Name :: (n in v.entries <==> !Dots(n) && Find(blocks, n, maxIno).Some?)
                                 && (n in v.entries ==> v.entries[n] == NodeOf(Find(blocks, n, maxIno).value))
  {
    forall n: Name ensures n in Names(blocks, maxIno) <==> Find(blocks, n, maxIno).Some? {
      NamesAreFound(blocks, maxIno, n);
    }
    hide Names, Find, AllTiled;
  }

  /** A name set or removed in the map is an entry set or removed in the graph. */
  lemma {:induction false} ViewChanged(before: seq<Block>, after: seq<Block>, name: Name, e: Option<Entry>, maxIno: nat)
    requires Changed(before, after, name, e, maxIno) && !Dots(name) && Find(before, DOTDOT, maxIno).Some?
    ensures AllTiled(before, maxIno) && AllTiled(after, maxIno) && Find(after, DOTDOT, maxIno).Some?
    ensures var v := View(before, maxIno);
            View(after, maxIno) == if e.Some? then v.(entries := v.entries[name := NodeOf(e.value)])
              else v.(entries := v.entries - {name})
  {
    hide *;
    NoDots();
    ChangedFind(before, after, name, e, maxIno);
    ViewFacts(before, maxIno);
    ViewFacts(after, maxIno);
    var v, w := View(before, maxIno), View(after, maxIno);
    if e.Some? {
      MapSet(v.entries, w.entries, name, NodeOf(e.value));
    } else {
      MapRemoved(v.entries, w.entries, name);
    }
  }

  lemma {:induction false} ChangedFind(before: seq<Block>, after: seq<Block>, name: Name, e: Option<Entry>, maxIno: nat)
    requires Changed(before, after, name, e, maxIno)
    ensures AllTiled(before, maxIno) && AllTiled(after, maxIno)
    ensures forall n :: Find(after, n, maxIno) == if n == name then e else Find(before, n, maxIno)
  {
  }

  lemma {:induction false} MapSet<K, V>(v: map<K, V>, w: map<K, V>, name: K, x: V)
    requires forall n :: n in w <==> n == name || n in v
    requires forall n :: n in w ==> w[n] == if n == name then x else v[n]
    ensures w == v[name := x]
  {
  }

  lemma {:induction false} MapRemoved<K, V>(v: map<K, V>, w: map<K, V>, name: K)
    requires forall n :: n in w <==> n != name && n in v
    requires forall n :: n in w ==> w[n] == v[n]
    ensures w == v - {name}
  {
  }

  lemma {:induction false} ViewMoved(before: seq<Block>, after: seq<Block>, e: Entry, maxIno: nat)
    requires Changed(before, after, DOTDOT, Some(e), maxIno) && Find(before, DOTDOT, maxIno).Some?
    ensures AllTiled(before, maxIno) && AllTiled(after, maxIno) && Find(after, DOTDOT, maxIno).Some?
    ensures View(after, maxIno) == View(before, maxIno).(parent := e.ino)
  {
    ViewFacts(before, maxIno);
    ViewFacts(after, maxIno);
    hide View, Find, AllTiled, NodeOf;
    var v, w := View(before, maxIno), View(after, maxIno);
    assert w.entries.Keys == v.entries.Keys;
    assert w.entries == v.entries;
  }

  lemma {:induction false} ViewSame(before: seq<Block>, after: seq<Block>, maxIno: nat)
    requires SameMap(before, after, maxIno) && Find(before, DOTDOT, maxIno).Some?
    ensures AllTiled(before, maxIno) && AllTiled(after, maxIno) && Find(after, DOTDOT, maxIno).Some?
    ensures View(after, maxIno) == View(before, maxIno)
  {
    ViewFacts(before, maxIno);
    ViewFacts(after, maxIno);
    hide View, Find, AllTiled, NodeOf;
    var v, w := View(before, maxIno), View(after, maxIno);
    assert w.entries.Keys == v.entries.Keys;
    assert w.entries == v.entries;
  }

  /** A directory without entries is one without names beside the two dots. */
  lemma {:induction false} ViewEmpty(blocks: seq<Block>, maxIno: nat)
    requires AllTiled(blocks, maxIno) && Find(blocks, DOTDOT, maxIno).Some?
    ensures OnlyDots(All(blocks, maxIno)) <==> View(blocks, maxIno).entries == map[]
  {
    ViewFacts(blocks, maxIno);
    var v, es := View(blocks, maxIno), All(blocks, maxIno);
    hide View, AllTiled, NodeOf, All;
    if OnlyDots(es) {
      forall n: Name | n in v.entries ensures false {
        FoundSomewhere(es, n);
      }
    } else {
      var i :| 0 <= i < |es| && !Dots(es[i].name);
      FoundSomewhere(es, es[i].name);
      assert es[i].name in v.entries;
    }
  }

  /** A rename between two stored directories that goes through is the rename of the graph. */
  lemma {:induction false} MovedIsRenamed(ds: DirTree.Dirs, op: nat, np: nat, x: nat, on: Name, nn: Name, e: Entry,
                                          isDir: bool,
                                          src0: seq<Block>, src: seq<Block>, dst0: seq<Block>, dst: seq<Block>,
                                          moved0: seq<Block>, moved: seq<Block>, dd: Entry, maxIno: nat)
    requires !Dots(on) && !Dots(nn) && op != np && op in ds && np in ds && isDir == (e.ftype == FT_DIR) && x == e.ino
    requires isDir ==> x !in {op, np} && x in ds
    requires AllTiled(src0, maxIno) && Find(src0, DOTDOT, maxIno).Some? && AllTiled(dst0, maxIno)
    requires Find(dst0, DOTDOT, maxIno).Some?
    requires AllTiled(moved0, maxIno) && Find(moved0, DOTDOT, maxIno).Some? && Find(src0, on, maxIno) == Some(e)
    requires ds[op] == View(src0, maxIno) && ds[np] == View(dst0, maxIno) && (isDir ==> ds[x] == View(moved0, maxIno))
    requires Changed(src0, src, on, None, maxIno) && Changed(dst0, dst, nn, Some(e.(name := nn)), maxIno)
    requires isDir ==> Changed(moved0, moved, DOTDOT, Some(dd), maxIno) && dd.ino == np
    requires nn in ds[np].entries && ds[np].entries[nn].isDir ==> isDir && ds[np].entries[nn].ino !in {op, np, x}
    ensures AllTiled(src, maxIno) && Find(src, DOTDOT, maxIno).Some? && AllTiled(dst, maxIno)
    ensures Find(dst, DOTDOT, maxIno).Some?
    ensures on in ds[op].entries && ds[op].entries[on] == DirTree.Node(x, isDir)
    ensures isDir ==> AllTiled(moved, maxIno) && Find(moved, DOTDOT, maxIno).Some?
    ensures var ds' := DirTree.Renamed(ds, op, on, np, nn);
            && op in ds' && np in ds' && ds'[op] == View(src, maxIno) && ds'[np] == View(dst, maxIno)
            && (isDir ==> x in ds' && ds'[x] == View(moved, maxIno))
            && (forall d :: d in ds' && d !in {op, np} && (isDir ==> d != x) ==> d in ds && ds'[d] == ds[d])
  {
    hide *;
    ViewFacts(src0, maxIno);
    NodeIs(e, nn, isDir);
    NoDots();
    ViewChanged(src0, src, on, None, maxIno);
    ViewChanged(dst0, dst, nn, Some(e.(name := nn)), maxIno);
    if isDir {
      ViewMoved(moved0, moved, dd, maxIno);
    }
    RenamedAt(ds, op, on, np, nn, x, isDir);
  }

  lemma {:induction false} NodeIs(e: Entry, nn: Name, isDir: bool)
    requires isDir == (e.ftype == FT_DIR)
    ensures NodeOf(e) == NodeOf(e.(name := nn)) == DirTree.Node(e.ino, isDir)
  {
  }

  lemma {:induction false} NoDots()
    ensures Dots(DOT) && Dots(DOTDOT)
  {
  }

  /** What a rename over two directories does to each of them. */
  lemma {:induction false} RenamedAt(ds: DirTree.Dirs, op: nat, on: Name, np: nat, nn: Name, x: nat, isDir: bool)
    requires op != np && op in ds && np in ds && on in ds[op].entries && ds[op].entries[on] == DirTree.Node(x, isDir)
    requires isDir ==> x !in {op, np} && x in ds
    requires nn in ds[np].entries && ds[np].entries[nn].isDir ==> isDir && ds[np].entries[nn].ino !in {op, np, x}
    ensures var ds', node := DirTree.Renamed(ds, op, on, np, nn), ds[op].entries[on];
            && op in ds' && ds'[op] == ds[op].(entries := ds[op].entries - {on})
            && np in ds' && ds'[np] == ds[np].(entries := ds[np].entries[nn := node])
            && (isDir ==> x in ds' && ds'[x] == ds[x].(parent := np))
            && (forall d :: d in ds' && d !in {op, np} && (isDir ==> d != x) ==> d in ds && ds'[d] == ds[d])
  {
  }
}
