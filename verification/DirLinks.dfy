/** Link counts of directories (dir.c). */
module DirLinks {
  import opened DirTree

  type Links = map<nat, int>

  /** The subdirectories of a directory. */
  ghost function Subs(ds: Dirs, d: nat): set<nat> {
    set c | c in ds && c != ROOT && ds[c].parent == d
  }

  /** A directory has two links of its own and one for each subdirectory. */
  ghost predicate Counted(ds: Dirs, links: Links) {
    links.Keys == ds.Keys && forall d :: d in ds ==> links[d] == 2 + |Subs(ds, d)|
  }

  // ----- what the operations do to the counts

  function Add(links: Links, d: nat, n: int): Links
    requires d in links
  {
    links[d := links[d] + n]
  }

  /** The counts when a rename is done, with that of a replaced directory, which has left the graph. */
  function RenameLinks(ds: Dirs, links: Links, op: nat, on: Name, np: nat, nn: Name): Links
    requires links.Keys == ds.Keys && op in ds && np in ds && on in ds[op].entries
    requires nn in ds[np].entries && ds[np].entries[nn].isDir ==> ds[np].entries[nn].ino in ds
  {
    var replaced := nn in ds[np].entries && ds[np].entries[nn].isDir;
    var dropped := if replaced then Add(Add(links, np, -1), ds[np].entries[nn].ino, -1) else links;
    if ds[op].entries[on].isDir && op != np then Add(Add(dropped, op, -1), np, 1) else dropped
  }

  ghost function LinksStep(ds: Dirs, links: Links, e: Event, maxIno: nat): Links
    requires Valid(ds, maxIno) && Allowed(ds, e, maxIno) && links.Keys == ds.Keys
  {
    match e
    case Mkdir(p, name, ino, room) =>
      if MkdirOp(ds, p, name, ino, room).0 == Ok then Add(links[ino := 2], p, 1) else links
    case Rmdir(p, name) =>
      var v := ds[p].entries[name].ino;
      RmdirKeeps(ds, p, name, v, maxIno);
      if RmdirOp(ds, p, name).0 == Ok then Add(links, p, -1) - {v} else links
    case Rename(op, on, np, nn, room) =>
      if RenameOp(ds, op, on, np, nn, room, maxIno).0 != Ok || (op, on) == (np, nn) then links
      else
        Accepted(ds, op, on, np, nn, room, maxIno);
        var after := RenameLinks(ds, links, op, on, np, nn);
        if nn in ds[np].entries && ds[np].entries[nn].isDir then after - {ds[np].entries[nn].ino} else after
    case Link(_, _, _, _) => links
    case Unlink(_, _) => links
  }

  /** A rename that goes through, and its directories. */
  lemma {:induction false} Accepted(ds: Dirs, op: nat, on: Name, np: nat, nn: Name, room: bool, maxIno: nat)
    requires Valid(ds, maxIno) && op in ds && np in ds && (op, on) != (np, nn)
    requires RenameOp(ds, op, on, np, nn, room, maxIno).0 == Ok
    ensures Renames(ds, op, on, np, nn, maxIno) && on in ds[op].entries
    ensures var x := ds[op].entries[on]; x.isDir ==>
              x.ino in ds && x.ino != ROOT && x.ino !in {op, np} && ds[x.ino].parent == op
    ensures nn in ds[np].entries && ds[np].entries[nn].isDir ==>
              var v := ds[np].entries[nn].ino;
              && v in ds && v != ROOT && ds[v].parent == np && v !in {op, np, ds[op].entries[on].ino}
                 && ds[op].entries[on].isDir
              && (forall c :: c in ds && c != ROOT ==> ds[c].parent != v)
    ensures RenameOp(ds, op, on, np, nn, room, maxIno).1 == Renamed(ds, op, on, np, nn)
  {
    NotRefused(ds, op, on, np, nn, room, maxIno);
    VictimApart(ds, op, on, np, nn, maxIno);
    RefusedFacts(ds, op, on, np, nn, maxIno);
    hide RenameRefused, Renamed;
    var x := ds[op].entries[on];
    if x.isDir {
      assert Entry(ds, op, on, Node(x.ino, true));
      NotOwnParent(ds, x.ino);
    }
    if nn in ds[np].entries && ds[np].entries[nn].isDir {
      assert Entry(ds, np, nn, Node(ds[np].entries[nn].ino, true));
    }
  }

  // ----- what they keep

  lemma {:induction false} SubsSame(ds: Dirs, ds': Dirs, links: Links)
    requires SameParents(ds, ds') && Counted(ds, links)
    ensures Counted(ds', links)
  {
    forall d ensures Subs(ds', d) == Subs(ds, d) {
    }
  }

  lemma {:induction false} ParentsIn(ds: Dirs)
    requires Tree(ds)
    ensures forall d :: d in ds && d != ROOT ==> ds[d].parent in ds
  {
    forall d | d in ds && d != ROOT ensures ds[d].parent in ds {
      NotOwnParent(ds, d);
    }
  }

  lemma {:induction false} MkdirSubs(ds: Dirs, ds': Dirs, p: nat, ino: nat, d: nat)
    requires ds'.Keys == ds.Keys + {ino} && ino !in ds && ino != ROOT && ds'[ino].parent == p
    requires forall c :: c in ds ==> ds'[c].parent == ds[c].parent
    ensures |Subs(ds', d)| == |Subs(ds, d)| + if d == p then 1 else 0
  {
    assert Subs(ds', d) == Subs(ds, d) + (if d == p then {ino} else {}) && ino !in Subs(ds, d);
    Joined(Subs(ds, d), if d == p then {ino} else {});
  }

  lemma {:induction false} NoSubs(ds: Dirs, d: nat)
    requires forall c :: c in ds && c != ROOT ==> ds[c].parent != d
    ensures Subs(ds, d) == {}
  {
  }

  lemma {:induction false} MkdirFacts(ds: Dirs, p: nat, name: Name, ino: nat)
    requires p in ds && ino !in ds
    ensures var ds' := WithEntry(ds[ino := Dir(p, map[])], p, name, Node(ino, true));
            ds'.Keys == ds.Keys + {ino} && ds'[ino].parent == p && forall c :: c in ds ==> ds'[c].parent == ds[c].parent
  {
  }

  lemma {:induction false} CountedAt(ds: Dirs, links: Links)
    requires Counted(ds, links)
    ensures links.Keys == ds.Keys && forall d :: d in ds ==> links[d] == 2 + |Subs(ds, d)|
  {
  }

  lemma {:induction false} CountedFrom(ds: Dirs, links: Links)
    requires links.Keys == ds.Keys && forall d :: d in ds ==> links[d] == 2 + |Subs(ds, d)|
    ensures Counted(ds, links)
  {
  }

  lemma {:induction false} MkdirCounted(ds: Dirs, links: Links, p: nat, name: Name, ino: nat, maxIno: nat)
    requires Valid(ds, maxIno) && Counted(ds, links) && p in ds && ino !in ds && ino != ROOT
    ensures p in links
    ensures Counted(WithEntry(ds[ino := Dir(p, map[])], p, name, Node(ino, true)), Add(links[ino := 2], p, 1))
  {
    hide *;
    ValidParts(ds, maxIno);
    ParentsIn(ds);
    CountedAt(ds, links);
    MkdirFacts(ds, p, name, ino);
    NoSubs(ds, ino);
    AddIs(links[ino := 2], p, 1);
    OneMore(ds, WithEntry(ds[ino := Dir(p, map[])], p, name, Node(ino, true)), links, p, ino);
  }

  lemma {:induction false} OneMore(ds: Dirs, ds': Dirs, links: Links, p: nat, ino: nat)
    requires Counted(ds, links) && p in ds && p in links && Subs(ds, ino) == {}
    requires ds'.Keys == ds.Keys + {ino} && ino !in ds && ino != ROOT && ds'[ino].parent == p
    requires forall c :: c in ds ==> ds'[c].parent == ds[c].parent
    ensures Counted(ds', links[ino := 2][p := links[p] + 1])
  {
    hide *;
    CountedAt(ds, links);
    var after := links[ino := 2][p := links[p] + 1];
    forall d | d in ds' ensures after[d] == 2 + |Subs(ds', d)| {
      MkdirSubs(ds, ds', p, ino, d);
    }
    CountedFrom(ds', after);
  }

  lemma {:induction false} AddIs(links: Links, d: nat, n: int)
    requires d in links
    ensures Add(links, d, n) == links[d := links[d] + n]
  {
  }

  lemma {:induction false} RmdirCounted(ds: Dirs, links: Links, p: nat, name: Name, v: nat)
    requires Counted(ds, links) && p in ds && v in ds && v != p && v != ROOT && ds[v].parent == p
    ensures p in links && Counted(WithoutEntry(ds, p, name) - {v}, Add(links, p, -1) - {v})
  {
    var ds' := WithoutEntry(ds, p, name) - {v};
    forall d | d in ds' ensures Subs(ds', d) == Subs(ds, d) - (if d == p then {v} else {}) {
    }
    assert v in Subs(ds, p);
  }

  lemma {:induction false} RenameCounted(ds: Dirs, links: Links, op: nat, on: Name, np: nat, nn: Name, room: bool,
                                         maxIno: nat)
    requires Valid(ds, maxIno) && Counted(ds, links) && op in ds && np in ds && (op, on) != (np, nn)
    requires RenameOp(ds, op, on, np, nn, room, maxIno).0 == Ok
    ensures on in ds[op].entries && (nn in ds[np].entries && ds[np].entries[nn].isDir ==> ds[np].entries[nn].ino in ds)
    ensures var gone := if nn in ds[np].entries && ds[np].entries[nn].isDir then {ds[np].entries[nn].ino} else {};
            Counted(RenameOp(ds, op, on, np, nn, room, maxIno).1, RenameLinks(ds, links, op, on, np, nn) - gone)
  {
    Accepted(ds, op, on, np, nn, room, maxIno);
    RenameFactsAt(ds, op, on, np, nn, room, maxIno);
    hide *;
    var x := ds[op].entries[on];
    var gone := if nn in ds[np].entries && ds[np].entries[nn].isDir then {ds[np].entries[nn].ino} else {};
    var ds' := RenameOp(ds, op, on, np, nn, room, maxIno).1;
    var moved := if x.isDir && op != np then {x.ino} else {};
    forall d | d in ds' ensures Subs(ds', d) == Subs(ds, d) - gone - moved + (if d == np then moved else {}) {
      SubsAre(ds, ds', gone, moved, np, d);
    }
    CountsAdd(ds, ds', links, op, on, np, nn, gone, moved);
  }

  lemma {:induction false} RenameFactsAt(ds: Dirs, op: nat, on: Name, np: nat, nn: Name, room: bool, maxIno: nat)
    requires Valid(ds, maxIno) && op in ds && np in ds && (op, on) != (np, nn)
    requires RenameOp(ds, op, on, np, nn, room, maxIno).0 == Ok
    ensures on in ds[op].entries
    ensures var ds', x := RenameOp(ds, op, on, np, nn, room, maxIno).1, ds[op].entries[on];
            && ds'.Keys == ds.Keys - (if nn in ds[np].entries && ds[np].entries[nn].isDir then {ds[np].entries[nn].ino} else {})
            && (forall d :: d in ds' ==> ds'[d].parent == if x.isDir && op != np && d == x.ino then np else ds[d].parent)
  {
    Accepted(ds, op, on, np, nn, room, maxIno);
    hide RenameOp;
    VictimApart(ds, op, on, np, nn, maxIno);
    RenamedFacts(ds, op, on, np, nn, maxIno);
  }

  lemma {:induction false} SubsAre(ds: Dirs, ds': Dirs, gone: set<nat>, moved: set<nat>, np: nat, d: nat)
    requires ds'.Keys == ds.Keys - gone && moved <= ds'.Keys && ROOT !in moved
    requires forall c :: c in ds' ==> ds'[c].parent == if c in moved then np else ds[c].parent
    ensures Subs(ds', d) == Subs(ds, d) - gone - moved + (if d == np then moved else {})
  {
  }

  lemma {:induction false} CountsAdd(ds: Dirs, ds': Dirs, links: Links, op: nat, on: Name, np: nat, nn: Name,
                                     gone: set<nat>, moved: set<nat>)
    requires Counted(ds, links) && op in ds && np in ds && on in ds[op].entries && ds'.Keys == ds.Keys - gone
    requires var x := ds[op].entries[on];
             && moved == (if x.isDir && op != np then {x.ino} else {})
             && (x.isDir ==> x.ino in ds && x.ino != ROOT && ds[x.ino].parent == op)
             && gone == (if nn in ds[np].entries && ds[np].entries[nn].isDir then {ds[np].entries[nn].ino} else {})
             && (nn in ds[np].entries && ds[np].entries[nn].isDir ==>
                   var v := ds[np].entries[nn].ino; v in ds && v != ROOT && ds[v].parent == np && v !in {op, np, x.ino})
    requires gone !! moved
    requires forall d :: d in ds' ==> Subs(ds', d) == Subs(ds, d) - gone - moved + (if d == np then moved else {})
    ensures Counted(ds', RenameLinks(ds, links, op, on, np, nn) - gone)
  {
    hide *;
    CountedAt(ds, links);
    RenameLinksAt(ds, links, op, on, np, nn, gone, moved);
    var after := RenameLinks(ds, links, op, on, np, nn) - gone;
    forall d | d in ds' ensures after[d] == 2 + |Subs(ds', d)| {
      InSubs(ds, d, gone, np);
      InSubs(ds, d, moved, op);
      SetCount(Subs(ds, d), gone, moved, d == np, d == op);
    }
    CountedFrom(ds', after);
  }

  lemma {:induction false} SetCount(subs: set<nat>, gone: set<nat>, moved: set<nat>, here: bool, away: bool)
    requires (if here then gone <= subs else gone !! subs) && (if away then moved <= subs else moved !! subs)
    requires gone !! moved
    requires here && away ==> moved == {}
    ensures |subs - gone - moved + (if here then moved else {})|
            == |subs| - (if here then |gone| else 0) - (if away then |moved| else 0) + (if here then |moved| else 0)
  {
    Removed(subs, gone, here);
    Removed(subs - gone, moved, away);
    Joined(subs - gone - moved, if here then moved else {});
  }

  lemma {:induction false} Joined(a: set<nat>, b: set<nat>)
    requires a !! b
    ensures |a + b| == |a| + |b|
  {
  }

  /** Directories with one parent are subdirectories of it and of no other. */
  lemma {:induction false} InSubs(ds: Dirs, d: nat, cs: set<nat>, p: nat)
    requires forall c :: c in cs ==> c in ds && c != ROOT && ds[c].parent == p
    ensures if d == p then cs <= Subs(ds, d) else cs !! Subs(ds, d)
  {
  }

  /** What a rename makes of the counts. */
  lemma {:induction false} RenameLinksAt(ds: Dirs, links: Links, op: nat, on: Name, np: nat, nn: Name, gone: set<nat>,
                                         moved: set<nat>)
    requires links.Keys == ds.Keys && op in ds && np in ds && on in ds[op].entries
    requires var x := ds[op].entries[on];
             && moved == (if x.isDir && op != np then {x.ino} else {})
             && gone == (if nn in ds[np].entries && ds[np].entries[nn].isDir then {ds[np].entries[nn].ino} else {})
             && (nn in ds[np].entries && ds[np].entries[nn].isDir ==>
                   ds[np].entries[nn].ino in ds && ds[np].entries[nn].ino !in {op, np})
    ensures var after := RenameLinks(ds, links, op, on, np, nn) - gone;
            && after.Keys == ds.Keys - gone
            && forall d :: d in after ==>
                 after[d] == links[d] - (if d == np then |gone| else 0) - (if d == op then |moved| else 0)
                             + (if d == np then |moved| else 0)
    ensures |gone| <= 1 && |moved| <= 1 && (op == np ==> moved == {})
  {
    var x := ds[op].entries[on];
    assert |gone| == if nn in ds[np].entries && ds[np].entries[nn].isDir then 1 else 0;
    assert |moved| == if x.isDir && op != np then 1 else 0;
  }

  lemma {:induction false} Removed(a: set<nat>, b: set<nat>, within: bool)
    requires if within then b <= a else a !! b
    ensures |a - b| == |a| - if within then |b| else 0
  {
    if within {
      assert a == (a - b) + b;
    } else {
      assert a - b == a;
    }
  }

  /** Every step of the graph keeps the counts. */
  lemma {:induction false} StepCounted(ds: Dirs, links: Links, e: Event, maxIno: nat)
    requires Valid(ds, maxIno) && Allowed(ds, e, maxIno) && Counted(ds, links)
    ensures Counted(Step(ds, e, maxIno), LinksStep(ds, links, e, maxIno))
  {
    hide *;
    match e
    case Mkdir(p, name, ino, room) => MkdirStep(ds, links, p, name, ino, room, maxIno);
    case Rmdir(p, name) => RmdirStep(ds, links, p, name, maxIno);
    case Rename(op, on, np, nn, room) => RenameStep(ds, links, op, on, np, nn, room, maxIno);
    case Link(p, name, ino, room) => EntryStep(ds, links, e, maxIno);
    case Unlink(p, name) => EntryStep(ds, links, e, maxIno);
  }

  lemma {:induction false} MkdirStep(ds: Dirs, links: Links, p: nat, name: Name, ino: nat, room: bool, maxIno: nat)
    requires Valid(ds, maxIno) && Allowed(ds, Mkdir(p, name, ino, room), maxIno) && Counted(ds, links)
    ensures Counted(Step(ds, Mkdir(p, name, ino, room), maxIno), LinksStep(ds, links, Mkdir(p, name, ino, room), maxIno))
  {
    hide Valid, Counted, WithEntry, Add;
    if MkdirOp(ds, p, name, ino, room).0 == Ok {
      RootIn(ds, maxIno);
      MkdirCounted(ds, links, p, name, ino, maxIno);
    }
  }

  lemma {:induction false} RootIn(ds: Dirs, maxIno: nat)
    requires Valid(ds, maxIno)
    ensures ROOT in ds
  {
  }

  lemma {:induction false} RmdirStep(ds: Dirs, links: Links, p: nat, name: Name, maxIno: nat)
    requires Valid(ds, maxIno) && Allowed(ds, Rmdir(p, name), maxIno) && Counted(ds, links)
    ensures Counted(Step(ds, Rmdir(p, name), maxIno), LinksStep(ds, links, Rmdir(p, name), maxIno))
  {
    var v := ds[p].entries[name].ino;
    assert Entry(ds, p, name, Node(v, true));
    ValidParts(ds, maxIno);
    ChildOf(ds, p, name, v);
    RmdirKeeps(ds, p, name, v, maxIno);
    hide Valid, Counted, WithoutEntry, Add, Entry, Linked, Tree;
    if RmdirOp(ds, p, name).0 == Ok {
      RmdirCounted(ds, links, p, name, v);
    }
  }

  lemma {:induction false} RenameStep(ds: Dirs, links: Links, op: nat, on: Name, np: nat, nn: Name, room: bool,
                                      maxIno: nat)
    requires Valid(ds, maxIno) && Allowed(ds, Event.Rename(op, on, np, nn, room), maxIno) && Counted(ds, links)
    ensures var e := Event.Rename(op, on, np, nn, room); Counted(Step(ds, e, maxIno), LinksStep(ds, links, e, maxIno))
  {
    hide *;
    RenameStepIs(ds, op, on, np, nn, room, maxIno);
    CountedAt(ds, links);
    if RenameOp(ds, op, on, np, nn, room, maxIno).0 == Ok && (op, on) != (np, nn) {
      RenameCounted(ds, links, op, on, np, nn, room, maxIno);
      RenameLinksIs(ds, links, op, on, np, nn, room, maxIno);
    } else {
      SameLinks(ds, links, op, on, np, nn, room, maxIno);
    }
  }

  lemma {:induction false} RenameStepIs(ds: Dirs, op: nat, on: Name, np: nat, nn: Name, room: bool, maxIno: nat)
    requires Valid(ds, maxIno) && Allowed(ds, Event.Rename(op, on, np, nn, room), maxIno)
    ensures op in ds && np in ds
    ensures Step(ds, Event.Rename(op, on, np, nn, room), maxIno) == RenameOp(ds, op, on, np, nn, room, maxIno).1
  {
    hide RenameOp, Valid;
  }

  lemma {:induction false} RenameLinksIs(ds: Dirs, links: Links, op: nat, on: Name, np: nat, nn: Name, room: bool,
                                         maxIno: nat)
    requires Valid(ds, maxIno) && Allowed(ds, Event.Rename(op, on, np, nn, room), maxIno) && links.Keys == ds.Keys
    requires op in ds && np in ds
    requires RenameOp(ds, op, on, np, nn, room, maxIno).0 == Ok && (op, on) != (np, nn)
    requires on in ds[op].entries && (nn in ds[np].entries && ds[np].entries[nn].isDir ==> ds[np].entries[nn].ino in ds)
    ensures var gone := if nn in ds[np].entries && ds[np].entries[nn].isDir then {ds[np].entries[nn].ino} else {};
            LinksStep(ds, links, Event.Rename(op, on, np, nn, room), maxIno) == RenameLinks(ds, links, op, on, np, nn) - gone
  {
    hide RenameOp, Valid, RenameLinks;
    var after := RenameLinks(ds, links, op, on, np, nn);
    assert after - {} == after;
  }

  lemma {:induction false} SameLinks(ds: Dirs, links: Links, op: nat, on: Name, np: nat, nn: Name, room: bool,
                                     maxIno: nat)
    requires Valid(ds, maxIno) && Allowed(ds, Event.Rename(op, on, np, nn, room), maxIno) && links.Keys == ds.Keys
    requires op in ds && np in ds
    requires RenameOp(ds, op, on, np, nn, room, maxIno).0 != Ok || (op, on) == (np, nn)
    ensures LinksStep(ds, links, Event.Rename(op, on, np, nn, room), maxIno) == links
    ensures RenameOp(ds, op, on, np, nn, room, maxIno).1 == ds
  {
    assert RenameOp(ds, op, on, np, nn, room, maxIno).1 == ds by { hide Valid, Renamed, RenameRefused; }
    hide RenameOp, Valid, RenameLinks;
  }

  lemma {:induction false} EntryStep(ds: Dirs, links: Links, e: Event, maxIno: nat)
    requires Valid(ds, maxIno) && Allowed(ds, e, maxIno) && Counted(ds, links) && (e.Link? || e.Unlink?)
    ensures Counted(Step(ds, e, maxIno), LinksStep(ds, links, e, maxIno))
  {
    hide Valid, Counted, WithEntry, WithoutEntry, SameParents;
    if e.Link? {
      WithEntryFacts(ds, e.p, e.name, Node(e.ino, false));
      SubsSame(ds, WithEntry(ds, e.p, e.name, Node(e.ino, false)), links);
    } else {
      WithoutEntryFacts(ds, e.p, e.name);
      SubsSame(ds, WithoutEntry(ds, e.p, e.name), links);
    }
  }

  /** A removed directory ends with no link and is released. One that a rename replaces keeps a link, so its inode and its
      blocks stay taken although nothing leads to it any more. */
  lemma {:induction false} ReplacedStays(ds: Dirs, links: Links, op: nat, on: Name, np: nat, nn: Name, room: bool,
                                         maxIno: nat)
    requires Valid(ds, maxIno) && Counted(ds, links) && op in ds && np in ds && (op, on) != (np, nn)
    requires RenameOp(ds, op, on, np, nn, room, maxIno).0 == Ok && nn in ds[np].entries && ds[np].entries[nn].isDir
    ensures on in ds[op].entries && ds[np].entries[nn].ino in ds
    ensures RenameLinks(ds, links, op, on, np, nn)[ds[np].entries[nn].ino] == 1
    ensures ds[np].entries[nn].ino !in RenameOp(ds, op, on, np, nn, room, maxIno).1
  {
    Accepted(ds, op, on, np, nn, room, maxIno);
    RenameFactsAt(ds, op, on, np, nn, room, maxIno);
    hide RenameOp, Renamed, Valid;
    var v := ds[np].entries[nn].ino;
    assert Subs(ds, v) == {};
  }

  /** The root with two empty directories. */
  function TwoDirs(a: Name, b: Name): Dirs {
    map[ROOT := Dir(ROOT, map[a := Node(2, true), b := Node(3, true)]), 2 := Dir(ROOT, map[]), 3 := Dir(ROOT, map[])]
  }

  lemma {:induction false} TwoDirsValid(a: Name, b: Name)
    requires a != b && 0 < |a| <= NAME_LEN && 0 < |b| <= NAME_LEN
    ensures Valid(TwoDirs(a, b), 3) && Counted(TwoDirs(a, b), map[ROOT := 4, 2 := 2, 3 := 2])
  {
    hide *;
    RootOnly();
    TwoDirsAre(a, b);
    var zero, none := map[ROOT := Dir(ROOT, map[])], map[ROOT := 2];
    Another(zero, none, a, 2);
    var one, first := WithEntry(zero[2 := Dir(ROOT, map[])], ROOT, a, Node(2, true)), Add(none[2 := 2], ROOT, 1);
    Another(one, first, b, 3);
  }

  lemma {:induction false} RootOnly()
    ensures Valid(map[ROOT := Dir(ROOT, map[])], 3) && Counted(map[ROOT := Dir(ROOT, map[])], map[ROOT := 2])
  {
    var zero := map[ROOT := Dir(ROOT, map[])];
    assert Depth(zero, ROOT, 0);
    assert Subs(zero, ROOT) == {};
  }

  /** One more directory in the root. */
  lemma {:induction false} Another(ds: Dirs, links: Links, name: Name, ino: nat)
    requires Valid(ds, 3) && Counted(ds, links) && ROOT in ds && ROOT in links && name !in ds[ROOT].entries
    requires |name| <= NAME_LEN
    requires ino !in ds && 1 < ino <= 3
    ensures Valid(WithEntry(ds[ino := Dir(ROOT, map[])], ROOT, name, Node(ino, true)), 3)
    ensures Counted(WithEntry(ds[ino := Dir(ROOT, map[])], ROOT, name, Node(ino, true)), Add(links[ino := 2], ROOT, 1))
  {
    hide Valid, Counted, WithEntry, Add;
    MkdirKeeps(ds, ROOT, name, ino, true, 3);
    MkdirCounted(ds, links, ROOT, name, ino, 3);
  }

  lemma {:induction false} TwoDirsAre(a: Name, b: Name)
    requires a != b
    ensures ROOT == 1
    ensures var zero, none: Links := map[ROOT := Dir(ROOT, map[])], map[ROOT := 2];
            var one, first := WithEntry(zero[2 := Dir(ROOT, map[])], ROOT, a, Node(2, true)), Add(none[2 := 2], ROOT, 1);
            && ROOT in one && b !in one[ROOT].entries && 3 !in one && ROOT in first
            && WithEntry(one[3 := Dir(ROOT, map[])], ROOT, b, Node(3, true)) == TwoDirs(a, b)
            && Add(first[3 := 2], ROOT, 1) == map[ROOT := 4, 2 := 2, 3 := 2]
  {
    var x, y := Node(2, true), Node(3, true);
    assert map[a := x][b := y] == map[a := x, b := y];
  }

  /** One of them renamed to the name of the other: the other one keeps a link and has left the graph. */
  lemma {:induction false} ReplacedInput(a: Name, b: Name)
    requires a != b && 0 < |a| <= NAME_LEN && 0 < |b| <= NAME_LEN
    ensures var ds := TwoDirs(a, b);
            && Valid(ds, 3) && RenameOp(ds, ROOT, a, ROOT, b, true, 3).0 == Ok
               && 3 !in RenameOp(ds, ROOT, a, ROOT, b, true, 3).1
            && RenameLinks(ds, map[ROOT := 4, 2 := 2, 3 := 2], ROOT, a, ROOT, b)[3] == 1
  {
    var ds := TwoDirs(a, b);
    TwoDirsValid(a, b);
    hide Valid, Counted;
    assert Climb(ds, ROOT, 2, 4) == No;
    assert RenameRefused(ds, ROOT, a, ROOT, b, true, 3) == Ok;
    ReplacedStays(ds, map[ROOT := 4, 2 := 2, 3 := 2], ROOT, a, ROOT, b, true, 3);
  }

  /** The counts a run passes through. */
  ghost predicate LinksRun(states: seq<Dirs>, events: seq<Event>, counts: seq<Links>, maxIno: nat) {
    && |states| == |counts| == |events| + 1
    && forall i :: 0 <= i < |events| && Stepped(states[i], counts[i], events[i], maxIno) ==>
         counts[i + 1] == LinksStep(states[i], counts[i], events[i], maxIno)
  }

  ghost predicate Stepped(ds: Dirs, links: Links, e: Event, maxIno: nat) {
    Valid(ds, maxIno) && Allowed(ds, e, maxIno) && links.Keys == ds.Keys
  }

  lemma {:induction false} LinksRunAt(states: seq<Dirs>, events: seq<Event>, counts: seq<Links>, maxIno: nat, i: nat)
    requires LinksRun(states, events, counts, maxIno) && i < |events|
    requires Valid(states[i], maxIno) && Allowed(states[i], events[i], maxIno) && counts[i].Keys == states[i].Keys
    ensures counts[i + 1] == LinksStep(states[i], counts[i], events[i], maxIno)
  {
    hide Valid, Allowed, LinksStep;
    assert Stepped(states[i], counts[i], events[i], maxIno);
  }

  /** In every run from a tree with right counts on, the counts stay right. */
  lemma {:induction false} RunsCounted(states: seq<Dirs>, events: seq<Event>, counts: seq<Links>, maxIno: nat, i: nat)
    requires Run(states, events, maxIno) && LinksRun(states, events, counts, maxIno)
    requires i < |states| == |counts| && Counted(states[0], counts[0])
    ensures Counted(states[i], counts[i])
    decreases i
  {
    hide Run, LinksRun, Counted, Valid, Step, Allowed, LinksStep;
    if i > 0 {
      RunsCounted(states, events, counts, maxIno, i - 1);
      RunParts(states, events, maxIno, i);
      RunsKeepTree(states, events, maxIno, i - 1);
      CountedAt(states[i - 1], counts[i - 1]);
      LinksRunAt(states, events, counts, maxIno, i - 1);
      StepCounted(states[i - 1], counts[i - 1], events[i - 1], maxIno);
    }
  }
}
