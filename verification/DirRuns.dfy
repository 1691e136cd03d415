/** Runs of directory operations on stored directories. */
module DirRuns {
  import Allocator
  import opened Bytes
  import opened DirBlock
  import opened DirSpec
  import opened DirContent
  import opened DirSteps
  import opened DirRename
  import opened DirGraph
  import T = DirTree
  import Mkfs

  /** The directories that have a name, the free blocks, the number of blocks that files, attributes and everything else
      hold, and the inodes in use beside the root. */
  datatype Volume = Volume(dirs: map<nat, Stored>, free: nat, others: nat, inodes: set<nat>)

  datatype Conf = Conf(maxIno: nat, indexed: bool, hash: Name -> nat) {
    /** The blocks an index takes. */
    function Index(): nat { if indexed then 1 else 0 }
  }

  /** Free blocks of a new filesystem, at least. */
  const ROOM := 4080

  /** Blocks in use while nothing has a name: two of attributes of the root, and the contents of a symbolic link, in one
      block with one leaf, that is about to be entered. */
  const EARLY := 4

  datatype Op =
    | Enter(d: nat, name: Name, ino: nat, ftype: nat)
    | Remove(d: nat, name: Name)
    | MakeDir(d: nat, name: Name, ino: nat, inode: bool)
    | RemoveDir(d: nat, name: Name)
    | Rename(s: nat, on: Name, t: nat, nn: Name)
    | Take(k: nat)
    | Give(k: nat)
    | TakeInode(ino: nat)
    | GiveInode(ino: nat)

  datatype Event = Event(op: Op, err: Allocator.Errno)

  ghost predicate Stores(dirs: map<nat, Stored>, maxIno: nat) {
    forall d :: d in dirs ==> AllTiled(dirs[d].blocks, maxIno) && Find(dirs[d].blocks, DOTDOT, maxIno).Some?
  }

  /** The graph the directories stand for. */
  ghost function Graph(dirs: map<nat, Stored>, maxIno: nat): T.Dirs
    requires Stores(dirs, maxIno)
  {
    map d | d in dirs :: View(dirs[d].blocks, maxIno)
  }

  ghost function At(v: Volume, d: nat, name: Name, maxIno: nat): Option<Entry>
    requires Stores(v.dirs, maxIno)
  {
    if d in v.dirs then Find(v.dirs[d].blocks, name, maxIno) else None
  }

  /** What the VFS has looked up: a new name is not in use, an old one is of the kind the operation is for. */
  ghost predicate Allowed(c: Conf, v: Volume, op: Op)
    requires Stores(v.dirs, c.maxIno) && T.ROOT in v.dirs
  {
    match op
    case Enter(d, name, ino, ftype) =>
      d in v.dirs && NewName(name) && At(v, d, name, c.maxIno) == None && 0 < ino <= c.maxIno && ftype <= FT_MAX
        && ftype != FT_DIR
    case Remove(d, name) => d in v.dirs && !Dots(name) && At(v, d, name, c.maxIno).Some?
         && At(v, d, name, c.maxIno).value.ftype != FT_DIR
    case MakeDir(d, name, ino, inode) =>
      && d in v.dirs && NewName(name) && At(v, d, name, c.maxIno) == None
      && if inode then FreeInode(c, v, ino) else forall i :: T.ROOT < i <= c.maxIno ==> i in v.inodes
    case RemoveDir(d, name) =>
      d in v.dirs && !Dots(name) && At(v, d, name, c.maxIno).Some? && At(v, d, name, c.maxIno).value.ftype == FT_DIR
    case Rename(s, on, t, nn) => s in v.dirs && t in v.dirs && !Dots(on) && !Dots(nn)
    case Take(k) => k <= v.free && (!v.dirs[T.ROOT].ready ==> v.others + k <= EARLY)
    case Give(k) => k <= v.others
    case TakeInode(ino) => FreeInode(c, v, ino)
    case GiveInode(ino) => ino in v.inodes && ino !in v.dirs
  }

  predicate FreeInode(c: Conf, v: Volume, ino: nat) { T.ROOT < ino <= c.maxIno && ino !in v.inodes }

  predicate NewName(name: Name) { 0 < |name| <= NAME_LEN && !Dots(name) }

  // ----- one operation

  /** All directories but those in `touched` stay, and those in `gone` have left. */
  ghost predicate Elsewhere(v: Volume, w: Volume, touched: set<nat>, gone: set<nat>) {
    && w.dirs.Keys == v.dirs.Keys - gone
    && forall d :: d in w.dirs && d !in touched ==> w.dirs[d] == v.dirs[d]
  }

  /** A rename that something else than a lack of room stops. */
  ghost predicate Refused(v: Volume, s: nat, on: Name, t: nat, nn: Name, maxIno: nat)
    requires Stores(v.dirs, maxIno) && s in v.dirs && t in v.dirs
  {
    !T.Accepts(Graph(v.dirs, maxIno), s, on, t, nn)
  }

  ghost predicate MakeStep(c: Conf, v: Volume, d: nat, name: Name, ino: nat, inode: bool, err: Allocator.Errno,
                           w: Volume) {
    && d in v.dirs && d in w.dirs
    && (if err == Allocator.Ok && inode then
          && ino in w.dirs && IsNew(w.dirs[ino], ino, d, c.hash, c.maxIno)
          && w.dirs == v.dirs[d := w.dirs[d]][ino := w.dirs[ino]] && w.others == v.others
        else
          && w.dirs == v.dirs[d := w.dirs[d]]
          && w.others == v.others + if err != Allocator.Ok && inode && v.free > c.Index() then c.Index() else 0)
    && w.inodes == v.inodes + (if inode && v.free > 0 then {ino} else {})
    && Made(v.dirs[d], v.free, Entry(name, ino, FT_DIR), c.Index(), inode, err, w.dirs[d], w.free, c.maxIno)
  }

  /** The name goes, and then the blocks and the inode of the directory. */
  ghost predicate RemoveStep(c: Conf, v: Volume, d: nat, name: Name, x: nat, err: Allocator.Errno, w: Volume)
    requires d in v.dirs && x in v.dirs
  {
    && Elsewhere(v, w, {d}, if err == Allocator.Ok then {x} else {}) && d in w.dirs && w.others == v.others
    && w.inodes == v.inodes - (if err == Allocator.Ok then {x} else {})
    && Erased(v.dirs[d], v.free, name, err, w.dirs[d],
              w.free - (if err == Allocator.Ok then |v.dirs[x].blocks| + c.Index() else 0), c.maxIno)
  }

  ghost predicate EnterStep(c: Conf, v: Volume, d: nat, e: Entry, err: Allocator.Errno, w: Volume) {
    && d in v.dirs && Elsewhere(v, w, {d}, {}) && w.others == v.others && w.inodes == v.inodes
    && Entered(v.dirs[d], v.free, e, err, w.dirs[d], w.free, c.maxIno)
  }

  ghost predicate EraseStep(c: Conf, v: Volume, d: nat, name: Name, err: Allocator.Errno, w: Volume) {
    && d in v.dirs && Elsewhere(v, w, {d}, {}) && w.others == v.others && w.inodes == v.inodes
    && Erased(v.dirs[d], v.free, name, err, w.dirs[d], w.free, c.maxIno)
  }

  /** The directory that has a name is removed if it is empty. */
  ghost predicate RemoveDirStep(c: Conf, v: Volume, d: nat, name: Name, err: Allocator.Errno, w: Volume)
    requires Stores(v.dirs, c.maxIno)
  {
    && d in v.dirs && At(v, d, name, c.maxIno).Some?
    && var x := At(v, d, name, c.maxIno).value.ino;
       if x in v.dirs && OnlyDots(All(v.dirs[x].blocks, c.maxIno)) then RemoveStep(c, v, d, name, x, err, w)
       else err != Allocator.Ok && w == v
  }

  ghost predicate RenameAll(c: Conf, v: Volume, s: nat, on: Name, t: nat, nn: Name, err: Allocator.Errno, w: Volume)
    requires Stores(v.dirs, c.maxIno)
  {
    && s in v.dirs && t in v.dirs
    && if At(v, s, on, c.maxIno) == None then err != Allocator.Ok && w == v
       else if (s, on) == (t, nn) then err == Allocator.Ok && w == v
       else if Refused(v, s, on, t, nn, c.maxIno) then err != Allocator.Ok && w == v
       else RenameStep(c, v, s, on, t, nn, err, w)
  }

  ghost predicate Next(c: Conf, v: Volume, e: Event, w: Volume)
    requires Stores(v.dirs, c.maxIno)
  {
    match e.op
    case Enter(d, name, ino, ftype) => EnterStep(c, v, d, Entry(name, ino, ftype), e.err, w)
    case Remove(d, name) => EraseStep(c, v, d, name, e.err, w)
    case MakeDir(d, name, ino, inode) => MakeStep(c, v, d, name, ino, inode, e.err, w)
    case RemoveDir(d, name) => RemoveDirStep(c, v, d, name, e.err, w)
    case Rename(s, on, t, nn) => RenameAll(c, v, s, on, t, nn, e.err, w)
    case Take(k) => k <= v.free && e.err == Allocator.Ok && w == v.(free := v.free - k, others := v.others + k)
    case Give(k) => k <= v.others && e.err == Allocator.Ok && w == v.(free := v.free + k, others := v.others - k)
    case TakeInode(ino) => e.err == Allocator.Ok && w == v.(inodes := v.inodes + {ino})
    case GiveInode(ino) => e.err == Allocator.Ok && w == v.(inodes := v.inodes - {ino})
  }

  /** A rename that passed all checks. */
  ghost predicate RenameStep(c: Conf, v: Volume, s: nat, on: Name, t: nat, nn: Name, err: Allocator.Errno, w: Volume)
    requires Stores(v.dirs, c.maxIno) && s in v.dirs && t in v.dirs && At(v, s, on, c.maxIno).Some?
  {
    var e, victim := At(v, s, on, c.maxIno).value, At(v, t, nn, c.maxIno);
    var isDir := e.ftype == FT_DIR && s != t;
    var gone := if err == Allocator.Ok && victim.Some? && victim.value.ftype == FT_DIR then {victim.value.ino} else {};
    && (isDir ==>
          && e.ino in v.dirs && e.ino in w.dirs && w.dirs[e.ino].ready == v.dirs[e.ino].ready
          && Kept(v.dirs[e.ino], w.dirs[e.ino], c.maxIno))
    && Elsewhere(v, w, {s, t} + (if isDir then {e.ino} else {}), gone) && s in w.dirs && t in w.dirs && w.inodes == v.inodes
    && w.others == v.others + (if victim.Some? && victim.value.ino in gone && victim.value.ino in v.dirs then
                                 |v.dirs[victim.value.ino].blocks| + c.Index()
                               else 0)
    && if s == t then
         MovedInside(v.dirs[s], v.free, on, e.(name := nn), victim.Some?, err, w.dirs[s], w.free, c.maxIno)
       else
         MovedOver(v.dirs[s], v.dirs[t], if isDir then Some(v.dirs[e.ino].blocks) else None, v.free, on, e.(name := nn),
                   victim.Some?, t, err, w.dirs[s], w.dirs[t], if isDir then Some(w.dirs[e.ino].blocks)
                     else None, w.free, c.maxIno)
  }

  // ----- the invariant

  /** The stored directories are a tree with entries and `..` links that agree, and every directory has its index, except
      that the root of a new filesystem has none before its first name. Their inodes are in use, and no index hides a
      name. */
  ghost predicate Inv(c: Conf, v: Volume) {
    && c.maxIno < INO_LIMIT && T.ROOT in v.dirs && Stores(v.dirs, c.maxIno) && T.Valid(Graph(v.dirs, c.maxIno), c.maxIno)
    && Indexed(v) && Numbered(c, v) && Searchable(c, v)
  }

  predicate Numbered(c: Conf, v: Volume) {
    && (forall i :: i in v.inodes ==> T.ROOT < i <= c.maxIno)
    && (forall d :: d in v.dirs && d != T.ROOT ==> d in v.inodes)
  }

  /** Every name but the two dots is found through the index. */
  ghost predicate AllFound(a: Stored, maxIno: nat) { forall n: Name :: n != [] && !Dots(n) ==> Finds(a, n, maxIno) }

  /** Every name but the two dots is found in every directory, and the index is exact in all but the root. */
  ghost predicate Searchable(c: Conf, v: Volume) {
    && (forall d :: d in v.dirs ==> v.dirs[d].hash == c.hash && AllFound(v.dirs[d], c.maxIno))
    && (forall d :: d in v.dirs && d != T.ROOT ==> InOrder(v.dirs[d], c.maxIno))
  }

  /** No index gets worse, and that of a new directory is exact. */
  ghost predicate Orderly(c: Conf, v: Volume, w: Volume) {
    forall d :: d in w.dirs ==>
      if d in v.dirs then Kept(v.dirs[d], w.dirs[d], c.maxIno)
      else d != T.ROOT && w.dirs[d].hash == c.hash && InOrder(w.dirs[d], c.maxIno)
  }

  predicate Indexed(v: Volume)
    requires T.ROOT in v.dirs
  {
    && (forall d :: d in v.dirs && d != T.ROOT ==> v.dirs[d].ready)
    && (!v.dirs[T.ROOT].ready ==>
          v.dirs.Keys == {T.ROOT} && |v.dirs[T.ROOT].blocks| == 1 && v.others <= EARLY && v.free + v.others >= ROOM)
  }

  /** Every directory stands for the same map. */
  ghost predicate SameDirs(v: Volume, w: Volume, maxIno: nat) {
    w.dirs.Keys == v.dirs.Keys && forall d :: d in v.dirs ==> SameMap(v.dirs[d].blocks, w.dirs[d].blocks, maxIno)
  }

  /** The event of the graph that an operation is. */
  function Done(e: Event): bool { e.err == Allocator.Ok }

  function EventOf(e: Event): Option<T.Event> {
    match e.op
    case Enter(d, name, ino, _) => Some(T.Link(d, name, ino, Done(e)))
    case Remove(d, name) => Some(T.Unlink(d, name))
    case MakeDir(d, name, ino, inode) => if inode then Some(T.Mkdir(d, name, ino, Done(e))) else None
    case RemoveDir(d, name) => Some(T.Rmdir(d, name))
    case Rename(s, on, t, nn) => Some(T.Event.Rename(s, on, t, nn, Done(e)))
    case Take(_) => None
    case Give(_) => None
    case TakeInode(_) => None
    case GiveInode(_) => None
  }

  /** An operation on the stored directories is the same operation on the graph. */
  ghost predicate Refined(c: Conf, v: Volume, e: Event, w: Volume)
    requires Inv(c, v)
  {
    var ds := Graph(v.dirs, c.maxIno);
    && Stores(w.dirs, c.maxIno)
    && match EventOf(e)
       case Some(g) => T.Allowed(ds, g, c.maxIno) && Graph(w.dirs, c.maxIno) == T.Step(ds, g, c.maxIno)
       case None => Graph(w.dirs, c.maxIno) == ds
  }

  // ----- the graph of a volume

  lemma {:induction false} GraphIs(dirs: map<nat, Stored>, ds: T.Dirs, maxIno: nat)
    requires Stores(dirs, maxIno) && ds.Keys == dirs.Keys && forall d :: d in dirs ==> ds[d] == View(dirs[d].blocks, maxIno)
    ensures Graph(dirs, maxIno) == ds
  {
    hide View, AllTiled, Find;
  }

  lemma {:induction false} GraphAt(dirs: map<nat, Stored>, maxIno: nat)
    requires Stores(dirs, maxIno)
    ensures Graph(dirs, maxIno).Keys == dirs.Keys
    ensures forall d :: d in dirs ==>
              && AllTiled(dirs[d].blocks, maxIno) && Find(dirs[d].blocks, DOTDOT, maxIno).Some?
              && Graph(dirs, maxIno)[d] == View(dirs[d].blocks, maxIno)
  {
    hide View, AllTiled, Find;
  }

  /** The entries of the graph are the names that are found. */
  lemma {:induction false} EntryIs(dirs: map<nat, Stored>, d: nat, name: Name, maxIno: nat)
    requires Stores(dirs, maxIno) && d in dirs && !Dots(name)
    ensures AllTiled(dirs[d].blocks, maxIno) && d in Graph(dirs, maxIno)
    ensures var es, found := Graph(dirs, maxIno)[d].entries, Find(dirs[d].blocks, name, maxIno);
            (name in es <==> found.Some?) && (name in es ==> es[name] == T.Node(found.value.ino, found.value.ftype == FT_DIR))
  {
    GraphAt(dirs, maxIno);
    ViewFacts(dirs[d].blocks, maxIno);
    hide Graph, View, AllTiled, Find, Stores;
  }

  lemma {:induction false} SameGraph(v: Volume, w: Volume, maxIno: nat)
    requires Stores(v.dirs, maxIno) && SameDirs(v, w, maxIno)
    ensures Stores(w.dirs, maxIno) && Graph(w.dirs, maxIno) == Graph(v.dirs, maxIno)
  {
    hide *;
    GraphAt(v.dirs, maxIno);
    SameDirsAt(v, w, maxIno);
    forall d | d in w.dirs
      ensures AllTiled(w.dirs[d].blocks, maxIno) && Find(w.dirs[d].blocks, DOTDOT, maxIno).Some?
      ensures Graph(v.dirs, maxIno)[d] == View(w.dirs[d].blocks, maxIno)
    {
      ViewSame(v.dirs[d].blocks, w.dirs[d].blocks, maxIno);
    }
    StoresAll(w.dirs, maxIno);
    GraphIs(w.dirs, Graph(v.dirs, maxIno), maxIno);
  }

  lemma {:induction false} SameDirsAt(v: Volume, w: Volume, maxIno: nat)
    requires SameDirs(v, w, maxIno)
    ensures w.dirs.Keys == v.dirs.Keys && forall d :: d in v.dirs ==> SameMap(v.dirs[d].blocks, w.dirs[d].blocks, maxIno)
  {
  }

  lemma {:induction false} StoresAll(dirs: map<nat, Stored>, maxIno: nat)
    requires forall d :: d in dirs ==> AllTiled(dirs[d].blocks, maxIno) && Find(dirs[d].blocks, DOTDOT, maxIno).Some?
    ensures Stores(dirs, maxIno)
  {
  }

  lemma {:induction false} SameVolume(v: Volume, w: Volume, maxIno: nat)
    requires Stores(v.dirs, maxIno) && w.dirs == v.dirs
    ensures SameDirs(v, w, maxIno)
  {
    forall d | d in v.dirs ensures SameMap(v.dirs[d].blocks, w.dirs[d].blocks, maxIno) {
      Unchanged(v.dirs[d].blocks, maxIno);
    }
    hide AllTiled, Find, SameMap;
  }

  /** One name set or removed in one directory. */
  lemma {:induction false} OneChanged(v: Volume, w: Volume, d: nat, name: Name, e: Option<Entry>, maxIno: nat)
    requires Stores(v.dirs, maxIno) && d in v.dirs && Elsewhere(v, w, {d}, {}) && !Dots(name)
    requires w.dirs.Keys == v.dirs.Keys && Changed(v.dirs[d].blocks, w.dirs[d].blocks, name, e, maxIno)
    ensures Stores(w.dirs, maxIno) && d in Graph(v.dirs, maxIno)
    ensures var ds := Graph(v.dirs, maxIno);
            Graph(w.dirs, maxIno) == if e.Some? then T.WithEntry(ds, d, name, NodeOf(e.value)) else T.WithoutEntry(ds, d, name)
  {
    hide *;
    GraphAt(v.dirs, maxIno);
    ElsewhereAt(v, w, {d}, {});
    ViewChanged(v.dirs[d].blocks, w.dirs[d].blocks, name, e, maxIno);
    StoresAll(w.dirs, maxIno);
    var ds := Graph(v.dirs, maxIno);
    EntryAtOne(ds, d, name, e);
    var ds' := if e.Some? then T.WithEntry(ds, d, name, NodeOf(e.value)) else T.WithoutEntry(ds, d, name);
    GraphIs(w.dirs, ds', maxIno);
  }

  lemma {:induction false} EntryAtOne(ds: T.Dirs, d: nat, name: Name, e: Option<Entry>)
    requires d in ds
    ensures var ds' := if e.Some? then T.WithEntry(ds, d, name, NodeOf(e.value)) else T.WithoutEntry(ds, d, name);
            && ds'.Keys == ds.Keys && (forall i :: i in ds && i != d ==> ds'[i] == ds[i])
            && ds'[d]
               == if e.Some? then ds[d].(entries := ds[d].entries[name := NodeOf(e.value)])
                  else ds[d].(entries := ds[d].entries - {name})
  {
    hide NodeOf;
  }

  lemma {:induction false} ElsewhereAt(v: Volume, w: Volume, touched: set<nat>, gone: set<nat>)
    requires Elsewhere(v, w, touched, gone)
    ensures w.dirs.Keys == v.dirs.Keys - gone && forall d :: d in w.dirs && d !in touched ==> w.dirs[d] == v.dirs[d]
  {
  }

  // ----- no late failures

  lemma {:induction false} EnteredSafe(a: Stored, free: nat, e: Entry, err: Allocator.Errno, b: Stored, left: int,
                                       maxIno: nat)
    requires Entered(a, free, e, err, b, left, maxIno) && (a.ready || free > 1)
    ensures AllTiled(a.blocks, maxIno)
    ensures if err == Allocator.Ok then Changed(a.blocks, b.blocks, e.name, Some(e), maxIno) && b.ready && |e.name| <= NAME_LEN
            else b == a && left == free
    ensures Kept(a, b, maxIno)
    ensures |e.name| <= NAME_LEN && Find(a.blocks, e.name, maxIno) == None ==>
              (err == Allocator.Ok <==> RoomFor(a, free, e.name, maxIno))
  {
    if err == Allocator.Ok {
      AddedChanged(a.blocks, b.blocks, e, maxIno);
    }
    KeptAlone(a, maxIno);
    hide Find, AllTiled, Added, Changed, AnySlot, RecLenFor, Kept, Finds, FirstIndex;
  }

  lemma {:induction false} ErasedSafe(a: Stored, free: nat, name: Name, err: Allocator.Errno, b: Stored, left: int,
                                      maxIno: nat)
    requires Erased(a, free, name, err, b, left, maxIno) && (a.ready || free > 0) && Find(a.blocks, name, maxIno).Some?
    ensures err == Allocator.Ok && b.ready && AllTiled(a.blocks, maxIno)
    ensures Changed(a.blocks, b.blocks, name, None, maxIno)
    ensures Kept(a, b, maxIno) && (a.ready ==> left == free)
  {
    var e := Find(a.blocks, name, maxIno).value;
    AddedChanged(b.blocks, a.blocks, e, maxIno);
    hide Find, AllTiled, Added, Changed, AnySlot, RecLenFor, Kept, InOrder;
  }

  lemma {:induction false} InsideSafe(a: Stored, free: nat, on: Name, e: Entry, replaced: bool, err: Allocator.Errno,
                                      b: Stored,
                                      left: int, maxIno: nat)
    requires MovedInside(a, free, on, e, replaced, err, b, left, maxIno)
    requires (a.ready || (free > 1 && |a.blocks| < DIRECT_BLOCKS))
    ensures AllTiled(a.blocks, maxIno) && (err == Allocator.Ok <==> Room(a, free, e.name, replaced, maxIno))
    ensures (a.ready || err == Allocator.Ok)
    ensures if err == Allocator.Ok then Renamed(a.blocks, b.blocks, on, e, maxIno) && b.ready
            else SameMap(a.blocks, b.blocks, maxIno) && left == free && b.ready
    ensures Kept(a, b, maxIno)
  {
    hide Find, AllTiled, Changed, SameMap, Renamed, AnySlot, RecLenFor, Kept, Finds;
  }

  lemma {:induction false} OverSafe(s: Stored, t: Stored, m: Option<seq<Block>>, free: nat, on: Name, e: Entry,
                                    replaced: bool, dstIno: nat,
                                    err: Allocator.Errno, s': Stored, t': Stored, m': Option<seq<Block>>, left: int,
                                      maxIno: nat)
    requires MovedOver(s, t, m, free, on, e, replaced, dstIno, err, s', t', m', left, maxIno) && s.ready && t.ready
    ensures AllTiled(t.blocks, maxIno) && (err == Allocator.Ok <==> Room(t, free, e.name, replaced, maxIno))
    ensures s'.ready && t'.ready && (m.Some? <==> m'.Some?) && Kept(s, s', maxIno) && Kept(t, t', maxIno)
    ensures if err == Allocator.Ok then
              && Changed(s.blocks, s'.blocks, on, None, maxIno) && Changed(t.blocks, t'.blocks, e.name, Some(e), maxIno)
              && (m.Some? ==>
                    && AllTiled(m.value, maxIno) && Find(m.value, DOTDOT, maxIno).Some?
                    && Changed(m.value, m'.value, DOTDOT, Some(Find(m.value, DOTDOT, maxIno).value.(ino := dstIno)), maxIno))
            else
              && SameMap(s.blocks, s'.blocks, maxIno) && SameMap(t.blocks, t'.blocks, maxIno) && left == free
              && (m.Some? ==> SameMap(m.value, m'.value, maxIno))
  {
    hide Find, AllTiled, Changed, SameMap, AnySlot, RecLenFor, Kept, Finds;
  }

  // ----- the operations one by one

  /** What every operation is to keep. */
  ghost predicate Good(c: Conf, v: Volume, e: Event, w: Volume)
    requires Inv(c, v)
  {
    && Refined(c, v, e, w) && T.ROOT in w.dirs && Indexed(w) && Numbered(c, w) && Orderly(c, v, w)
    && (e.err != Allocator.Ok ==> SameDirs(v, w, c.maxIno))
  }

  lemma {:induction false} NothingWorse(c: Conf, v: Volume, w: Volume)
    requires w.dirs == v.dirs
    ensures Orderly(c, v, w)
  {
    forall d | d in w.dirs ensures Kept(v.dirs[d], w.dirs[d], c.maxIno) {
      KeptAlone(v.dirs[d], c.maxIno);
    }
    hide Kept, InOrder;
  }

  /** Indexes of the directories that changed. */
  lemma {:induction false} OrderlyTouched(c: Conf, v: Volume, w: Volume, touched: set<nat>, gone: set<nat>)
    requires Elsewhere(v, w, touched, gone)
    requires forall d :: d in touched && d in v.dirs && d in w.dirs ==> Kept(v.dirs[d], w.dirs[d], c.maxIno)
    ensures Orderly(c, v, w)
  {
    forall d | d in w.dirs ensures d in v.dirs && Kept(v.dirs[d], w.dirs[d], c.maxIno) {
      KeptAlone(v.dirs[d], c.maxIno);
    }
    hide Kept, InOrder;
  }

  lemma {:induction false} NumberedStill(c: Conf, v: Volume, w: Volume, gone: set<nat>)
    requires Numbered(c, v) && w.inodes == v.inodes && w.dirs.Keys == v.dirs.Keys - gone
    ensures Numbered(c, w)
  {
  }

  lemma {:induction false} NumberedLess(c: Conf, v: Volume, w: Volume, x: nat)
    requires Numbered(c, v) && w.inodes == v.inodes - {x} && w.dirs.Keys == v.dirs.Keys - {x}
    ensures Numbered(c, w)
  {
  }

  /** What no operation makes worse stays as the invariant asks. */
  lemma {:induction false} SearchableStill(c: Conf, v: Volume, w: Volume)
    requires Searchable(c, v) && Orderly(c, v, w) && T.ROOT in v.dirs
    ensures Searchable(c, w)
  {
    forall d | d in w.dirs
      ensures w.dirs[d].hash == c.hash && AllFound(w.dirs[d], c.maxIno)
      ensures (d != T.ROOT ==> InOrder(w.dirs[d], c.maxIno))
    {
      if d in v.dirs {
        FoundStill(v.dirs[d], w.dirs[d], c.maxIno);
      } else {
        ExactFound(w.dirs[d], c.maxIno);
      }
    }
    hide AllFound, InOrder, Kept;
  }

  lemma {:induction false} FoundStill(a: Stored, b: Stored, maxIno: nat)
    requires Kept(a, b, maxIno)
    ensures b.hash == a.hash && (AllFound(a, maxIno) ==> AllFound(b, maxIno))
    ensures (InOrder(a, maxIno) ==> InOrder(b, maxIno))
  {
    hide Sees, Exact, Dots;
  }

  lemma {:induction false} ExactFound(a: Stored, maxIno: nat)
    requires InOrder(a, maxIno)
    ensures AllFound(a, maxIno)
  {
    forall n: Name | n != [] ensures Finds(a, n, maxIno) {
      ExactSees(a.index, a.hash, a.blocks, n, maxIno);
    }
    hide Sees, Exact, Dots;
  }

  lemma {:induction false} InvParts(c: Conf, v: Volume)
    requires Inv(c, v)
    ensures T.ROOT in v.dirs && Stores(v.dirs, c.maxIno) && T.Valid(Graph(v.dirs, c.maxIno), c.maxIno) && Indexed(v)
    ensures Numbered(c, v) && Searchable(c, v)
    ensures c.maxIno < INO_LIMIT && forall d :: d in v.dirs ==> AllTiled(v.dirs[d].blocks, c.maxIno) && 0 < d <= c.maxIno
    ensures forall d :: d in v.dirs ==>
              v.dirs[d].ready || (v.free > 3 && |v.dirs[d].blocks| < DIRECT_BLOCKS && v.dirs.Keys == {d} == {T.ROOT})
  {
    GraphAt(v.dirs, c.maxIno);
    assert forall d :: d in Graph(v.dirs, c.maxIno) ==> 1 <= d <= c.maxIno;
    hide T.Valid, Graph, AllTiled, Find, Searchable, Numbered;
  }

  /** One directory changes and has its index then, or nothing changes. */
  lemma {:induction false} IndexedNow(v: Volume, w: Volume, d: nat)
    requires T.ROOT in v.dirs && Indexed(v) && d in v.dirs && Elsewhere(v, w, {d}, {}) && w.dirs.Keys == v.dirs.Keys
    requires w.dirs[d].ready
    ensures T.ROOT in w.dirs && Indexed(w)
  {
  }

  /** The event leaves the graph as it is. */
  ghost predicate Unmoved(c: Conf, v: Volume, e: Event)
    requires Stores(v.dirs, c.maxIno) && T.Valid(Graph(v.dirs, c.maxIno), c.maxIno)
  {
    var ds := Graph(v.dirs, c.maxIno);
    match EventOf(e)
    case Some(g) => T.Allowed(ds, g, c.maxIno) && T.Step(ds, g, c.maxIno) == ds
    case None => true
  }

  /** An operation that changed nothing. */
  lemma {:induction false} NothingDone(c: Conf, v: Volume, e: Event, w: Volume)
    requires Inv(c, v) && w.dirs == v.dirs && w.free == v.free && w.others == v.others && Numbered(c, w)
    requires Unmoved(c, v, e)
    ensures Good(c, v, e, w)
  {
    SameVolume(v, w, c.maxIno);
    SameGraph(v, w, c.maxIno);
    NothingWorse(c, v, w);
    hide Graph, Stores, SameDirs, T.Valid, T.Step, T.Allowed, EventOf, Searchable, Numbered, Orderly;
  }

  /** An operation that went through. */
  lemma {:induction false} WentThrough(c: Conf, v: Volume, e: Event, g: T.Event, w: Volume)
    requires Inv(c, v) && e.err == Allocator.Ok && EventOf(e) == Some(g)
    requires T.ROOT in w.dirs && Indexed(w) && Stores(w.dirs, c.maxIno) && Numbered(c, w) && Orderly(c, v, w)
    requires T.Allowed(Graph(v.dirs, c.maxIno), g, c.maxIno)
    requires Graph(w.dirs, c.maxIno) == T.Step(Graph(v.dirs, c.maxIno), g, c.maxIno)
    ensures Good(c, v, e, w)
  {
    hide Graph, Stores, SameDirs, T.Valid, T.Step, T.Allowed, EventOf, Indexed, Searchable, Numbered, Orderly;
  }

  lemma {:induction false} StepLink(ds: T.Dirs, p: nat, name: Name, ino: nat, room: bool, maxIno: nat)
    requires T.Valid(ds, maxIno) && p in ds && name !in ds[p].entries && |name| <= NAME_LEN
    ensures T.Allowed(ds, T.Link(p, name, ino, room), maxIno)
    ensures T.Step(ds, T.Link(p, name, ino, room), maxIno) == if room then T.WithEntry(ds, p, name, T.Node(ino, false)) else ds
  {
    hide T.Valid, T.WithEntry;
  }

  lemma {:induction false} EnterGood(c: Conf, v: Volume, d: nat, name: Name, ino: nat, ftype: nat, err: Allocator.Errno,
                                     w: Volume)
    requires Inv(c, v) && d in v.dirs && NewName(name) && Find(v.dirs[d].blocks, name, c.maxIno) == None
    requires ftype != FT_DIR
    requires Elsewhere(v, w, {d}, {}) && w.others == v.others && w.dirs.Keys == v.dirs.Keys && w.inodes == v.inodes
    requires Entered(v.dirs[d], v.free, Entry(name, ino, ftype), err, w.dirs[d], w.free, c.maxIno)
    ensures Good(c, v, Event(Enter(d, name, ino, ftype), err), w)
    ensures AllTiled(v.dirs[d].blocks, c.maxIno)
    ensures (err == Allocator.Ok <==> RoomFor(v.dirs[d], v.free, name, c.maxIno))
  {
    hide *;
    InvParts(c, v);
    var e, ds, entry := Event(Enter(d, name, ino, ftype), err), Graph(v.dirs, c.maxIno), Entry(name, ino, ftype);
    var g := T.Link(d, name, ino, err == Allocator.Ok);
    ElsewhereAt(v, w, {d}, {});
    NewNameIs(name);
    EntryIs(v.dirs, d, name, c.maxIno);
    EnteredSafe(v.dirs[d], v.free, entry, err, w.dirs[d], w.free, c.maxIno);
    StepLink(ds, d, name, ino, err == Allocator.Ok, c.maxIno);
    EventIs(e);
    NumberedStill(c, v, w, {});
    OrderlyTouched(c, v, w, {d}, {});
    if err == Allocator.Ok {
      OneChanged(v, w, d, name, Some(entry), c.maxIno);
      NodeOfIs(entry);
      IndexedNow(v, w, d);
      WentThrough(c, v, e, g, w);
    } else {
      assert w.dirs == v.dirs;
      UnmovedIs(c, v, e);
      NothingDone(c, v, e, w);
    }
  }

  lemma {:induction false} UnmovedIs(c: Conf, v: Volume, e: Event)
    requires Stores(v.dirs, c.maxIno) && T.Valid(Graph(v.dirs, c.maxIno), c.maxIno)
    requires EventOf(e).Some? ==>

               var ds, g := Graph(v.dirs, c.maxIno), EventOf(e).value;
               T.Allowed(ds, g, c.maxIno) && T.Step(ds, g, c.maxIno) == ds
    ensures Unmoved(c, v, e)
  {
    hide Graph, T.Allowed, T.Step, EventOf;
  }

  lemma {:induction false} NewNameIs(name: Name)
    requires NewName(name)
    ensures !Dots(name) && 0 < |name| <= NAME_LEN
  {
  }

  lemma {:induction false} NodeOfIs(e: Entry)
    ensures NodeOf(e) == T.Node(e.ino, e.ftype == FT_DIR)
  {
  }

  lemma {:induction false} EventIs(e: Event)
    ensures match e.op
            case Enter(d, name, ino, _) => EventOf(e) == Some(T.Link(d, name, ino, e.err == Allocator.Ok))
            case Remove(d, name) => EventOf(e) == Some(T.Unlink(d, name))
            case MakeDir(d, name, ino, inode) =>
              EventOf(e) == if inode then Some(T.Mkdir(d, name, ino, e.err == Allocator.Ok)) else None
            case RemoveDir(d, name) => EventOf(e) == Some(T.Rmdir(d, name))
            case Rename(s, on, t, nn) => EventOf(e) == Some(T.Event.Rename(s, on, t, nn, e.err == Allocator.Ok))
            case Take(_) => EventOf(e) == None
            case Give(_) => EventOf(e) == None
            case TakeInode(_) => EventOf(e) == None
            case GiveInode(_) => EventOf(e) == None
  {
  }

  lemma {:induction false} StepUnlink(ds: T.Dirs, p: nat, name: Name, maxIno: nat)
    requires T.Valid(ds, maxIno) && p in ds && name in ds[p].entries && !ds[p].entries[name].isDir
    ensures T.Allowed(ds, T.Unlink(p, name), maxIno)
    ensures T.Step(ds, T.Unlink(p, name), maxIno) == T.WithoutEntry(ds, p, name)
  {
    hide T.Valid, T.WithoutEntry;
  }

  lemma {:induction false} RemoveGood(c: Conf, v: Volume, d: nat, name: Name, err: Allocator.Errno, w: Volume)
    requires Inv(c, v) && d in v.dirs && !Dots(name)
    requires AllTiled(v.dirs[d].blocks, c.maxIno) && Find(v.dirs[d].blocks, name, c.maxIno).Some?
    requires Find(v.dirs[d].blocks, name, c.maxIno).value.ftype != FT_DIR
    requires Elsewhere(v, w, {d}, {}) && w.others == v.others && w.dirs.Keys == v.dirs.Keys && w.inodes == v.inodes
    requires Erased(v.dirs[d], v.free, name, err, w.dirs[d], w.free, c.maxIno)
    ensures Good(c, v, Event(Remove(d, name), err), w) && err == Allocator.Ok
  {
    hide *;
    InvParts(c, v);
    var e, ds := Event(Remove(d, name), err), Graph(v.dirs, c.maxIno);
    ElsewhereAt(v, w, {d}, {});
    EntryIs(v.dirs, d, name, c.maxIno);
    ErasedSafe(v.dirs[d], v.free, name, err, w.dirs[d], w.free, c.maxIno);
    StepUnlink(ds, d, name, c.maxIno);
    EventIs(e);
    NumberedStill(c, v, w, {});
    OrderlyTouched(c, v, w, {d}, {});
    OneChanged(v, w, d, name, None, c.maxIno);
    IndexedNow(v, w, d);
    WentThrough(c, v, e, T.Unlink(d, name), w);
  }

  lemma {:induction false} StepMkdir(ds: T.Dirs, p: nat, name: Name, ino: nat, room: bool, maxIno: nat)
    requires T.Valid(ds, maxIno) && p in ds && name !in ds[p].entries && |name| <= NAME_LEN && ino !in ds
    requires 1 <= ino <= maxIno
    ensures T.Allowed(ds, T.Mkdir(p, name, ino, room), maxIno)
    ensures T.Step(ds, T.Mkdir(p, name, ino, room), maxIno)
            == if room then T.WithEntry(ds[ino := T.Dir(p, map[])], p, name, T.Node(ino, true)) else ds
  {
    hide T.Valid, T.WithEntry;
  }

  /** A new directory holds no entries, and its `..` leads to its parent. */
  lemma {:induction false} NewView(ino: nat, parent: nat, maxIno: nat)
    requires 0 < ino <= maxIno < INO_LIMIT && 0 < parent <= maxIno
    ensures var bs := [InitBlock(ino, parent)];
            AllTiled(bs, maxIno) && Find(bs, DOTDOT, maxIno).Some? && View(bs, maxIno) == T.Dir(parent, map[])
  {
    InitDirOk(ino, parent, maxIno);
    var bs := [InitBlock(ino, parent)];
    hide InitBlock;
    assert AllTiled(bs, maxIno) && Find(bs, DOTDOT, maxIno) == Some(Entry(DOTDOT, parent, FT_DIR));
    ViewFacts(bs, maxIno);
    hide Find, AllTiled, View;
    assert View(bs, maxIno).entries == map[];
  }

  lemma {:induction false} MadeSafe(a: Stored, free: nat, e: Entry, index: nat, inode: bool, err: Allocator.Errno,
                                    b: Stored,
                                    left: int, maxIno: nat)
    requires Made(a, free, e, index, inode, err, b, left, maxIno) && index <= 1 && (a.ready || free > 3)
    ensures err == Allocator.Ok && inode ==>
              AllTiled(a.blocks, maxIno) && Changed(a.blocks, b.blocks, e.name, Some(e), maxIno) && b.ready
    ensures !(err == Allocator.Ok && inode) ==> b == a
    ensures Kept(a, b, maxIno)
    ensures !a.ready && inode && AllTiled(a.blocks, maxIno) && |e.name| <= NAME_LEN
            && Find(a.blocks, e.name, maxIno) == None && |a.blocks| < DIRECT_BLOCKS ==>
              err == Allocator.Ok
    ensures !inode ==> left == free && (err == Allocator.Ok <==> free > 0)
    ensures AllTiled(a.blocks, maxIno) && |e.name| <= NAME_LEN && Find(a.blocks, e.name, maxIno) == None && inode ==>
              (err == Allocator.Ok <==> free > index && RoomFor(a, free - 1 - index, e.name, maxIno))
  {
    if inode && free > index {
      EnteredSafe(a, free - 1 - index, e, err, b, if err == Allocator.Ok then left else left - 1, maxIno);
    }
    KeptAlone(a, maxIno);
    hide Find, AllTiled, Changed, AnySlot, RecLenFor, Entered, Kept;
  }

  /** Without a free inode the operation makes nothing, and still succeeds when a block is free. With one it makes the
      directory if and only if there is room. */
  lemma {:induction false} MakeGood(c: Conf, v: Volume, d: nat, name: Name, ino: nat, inode: bool, err: Allocator.Errno,
                                    w: Volume)
    requires Inv(c, v) && d in v.dirs && NewName(name) && Find(v.dirs[d].blocks, name, c.maxIno) == None
    requires (inode ==> FreeInode(c, v, ino)) && MakeStep(c, v, d, name, ino, inode, err, w)
    ensures Good(c, v, Event(MakeDir(d, name, ino, inode), err), w)
    ensures AllTiled(v.dirs[d].blocks, c.maxIno)
    ensures if inode then err == Allocator.Ok
            <==> v.free > c.Index() && RoomFor(v.dirs[d], v.free - 1 - c.Index(), name, c.maxIno)
            else w.dirs == v.dirs && (err == Allocator.Ok <==> v.free > 0)
  {
    hide *;
    InvParts(c, v);
    MakeParts(c, v, d, name, ino, inode, err, w);
    NewNameIs(name);
    SmallFacts();
    EntryIs(v.dirs, d, name, c.maxIno);
    var e, ds, entry := Event(MakeDir(d, name, ino, inode), err), Graph(v.dirs, c.maxIno), Entry(name, ino, FT_DIR);
    MadeSafe(v.dirs[d], v.free, entry, c.Index(), inode, err, w.dirs[d], w.free, c.maxIno);
    GraphAt(v.dirs, c.maxIno);
    EventIs(e);
    if inode {
      FreshIno(c, v, ino);
      StepMkdir(ds, d, name, ino, err == Allocator.Ok, c.maxIno);
    }
    if err == Allocator.Ok && inode {
      var u := v.(dirs := v.dirs[d := w.dirs[d]]);
      UpdateElsewhere(v, u, d);
      NodeOfIs(entry);
      OneChanged(v, u, d, name, Some(entry), c.maxIno);
      NewView(ino, d, c.maxIno);
      NewInGraph(u.dirs, ino, d, w.dirs, c.maxIno);
      EntryLater(ds, ino, T.Dir(d, map[]), d, name, T.Node(ino, true));
      IndexedMore(v, w, d, ino);
      OrderlyMore(c, v, w, d, ino);
      WentThrough(c, v, e, T.Mkdir(d, name, ino, true), w);
    } else {
      assert w.dirs == v.dirs;
      UnmovedIs(c, v, e);
      NotMadeGood(c, v, e, w);
    }
  }

  lemma {:induction false} FreshIno(c: Conf, v: Volume, ino: nat)
    requires FreeInode(c, v, ino) && Numbered(c, v)
    ensures ino !in v.dirs && T.ROOT < ino <= c.maxIno && 0 < ino
  {
  }

  lemma {:induction false} OrderlyMore(c: Conf, v: Volume, w: Volume, d: nat, ino: nat)
    requires d in v.dirs && d in w.dirs && ino in w.dirs && ino !in v.dirs
    requires w.dirs == v.dirs[d := w.dirs[d]][ino := w.dirs[ino]]
    requires Kept(v.dirs[d], w.dirs[d], c.maxIno) && w.dirs[ino].hash == c.hash && InOrder(w.dirs[ino], c.maxIno)
    requires ino != T.ROOT
    ensures Orderly(c, v, w)
  {
    forall i | i in v.dirs ensures Kept(v.dirs[i], v.dirs[i], c.maxIno) {
      KeptAlone(v.dirs[i], c.maxIno);
    }
    hide Kept, InOrder;
  }

  lemma {:induction false} MakeParts(c: Conf, v: Volume, d: nat, name: Name, ino: nat, inode: bool,
                                     err: Allocator.Errno, w: Volume)
    requires d in v.dirs && MakeStep(c, v, d, name, ino, inode, err, w) && Numbered(c, v)
    requires (inode ==> FreeInode(c, v, ino))
    ensures d in w.dirs && c.Index() <= 1 && Numbered(c, w)
    ensures if err == Allocator.Ok && inode then
              && ino in w.dirs && w.dirs[ino].blocks == [InitBlock(ino, d)] && w.dirs[ino].ready && w.dirs[ino].hash == c.hash
              && InOrder(w.dirs[ino], c.maxIno) && w.dirs == v.dirs[d := w.dirs[d]][ino := w.dirs[ino]]
            else w.dirs == v.dirs[d := w.dirs[d]]
    ensures err == Allocator.Ok ==> w.others == v.others
    ensures Made(v.dirs[d], v.free, Entry(name, ino, FT_DIR), c.Index(), inode, err, w.dirs[d], w.free, c.maxIno)
  {
    hide InitBlock, InOrder, Entered;
  }

  lemma {:induction false} UpdateElsewhere(v: Volume, u: Volume, d: nat)
    requires d in v.dirs && d in u.dirs && u.dirs == v.dirs[d := u.dirs[d]]
    ensures Elsewhere(v, u, {d}, {}) && u.dirs.Keys == v.dirs.Keys
  {
  }

  lemma {:induction false} NewInGraph(dirs: map<nat, Stored>, ino: nat, parent: nat, dirs': map<nat, Stored>,
                                      maxIno: nat)
    requires Stores(dirs, maxIno) && ino !in dirs && ino in dirs' && dirs'[ino].blocks == [InitBlock(ino, parent)]
    requires dirs' == dirs[ino := dirs'[ino]]
    requires var bs := [InitBlock(ino, parent)];
             AllTiled(bs, maxIno) && Find(bs, DOTDOT, maxIno).Some? && View(bs, maxIno) == T.Dir(parent, map[])
    ensures Stores(dirs', maxIno) && Graph(dirs', maxIno) == Graph(dirs, maxIno)[ino := T.Dir(parent, map[])]
  {
    hide *;
    GraphAt(dirs, maxIno);
    StoresAll(dirs', maxIno);
    GraphIs(dirs', Graph(dirs, maxIno)[ino := T.Dir(parent, map[])], maxIno);
  }

  lemma {:induction false} EntryLater(ds: T.Dirs, ino: nat, dir: T.Dir, p: nat, name: Name, node: T.Node)
    requires p in ds && ino !in ds
    ensures T.WithEntry(ds, p, name, node)[ino := dir] == T.WithEntry(ds[ino := dir], p, name, node)
  {
  }

  lemma {:induction false} IndexedMore(v: Volume, w: Volume, d: nat, ino: nat)
    requires T.ROOT in v.dirs && Indexed(v) && d in v.dirs && d in w.dirs && ino !in v.dirs && w.dirs[d].ready
    requires exists x: Stored :: x.ready && w.dirs == v.dirs[d := w.dirs[d]][ino := x]
    ensures T.ROOT in w.dirs && Indexed(w)
  {
  }

  /** A directory that was not made, whether or not its index has leaked. */
  lemma {:induction false} NotMadeGood(c: Conf, v: Volume, e: Event, w: Volume)
    requires Inv(c, v) && w.dirs == v.dirs && Numbered(c, w)
    requires !v.dirs[T.ROOT].ready ==> w.free == v.free && w.others == v.others
    requires Unmoved(c, v, e)
    ensures Good(c, v, e, w)
  {
    SameVolume(v, w, c.maxIno);
    SameGraph(v, w, c.maxIno);
    NothingWorse(c, v, w);
    hide Graph, Stores, SameDirs, T.Valid, T.Step, T.Allowed, EventOf, Searchable, Numbered, Orderly;
  }

  // ----- removing directories

  lemma {:induction false} StepRmdir(ds: T.Dirs, p: nat, name: Name, maxIno: nat)
    requires T.Valid(ds, maxIno) && p in ds && name in ds[p].entries && ds[p].entries[name].isDir
    ensures T.Allowed(ds, T.Rmdir(p, name), maxIno)
    ensures var x := ds[p].entries[name].ino;
            && x in ds && x != T.ROOT && x != p
            && T.Step(ds, T.Rmdir(p, name), maxIno) == if ds[x].entries == map[] then T.WithoutEntry(ds, p, name) - {x} else ds
  {
    var x := ds[p].entries[name].ino;
    assert T.Entry(ds, p, name, T.Node(x, true));
    T.RmdirKeeps(ds, p, name, x, maxIno);
    hide T.WithoutEntry, T.Tree, T.Linked;
    assert x != T.ROOT by { T.ValidParts(ds, maxIno); T.ChildOf(ds, p, name, x); }
  }

  lemma {:induction false} GoneInGraph(dirs: map<nat, Stored>, x: nat, dirs': map<nat, Stored>, maxIno: nat)
    requires Stores(dirs, maxIno) && dirs' == dirs - {x}
    ensures Stores(dirs', maxIno) && Graph(dirs', maxIno) == Graph(dirs, maxIno) - {x}
  {
    hide *;
    GraphAt(dirs, maxIno);
    StoresAll(dirs', maxIno);
    GraphIs(dirs', Graph(dirs, maxIno) - {x}, maxIno);
  }

  lemma {:induction false} RemoveDirGood(c: Conf, v: Volume, d: nat, name: Name, x: nat, err: Allocator.Errno,
                                         w: Volume)
    requires Inv(c, v) && d in v.dirs && !Dots(name) && AllTiled(v.dirs[d].blocks, c.maxIno)
    requires var f := Find(v.dirs[d].blocks, name, c.maxIno); f.Some? && f.value.ftype == FT_DIR && f.value.ino == x
    requires x in v.dirs ==> AllTiled(v.dirs[x].blocks, c.maxIno)
    requires if x in v.dirs && OnlyDots(All(v.dirs[x].blocks, c.maxIno)) then
               RemoveStep(c, v, d, name, x, err, w)
             else err != Allocator.Ok && w == v
    ensures Good(c, v, Event(RemoveDir(d, name), err), w)
    ensures x in v.dirs && AllTiled(v.dirs[x].blocks, c.maxIno)
    ensures err == Allocator.Ok <==> OnlyDots(All(v.dirs[x].blocks, c.maxIno))
    ensures err == Allocator.Ok ==> w.free == v.free + |v.dirs[x].blocks| + c.Index() && w.inodes == v.inodes - {x}
  {
    hide *;
    InvParts(c, v);
    var e, ds := Event(RemoveDir(d, name), err), Graph(v.dirs, c.maxIno);
    EntryIs(v.dirs, d, name, c.maxIno);
    StepRmdir(ds, d, name, c.maxIno);
    GraphAt(v.dirs, c.maxIno);
    ViewEmpty(v.dirs[x].blocks, c.maxIno);
    EventIs(e);
    if OnlyDots(All(v.dirs[x].blocks, c.maxIno)) {
      RemoveParts(c, v, d, name, x, err, w);
      ErasedSafe(v.dirs[d], v.free, name, err, w.dirs[d],
                 w.free - (if err == Allocator.Ok then |v.dirs[x].blocks| + c.Index() else 0), c.maxIno);
      var u := v.(dirs := v.dirs[d := w.dirs[d]]);
      UpdateElsewhere(v, u, d);
      OneChanged(v, u, d, name, None, c.maxIno);
      NumberedLess(c, v, w, x);
      OrderlyTouched(c, v, w, {d}, {x});
      assert w.dirs == u.dirs - {x};
      GoneInGraph(u.dirs, x, w.dirs, c.maxIno);
      IndexedFewer(v, w, d, x);
      WentThrough(c, v, e, T.Rmdir(d, name), w);
    } else {
      UnmovedIs(c, v, e);
      NothingDone(c, v, e, w);
    }
  }

  lemma {:induction false} RemoveParts(c: Conf, v: Volume, d: nat, name: Name, x: nat, err: Allocator.Errno, w: Volume)
    requires d in v.dirs && x in v.dirs && RemoveStep(c, v, d, name, x, err, w)
    ensures d in w.dirs && w.dirs.Keys == v.dirs.Keys - (if err == Allocator.Ok then {x} else {})
    ensures forall i :: i in w.dirs && i != d ==> w.dirs[i] == v.dirs[i]
    ensures w.inodes == v.inodes - (if err == Allocator.Ok then {x} else {})
    ensures Elsewhere(v, w, {d}, if err == Allocator.Ok then {x} else {})
    ensures Erased(v.dirs[d], v.free, name, err, w.dirs[d],
                   w.free - (if err == Allocator.Ok then |v.dirs[x].blocks| + c.Index() else 0), c.maxIno)
  {
    hide Erased;
  }

  lemma {:induction false} IndexedFewer(v: Volume, w: Volume, d: nat, x: nat)
    requires T.ROOT in v.dirs && Indexed(v) && d in v.dirs && d in w.dirs && w.dirs[d].ready && x != T.ROOT && x != d
    requires x in v.dirs
    requires w.dirs == v.dirs[d := w.dirs[d]] - {x}
    ensures T.ROOT in w.dirs && Indexed(w)
  {
  }

  // ----- rename

  /** What the checks of a rename leave. */
  lemma {:induction false} RenameFacts(ds: T.Dirs, s: nat, on: Name, t: nat, nn: Name, maxIno: nat)
    requires T.Valid(ds, maxIno) && T.Renames(ds, s, on, t, nn, maxIno)
    ensures s in ds && t in ds && on in ds[s].entries && (s, on) != (t, nn) && |nn| <= NAME_LEN
    ensures var x := ds[s].entries[on]; x.isDir ==> x.ino in ds && x.ino !in {s, t}
    ensures nn in ds[t].entries && ds[t].entries[nn].isDir ==>
              var v := ds[t].entries[nn].ino;
              v in ds && v != T.ROOT && ds[s].entries[on].isDir && v !in {s, t, ds[s].entries[on].ino} && ds[v].entries == map[]
  {
    T.RefusedFacts(ds, s, on, t, nn, maxIno);
    T.VictimApart(ds, s, on, t, nn, maxIno);
    var x := ds[s].entries[on];
    if x.isDir {
      assert T.Entry(ds, s, on, T.Node(x.ino, true));
      T.NotOwnParent(ds, x.ino);
    }
    hide T.Tree, T.Linked;
  }

  lemma {:induction false} StepRename(ds: T.Dirs, s: nat, on: Name, t: nat, nn: Name, room: bool, maxIno: nat)
    requires T.Valid(ds, maxIno) && T.Renames(ds, s, on, t, nn, maxIno)
    requires s in ds && t in ds && on in ds[s].entries && (ds[s].entries[on].isDir ==> ds[s].entries[on].ino in ds)
    requires nn in ds[t].entries && ds[t].entries[nn].isDir ==> ds[t].entries[nn].ino !in {s, t, ds[s].entries[on].ino}
    ensures T.Allowed(ds, T.Event.Rename(s, on, t, nn, room), maxIno)
    ensures T.Step(ds, T.Event.Rename(s, on, t, nn, room), maxIno)
            == if room || nn in ds[t].entries then T.Renamed(ds, s, on, t, nn) else ds
  {
    hide T.Valid, T.Renamed, T.Climb;
  }

  /** A refused rename, of any kind, changes nothing of the graph. */
  lemma {:induction false} StepRefused(ds: T.Dirs, s: nat, on: Name, t: nat, nn: Name, ok: bool, maxIno: nat)
    requires T.Valid(ds, maxIno) && s in ds && t in ds
    requires on !in ds[s].entries || (s, on) == (t, nn) || (!ok && T.RenameRefused(ds, s, on, t, nn, true, maxIno) != T.Ok)
    ensures T.Allowed(ds, T.Event.Rename(s, on, t, nn, ok), maxIno)
    ensures T.Step(ds, T.Event.Rename(s, on, t, nn, ok), maxIno) == ds
  {
    hide T.Valid, T.Renamed, T.Climb;
  }

  lemma {:induction false} ViewRenamed(before: seq<Block>, after: seq<Block>, on: Name, e: Entry, maxIno: nat)
    requires Renamed(before, after, on, e, maxIno) && !Dots(on) && !Dots(e.name) && on != e.name
    requires Find(before, DOTDOT, maxIno).Some?
    ensures AllTiled(before, maxIno) && AllTiled(after, maxIno) && Find(after, DOTDOT, maxIno).Some?
    ensures var v := View(before, maxIno); View(after, maxIno) == v.(entries := v.entries[e.name := NodeOf(e)] - {on})
  {
    hide *;
    NoDots();
    RenamedFind(before, after, on, e, maxIno);
    ViewFacts(before, maxIno);
    ViewFacts(after, maxIno);
    MapSwapped(View(before, maxIno).entries, View(after, maxIno).entries, on, e.name, NodeOf(e));
  }

  lemma {:induction false} RenamedFind(before: seq<Block>, after: seq<Block>, on: Name, e: Entry, maxIno: nat)
    requires Renamed(before, after, on, e, maxIno)
    ensures AllTiled(before, maxIno) && AllTiled(after, maxIno)
    ensures forall n :: Find(after, n, maxIno) == if n == e.name then Some(e) else if n == on then None
            else Find(before, n, maxIno)
  {
  }

  lemma {:induction false} MapSwapped<K, V>(v: map<K, V>, w: map<K, V>, off: K, on: K, x: V)
    requires off != on && forall n :: n in w <==> n == on || (n != off && n in v)
    requires forall n :: n in w ==> w[n] == if n == on then x else v[n]
    ensures w == v[on := x] - {off}
  {
  }

  lemma {:induction false} RenamedInsideAt(ds: T.Dirs, s: nat, on: Name, nn: Name)
    requires s in ds && on in ds[s].entries && (ds[s].entries[on].isDir ==> ds[s].entries[on].ino in ds)
    requires nn in ds[s].entries && ds[s].entries[nn].isDir ==> ds[s].entries[nn].ino !in {s, ds[s].entries[on].ino}
    ensures var ds', x := T.Renamed(ds, s, on, s, nn), ds[s].entries[on];
            && ds'.Keys == ds.Keys - (if nn in ds[s].entries && ds[s].entries[nn].isDir then {ds[s].entries[nn].ino} else {})
            && s in ds' && ds'[s] == ds[s].(entries := ds[s].entries[nn := x] - {on})
            && forall d :: d in ds' && d != s ==> ds'[d] == ds[d]
  {
  }

  /** Every directory that is left is the one of the renamed graph. */
  lemma {:induction false} InsideGraph(c: Conf, v: Volume, s: nat, on: Name, nn: Name, e: Entry, w: Volume,
                                       gone: set<nat>)
    requires Stores(v.dirs, c.maxIno) && s in v.dirs && !Dots(on) && !Dots(nn) && on != nn
    requires AllTiled(v.dirs[s].blocks, c.maxIno) && Find(v.dirs[s].blocks, on, c.maxIno) == Some(e)
    requires Elsewhere(v, w, {s}, gone) && s in w.dirs
    requires Renamed(v.dirs[s].blocks, w.dirs[s].blocks, on, e.(name := nn), c.maxIno)
    requires var ds := Graph(v.dirs, c.maxIno);
             && s in ds && on in ds[s].entries && (ds[s].entries[on].isDir ==> ds[s].entries[on].ino in ds)
             && (nn in ds[s].entries && ds[s].entries[nn].isDir ==>
                   ds[s].entries[nn].ino !in {s, ds[s].entries[on].ino})
             && gone == if nn in ds[s].entries && ds[s].entries[nn].isDir then {ds[s].entries[nn].ino} else {}
    ensures Stores(w.dirs, c.maxIno) && Graph(w.dirs, c.maxIno) == T.Renamed(Graph(v.dirs, c.maxIno), s, on, s, nn)
  {
    hide *;
    var ds := Graph(v.dirs, c.maxIno);
    GraphAt(v.dirs, c.maxIno);
    EntryIs(v.dirs, s, on, c.maxIno);
    ElsewhereAt(v, w, {s}, gone);
    ViewRenamed(v.dirs[s].blocks, w.dirs[s].blocks, on, e.(name := nn), c.maxIno);
    NodeOfIs(e.(name := nn));
    RenamedInsideAt(ds, s, on, nn);
    var ds' := T.Renamed(ds, s, on, s, nn);
    assert ds'.Keys == w.dirs.Keys;
    forall d | d in w.dirs
      ensures AllTiled(w.dirs[d].blocks, c.maxIno) && Find(w.dirs[d].blocks, DOTDOT, c.maxIno).Some?
      ensures ds'[d] == View(w.dirs[d].blocks, c.maxIno)
    {
      if d != s {
        assert w.dirs[d] == v.dirs[d] && ds'[d] == ds[d];
      }
    }
    StoresAll(w.dirs, c.maxIno);
    GraphIs(w.dirs, ds', c.maxIno);
  }

  lemma {:induction false} OverGraph(c: Conf, v: Volume, s: nat, on: Name, t: nat, nn: Name, e: Entry, w: Volume,
                                     gone: set<nat>)
    requires Inv(c, v) && s in v.dirs && t in v.dirs && s != t && !Dots(on) && !Dots(nn)
    requires Stores(v.dirs, c.maxIno) && T.Valid(Graph(v.dirs, c.maxIno), c.maxIno)
    requires T.Renames(Graph(v.dirs, c.maxIno), s, on, t, nn, c.maxIno)
    requires AllTiled(v.dirs[s].blocks, c.maxIno) && Find(v.dirs[s].blocks, on, c.maxIno) == Some(e)
    requires Elsewhere(v, w, {s, t} + (if e.ftype == FT_DIR then {e.ino} else {}), gone) && s in w.dirs && t in w.dirs
    requires Changed(v.dirs[s].blocks, w.dirs[s].blocks, on, None, c.maxIno)
    requires Changed(v.dirs[t].blocks, w.dirs[t].blocks, nn, Some(e.(name := nn)), c.maxIno)
    requires e.ftype == FT_DIR ==>
               && e.ino in v.dirs && e.ino in w.dirs && AllTiled(v.dirs[e.ino].blocks, c.maxIno)
               && Find(v.dirs[e.ino].blocks, DOTDOT, c.maxIno).Some?
               && Changed(v.dirs[e.ino].blocks, w.dirs[e.ino].blocks, DOTDOT,
                          Some(Find(v.dirs[e.ino].blocks, DOTDOT, c.maxIno).value.(ino := t)), c.maxIno)
    requires var ds := Graph(v.dirs, c.maxIno);
             && s in ds && t in ds && on in ds[s].entries && (ds[s].entries[on].isDir ==> ds[s].entries[on].ino in ds)
             && (nn in ds[t].entries && ds[t].entries[nn].isDir ==>
                   ds[t].entries[nn].ino !in {s, t, ds[s].entries[on].ino})
             && gone == if nn in ds[t].entries && ds[t].entries[nn].isDir then {ds[t].entries[nn].ino} else {}
    ensures Stores(w.dirs, c.maxIno) && Graph(w.dirs, c.maxIno) == T.Renamed(Graph(v.dirs, c.maxIno), s, on, t, nn)
  {
    hide *;
    var maxIno := c.maxIno;
    var ds, isDir := Graph(v.dirs, maxIno), e.ftype == FT_DIR;
    GraphAt(v.dirs, maxIno);
    EntryIs(v.dirs, s, on, maxIno);
    RenameFacts(ds, s, on, t, nn, maxIno);
    T.RenamedFacts(ds, s, on, t, nn, maxIno);
    ElsewhereAt(v, w, {s, t} + (if isDir then {e.ino} else {}), gone);
    var m0 := if isDir then v.dirs[e.ino].blocks else v.dirs[s].blocks;
    var m1 := if isDir then w.dirs[e.ino].blocks else w.dirs[s].blocks;
    MovedIsRenamed(ds, s, t, e.ino, on, nn, e, isDir, v.dirs[s].blocks, w.dirs[s].blocks, v.dirs[t].blocks, w.dirs[t].blocks,
                   m0, m1, Find(m0, DOTDOT, maxIno).value.(ino := t), maxIno);
    var ds' := T.Renamed(ds, s, on, t, nn);
    forall d | d in w.dirs
      ensures AllTiled(w.dirs[d].blocks, maxIno) && Find(w.dirs[d].blocks, DOTDOT, maxIno).Some?
      ensures ds'[d] == View(w.dirs[d].blocks, maxIno)
    {
      if d in {s, t} || (isDir && d == e.ino) {
      } else {
        assert w.dirs[d] == v.dirs[d];
      }
    }
    StoresAll(w.dirs, maxIno);
    GraphIs(w.dirs, ds', maxIno);
  }

  lemma {:induction false} SameFrom(v: Volume, w: Volume, touched: set<nat>, maxIno: nat)
    requires Stores(v.dirs, maxIno) && Elsewhere(v, w, touched, {})
    requires forall d :: d in touched && d in v.dirs && d in w.dirs ==>
               SameMap(v.dirs[d].blocks, w.dirs[d].blocks, maxIno)
    ensures SameDirs(v, w, maxIno)
  {
    hide AllTiled, Find, SameMap;
    forall d | d in v.dirs ensures SameMap(v.dirs[d].blocks, w.dirs[d].blocks, maxIno) {
      if d !in touched {
        Unchanged(v.dirs[d].blocks, maxIno);
      }
    }
  }

  lemma {:induction false} IndexedTouched(v: Volume, w: Volume, s: nat, touched: set<nat>, gone: set<nat>)
    requires T.ROOT in v.dirs && Indexed(v) && s in touched && s in v.dirs && Elsewhere(v, w, touched, gone)
    requires T.ROOT !in gone
    requires forall d :: d in touched && d in w.dirs ==> w.dirs[d].ready
    ensures T.ROOT in w.dirs && Indexed(w)
  {
  }

  /** A rename that ran into a lack of room. */
  lemma {:induction false} RanOut(c: Conf, v: Volume, e: Event, w: Volume)
    requires Inv(c, v) && T.ROOT in w.dirs && Indexed(w) && SameDirs(v, w, c.maxIno) && Unmoved(c, v, e)
    requires Numbered(c, w) && Orderly(c, v, w)
    ensures Good(c, v, e, w)
  {
    SameGraph(v, w, c.maxIno);
    hide Graph, Stores, SameDirs, T.Valid, T.Step, T.Allowed, EventOf, Indexed, Searchable, Numbered, Orderly;
  }

  lemma {:induction false} AtIs(v: Volume, d: nat, name: Name, maxIno: nat)
    requires Stores(v.dirs, maxIno) && d in v.dirs
    ensures AllTiled(v.dirs[d].blocks, maxIno) && At(v, d, name, maxIno) == Find(v.dirs[d].blocks, name, maxIno)
  {
    hide AllTiled, Find;
  }

  /** The parts of a rename step. */
  lemma {:induction false} RenameParts(c: Conf, v: Volume, s: nat, on: Name, t: nat, nn: Name, err: Allocator.Errno,
                                       w: Volume)
    returns (gone: set<nat>)
    requires Stores(v.dirs, c.maxIno) && s in v.dirs && t in v.dirs && At(v, s, on, c.maxIno).Some?
    requires RenameStep(c, v, s, on, t, nn, err, w)
    ensures AllTiled(v.dirs[s].blocks, c.maxIno) && AllTiled(v.dirs[t].blocks, c.maxIno) && s in w.dirs && t in w.dirs
    ensures var e, victim := Find(v.dirs[s].blocks, on, c.maxIno).value, Find(v.dirs[t].blocks, nn, c.maxIno);
            var isDir := e.ftype == FT_DIR && s != t;
            && At(v, s, on, c.maxIno) == Some(e)
            && gone == (if err == Allocator.Ok && victim.Some? && victim.value.ftype == FT_DIR then {victim.value.ino} else {})
            && w.inodes == v.inodes && w.dirs.Keys == v.dirs.Keys - gone
            && (isDir ==>
                  && e.ino in v.dirs && e.ino in w.dirs && w.dirs[e.ino].ready == v.dirs[e.ino].ready
                  && Kept(v.dirs[e.ino], w.dirs[e.ino], c.maxIno))
            && Elsewhere(v, w, {s, t} + (if isDir then {e.ino} else {}), gone)
            && if s == t then
                 MovedInside(v.dirs[s], v.free, on, e.(name := nn), victim.Some?, err, w.dirs[s], w.free, c.maxIno)
               else
                 MovedOver(v.dirs[s], v.dirs[t], if isDir then Some(v.dirs[e.ino].blocks) else None, v.free, on, e.(name := nn),
                           victim.Some?, t, err, w.dirs[s], w.dirs[t], if isDir then Some(w.dirs[e.ino].blocks)
                             else None, w.free, c.maxIno)
  {
    AtIs(v, s, on, c.maxIno);
    AtIs(v, t, nn, c.maxIno);
    hide AllTiled, Find, At, MovedInside, MovedOver, Stores, Kept;
    var victim := Find(v.dirs[t].blocks, nn, c.maxIno);
    gone := if err == Allocator.Ok && victim.Some? && victim.value.ftype == FT_DIR then {victim.value.ino} else {};
  }

  lemma {:induction false} AcceptedIs(v: Volume, s: nat, on: Name, t: nat, nn: Name, maxIno: nat)
    requires Stores(v.dirs, maxIno) && s in v.dirs && t in v.dirs && (s, on) != (t, nn)
    requires T.Valid(Graph(v.dirs, maxIno), maxIno) && !Refused(v, s, on, t, nn, maxIno)
    ensures T.Renames(Graph(v.dirs, maxIno), s, on, t, nn, maxIno)
  {
    hide *;
    RefusedIs(v, s, on, t, nn, maxIno);
    T.NotRefused(Graph(v.dirs, maxIno), s, on, t, nn, true, maxIno);
  }

  lemma {:induction false} InsideGood(c: Conf, v: Volume, s: nat, on: Name, nn: Name, err: Allocator.Errno, w: Volume)
    requires Inv(c, v) && s in v.dirs && !Dots(on) && !Dots(nn) && on != nn && At(v, s, on, c.maxIno).Some?
    requires !Refused(v, s, on, s, nn, c.maxIno) && RenameStep(c, v, s, on, s, nn, err, w)
    ensures Good(c, v, Event(Rename(s, on, s, nn), err), w)
    ensures AllTiled(v.dirs[s].blocks, c.maxIno)
    ensures err == Allocator.Ok <==> Room(v.dirs[s], v.free, nn, At(v, s, nn, c.maxIno).Some?, c.maxIno)
  {
    hide *;
    InvParts(c, v);
    var ds, ev := Graph(v.dirs, c.maxIno), Event(Rename(s, on, s, nn), err);
    var g := T.Event.Rename(s, on, s, nn, err == Allocator.Ok);
    AcceptedIs(v, s, on, s, nn, c.maxIno);
    RenameFacts(ds, s, on, s, nn, c.maxIno);
    EntryIs(v.dirs, s, on, c.maxIno);
    EntryIs(v.dirs, s, nn, c.maxIno);
    AtIs(v, s, nn, c.maxIno);
    var gone := RenameParts(c, v, s, on, s, nn, err, w);
    var e, replaced := Find(v.dirs[s].blocks, on, c.maxIno).value, Find(v.dirs[s].blocks, nn, c.maxIno).Some?;
    InsideSafe(v.dirs[s], v.free, on, e.(name := nn), replaced, err, w.dirs[s], w.free, c.maxIno);
    StepRename(ds, s, on, s, nn, err == Allocator.Ok, c.maxIno);
    EventIs(ev);
    FoundName(v.dirs[s].blocks, on, c.maxIno);
    assert {s, s} + {} == {s};
    IndexedTouched(v, w, s, {s}, gone);
    NumberedStill(c, v, w, gone);
    OrderlyTouched(c, v, w, {s}, gone);
    if err == Allocator.Ok {
      InsideGraph(c, v, s, on, nn, e, w, gone);
      WentThrough(c, v, ev, g, w);
    } else {
      RoomReplaced(v.dirs[s], v.free, nn, replaced, c.maxIno);
      SameFrom(v, w, {s}, c.maxIno);
      UnmovedIs(c, v, ev);
      RanOut(c, v, ev, w);
    }
  }

  lemma {:induction false} RoomReplaced(a: Stored, free: int, name: Name, replaced: bool, maxIno: nat)
    requires AllTiled(a.blocks, maxIno)
    ensures replaced ==> Room(a, free, name, replaced, maxIno)
  {
  }

  lemma {:induction false} FoundName(blocks: seq<Block>, name: Name, maxIno: nat)
    requires AllTiled(blocks, maxIno) && Find(blocks, name, maxIno).Some?
    ensures Find(blocks, name, maxIno).value.name == name
  {
    LookupName(All(blocks, maxIno), name);
    hide All, AllTiled, Lookup;
  }

  lemma {:induction false} LookupName(es: seq<Entry>, name: Name)
    ensures Lookup(es, name).Some? ==> Lookup(es, name).value.name == name
  {
    if es != [] {
      LookupName(es[1..], name);
    }
  }

  lemma {:induction false} OverGood(c: Conf, v: Volume, s: nat, on: Name, t: nat, nn: Name, err: Allocator.Errno,
                                    w: Volume)
    requires Inv(c, v) && s in v.dirs && t in v.dirs && s != t && !Dots(on) && !Dots(nn) && At(v, s, on, c.maxIno).Some?
    requires !Refused(v, s, on, t, nn, c.maxIno) && RenameStep(c, v, s, on, t, nn, err, w)
    ensures Good(c, v, Event(Rename(s, on, t, nn), err), w)
    ensures AllTiled(v.dirs[t].blocks, c.maxIno)
    ensures err == Allocator.Ok <==> Room(v.dirs[t], v.free, nn, At(v, t, nn, c.maxIno).Some?, c.maxIno)
  {
    hide *;
    InvParts(c, v);
    var ds, ev := Graph(v.dirs, c.maxIno), Event(Rename(s, on, t, nn), err);
    var g := T.Event.Rename(s, on, t, nn, err == Allocator.Ok);
    AcceptedIs(v, s, on, t, nn, c.maxIno);
    RenameFacts(ds, s, on, t, nn, c.maxIno);
    EntryIs(v.dirs, s, on, c.maxIno);
    EntryIs(v.dirs, t, nn, c.maxIno);
    AtIs(v, t, nn, c.maxIno);
    var gone := RenameParts(c, v, s, on, t, nn, err, w);
    var e, replaced := Find(v.dirs[s].blocks, on, c.maxIno).value, Find(v.dirs[t].blocks, nn, c.maxIno).Some?;
    var isDir := e.ftype == FT_DIR;
    var touched := {s, t} + if isDir then {e.ino} else {};
    OverSafe(v.dirs[s], v.dirs[t], if isDir then Some(v.dirs[e.ino].blocks)
             else None, v.free, on, e.(name := nn), replaced, t, err,
             w.dirs[s], w.dirs[t], if isDir then Some(w.dirs[e.ino].blocks) else None, w.free, c.maxIno);
    StepRename(ds, s, on, t, nn, err == Allocator.Ok, c.maxIno);
    EventIs(ev);
    IndexedTouched(v, w, s, touched, gone);
    NumberedStill(c, v, w, gone);
    OrderlyTouched(c, v, w, touched, gone);
    if err == Allocator.Ok {
      OverGraph(c, v, s, on, t, nn, e, w, gone);
      WentThrough(c, v, ev, g, w);
    } else {
      RoomReplaced(v.dirs[t], v.free, nn, replaced, c.maxIno);
      SameFrom(v, w, touched, c.maxIno);
      UnmovedIs(c, v, ev);
      RanOut(c, v, ev, w);
    }
  }

  /** An accepted rename goes through if and only if there is room for the new name. */
  lemma {:induction false} RenameExactly(c: Conf, v: Volume, s: nat, on: Name, t: nat, nn: Name, err: Allocator.Errno,
                                         w: Volume)
    requires Inv(c, v) && s in v.dirs && t in v.dirs && (s, on) != (t, nn) && !Dots(on) && !Dots(nn)
    requires At(v, s, on, c.maxIno).Some?
    requires !Refused(v, s, on, t, nn, c.maxIno) && RenameStep(c, v, s, on, t, nn, err, w)
    ensures Good(c, v, Event(Rename(s, on, t, nn), err), w)
    ensures AllTiled(v.dirs[t].blocks, c.maxIno)
    ensures err == Allocator.Ok <==> Room(v.dirs[t], v.free, nn, At(v, t, nn, c.maxIno).Some?, c.maxIno)
  {
    hide *;
    if s == t {
      InsideGood(c, v, s, on, nn, err, w);
    } else {
      OverGood(c, v, s, on, t, nn, err, w);
    }
  }

  lemma {:induction false} RenameGood(c: Conf, v: Volume, s: nat, on: Name, t: nat, nn: Name, err: Allocator.Errno,
                                      w: Volume)
    requires Inv(c, v) && s in v.dirs && t in v.dirs && !Dots(on) && !Dots(nn)
    requires Stores(v.dirs, c.maxIno) && RenameAll(c, v, s, on, t, nn, err, w)
    ensures Good(c, v, Event(Rename(s, on, t, nn), err), w)
  {
    hide *;
    InvParts(c, v);
    AllIs(c, v, s, on, t, nn, err, w);
    EventIs(Event(Rename(s, on, t, nn), err));
    GraphAt(v.dirs, c.maxIno);
    AtIs(v, s, on, c.maxIno);
    EntryIs(v.dirs, s, on, c.maxIno);
    RefusedIs(v, s, on, t, nn, c.maxIno);
    if At(v, s, on, c.maxIno).Some? && (s, on) != (t, nn) && !Refused(v, s, on, t, nn, c.maxIno) {
      RenameExactly(c, v, s, on, t, nn, err, w);
    } else {
      StepRefused(Graph(v.dirs, c.maxIno), s, on, t, nn, err == Allocator.Ok, c.maxIno);
      UnmovedIs(c, v, Event(Rename(s, on, t, nn), err));
      NothingDone(c, v, Event(Rename(s, on, t, nn), err), w);
    }
  }

  lemma {:induction false} AllIs(c: Conf, v: Volume, s: nat, on: Name, t: nat, nn: Name, err: Allocator.Errno,
                                 w: Volume)
    requires Stores(v.dirs, c.maxIno) && s in v.dirs && t in v.dirs && RenameAll(c, v, s, on, t, nn, err, w)
    ensures if At(v, s, on, c.maxIno) == None then err != Allocator.Ok && w == v
            else if (s, on) == (t, nn) then err == Allocator.Ok && w == v
            else if Refused(v, s, on, t, nn, c.maxIno) then err != Allocator.Ok && w == v
            else RenameStep(c, v, s, on, t, nn, err, w)
  {
    hide At, Refused, RenameStep;
  }

  lemma {:induction false} RefusedIs(v: Volume, s: nat, on: Name, t: nat, nn: Name, maxIno: nat)
    requires Stores(v.dirs, maxIno) && s in v.dirs && t in v.dirs && T.Valid(Graph(v.dirs, maxIno), maxIno)
    ensures s in Graph(v.dirs, maxIno) && t in Graph(v.dirs, maxIno)
    ensures Refused(v, s, on, t, nn, maxIno) <==> T.RenameRefused(Graph(v.dirs, maxIno), s, on, t, nn, true, maxIno) != T.Ok
  {
    T.RenameRefusedExactly(Graph(v.dirs, maxIno), s, on, t, nn, true, maxIno);
    hide T.RenameRefused, T.Accepts, T.Valid, View, AllTiled, Find;
  }

  /** Blocks and inodes that change hands between the allocators and everything that is no directory. */
  lemma {:induction false} BlocksGood(c: Conf, v: Volume, e: Event, w: Volume)
    requires Inv(c, v) && w.dirs == v.dirs && EventOf(e) == None && e.err == Allocator.Ok
    requires w.free + w.others == v.free + v.others
    requires Numbered(c, w)
    requires !v.dirs[T.ROOT].ready ==> w.others <= EARLY
    ensures Good(c, v, e, w)
  {
    SameVolume(v, w, c.maxIno);
    SameGraph(v, w, c.maxIno);
    NothingWorse(c, v, w);
    hide Graph, Stores, SameDirs, T.Valid, T.Step, T.Allowed, EventOf, Searchable, Numbered, Orderly;
  }

  /** Every operation on a volume in order is the operation of the graph, keeps every directory but a new root indexed, and
      changes the map of no directory when it fails. */
  lemma {:induction false} StepGood(c: Conf, v: Volume, e: Event, w: Volume)
    requires Inv(c, v) && Allowed(c, v, e.op) && Next(c, v, e, w)
    ensures Good(c, v, e, w)
  {
    InvParts(c, v);
    hide *;
    match e.op {
      case Enter(d, name, ino, ftype) => AsEnter(c, v, e, w);
      case Remove(d, name) => AsRemove(c, v, e, w);
      case MakeDir(d, name, ino, inode) => AsMake(c, v, e, w);
      case RemoveDir(d, name) => AsRemoveDir(c, v, e, w);
      case Rename(s, on, t, nn) => AsRename(c, v, e, w);
      case Take(_) => AsHanded(c, v, e, w);
      case Give(_) => AsHanded(c, v, e, w);
      case TakeInode(_) => AsHanded(c, v, e, w);
      case GiveInode(_) => AsHanded(c, v, e, w);
    }
  }

  lemma {:induction false} AsEnter(c: Conf, v: Volume, e: Event, w: Volume)
    requires Inv(c, v) && Stores(v.dirs, c.maxIno) && T.ROOT in v.dirs && Allowed(c, v, e.op) && Next(c, v, e, w)
    requires e.op.Enter?
    ensures Good(c, v, e, w)
  {
    hide Inv, Good, Stores, AllTiled, Find, Entered, NewName;
    EnterGood(c, v, e.op.d, e.op.name, e.op.ino, e.op.ftype, e.err, w);
  }

  lemma {:induction false} AsRemove(c: Conf, v: Volume, e: Event, w: Volume)
    requires Inv(c, v) && Stores(v.dirs, c.maxIno) && T.ROOT in v.dirs && Allowed(c, v, e.op) && Next(c, v, e, w)
    requires e.op.Remove?
    ensures Good(c, v, e, w)
  {
    AtIs(v, e.op.d, e.op.name, c.maxIno);
    hide Inv, Good, Stores, AllTiled, Find, Erased, Dots, At;
    RemoveGood(c, v, e.op.d, e.op.name, e.err, w);
  }

  lemma {:induction false} AsMake(c: Conf, v: Volume, e: Event, w: Volume)
    requires Inv(c, v) && Stores(v.dirs, c.maxIno) && T.ROOT in v.dirs && Allowed(c, v, e.op) && Next(c, v, e, w)
    requires e.op.MakeDir?
    ensures Good(c, v, e, w)
  {
    AtIs(v, e.op.d, e.op.name, c.maxIno);
    hide Inv, Good, Stores, AllTiled, Find, MakeStep, NewName, At, FreeInode;
    MakeGood(c, v, e.op.d, e.op.name, e.op.ino, e.op.inode, e.err, w);
  }

  lemma {:induction false} AsRemoveDir(c: Conf, v: Volume, e: Event, w: Volume)
    requires Inv(c, v) && Stores(v.dirs, c.maxIno) && T.ROOT in v.dirs && Allowed(c, v, e.op) && Next(c, v, e, w)
    requires e.op.RemoveDir?
    ensures Good(c, v, e, w)
  {
    AtIs(v, e.op.d, e.op.name, c.maxIno);
    GraphAt(v.dirs, c.maxIno);
    hide Inv, Good, Stores, AllTiled, Find, RemoveStep, Dots, At, Graph, View;
    RemoveDirGood(c, v, e.op.d, e.op.name, At(v, e.op.d, e.op.name, c.maxIno).value.ino, e.err, w);
  }

  lemma {:induction false} AsRename(c: Conf, v: Volume, e: Event, w: Volume)
    requires Inv(c, v) && Stores(v.dirs, c.maxIno) && T.ROOT in v.dirs && Allowed(c, v, e.op) && Next(c, v, e, w)
    requires e.op.Rename?
    ensures Good(c, v, e, w)
  {
    hide Inv, Good, Stores, RenameAll, Dots;
    RenameGood(c, v, e.op.s, e.op.on, e.op.t, e.op.nn, e.err, w);
  }

  lemma {:induction false} AsHanded(c: Conf, v: Volume, e: Event, w: Volume)
    requires Inv(c, v) && Stores(v.dirs, c.maxIno) && T.ROOT in v.dirs && Allowed(c, v, e.op) && Next(c, v, e, w)
    requires e.op.Take? || e.op.Give? || e.op.TakeInode? || e.op.GiveInode?
    ensures Good(c, v, e, w)
  {
    hide *;
    InvParts(c, v);
    EventIs(e);
    HandedStep(c, v, e, w);
    BlocksGood(c, v, e, w);
  }

  /** Blocks and inodes that others take or give back change no directory. */
  lemma {:induction false} HandedStep(c: Conf, v: Volume, e: Event, w: Volume)
    requires Stores(v.dirs, c.maxIno) && T.ROOT in v.dirs && Indexed(v) && Numbered(c, v)
    requires e.op.Take? || e.op.Give? || e.op.TakeInode? || e.op.GiveInode?
    requires Allowed(c, v, e.op) && Next(c, v, e, w)
    ensures w.dirs == v.dirs && e.err == Allocator.Ok && w.free + w.others == v.free + v.others && Numbered(c, w)
    ensures !v.dirs[T.ROOT].ready ==> w.others <= EARLY
  {
    hide Stores, EnterStep, EraseStep, MakeStep, RemoveDirStep, RenameAll;
  }

  // ----- runs

  ghost predicate Run(c: Conf, vs: seq<Volume>, es: seq<Event>) {
    && |vs| == |es| + 1
    && forall i :: 0 <= i < |es| ==>
         Stores(vs[i].dirs, c.maxIno) && T.ROOT in vs[i].dirs && Allowed(c, vs[i], es[i].op) && Next(c, vs[i], es[i], vs[i + 1])
  }

  /** A new filesystem: the root directory with its two dots and without an index. `found` is what the block that is to
      become its index shows, which mkfs does not clear. */
  function New(c: Conf, p: Mkfs.Plan, found: Option<Index>): Volume
    requires p.groupCount > 0 && p.Total() >= 0
  {
    Volume(map[T.ROOT := Stored([InitBlock(T.ROOT, T.ROOT)], !c.indexed, c.hash, if c.indexed then found else None)],
           p.Total(), 0, {})
  }

  lemma {:induction false} NewInv(c: Conf, p: Mkfs.Plan, found: Option<Index>)
    requires p.Real() && p.Tail() >= Mkfs.GROUP_META && T.ROOT <= c.maxIno < INO_LIMIT && Readable(found)
    ensures p.groupCount > 0 && p.Total() >= 0 && Inv(c, New(c, p, found))
  {
    Mkfs.RealHasRoom(p);
    Mkfs.RealIsOk(p);
    assert p.groupCount > 0;
    var v, maxIno := New(c, p, found), c.maxIno;
    var a := v.dirs[T.ROOT];
    assert v.dirs.Keys == {T.ROOT} && a.blocks == [InitBlock(T.ROOT, T.ROOT)] && Readable(a.index) && a.hash == c.hash;
    assert v.free == p.Total() && v.others == 0 && v.inodes == {};
    assert 0 < T.ROOT;
    hide *;
    NewView(T.ROOT, T.ROOT, maxIno);
    StoresAll(v.dirs, maxIno);
    var ds := map[T.ROOT := T.Dir(T.ROOT, map[])];
    GraphIs(v.dirs, ds, maxIno);
    RootAlone(maxIno);
    OnlyDotsFound(a, maxIno);
    NewFits(c, v);
  }

  lemma {:induction false} NewFits(c: Conf, v: Volume)
    requires v.dirs.Keys == {T.ROOT} && |v.dirs[T.ROOT].blocks| == 1 && v.others == 0 && v.free >= ROOM
    requires v.inodes == {}
    requires v.dirs[T.ROOT].hash == c.hash && AllFound(v.dirs[T.ROOT], c.maxIno)
    requires c.maxIno < INO_LIMIT && Stores(v.dirs, c.maxIno) && T.Valid(Graph(v.dirs, c.maxIno), c.maxIno)
    ensures Inv(c, v)
  {
    hide AllFound, Stores, T.Valid, Graph, InOrder;
  }

  /** A directory that holds nothing but its dots hides no other name. */
  lemma {:induction false} OnlyDotsFound(a: Stored, maxIno: nat)
    requires T.ROOT <= maxIno < INO_LIMIT && a.blocks == [InitBlock(T.ROOT, T.ROOT)] && Readable(a.index)
    ensures AllFound(a, maxIno)
  {
    InitDirOk(T.ROOT, T.ROOT, maxIno);
    hide InitBlock, DirOk, Find;
    forall n: Name | !Dots(n) ensures Finds(a, n, maxIno) {
      AbsentFound(a, n, maxIno);
    }
  }

  lemma {:induction false} RootAlone(maxIno: nat)
    requires T.ROOT <= maxIno
    ensures T.Valid(map[T.ROOT := T.Dir(T.ROOT, map[])], maxIno)
  {
    assert T.Depth(map[T.ROOT := T.Dir(T.ROOT, map[])], T.ROOT, 0);
  }

  lemma {:induction false} RunParts(c: Conf, vs: seq<Volume>, es: seq<Event>, i: nat)
    requires Run(c, vs, es) && i < |es|
    ensures |vs| == |es| + 1 && Stores(vs[i].dirs, c.maxIno) && T.ROOT in vs[i].dirs && Allowed(c, vs[i], es[i].op)
    ensures Next(c, vs[i], es[i], vs[i + 1])
  {
    hide Stores, Allowed, Next;
  }

  lemma {:induction false} GoodInv(c: Conf, v: Volume, e: Event, w: Volume)
    requires Inv(c, v) && Good(c, v, e, w)
    ensures Inv(c, w)
  {
    SearchableStill(c, v, w);
    hide Graph, Stores, SameDirs, T.Valid, T.Step, T.Allowed, EventOf, Indexed, Numbered, Searchable, Orderly;
    if EventOf(e).Some? {
      T.StepKeeps(Graph(v.dirs, c.maxIno), EventOf(e).value, c.maxIno);
    }
  }

  /** In every run from a new filesystem on, the stored directories are a tree with entries and `..` links that agree, no
      index hides a name, each operation is that of the graph, and one that fails has changed the map of no directory. */
  lemma {:induction false} RunsAllOrNothing(c: Conf, p: Mkfs.Plan, found: Option<Index>, vs: seq<Volume>,
                                            es: seq<Event>, i: nat)
    requires p.Real() && p.Tail() >= Mkfs.GROUP_META && T.ROOT <= c.maxIno < INO_LIMIT && Readable(found)
    requires Run(c, vs, es) && i < |vs|
    requires p.groupCount > 0 && p.Total() >= 0 && vs[0] == New(c, p, found)
    ensures Inv(c, vs[i])
    ensures i < |es| ==> Good(c, vs[i], es[i], vs[i + 1])
    decreases i
  {
    hide *;
    NewInv(c, p, found);
    if i > 0 {
      RunsAllOrNothing(c, p, found, vs, es, i - 1);
      RunLength(c, vs, es);
      GoodInv(c, vs[i - 1], es[i - 1], vs[i]);
    }
    if i < |es| {
      RunParts(c, vs, es, i);
      StepGood(c, vs[i], es[i], vs[i + 1]);
    }
  }

  lemma {:induction false} RunLength(c: Conf, vs: seq<Volume>, es: seq<Event>)
    requires Run(c, vs, es)
    ensures |vs| == |es| + 1
  {
  }
}
