/** Blocks that are recorded after they were changed. */
module UndoLate {
  import opened UndoLayout
  import opened UndoSpec
  import opened UndoCrash

  /** A change in the buffer cache, and the record of the block behind it. Until the block is marked dirty the change
      may reach the medium only if the buffer was dirty before; here it always may, which adds crashes but changes
      neither the result of a completed operation nor any condition below. */
  function LateActs(g: Geometry, v: Vol, home: nat, value: Block): seq<Act>
    requires g.Wf()
  {
    [Lazy(home, value)] + RecordOp(g, v, home, value).acts
  }

  /** Is a block saved for the first time in this transaction? */
  predicate FirstRecord(g: Geometry, v: Vol, home: nat) {
    g.Recordable(home) && home !in v.homes && |v.homes| < g.Capacity()
  }

  /** What recovery brings back after a crash that left `e`, when `k` of these actions were done: a block that is saved
      too late keeps whatever the medium holds until the record is complete, and its new content from then on. */
  function LateImage(g: Geometry, v: Vol, img: Disk, home: nat, value: Block, k: nat, e: Disk): Disk
    requires |img| == |e| == g.blocksCount
  {
    if FirstRecord(g, v, home) then img[home := if k == 4 then value else e[home]] else img
  }

  // ----- the change as one of two settled changes

  /** On which values a crash may find, a lazy change is a choice between no change and a settled one. */
  lemma {:induction false} LazyBranch(st: Store, home: nat, value: Block, acts: seq<Act>, x: Block)
    requires |st.view| == |st.may| && home < |st.view| && x in st.may[home] + {value}
    requires forall i :: 0 <= i < |acts| ==> acts[i].Sync? && acts[i].block != home
    ensures var a, b := PerformAll(Perform(st, Lazy(home, value)), acts), PerformAll(Perform(st, Sync(home, x)), acts);
            && a.may == b.may[home := st.may[home] + {value}] && b.may[home] == {x}
            && a.view == b.view[home := value] && b.view[home] == x
  {
    if acts != [] {
      var init := acts[..|acts| - 1];
      assert forall i :: 0 <= i < |init| ==> init[i] == acts[i];
      LazyBranch(st, home, value, init, x);
    }
  }

  lemma {:induction false} RecordShape(g: Geometry, v: Vol, home: nat, value: Block)
    requires g.Wf() && |v.homes| <= g.Capacity()
    ensures var acts := RecordOp(g, v, home, value).acts;
            && |acts| == (if FirstRecord(g, v, home) then 3 else 0)
            && (forall i :: 0 <= i < |acts| ==> acts[i].Sync? && acts[i].block != home)
    ensures RecordOp(g, v, home, value).vol == if FirstRecord(g, v, home) then v.(homes := v.homes + [home]) else v
  {
    hide MakeDescriptor, MakeCommit;
  }

  /** Setting a block that is not recorded to `x` is the same transaction over another image. */
  lemma {:induction false} OtherImage(g: Geometry, st: Store, v: Vol, img: Disk, home: nat, x: Block)
    requires InTransaction(g, st, v, img) && home < g.blocksCount && !g.Internal(home) && home !in v.homes
    ensures InTransaction(g, Perform(st, Sync(home, x)), v, img[home := x])
  {
    hide MakeControl, MakeDescriptor, MakeCommit;
  }

  /** The value of a recorded block on the medium does not matter. */
  lemma {:induction false} RecordedFree(g: Geometry, b: Store, v: Vol, img: Disk, home: nat, value: Block,
                                        values: set<Block>)
    requires InTransaction(g, b, v, img) && home in v.homes && value in values
    ensures InTransaction(g, Store(b.view[home := value], b.may[home := values]), v, img)
  {
    hide MakeControl, MakeDescriptor, MakeCommit;
  }

  // ----- stages

  /** The actions of a late change, cut behind the change itself. */
  lemma {:induction false} LatePrefix(g: Geometry, st: Store, v: Vol, home: nat, value: Block, k: nat)
    requires g.Wf() && |st.view| == |st.may| && 1 <= k <= |LateActs(g, v, home, value)|
    ensures PerformAll(st, LateActs(g, v, home, value)[..k])
            == PerformAll(Perform(st, Lazy(home, value)), RecordOp(g, v, home, value).acts[..k - 1])
  {
    hide RecordOp, PerformAll, Perform;
    var r := RecordOp(g, v, home, value).acts;
    assert LateActs(g, v, home, value)[..k] == [Lazy(home, value)] + r[..k - 1];
    PerformAppend(st, [Lazy(home, value)], r[..k - 1]);
    PerformOne(st, Lazy(home, value));
  }

  /** A change before its record, cut off anywhere by a crash: exactly what recovery brings back. */
  lemma {:induction false} LateCrash(g: Geometry, st: Store, v: Vol, img: Disk, home: nat, value: Block, k: nat,
                                     e: Disk)
    requires InTransaction(g, st, v, img) && home < g.blocksCount && FirstRecord(g, v, home)
    requires g.Wf() && |st.view| == |st.may| == |img| && 1 <= k <= |LateActs(g, v, home, value)|
    requires Crash(PerformAll(st, LateActs(g, v, home, value)[..k]), e)
    ensures |e| == |img| == g.blocksCount && Undoable(g, e, LateImage(g, v, img, home, value, k, e))
  {
    LatePrefix(g, st, v, home, value, k);
    var r := RecordOp(g, v, home, value).acts;
    LateBasics(g, st, v, img, home, value);
    var acts := r[..k - 1];
    var f := PerformAll(Perform(st, Lazy(home, value)), acts);
    var x := if k == 4 then value else e[home];
    assert e[home] in f.may[home];
    LazyBranch(st, home, value, acts, value);
    LazyBranch(st, home, value, acts, x);
    var b := PerformAll(Perform(st, Sync(home, x)), acts);
    hide InTransaction, PerformAll, Perform, Undoable, RecordOp, FirstRecord;
    OtherImage(g, st, v, img, home, x);
    RecordStages(g, Perform(st, Sync(home, x)), v, img[home := x], home, value, k - 1);
    if k == 4 {
      assert acts == r;
      var w := RecordOp(g, v, home, value).vol;
      RecordedFree(g, b, w, img[home := value], home, value, f.may[home]);
      assert f == Store(b.view[home := value], b.may[home := f.may[home]]);
      TransactionCrash(g, f, w, img[home := value], e);
    } else {
      assert Crash(b, e);
    }
  }

  lemma {:induction false} LateBasics(g: Geometry, st: Store, v: Vol, img: Disk, home: nat, value: Block)
    requires InTransaction(g, st, v, img) && home < g.blocksCount
    ensures |st.may| == |st.view| == g.blocksCount && !(home in v.homes && !g.Recordable(home))
    ensures g.Kept(home) && home !in v.homes ==> st.may[home] == {img[home]} && st.view[home] == img[home]
    ensures var acts := RecordOp(g, v, home, value).acts;
            && |acts| == (if FirstRecord(g, v, home) then 3 else 0)
            && (forall i :: 0 <= i < |acts| ==> acts[i].Sync? && acts[i].block != home)
    ensures RecordOp(g, v, home, value).vol == if FirstRecord(g, v, home) then v.(homes := v.homes + [home]) else v
  {
    RecordShape(g, v, home, value);
    InTransactionBasics(g, st, v, img);
  }

  /** The open transaction behind a late change. */
  lemma {:induction false} LateDone(g: Geometry, st: Store, v: Vol, img: Disk, home: nat, value: Block)
    requires InTransaction(g, st, v, img) && home < g.blocksCount && FirstRecord(g, v, home)
    requires g.Wf() && |st.view| == |st.may| == |img|
    ensures InTransaction(g, PerformAll(st, LateActs(g, v, home, value)), RecordOp(g, v, home, value).vol, img[home := value])
  {
    LateBasics(g, st, v, img, home, value);
    var acts := RecordOp(g, v, home, value).acts;
    var all := LateActs(g, v, home, value);
    assert |all| == 4 && all[..4] == all && acts[..3] == acts;
    LatePrefix(g, st, v, home, value, 4);
    LazyBranch(st, home, value, acts, value);
    var f := PerformAll(st, all);
    var b := PerformAll(Perform(st, Sync(home, value)), acts);
    var w := RecordOp(g, v, home, value).vol;
    assert home in w.homes && |RecordOp(g, v, home, value).acts| == 3;
    assert value in f.may[home];
    hide InTransaction, PerformAll, Perform, RecordOp, FirstRecord;
    OtherImage(g, st, v, img, home, value);
    RecordStages(g, Perform(st, Sync(home, value)), v, img[home := value], home, value, 3);
    RecordedFree(g, b, w, img[home := value], home, value, f.may[home]);
    assert f == Store(b.view[home := value], b.may[home := f.may[home]]);
  }

  /** A change that does not save the block for the first time: only a block that is saved already, one that is never
      saved, or one that keeps its content may be changed. */
  lemma {:induction false} LatePlain(g: Geometry, st: Store, v: Vol, img: Disk, home: nat, value: Block)
    requires InTransaction(g, st, v, img) && home < g.blocksCount && !g.Internal(home) && !FirstRecord(g, v, home)
    requires home in v.homes || !g.Kept(home) || value == img[home]
    ensures g.Wf() && |st.view| == |st.may|
    ensures |LateActs(g, v, home, value)| == 1 && RecordOp(g, v, home, value).vol == v
    ensures InTransaction(g, PerformAll(st, LateActs(g, v, home, value)), v, img)
  {
    LateBasics(g, st, v, img, home, value);
    assert LateActs(g, v, home, value) == [Lazy(home, value)];
    PerformOne(st, Lazy(home, value));
    if home in v.homes || !g.Kept(home) {
      HomeWrite(g, st, v, img, home, value);
    } else {
      SameValue(st, home, value);
    }
  }

  lemma {:induction false} SameValue(st: Store, home: nat, value: Block)
    requires |st.view| == |st.may| && home < |st.view| && st.view[home] == value && st.may[home] == {value}
    ensures Perform(st, Lazy(home, value)) == st
  {
    assert st.may[home] + {value} == {value};
    assert st.view[home := value] == st.view && st.may[home := st.may[home] + {value}] == st.may;
  }

  /** Is it known what recovery brings back when the block is changed now and recorded afterwards? Only a change that a
      full journal cannot record is excluded. */
  predicate LateGuard(g: Geometry, v: Vol, home: nat, value: Block, now: Block) {
    && home < g.blocksCount && !g.Internal(home)
    && (g.Kept(home) && home !in v.homes && |v.homes| >= g.Capacity() ==> value == now)
  }

  /** Every prefix of a late change, and the transaction behind it. */
  lemma {:induction false} LateStages(g: Geometry, st: Store, v: Vol, img: Disk, home: nat, value: Block, k: nat)
    requires InTransaction(g, st, v, img) && g.Wf() && |st.view| == |st.may| == |img| == g.blocksCount
    requires home < g.blocksCount && LateGuard(g, v, home, value, st.view[home])
    requires k <= |LateActs(g, v, home, value)|
    ensures forall e :: Crash(PerformAll(st, LateActs(g, v, home, value)[..k]), e) ==>
              |e| == g.blocksCount && Undoable(g, e, LateImage(g, v, img, home, value, k, e))
    ensures k == |LateActs(g, v, home, value)| ==>
              InTransaction(g, PerformAll(st, LateActs(g, v, home, value)), RecordOp(g, v, home, value).vol,
                            if FirstRecord(g, v, home) then img[home := value] else img)
  {
    var acts := LateActs(g, v, home, value);
    var f := PerformAll(st, acts[..k]);
    assert acts[..|acts|] == acts;
    LateBasics(g, st, v, img, home, value);
    if k == 0 {
      PerformNone(st);
      assert acts[..0] == [] && |acts| > 0;
      hide *;
      forall e | Crash(f, e) ensures |e| == g.blocksCount && Undoable(g, e, LateImage(g, v, img, home, value, 0, e)) {
        TransactionCrash(g, st, v, img, e);
        UnchangedImage(g, st, v, img, home, value, e);
      }
    } else if FirstRecord(g, v, home) {
      assert |acts| == 4;
      hide *;
      forall e | Crash(f, e) ensures |e| == g.blocksCount && Undoable(g, e, LateImage(g, v, img, home, value, k, e)) {
        LateCrash(g, st, v, img, home, value, k, e);
      }
      LateDone(g, st, v, img, home, value);
    } else {
      LatePlain(g, st, v, img, home, value);
      hide *;
      forall e | Crash(f, e) ensures |e| == g.blocksCount && Undoable(g, e, LateImage(g, v, img, home, value, k, e)) {
        TransactionCrash(g, f, v, img, e);
        PlainImage(g, st, v, img, home, value, k, e);
      }
    }
  }

  lemma {:induction false} UnchangedImage(g: Geometry, st: Store, v: Vol, img: Disk, home: nat, value: Block, e: Disk)
    requires InTransaction(g, st, v, img) && home < g.blocksCount && Crash(st, e) && Undoable(g, e, img)
    ensures |e| == |img| == g.blocksCount && Undoable(g, e, LateImage(g, v, img, home, value, 0, e))
  {
    if g.Kept(home) {
      assert e[home] in st.may[home];
      assert img[home := img[home]] == img;
    } else {
      assert forall b :: 0 <= b < |img| && b != home ==> img[home := e[home]][b] == img[b];
      hide ControlValid, DescriptorValid, CommitValid;
    }
  }

  lemma {:induction false} PlainImage(g: Geometry, st: Store, v: Vol, img: Disk, home: nat, value: Block, k: nat,
                                      e: Disk)
    requires InTransaction(g, st, v, img) && home < g.blocksCount && !FirstRecord(g, v, home) && Undoable(g, e, img)
    ensures |e| == |img| == g.blocksCount && LateImage(g, v, img, home, value, k, e) == img
  {
  }

  // ----- when a late change is undone

  /** A mount of the medium `d` succeeds, and programs then read the image on every block that can be recorded. */
  ghost predicate Recovers(g: Geometry, d: Disk, img: Disk) {
    && g.Wf() && |d| == g.blocksCount
    && var r := ReplayOp(g, d);
       r.err == Ok && SameHomes(g, PerformAll(Settled(d), r.restores).view, img)
  }

  /** Main result on the order of change and record. Every crash behind a change that is recorded afterwards leads back
      to the contents at begin exactly when the block was recorded before, or can never be, or did not change. */
  lemma {:induction false} LateRecordExactly(g: Geometry, st: Store, v: Vol, img: Disk, home: nat, value: Block)
    requires InTransaction(g, st, v, img) && home < g.blocksCount && !g.Internal(home)
    ensures g.Wf() && |st.view| == |st.may| == |img| == g.blocksCount
    ensures (forall e :: Crash(PerformAll(st, LateActs(g, v, home, value)), e) ==> Recovers(g, e, img))
            <==> home in v.homes || !g.Kept(home) || value == img[home]
  {
    LateBasics(g, st, v, img, home, value);
    var acts := LateActs(g, v, home, value);
    assert acts[..|acts|] == acts;
    var f := PerformAll(st, acts);
    if home in v.homes || !g.Kept(home) || value == img[home] {
      UndoneWhen(g, st, v, img, home, value);
    } else {
      hide *;
      var e := NotUndone(g, st, v, img, home, value);
      SameHome(g, e, img, img[home := value], home);
    }
  }

  lemma {:induction false} UndoneWhen(g: Geometry, st: Store, v: Vol, img: Disk, home: nat, value: Block)
    requires InTransaction(g, st, v, img) && home < g.blocksCount && !g.Internal(home) && g.Wf()
    requires |st.view| == |st.may|
    requires home in v.homes || !g.Kept(home) || value == img[home]
    ensures forall e :: Crash(PerformAll(st, LateActs(g, v, home, value)), e) ==> Recovers(g, e, img)
  {
    var f, w := PerformAll(st, LateActs(g, v, home, value)), RecordOp(g, v, home, value).vol;
    assert InTransaction(g, f, w, img) by {
      if FirstRecord(g, v, home) {
        LateDone(g, st, v, img, home, value);
        assert img[home := img[home]] == img;
      } else {
        LatePlain(g, st, v, img, home, value);
      }
    }
    hide InTransaction, LateActs, PerformAll, ReplayOp, SameHomes;
    forall e | Crash(f, e) ensures Recovers(g, e, img) {
      TransactionCrash(g, f, w, img, e);
      ReplayRestores(g, e, img);
    }
  }

  /** A crash behind a late change that recovery leaves with the new content. */
  lemma {:induction false} NotUndone(g: Geometry, st: Store, v: Vol, img: Disk, home: nat, value: Block)
    returns (e: Disk)
    requires InTransaction(g, st, v, img) && g.Kept(home) && home !in v.homes
    ensures g.Wf() && |st.view| == |st.may| == |img| == g.blocksCount
    ensures Crash(PerformAll(st, LateActs(g, v, home, value)), e) && Recovers(g, e, img[home := value])
  {
    LateBasics(g, st, v, img, home, value);
    var acts := RecordOp(g, v, home, value).acts;
    var all := LateActs(g, v, home, value);
    assert all[..|all|] == all && acts[..|acts|] == acts;
    LatePrefix(g, st, v, home, value, |all|);
    LazyBranch(st, home, value, acts, value);
    var b, w := PerformAll(Perform(st, Sync(home, value)), acts), RecordOp(g, v, home, value).vol;
    var f := PerformAll(st, all);
    hide InTransaction, PerformAll, Perform, RecordOp, FirstRecord, ReplayOp, SameHomes, LateActs;
    OtherImage(g, st, v, img, home, value);
    RecordStages(g, Perform(st, Sync(home, value)), v, img[home := value], home, value, |acts|);
    InTransactionBasics(g, b, w, img[home := value]);
    TransactionOk(g, b, w, img[home := value]);
    e := b.view;
    TransactionCrash(g, b, w, img[home := value], e);
    ReplayRestores(g, e, img[home := value]);
    assert forall i :: 0 <= i < |e| && i != home ==> f.may[i] == b.may[i];
  }

  lemma {:induction false} TransactionOk(g: Geometry, st: Store, v: Vol, img: Disk)
    requires InTransaction(g, st, v, img)
    ensures StoreOk(st, g.blocksCount) && Crash(st, st.view)
  {
  }

  /** Recovery brings back one content. */
  lemma {:induction false} SameHome(g: Geometry, e: Disk, img: Disk, other: Disk, home: nat)
    requires Recovers(g, e, other) && g.Kept(home) && |img| == |other| && img[home] != other[home]
    ensures !Recovers(g, e, img)
  {
    hide ReplayOp, PerformAll;
  }
}
