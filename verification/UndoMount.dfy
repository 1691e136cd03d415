/** Mounts with the undo journal. */
module UndoMount {
  import opened UndoLayout
  import opened UndoSpec
  import opened UndoCrash
  import opened UndoFlag

  // ----- mounting

  /** Everything a mount does to the device. */
  function ReplayActs(g: Geometry, d: Disk): seq<Act>
    requires g.Wf() && |d| == g.blocksCount
  {
    ReplayOp(g, d).restores + ReplayOp(g, d).finish
  }

  /** The store when all restores have been made. */
  lemma {:induction false} RestoredStore(g: Geometry, d: Disk, img: Disk)
    requires Undoable(g, d, img)
    ensures var st := PerformAll(Settled(d), ReplayOp(g, d).restores);
            && StoreOk(st, g.blocksCount) && SameHomes(g, st.view, img)
            && (forall b: nat :: b < |d| && g.Internal(b) ==> st.may[b] == {d[b]} && st.view[b] == d[b])
            && (forall b: nat, x :: g.Kept(b) && x in st.may[b] ==> x == d[b] || x == img[b])
            && (forall b: nat :: b < |d| ==> d[b] in st.may[b])
  {
    hide ReplayOp;
    UndoableActs(g, d, img);
    ReplayRestores(g, d, img);
    var acts := ReplayOp(g, d).restores;
    PerformAllOk(Settled(d), acts, g.blocksCount);
    hide PerformAll;
    forall b: nat | b < |d|
      ensures var st := PerformAll(Settled(d), acts);
              && (g.Internal(b) ==> st.may[b] == {d[b]} && st.view[b] == d[b])
              && (g.Kept(b) ==> forall x :: x in st.may[b] ==> x == d[b] || x == img[b])
              && d[b] in st.may[b]
    {
      RestoreStore(g, d, img, acts, b);
    }
  }

  /** What replay does behind its restores, and why the sequence number it ends with is high enough. */
  lemma {:induction false} ReplayShape(g: Geometry, d: Disk, img: Disk)
    requires Undoable(g, d, img)
    ensures var r := ReplayOp(g, d);
            && (d[g.CommitBlock()].Commit? ==> d[g.CommitBlock()].sequence <= r.sequence)
            && r.finish == (if d[g.journalBlock].active == 0 then [Barrier]
                            else if Restores(g, d) then [Barrier] + (ResetActs(g, r.sequence) + [Barrier])
                            else ResetActs(g, r.sequence) + [Barrier])
            && (!Restores(g, d) ==> r.restores == [] && SameHomes(g, d, img))
            && (d[g.journalBlock].active == 0 ==>
                  !Restores(g, d) && ControlValid(g, d[g.journalBlock]) && d[g.journalBlock].last == r.sequence)
  {
    UndoableActs(g, d, img);
    assert forall x: seq<Act> :: [Barrier] + x + [Barrier] == [Barrier] + (x + [Barrier]);
  }

  lemma {:induction false} UndoableBasics(g: Geometry, d: Disk, img: Disk)
    requires Undoable(g, d, img)
    ensures g.Wf() && |d| == |img| == g.blocksCount && g.journalBlock < |d| && d[g.journalBlock].Control?
    ensures g.CommitBlock() < g.blocksCount
  {
  }

  /** The reset of the journal over settled homes, and the flush behind it. */
  lemma {:induction false} FinishStages(g: Geometry, st: Store, last: nat, img: Disk, k: nat)
    requires g.Wf() && StoreOk(st, g.blocksCount) && |img| == g.blocksCount && 1 <= k <= 4
    requires forall m :: m in st.may[g.CommitBlock()] && m.Commit? ==> m.sequence <= last
    requires forall b: nat :: g.Kept(b) ==> st.may[b] == {img[b]}
    ensures Idle(g, PerformAll(st, (ResetActs(g, last) + [Barrier])[..k]), Vol(last, []), img)
  {
    ResetLength(g, last);
    var reset := ResetActs(g, last);
    hide ResetActs, PerformAll, Idle;
    if k <= 3 {
      assert (reset + [Barrier])[..k] == reset[..k];
      ResetStages(g, st, last, img, k);
    } else {
      assert (reset + [Barrier])[..k] == reset + [Barrier] && reset[..3] == reset;
      ResetStages(g, st, last, img, 3);
      PerformAppend(st, reset, [Barrier]);
      PerformOne(PerformAll(st, reset), Barrier);
      SettledKeeps(g, PerformAll(st, reset), Vol(last, []), img);
    }
  }

  /** A medium with an idle control block needs nothing but the flush. */
  lemma {:induction false} IdleMount(g: Geometry, d: Disk, img: Disk)
    requires Undoable(g, d, img) && d[g.journalBlock].active == 0
    ensures Idle(g, Settled(d), Vol(ReplayOp(g, d).sequence, []), img)
  {
    ReplayShape(g, d, img);
    hide ReplayOp, Restores, ControlValid;
  }

  /** The store behind the restores, and behind the flush that follows them when there are any. */
  ghost function Flushed(g: Geometry, d: Disk): Store
    requires g.Wf() && |d| == g.blocksCount
  {
    Settled(PerformAll(Settled(d), ReplayOp(g, d).restores).view)
  }

  /** It holds exactly the image, and an untouched journal. */
  lemma {:induction false} FlushedImage(g: Geometry, d: Disk, img: Disk)
    requires Undoable(g, d, img)
    ensures var st := Flushed(g, d);
            && StoreOk(st, g.blocksCount)
            && (forall m :: m in st.may[g.CommitBlock()] && m.Commit? ==> m.sequence <= ReplayOp(g, d).sequence)
            && (forall b: nat :: g.Kept(b) ==> st.may[b] == {img[b]})
  {
    RestoredStore(g, d, img);
    ReplayShape(g, d, img);
    hide ReplayOp, PerformAll, Undoable, Restores;
    UndoableBasics(g, d, img);
  }

  /** Actions, a flush, and some of the actions behind it. */
  lemma {:induction false} PerformPieces(st: Store, a: seq<Act>, c: seq<Act>, k: nat)
    requires |st.view| == |st.may| && k <= |c|
    ensures var s, flushed := a + ([Barrier] + c), Settled(PerformAll(st, a).view);
            && |s| == |a| + 1 + |c|
            && PerformAll(st, s[..|a| + 1]) == flushed
            && PerformAll(st, s[..|a| + 1 + k]) == PerformAll(flushed, c[..k])
  {
    hide PerformAll;
    var s := a + ([Barrier] + c);
    assert s[..|a| + 1] == a + [Barrier];
    PerformAppend(st, a, [Barrier]);
    PerformOne(PerformAll(st, a), Barrier);
    assert s[..|a| + 1 + k] == s[..|a| + 1] + c[..k];
    PerformAppend(st, s[..|a| + 1], c[..k]);
  }

  /** Replay that restores something is the flushed store and then the reset. */
  lemma {:induction false} RestoringIs(g: Geometry, d: Disk, img: Disk, k: nat)
    requires Undoable(g, d, img) && Restores(g, d) && k <= 4
    ensures var n := |ReplayOp(g, d).restores| + 1;
            && |ReplayActs(g, d)| == n + 4
            && PerformAll(Settled(d), ReplayActs(g, d)[..n]) == Flushed(g, d)
            && PerformAll(Settled(d), ReplayActs(g, d)[..n + k])
               == PerformAll(Flushed(g, d), (ResetActs(g, ReplayOp(g, d).sequence) + [Barrier])[..k])
  {
    hide *;
    UndoableBasics(g, d, img);
    ReplayShape(g, d, img);
    ReplayActsAre(g, d);
    FlushedIs(g, d);
    var r := ReplayOp(g, d);
    ResetLength(g, r.sequence);
    ActiveWhenRestoring(g, d);
    PerformPieces(Settled(d), r.restores, ResetActs(g, r.sequence) + [Barrier], k);
  }

  lemma {:induction false} FlushedIs(g: Geometry, d: Disk)
    requires g.Wf() && |d| == g.blocksCount
    ensures Flushed(g, d) == Settled(PerformAll(Settled(d), ReplayOp(g, d).restores).view)
  {
  }

  lemma {:induction false} ActiveWhenRestoring(g: Geometry, d: Disk)
    requires g.Wf() && |d| == g.blocksCount && d[g.journalBlock].Control? && Restores(g, d)
    ensures d[g.journalBlock].active != 0
  {
  }

  /** Replay of an active journal with nothing to restore is the reset. */
  lemma {:induction false} PlainIs(g: Geometry, d: Disk, img: Disk)
    requires Undoable(g, d, img) && !Restores(g, d) && d[g.journalBlock].active != 0
    ensures ReplayActs(g, d) == ResetActs(g, ReplayOp(g, d).sequence) + [Barrier] && |ReplayActs(g, d)| == 4
    ensures Flushed(g, d) == Settled(d)
  {
    ReplayShape(g, d, img);
    ResetLength(g, ReplayOp(g, d).sequence);
    PerformNone(Settled(d));
    hide ReplayOp, ResetActs, PerformAll, Undoable, Restores;
  }

  /** Some of the reset behind the flushed store. */
  lemma {:induction false} BehindFlush(g: Geometry, d: Disk, img: Disk, n: nat, k: nat)
    requires Undoable(g, d, img) && d[g.journalBlock].active != 0 && 1 <= k <= 4
    requires n == if Restores(g, d) then |ReplayOp(g, d).restores| + 1 else 0
    ensures |ReplayActs(g, d)| == n + 4
    ensures Idle(g, PerformAll(Settled(d), ReplayActs(g, d)[..n + k]), Vol(ReplayOp(g, d).sequence, []), img)
  {
    hide *;
    UndoableBasics(g, d, img);
    FlushedImage(g, d, img);
    FinishStages(g, Flushed(g, d), ReplayOp(g, d).sequence, img, k);
    if Restores(g, d) {
      RestoringIs(g, d, img, k);
    } else {
      PlainIs(g, d, img);
    }
  }

  /** A completed replay leaves the idle state with exactly the image. */
  lemma {:induction false} MountDone(g: Geometry, d: Disk, img: Disk)
    requires Undoable(g, d, img)
    ensures Idle(g, PerformAll(Settled(d), ReplayActs(g, d)), Vol(ReplayOp(g, d).sequence, []), img)
  {
    hide *;
    UndoableBasics(g, d, img);
    ReplayActsAre(g, d);
    ReplayShape(g, d, img);
    var acts := ReplayActs(g, d);
    if d[g.journalBlock].active == 0 {
      assert acts == [Barrier];
      IdleMount(g, d, img);
      PerformOne(Settled(d), Barrier);
      SettledTwice(d);
    } else {
      var n := if Restores(g, d) then |ReplayOp(g, d).restores| + 1 else 0;
      BehindFlush(g, d, img, n, 4);
      assert acts[..|acts|] == acts;
    }
  }

  lemma {:induction false} SettledTwice(d: Disk)
    ensures Perform(Settled(d), Barrier) == Settled(d)
  {
  }

  /** A crash anywhere in a replay leads back to the image. */
  lemma {:induction false} MountCrash(g: Geometry, d: Disk, img: Disk, k: nat, e: Disk)
    requires Undoable(g, d, img) && k <= |ReplayActs(g, d)|
    requires Crash(PerformAll(Settled(d), ReplayActs(g, d)[..k]), e)
    ensures Undoable(g, e, img)
  {
    hide *;
    UndoableBasics(g, d, img);
    ReplayActsAre(g, d);
    ReplayShape(g, d, img);
    var r := ReplayOp(g, d);
    var acts, n := ReplayActs(g, d), |r.restores|;
    if k <= n {
      assert acts[..k] == r.restores[..k];
      RestoreRestart(g, d, img, k, e);
    } else if d[g.journalBlock].active == 0 {
      assert acts[..k] == acts;
      MountDone(g, d, img);
      IdleCrash(g, PerformAll(Settled(d), acts), Vol(r.sequence, []), img, e);
    } else if Restores(g, d) && k == n + 1 {
      CrashAtFlush(g, d, img, e);
    } else {
      var m := if Restores(g, d) then n + 1 else 0;
      BehindFlush(g, d, img, m, 1);
      BehindFlush(g, d, img, m, k - m);
      IdleCrash(g, PerformAll(Settled(d), acts[..k]), Vol(r.sequence, []), img, e);
    }
  }

  lemma {:induction false} ReplayActsAre(g: Geometry, d: Disk)
    requires g.Wf() && |d| == g.blocksCount
    ensures ReplayActs(g, d) == ReplayOp(g, d).restores + ReplayOp(g, d).finish
  {
    hide ReplayOp;
  }

  /** Right behind the flush. */
  lemma {:induction false} CrashAtFlush(g: Geometry, d: Disk, img: Disk, e: Disk)
    requires Undoable(g, d, img) && Restores(g, d)
    requires |ReplayActs(g, d)| > |ReplayOp(g, d).restores|
    requires Crash(PerformAll(Settled(d), ReplayActs(g, d)[..|ReplayOp(g, d).restores| + 1]), e)
    ensures Undoable(g, e, img)
  {
    UndoableBasics(g, d, img);
    RestoringIs(g, d, img, 0);
    RestoredStore(g, d, img);
    var r := ReplayOp(g, d);
    assert r.restores[..|r.restores|] == r.restores;
    hide ReplayOp, PerformAll, ResetActs, Undoable, Crash, Restores, ReplayActs;
    SettledCrash(PerformAll(Settled(d), r.restores), e);
    RestoreRestart(g, d, img, |r.restores|, e);
  }

  /** The flush between the restores and the reset is what makes replay safe. Without it, every crash behind the
      reset would lead back to the image exactly when there was nothing to restore. */
  lemma {:induction false} FlushNeededExactly(g: Geometry, d: Disk, img: Disk)
    requires Undoable(g, d, img) && d[g.journalBlock].active != 0
    ensures var r := ReplayOp(g, d);
            (forall e :: Crash(PerformAll(Settled(d), r.restores + ResetActs(g, r.sequence)), e) ==> Undoable(g, e, img))
            <==> SameHomes(g, d, img)
  {
    hide ReplayOp, PerformAll, ResetActs, Restores;
    var r := ReplayOp(g, d);
    var reset := ResetActs(g, r.sequence);
    ReplayShape(g, d, img);
    RestoredStore(g, d, img);
    var st := PerformAll(Settled(d), r.restores);
    PerformAppend(Settled(d), r.restores, reset);
    var f := PerformAll(Settled(d), r.restores + reset);
    ResetLength(g, r.sequence);
    assert reset[..3] == reset;
    if SameHomes(g, d, img) {
      forall b: nat | g.Kept(b) ensures st.may[b] == {img[b]} {
        assert forall x :: x in st.may[b] ==> x == img[b];
      }
      ResetStages(g, st, r.sequence, img, 3);
      forall e | Crash(f, e) ensures Undoable(g, e, img) { IdleCrash(g, f, Vol(r.sequence, []), img, e); }
    } else {
      var b: nat :| g.Kept(b) && d[b] != img[b];
      ResetKeeps(g, st, r.sequence, b);
      var e := f.view[b := d[b]];
      assert Crash(f, e);
      ResetIdle(g, st, r.sequence);
      assert !Restores(g, e) by { IdleNoRestore(g, e); }
      assert e[b] != img[b];
    }
  }

  lemma {:induction false} IdleNoRestore(g: Geometry, d: Disk)
    requires g.Wf() && |d| == g.blocksCount && d[g.journalBlock].Control? && d[g.journalBlock].active == 0
    ensures !Restores(g, d)
  {
  }

  lemma {:induction false} ResetKeeps(g: Geometry, st: Store, last: nat, b: nat)
    requires g.Wf() && StoreOk(st, g.blocksCount) && g.Kept(b)
    ensures var f := PerformAll(st, ResetActs(g, last)); f.may[b] == st.may[b] && StoreOk(f, g.blocksCount)
  {
    hide MakeControl, MakeDescriptor, MakeCommit;
    PerformAllOk(st, ResetActs(g, last), g.blocksCount);
    PerformThree(st, ResetActs(g, last));
  }

  lemma {:induction false} ResetIdle(g: Geometry, st: Store, last: nat)
    requires g.Wf() && StoreOk(st, g.blocksCount)
    ensures var f := PerformAll(st, ResetActs(g, last));
            f.view[g.journalBlock].Control? && f.view[g.journalBlock].active == 0
  {
    hide MakeDescriptor, MakeCommit;
    PerformThree(st, ResetActs(g, last));
  }

  // ----- mounting with the superblock

  /** What a replay does before it takes the recovery flag back and flushes. */
  function ReplayFront(g: Geometry, d: Disk): seq<Act>
    requires g.Wf() && |d| == g.blocksCount && d[0].Super? && d[g.journalBlock].Control?
  {
    [Mark(d[0].recovery, d[g.journalBlock].last)] + FrontRest(g, d)
  }

  function FrontRest(g: Geometry, d: Disk): seq<Act>
    requires g.Wf() && |d| == g.blocksCount && d[0].Super? && d[g.journalBlock].Control?
  {
    var c := d[g.journalBlock];
    if c.active == 0 then []
    else if !Restores(g, d) then ResetActs(g, c.last)
    else ReplayOp(g, d).restores + [Barrier, Mark(d[0].recovery, c.active)] + ResetActs(g, c.active)
  }

  lemma {:induction false} FrontIs(g: Geometry, d: Disk, img: Disk)
    requires Undoable(g, d, img) && d[0].Super? && d[0].recovery && d[g.journalBlock].Control?
    ensures g.Wf() && g.blocksCount > 0
    ensures MountOp(g, d)
            == Mounted(Ok, ReplayFront(g, d) + [Mark(false, ReplayOp(g, d).sequence), Barrier], ReplayOp(g, d).sequence)
  {
    UndoableActs(g, d, img);
    hide ResetActs, RestoreActs, DescriptorValid, CommitValid;
    var c, r := d[g.journalBlock], ReplayOp(g, d);
    var first, tail := [Mark(true, c.last)], [Mark(false, r.sequence), Barrier];
    assert first + ([] + tail) == first + [] + tail;
    Regrouped(first, ResetActs(g, c.last), tail);
    Regrouped(first, r.restores + [Barrier, Mark(true, c.active)] + ResetActs(g, c.active), tail);
  }

  lemma {:induction false} Regrouped(a: seq<Act>, b: seq<Act>, c: seq<Act>)
    ensures a + (b + c) == a + b + c
  {
  }

  lemma {:induction false} ResetShape(g: Geometry, last: nat)
    requires g.Wf()
    ensures var r := ResetActs(g, last); |r| == 3 && forall i :: 0 <= i < 3 ==> r[i].Sync? && r[i].block != 0
  {
    hide MakeControl, MakeDescriptor, MakeCommit;
  }

  /** Writes on other blocks, and the flag set again. */
  ghost predicate Steady(acts: seq<Act>) {
    Guarded(acts) && forall i :: 0 <= i < |acts| && IsMark(acts[i]) ==> acts[i].value.Super? && acts[i].value.recovery
  }

  lemma {:induction false} SteadyAppend(a: seq<Act>, b: seq<Act>)
    requires Steady(a) && Steady(b)
    ensures Steady(a + b) && Plain(a + b) == Plain(a) + Plain(b)
  {
    PlainAppend(a, b);
    hide Plain;
  }

  lemma {:induction false} SteadyPlain(a: seq<Act>)
    requires forall i :: 0 <= i < |a| ==> !a[i].Barrier? && a[i].block != 0
    ensures Steady(a) && Plain(a) == a
  {
    PlainSame(a);
    hide Plain;
  }

  lemma {:induction false} SteadyMark(n: nat)
    ensures Steady([Mark(true, n)]) && Plain([Mark(true, n)]) == []
    ensures Steady([Barrier, Mark(true, n)]) && Plain([Barrier, Mark(true, n)]) == [Barrier]
  {
    PlainMark(Mark(true, n));
    PlainMark(Barrier);
    PlainAppend([Barrier], [Mark(true, n)]);
    assert [Barrier] + [Mark(true, n)] == [Barrier, Mark(true, n)] && [Barrier] + [] == [Barrier];
    hide Plain;
  }

  /** The front of a replay takes nothing back, and is the replay without the superblock and the last flush. */
  lemma {:induction false} FrontShape(g: Geometry, d: Disk, img: Disk)
    requires Undoable(g, d, img) && d[0].Super? && d[0].recovery && d[g.journalBlock].Control?
    ensures g.Wf() && Steady(ReplayFront(g, d)) && ReplayActs(g, d) == Plain(ReplayFront(g, d)) + [Barrier]
  {
    UndoableActs(g, d, img);
    ReplayShape(g, d, img);
    ReplayActsAre(g, d);
    var c, r := d[g.journalBlock], ReplayOp(g, d);
    SteadyMark(c.last);
    SteadyAppend([Mark(true, c.last)], FrontRest(g, d)) by {
      RestShape(g, d, img);
    }
    RestShape(g, d, img);
    assert [] + Plain(FrontRest(g, d)) == Plain(FrontRest(g, d));
    hide Plain, Steady, FrontRest, ReplayOp, ResetActs, Undoable, Restores, ReplayActs;
  }

  lemma {:induction false} RestShape(g: Geometry, d: Disk, img: Disk)
    requires Undoable(g, d, img) && d[0].Super? && d[0].recovery && d[g.journalBlock].Control?
    ensures g.Wf() && Steady(FrontRest(g, d))
    ensures ReplayOp(g, d).restores + ReplayOp(g, d).finish == Plain(FrontRest(g, d)) + [Barrier]
  {
    UndoableActs(g, d, img);
    ReplayShape(g, d, img);
    ReplayLast(g, d, img);
    var c, r := d[g.journalBlock], ReplayOp(g, d);
    var reset := ResetActs(g, r.sequence);
    ResetShape(g, r.sequence);
    hide ReplayOp, ResetActs, Undoable, Restores, Plain, Steady;
    SteadyPlain(reset);
    if c.active == 0 {
      SteadyPlain([]);
      assert [] + [Barrier] == [Barrier];
    } else if !Restores(g, d) {
      assert [] + (reset + [Barrier]) == reset + [Barrier];
    } else {
      RestoringShape(r.restores, c.active, reset);
    }
  }

  lemma {:induction false} RestoringShape(a: seq<Act>, n: nat, reset: seq<Act>)
    requires forall i :: 0 <= i < |a| ==> !a[i].Barrier? && a[i].block != 0
    requires Steady(reset) && Plain(reset) == reset
    ensures var b := a + [Barrier, Mark(true, n)] + reset;
            Steady(b) && a + ([Barrier] + (reset + [Barrier])) == Plain(b) + [Barrier]
  {
    hide *;
    SteadyPlain(a);
    SteadyMark(n);
    SteadyAppend(a, [Barrier, Mark(true, n)]);
    SteadyAppend(a + [Barrier, Mark(true, n)], reset);
    assert a + ([Barrier] + (reset + [Barrier])) == a + [Barrier] + reset + [Barrier];
  }

  lemma {:induction false} ReplayLast(g: Geometry, d: Disk, img: Disk)
    requires Undoable(g, d, img)
    ensures var c := d[g.journalBlock]; ReplayOp(g, d).sequence == if Restores(g, d) then c.active else c.last
  {
    UndoableActs(g, d, img);
  }

  /** The replay without its last flush leaves the idle state already. */
  lemma {:induction false} NearlyDone(g: Geometry, d: Disk, img: Disk, acts: seq<Act>)
    requires Undoable(g, d, img) && ReplayActs(g, d) == acts + [Barrier]
    ensures Idle(g, PerformAll(Settled(d), acts), Vol(ReplayOp(g, d).sequence, []), img)
  {
    UndoableBasics(g, d, img);
    ReplayShape(g, d, img);
    ReplayActsAre(g, d);
    var all := ReplayActs(g, d);
    hide *;
    assert all[..|all| - 1] == acts;
    if d[g.journalBlock].active == 0 {
      assert acts == [];
      PerformNone(Settled(d));
      IdleMount(g, d, img);
    } else {
      var n := if Restores(g, d) then |ReplayOp(g, d).restores| + 1 else 0;
      BehindFlush(g, d, img, n, 3);
    }
  }

  lemma {:induction false} SettledSup(d: Disk)
    requires |d| > 0
    ensures SupOf(Settled(d)) == Sup(d[0], {d[0]}) && StoreOk(Settled(d), |d|) && Alike(Settled(d), Settled(d))
    ensures d[0].Super? && d[0].recovery ==> Set(SupOf(Settled(d)))
  {
  }

  /** A mount that is cut off leaves a medium that the next one brings to the same image. Where it finds the flag clear,
      the image is there already. */
  lemma {:induction false} MountStages(g: Geometry, d: Disk, img: Disk, k: nat, e: Disk)
    requires Mountable(g, d, img) && g.Wf() && |d| == g.blocksCount && k <= |MountOp(g, d).writes|
    requires Crash(PerformAll(Settled(d), MountOp(g, d).writes[..k]), e)
    ensures Mountable(g, e, img)
  {
    UndoableBasics(g, d, img);
    SettledSup(d);
    if !d[0].recovery {
      PerformNone(Settled(d));
      assert MountOp(g, d).writes[..k] == [];
      assert e == d by {
        assert forall b :: 0 <= b < |e| ==> e[b] in Settled(d).may[b];
      }
    } else {
      hide *;
      ReplayStages(g, d, img, k, e);
    }
  }

  lemma {:induction false} ReplayStages(g: Geometry, d: Disk, img: Disk, k: nat, e: Disk)
    requires Undoable(g, d, img) && g.Wf() && |d| == g.blocksCount && d[0].Super? && d[0].recovery
    requires k <= |MountOp(g, d).writes|
    requires Crash(PerformAll(Settled(d), MountOp(g, d).writes[..k]), e)
    ensures Mountable(g, e, img)
  {
    hide *;
    UndoableBasics(g, d, img);
    SettledSup(d);
    FrontIs(g, d, img);
    FrontShape(g, d, img);
    var a, n, p := ReplayFront(g, d), ReplayOp(g, d).sequence, ReplayActs(g, d);
    var all := a + [Mark(false, n), Barrier];
    WholePlain(a, n);
    PlainPrefix(all, k);
    var f, fp := PerformAll(Settled(d), all[..k]), PerformAll(Settled(d), Plain(all[..k]));
    PlainAlike(Settled(d), Settled(d), all[..k]);
    PerformAllOk(Settled(d), all[..k], |d|);
    PerformAllOk(Settled(d), Plain(all[..k]), |d|);
    var e' := AlikeCrash(g, f, fp, e, img);
    MountCrash(g, d, img, |Plain(all[..k])|, e');
    SteadyIs(a);
    Closing(g, Settled(d), a, n, k);
    CrashAt(f, e, |d|);
    if !e[0].recovery {
      if k == |a| + 1 {
        NearlyDone(g, d, img, Plain(a));
        PlainFirst(a, n);
      } else {
        assert all[..k] == all;
        MountDone(g, d, img);
      }
      AlikeIdle(g, f, fp, Vol(n, []), img);
      IdleMedium(g, f, Vol(n, []), img, e, n);
    }
    MountableIs(g, e, img);
  }

  lemma {:induction false} MountableIs(g: Geometry, d: Disk, img: Disk)
    requires Undoable(g, d, img)
    ensures |d| > 0
    ensures Mountable(g, d, img) <==> d[0].Super? && (!d[0].recovery ==> Idle(g, Settled(d), Vol(d[0].sequence, []), img))
  {
  }

  lemma {:induction false} SteadyIs(a: seq<Act>)
    requires Steady(a)
    ensures Guarded(a) && forall i :: 0 <= i < |a| && IsMark(a[i]) ==> a[i].value.Super? && a[i].value.recovery
  {
  }

  lemma {:induction false} CrashAt(st: Store, e: Disk, n: nat)
    requires Crash(st, e) && |st.view| == |st.may| == n > 0
    ensures |e| == n && e[0] in SupOf(st).may
  {
  }

  lemma {:induction false} WholePlain(a: seq<Act>, n: nat)
    ensures Plain(a + [Mark(false, n), Barrier]) == Plain(a) + [Barrier]
    ensures |a + [Mark(false, n), Barrier]| == |a| + 2
  {
    PlainMark(Mark(false, n));
    PlainMark(Barrier);
    PlainAppend([Mark(false, n)], [Barrier]);
    assert [Mark(false, n)] + [Barrier] == [Mark(false, n), Barrier] && [] + [Barrier] == [Barrier];
    PlainAppend(a, [Mark(false, n), Barrier]);
  }

  lemma {:induction false} PlainFirst(a: seq<Act>, n: nat)
    ensures Plain((a + [Mark(false, n), Barrier])[..|a| + 1]) == Plain(a)
  {
    assert (a + [Mark(false, n), Barrier])[..|a| + 1] == a + [Mark(false, n)];
    PlainAppend(a, [Mark(false, n)]);
    PlainMark(Mark(false, n));
    assert Plain(a) + [] == Plain(a);
  }

  /** A mount that is completed. */
  lemma {:induction false} MountEnds(g: Geometry, d: Disk, img: Disk)
    requires Mountable(g, d, img) && g.Wf() && |d| == g.blocksCount
    ensures var m := MountOp(g, d);
            var st := PerformAll(Settled(d), m.writes);
            && m.err == Ok && Idle(g, st, Vol(m.sequence, []), img)
            && SupOf(st) == Sup(Super(false, m.sequence), {Super(false, m.sequence)})
  {
    UndoableBasics(g, d, img);
    SettledSup(d);
    if !d[0].recovery {
      PerformNone(Settled(d));
    } else {
      hide *;
      ReplayEnds(g, d, img);
    }
  }

  lemma {:induction false} ReplayEnds(g: Geometry, d: Disk, img: Disk)
    requires Undoable(g, d, img) && g.Wf() && |d| == g.blocksCount && d[0].Super? && d[0].recovery
    ensures var m := MountOp(g, d);
            var st := PerformAll(Settled(d), m.writes);
            && m.err == Ok && Idle(g, st, Vol(m.sequence, []), img)
            && SupOf(st) == Sup(Super(false, m.sequence), {Super(false, m.sequence)})
  {
    hide *;
    UndoableBasics(g, d, img);
    SettledSup(d);
    FrontIs(g, d, img);
    FrontShape(g, d, img);
    var a, n := ReplayFront(g, d), ReplayOp(g, d).sequence;
    var all := a + [Mark(false, n), Barrier];
    WholePlain(a, n);
    PlainAlike(Settled(d), Settled(d), all);
    PerformAllOk(Settled(d), all, |d|);
    MountDone(g, d, img);
    AlikeIdle(g, PerformAll(Settled(d), all), PerformAll(Settled(d), Plain(all)), Vol(n, []), img);
    SteadyIs(a);
    assert all[..|a| + 2] == all;
    Closing(g, Settled(d), a, n, |a| + 2);
  }
}
