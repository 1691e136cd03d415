/** Runs of the undo journal. */
module UndoRuns {
  import opened UndoLayout
  import opened UndoSpec
  import opened UndoCrash
  import opened UndoLate
  import opened UndoFlag
  import opened UndoMount

  datatype Sys = Sys(st: Store, vol: Vol, open: bool)

  datatype Op =
    | Begin
    | Record(home: nat)
    | Change(home: nat, value: Block)
    | Late(home: nat, value: Block)
    | Finish

  ghost predicate Journaled(g: Geometry, s: Sys, base: Disk) {
    if s.open then InTransaction(g, s.st, s.vol, base) else Idle(g, s.st, s.vol, base)
  }

  /** The superblock is on the medium, with the flag set exactly while a transaction is open. */
  ghost predicate Marked(s: Sys) {
    |s.st.view| == |s.st.may| > 0 && SupOf(s.st) == Sup(Super(s.open, s.vol.sequence), {Super(s.open, s.vol.sequence)})
  }

  ghost predicate Inv(g: Geometry, s: Sys, base: Disk) { Journaled(g, s, base) && Marked(s) }

  /** Blocks whose content need not come back are changed at any time, the others inside a transaction: after their
      record, or in front of it. Only a change that a full journal cannot record is excluded. Of the superblock only the
      two fields that the journal writes are in the model. */
  predicate Guard(g: Geometry, s: Sys, op: Op)
    requires |s.st.view| == g.blocksCount
  {
    match op
    case Begin => !s.open
    case Record(home) => s.open && home < g.blocksCount
    case Change(home, value) => 0 < home < g.blocksCount && !g.Internal(home)
         && ((s.open && home in s.vol.homes) || !g.Kept(home))
    case Late(home, value) => s.open && 0 < home < g.blocksCount && LateGuard(g, s.vol, home, value, s.st.view[home])
    case Finish => s.open
  }

  ghost function OpActs(g: Geometry, s: Sys, op: Op): seq<Act>
    requires g.Wf() && |s.st.view| == g.blocksCount && Guard(g, s, op)
  {
    match op
    case Begin => BeginActs(g, s.vol.sequence)
    case Record(home) => RecordOp(g, s.vol, home, s.st.view[home]).acts
    case Change(home, value) => [Lazy(home, value)]
    case Late(home, value) => LateActs(g, s.vol, home, value)
    case Finish => CommitActs(g, s.vol.sequence)
  }

  ghost function OpDone(g: Geometry, s: Sys, op: Op): Sys
    requires g.Wf() && |s.st.view| == |s.st.may| == g.blocksCount && Guard(g, s, op)
  {
    var st := PerformAll(s.st, OpActs(g, s, op));
    match op
    case Begin => Sys(st, Vol(s.vol.sequence + 1, []), true)
    case Record(home) => Sys(st, RecordOp(g, s.vol, home, s.st.view[home]).vol, true)
    case Change(home, value) => Sys(st, s.vol, s.open)
    case Late(home, value) => Sys(st, RecordOp(g, s.vol, home, value).vol, true)
    case Finish => Sys(st, s.vol.(homes := []), false)
  }

  /** What recovery has to bring back after a crash that left `e`, when `k` actions of `op` were done. */
  ghost function BaseAfter(g: Geometry, s: Sys, op: Op, k: nat, e: Disk, base: Disk): Disk {
    if op.Finish? && k > 2 then s.st.view
    else if op.Late? && |base| == |e| == g.blocksCount then LateImage(g, s.vol, base, op.home, op.value, k, e)
    else base
  }

  /** Every prefix of an operation, the superblock aside, leaves a medium that leads to the right image. */
  lemma {:induction false} OpSafe(g: Geometry, s: Sys, op: Op, base: Disk, k: nat)
    requires Journaled(g, s, base) && |s.st.view| == g.blocksCount && Guard(g, s, op)
    requires g.Wf() && k <= |OpActs(g, s, op)|
    ensures |s.st.may| == g.blocksCount
    ensures forall e :: Crash(PerformAll(s.st, OpActs(g, s, op)[..k]), e) ==>
              Undoable(g, e, BaseAfter(g, s, op, k, e, base))
    ensures k == |OpActs(g, s, op)| ==>
              Journaled(g, OpDone(g, s, op), BaseAfter(g, s, op, k, OpDone(g, s, op).st.view, base))
  {
    InvBasics(g, s, base);
    var acts := OpActs(g, s, op);
    assert acts[..|acts|] == acts;
    match op {
      case Begin =>
        assert BeginActs(g, s.vol.sequence) == acts;
        BeginSafe(g, s, base, k);
      case Record(home) =>
        InTransactionBasics(g, s.st, s.vol, base);
        hide Undoable, Crash, Idle, InTransaction, PerformAll;
        RecordThree(g, s.vol, home, s.st.view[home]);
        RecordStages(g, s.st, s.vol, base, home, s.st.view[home], k);
      case Change(home, value) =>
        hide Undoable, Crash, Idle, InTransaction, PerformAll;
        HomeWrite(g, s.st, s.vol, base, home, value);
        PerformNone(s.st);
        PerformOne(s.st, Lazy(home, value));
        assert acts[..0] == [];
        forall e | Crash(PerformAll(s.st, acts[..k]), e) ensures Undoable(g, e, base) {
          if s.open {
            TransactionCrash(g, PerformAll(s.st, acts[..k]), s.vol, base, e);
          } else {
            IdleCrash(g, PerformAll(s.st, acts[..k]), s.vol, base, e);
          }
        }
      case Late(home, value) =>
        LateSafe(g, s, home, value, base, k);
      case Finish =>
        assert CommitActs(g, s.vol.sequence) == acts;
        hide *;
        ActsLength(g, s.vol.sequence);
        FinishSafe(g, s, base, k);
    }
  }

  /** Only a block that has not been recorded is saved now. */
  lemma {:induction false} RecordThree(g: Geometry, v: Vol, home: nat, content: Block)
    requires g.Wf()
    ensures var acts := RecordOp(g, v, home, content).acts;
            |acts| <= 3 && (acts != [] ==> g.Recordable(home) && home !in v.homes)
  {
  }

  lemma {:induction false} BeginSafe(g: Geometry, s: Sys, base: Disk, k: nat)
    requires Idle(g, s.st, s.vol, base) && g.Wf() && |s.st.view| == |s.st.may| && k <= |BeginActs(g, s.vol.sequence)|
    ensures var st := PerformAll(s.st, BeginActs(g, s.vol.sequence)[..k]);
            && (forall e :: Crash(st, e) ==> Undoable(g, e, base))
            && (k == |BeginActs(g, s.vol.sequence)| ==> InTransaction(g, st, Vol(s.vol.sequence + 1, []), base))
  {
    ActsLength(g, s.vol.sequence);
    var acts := BeginActs(g, s.vol.sequence);
    var st := PerformAll(s.st, acts[..k]);
    hide *;
    if k == 0 {
      PerformNone(s.st);
      assert acts[..0] == [];
      forall e | Crash(st, e) ensures Undoable(g, e, base) { IdleCrash(g, s.st, s.vol, base, e); }
    } else {
      BeginStages(g, s.st, s.vol, base, k);
      forall e | Crash(st, e) ensures Undoable(g, e, base) {
        TransactionCrash(g, st, Vol(s.vol.sequence + 1, []), base, e);
      }
    }
  }

  lemma {:induction false} FinishSafe(g: Geometry, s: Sys, base: Disk, k: nat)
    requires InTransaction(g, s.st, s.vol, base) && g.Wf() && |s.st.view| == |s.st.may| && k <= 6
    ensures var st := PerformAll(s.st, CommitActs(g, s.vol.sequence)[..k]);
            && (forall e :: Crash(st, e) ==> Undoable(g, e, if k > 2 then s.st.view else base))
            && (k == 6 ==> Idle(g, st, Vol(s.vol.sequence, []), s.st.view))
  {
    var st := PerformAll(s.st, CommitActs(g, s.vol.sequence)[..k]);
    hide *;
    CommitStages(g, s.st, s.vol, base, k);
    if k > 2 {
      forall e | Crash(st, e) ensures Undoable(g, e, s.st.view) {
        IdleCrash(g, st, Vol(s.vol.sequence, []), s.st.view, e);
      }
    }
  }

  lemma {:induction false} LateSafe(g: Geometry, s: Sys, home: nat, value: Block, base: Disk, k: nat)
    requires s.open && Journaled(g, s, base) && g.Wf() && |s.st.view| == |s.st.may| == g.blocksCount
    requires Guard(g, s, Late(home, value)) && k <= |OpActs(g, s, Late(home, value))|
    ensures var op := Late(home, value);
            && (forall e :: Crash(PerformAll(s.st, OpActs(g, s, op)[..k]), e) ==>
                Undoable(g, e, BaseAfter(g, s, op, k, e, base)))
            && (k == |OpActs(g, s, op)| ==>
                  Journaled(g, OpDone(g, s, op), BaseAfter(g, s, op, k, OpDone(g, s, op).st.view, base)))
  {
    InTransactionBasics(g, s.st, s.vol, base);
    LateBasics(g, s.st, s.vol, base, home, value);
    assert |LateActs(g, s.vol, home, value)| == 1 + |RecordOp(g, s.vol, home, value).acts|;
    hide InTransaction, PerformAll, Crash, Undoable, LateActs, RecordOp, FirstRecord, LateGuard;
    LateStages(g, s.st, s.vol, base, home, value, k);
  }

  lemma {:induction false} ActsLength(g: Geometry, sequence: nat)
    requires g.Wf()
    ensures |BeginActs(g, sequence)| == 4 && |CommitActs(g, sequence)| == 6
  {
  }

  lemma {:induction false} InvBasics(g: Geometry, s: Sys, base: Disk)
    requires Journaled(g, s, base)
    ensures g.Wf() && |s.st.view| == |s.st.may| == g.blocksCount && StoreOk(s.st, g.blocksCount)
  {
  }

  // ----- operations with the superblock

  ghost function OpWrites(g: Geometry, s: Sys, op: Op): seq<Act>
    requires g.Wf() && |s.st.view| == g.blocksCount && Guard(g, s, op) && s.st.view[0].Super?
  {
    match op
    case Begin => BeginWrites(g, s.vol.sequence, s.st.view[0].recovery)
    case Finish => CommitWrites(g, s.vol.sequence, s.st.view[0].sequence)
    case _ => OpActs(g, s, op)
  }

  ghost function WritesDone(g: Geometry, s: Sys, op: Op): Sys
    requires g.Wf() && |s.st.view| == |s.st.may| == g.blocksCount && Guard(g, s, op) && s.st.view[0].Super?
  {
    OpDone(g, s, op).(st := PerformAll(s.st, OpWrites(g, s, op)))
  }

  lemma {:induction false} MarkedIs(s: Sys)
    requires Marked(s)
    ensures |s.st.view| == |s.st.may| > 0 && s.st.view[0] == Super(s.open, s.vol.sequence)
    ensures s.st.may[0] == {Super(s.open, s.vol.sequence)}
  {
  }

  /** The actions that leave the superblock alone. */
  lemma {:induction false} Unmarked(g: Geometry, s: Sys, op: Op)
    requires g.Wf() && |s.st.view| == g.blocksCount && Guard(g, s, op) && !op.Begin? && !op.Finish?
    ensures forall i :: 0 <= i < |OpActs(g, s, op)| ==> !OpActs(g, s, op)[i].Barrier? && OpActs(g, s, op)[i].block != 0
  {
    hide MakeDescriptor, MakeCommit, MakeControl;
  }

  lemma {:induction false} BeginParts(g: Geometry, n: nat, recovery: bool)
    requires g.Wf()
    ensures var a := BeginActs(g, n);
            && |a| == 4 && a[3] == Barrier && (forall i :: 0 <= i < 3 ==> !a[i].Barrier? && a[i].block != 0)
            && BeginWrites(g, n, recovery) == [Mark(recovery, n + 1), Mark(true, n + 1)] + a
            && Plain(BeginWrites(g, n, recovery)) == a && Guarded(BeginWrites(g, n, recovery))
  {
    var a, m := BeginActs(g, n), [Mark(recovery, n + 1), Mark(true, n + 1)];
    PlainMark(Mark(recovery, n + 1));
    PlainMark(Mark(true, n + 1));
    PlainAppend([Mark(recovery, n + 1)], [Mark(true, n + 1)]);
    assert m == [Mark(recovery, n + 1)] + [Mark(true, n + 1)];
    PlainSame(a);
    PlainAppend(m, a);
    assert [] + a == a && Plain(m) == [];
    hide MakeControl, Plain;
  }

  lemma {:induction false} CommitParts(g: Geometry, n: nat)
    requires g.Wf()
    ensures var a := [Barrier, Barrier] + ResetActs(g, n);
            && CommitWrites(g, n, n) == a + [Mark(false, n), Barrier] && CommitActs(g, n) == a + [Barrier]
            && Steady(a) && Plain(a) == a && |a| == 5
  {
    var r := ResetActs(g, n);
    ResetShape(g, n);
    PlainSame([Barrier, Barrier] + r);
    hide ResetActs, Plain;
  }

  /** Every prefix of an operation leaves a medium that a mount brings to the right image. Where the flag is clear, the
      image is there already. */
  lemma {:induction false} OpStages(g: Geometry, s: Sys, op: Op, base: Disk, k: nat)
    requires Inv(g, s, base) && g.Wf() && |s.st.view| == |s.st.may| == g.blocksCount && Guard(g, s, op)
    requires s.st.view[0].Super? && k <= |OpWrites(g, s, op)|
    ensures var n := |Plain(OpWrites(g, s, op)[..k])|;
            forall e :: Crash(PerformAll(s.st, OpWrites(g, s, op)[..k]), e) ==> Mountable(g, e, BaseAfter(g, s, op, n, e, base))
    ensures k == |OpWrites(g, s, op)| ==>
              Inv(g, WritesDone(g, s, op), BaseAfter(g, s, op, |OpActs(g, s, op)|, WritesDone(g, s, op).st.view, base))
  {
    InvBasics(g, s, base);
    MarkedIs(s);
    if op.Begin? {
      hide *;
      BeginMarked(g, s, base, k);
    } else if op.Finish? {
      hide *;
      FinishMarked(g, s, base, k);
    } else {
      hide *;
      PlainMarked(g, s, op, base, k);
    }
  }

  /** Actions on other blocks. */
  lemma {:induction false} SupQuiet(s: Sup, acts: seq<Act>)
    requires forall i :: 0 <= i < |acts| ==> !acts[i].Barrier? && acts[i].block != 0
    ensures SupAfter(s, acts) == s && Guarded(acts)
  {
    if acts != [] {
      var n := |acts| - 1;
      assert forall i :: 0 <= i < n ==> acts[..n][i] == acts[i];
      SupQuiet(s, acts[..n]);
    }
  }

  lemma {:induction false} BeginMarks(q: nat)
    ensures var s, m := Sup(Super(false, q), {Super(false, q)}), [Mark(false, q + 1), Mark(true, q + 1)];
            && SupAfter(s, [Mark(false, q + 1)]) == Sup(Super(false, q + 1), {Super(false, q), Super(false, q + 1)})
            && SupAfter(s, m) == Sup(Super(true, q + 1), {Super(false, q), Super(false, q + 1), Super(true, q + 1)})
  {
    var s, m := Sup(Super(false, q), {Super(false, q)}), [Mark(false, q + 1), Mark(true, q + 1)];
    assert [Mark(false, q + 1)][..0] == [] && m[..1] == [Mark(false, q + 1)];
    assert SupAfter(s, []) == s;
  }

  /** The superblock while a transaction begins. */
  lemma {:induction false} BeginSup(q: nat, a: seq<Act>, k: nat)
    requires |a| == 4 && a[3] == Barrier && (forall i :: 0 <= i < 3 ==> !a[i].Barrier? && a[i].block != 0) && k <= 6
    ensures var s := SupAfter(Sup(Super(false, q), {Super(false, q)}), ([Mark(false, q + 1), Mark(true, q + 1)] + a)[..k]);
            && (forall x :: x in s.may ==> x.Super? && x.sequence >= q)
            && (k == 6 ==> s == Sup(Super(true, q + 1), {Super(true, q + 1)}))
  {
    var s0, m := Sup(Super(false, q), {Super(false, q)}), [Mark(false, q + 1), Mark(true, q + 1)];
    var all := m + a;
    BeginMarks(q);
    if k <= 2 {
      assert all[..k] == m[..k];
      assert k == 0 || m[..k] == [Mark(false, q + 1)] || m[..k] == m;
    } else {
      var j := if k == 6 then 3 else k - 2;
      assert all[..j + 2] == m + a[..j];
      assert forall i :: 0 <= i < j ==> a[..j][i] == a[i];
      SupAppend(s0, m, a[..j]);
      SupQuiet(SupAfter(s0, m), a[..j]);
      if k == 6 {
        assert all[..6] == all[..5] + [Barrier];
        assert (all[..5] + [Barrier])[..5] == all[..5];
      }
    }
  }

  lemma {:induction false} StagePlain(g: Geometry, st: Store, acts: seq<Act>, plain: seq<Act>, k: nat) returns (n: nat)
    requires StoreOk(st, g.blocksCount) && Plain(acts) == plain && k <= |acts|
    ensures n == |Plain(acts[..k])| <= |plain| && Plain(acts[..k]) == plain[..n]
    ensures Alike(PerformAll(st, acts[..k]), PerformAll(st, plain[..n]))
    ensures StoreOk(PerformAll(st, acts[..k]), g.blocksCount) && StoreOk(PerformAll(st, plain[..n]), g.blocksCount)
  {
    PlainPrefix(acts, k);
    n := |Plain(acts[..k])|;
    PlainAlike(st, st, acts[..k]);
    PerformAllOk(st, acts[..k], g.blocksCount);
    PerformAllOk(st, plain[..n], g.blocksCount);
    hide PerformAll, Plain;
  }

  lemma {:induction false} BeginMarked(g: Geometry, s: Sys, base: Disk, k: nat)
    requires Inv(g, s, base) && g.Wf() && |s.st.view| == |s.st.may| == g.blocksCount && Guard(g, s, Begin)
    requires s.st.view[0].Super? && k <= |OpWrites(g, s, Begin)|
    ensures var n := |Plain(OpWrites(g, s, Begin)[..k])|;
            forall e :: Crash(PerformAll(s.st, OpWrites(g, s, Begin)[..k]), e) ==>
              Mountable(g, e, BaseAfter(g, s, Begin, n, e, base))
    ensures k == |OpWrites(g, s, Begin)| ==>
              Inv(g, WritesDone(g, s, Begin), BaseAfter(g, s, Begin, |OpActs(g, s, Begin)|,
                                                        WritesDone(g, s, Begin).st.view, base))
  {
    var q := s.vol.sequence;
    MarkedIs(s);
    InvBasics(g, s, base);
    BeginParts(g, q, false);
    var a, all := BeginActs(g, q), OpWrites(g, s, Begin);
    assert all == BeginWrites(g, q, false) && !s.open && Idle(g, s.st, s.vol, base) && s.vol == Vol(q, []);
    assert WritesDone(g, s, Begin) == Sys(PerformAll(s.st, all), Vol(q + 1, []), true) && OpActs(g, s, Begin) == a;
    assert forall n, e :: BaseAfter(g, s, Begin, n, e, base) == base;
    hide *;
    var n := StagePlain(g, s.st, all, a, k);
    var f := PerformAll(s.st, all[..k]);
    BeginSup(q, a, k);
    GuardedPrefix(all, k);
    SupFollows(s.st, all[..k]);
    BeginOpen(g, s, base, f, n);
    forall e: Disk | Crash(f, e) ensures Mountable(g, e, base) {
      BeginCrash(g, s, base, f, n, e);
    }
    if k == |all| {
      assert all[..k] == all;
      InvIs(g, Sys(f, Vol(q + 1, []), true), base);
    }
  }

  /** The state behind some of the actions of begin, the superblock aside. */
  lemma {:induction false} BeginOpen(g: Geometry, s: Sys, base: Disk, f: Store, n: nat)
    requires Idle(g, s.st, s.vol, base) && g.Wf() && |s.st.view| == |s.st.may|
    requires n <= |BeginActs(g, s.vol.sequence)| == 4
    requires StoreOk(f, g.blocksCount) && Alike(f, PerformAll(s.st, BeginActs(g, s.vol.sequence)[..n]))
    ensures if n == 0 then Idle(g, f, s.vol, base) else InTransaction(g, f, Vol(s.vol.sequence + 1, []), base)
  {
    hide *;
    var a := BeginActs(g, s.vol.sequence);
    if n == 0 {
      PerformNone(s.st);
      assert a[..0] == [];
      AlikeIdle(g, f, s.st, s.vol, base);
    } else {
      BeginStages(g, s.st, s.vol, base, n);
      AlikeTransaction(g, f, PerformAll(s.st, a[..n]), Vol(s.vol.sequence + 1, []), base);
    }
  }

  lemma {:induction false} BeginCrash(g: Geometry, s: Sys, base: Disk, f: Store, n: nat, e: Disk)
    requires if n == 0 then Idle(g, f, s.vol, base) else InTransaction(g, f, Vol(s.vol.sequence + 1, []), base)
    requires |f.view| == |f.may| == g.blocksCount > 0 && Crash(f, e)
    requires forall x :: x in SupOf(f).may ==> x.Super? && x.sequence >= s.vol.sequence
    ensures Mountable(g, e, base)
  {
    hide *;
    CrashAt(f, e, g.blocksCount);
    if n == 0 {
      IdleCrash(g, f, s.vol, base, e);
      IdleMedium(g, f, s.vol, base, e, e[0].sequence);
    } else {
      TransactionCrash(g, f, Vol(s.vol.sequence + 1, []), base, e);
      EmptyMedium(g, f, Vol(s.vol.sequence + 1, []), base, e, e[0].sequence);
    }
    MountableIs(g, e, base);
  }

  lemma {:induction false} GuardedPrefix(acts: seq<Act>, k: nat)
    requires Guarded(acts) && k <= |acts|
    ensures Guarded(acts[..k])
  {
  }

  lemma {:induction false} InvIs(g: Geometry, s: Sys, base: Disk)
    ensures Inv(g, s, base) <==>
              && (if s.open then InTransaction(g, s.st, s.vol, base) else Idle(g, s.st, s.vol, base))
              && |s.st.view| == |s.st.may| > 0
              && SupOf(s.st) == Sup(Super(s.open, s.vol.sequence), {Super(s.open, s.vol.sequence)})
  {
  }

  lemma {:induction false} FinishMarked(g: Geometry, s: Sys, base: Disk, k: nat)
    requires Inv(g, s, base) && g.Wf() && |s.st.view| == |s.st.may| == g.blocksCount && Guard(g, s, Finish)
    requires s.st.view[0].Super? && k <= |OpWrites(g, s, Finish)|
    ensures var n := |Plain(OpWrites(g, s, Finish)[..k])|;
            forall e :: Crash(PerformAll(s.st, OpWrites(g, s, Finish)[..k]), e) ==>
              Mountable(g, e, BaseAfter(g, s, Finish, n, e, base))
    ensures k == |OpWrites(g, s, Finish)| ==>
              Inv(g, WritesDone(g, s, Finish), BaseAfter(g, s, Finish, |OpActs(g, s, Finish)|,
                                                         WritesDone(g, s, Finish).st.view, base))
  {
    var q := s.vol.sequence;
    MarkedIs(s);
    InvBasics(g, s, base);
    CommitParts(g, q);
    var a, all, plain := [Barrier, Barrier] + ResetActs(g, q), OpWrites(g, s, Finish), CommitActs(g, q);
    assert all == a + [Mark(false, q), Barrier] && s.open && InTransaction(g, s.st, s.vol, base);
    assert WritesDone(g, s, Finish) == Sys(PerformAll(s.st, all), Vol(q, []), false) && OpActs(g, s, Finish) == plain;
    assert forall n, e :: BaseAfter(g, s, Finish, n, e, base) == if n > 2 then s.st.view else base;
    assert Set(SupOf(s.st));
    hide *;
    WholePlain(a, q);
    var n := StagePlain(g, s.st, all, plain, k);
    var f, fp := PerformAll(s.st, all[..k]), PerformAll(s.st, plain[..n]);
    FinishSafe(g, s, base, n);
    SteadyIs(a);
    Closing(g, s.st, a, q, k);
    if k > 5 {
      FinishIdle(g, s, base, a, k, n);
      AlikeIdle(g, f, fp, Vol(q, []), s.st.view);
    }
    forall e: Disk | Crash(f, e) ensures Mountable(g, e, if n > 2 then s.st.view else base) {
      var e' := AlikeCrash(g, f, fp, e, if n > 2 then s.st.view else base);
      CrashAt(f, e, g.blocksCount);
      if !e[0].recovery {
        IdleMedium(g, f, Vol(q, []), s.st.view, e, q);
      }
      MountableIs(g, e, if n > 2 then s.st.view else base);
    }
    if k == |all| {
      assert all[..k] == all;
      InvIs(g, Sys(f, Vol(q, []), false), s.st.view);
    }
  }

  /** Behind the reset of the journal a commit is done. */
  lemma {:induction false} FinishIdle(g: Geometry, s: Sys, base: Disk, a: seq<Act>, k: nat, n: nat)
    requires InTransaction(g, s.st, s.vol, base) && g.Wf() && |s.st.view| == |s.st.may| && |a| == 5 && Plain(a) == a
    requires CommitActs(g, s.vol.sequence) == a + [Barrier] && 5 < k <= 7
    requires n == |Plain((a + [Mark(false, s.vol.sequence), Barrier])[..k])|
    ensures 5 <= n <= 6
    ensures Idle(g, PerformAll(s.st, CommitActs(g, s.vol.sequence)[..n]), Vol(s.vol.sequence, []), s.st.view)
  {
    hide *;
    var q := s.vol.sequence;
    var all := a + [Mark(false, q), Barrier];
    WholePlain(a, q);
    PlainFirst(a, q);
    assert all[..7] == all;
    CommitStages(g, s.st, s.vol, base, n);
  }

  lemma {:induction false} PlainMarked(g: Geometry, s: Sys, op: Op, base: Disk, k: nat)
    requires Inv(g, s, base) && g.Wf() && |s.st.view| == |s.st.may| == g.blocksCount && Guard(g, s, op)
    requires s.st.view[0].Super? && !op.Begin? && !op.Finish? && k <= |OpWrites(g, s, op)|
    ensures var n := |Plain(OpWrites(g, s, op)[..k])|;
            forall e :: Crash(PerformAll(s.st, OpWrites(g, s, op)[..k]), e) ==> Mountable(g, e, BaseAfter(g, s, op, n, e, base))
    ensures k == |OpWrites(g, s, op)| ==>
              Inv(g, WritesDone(g, s, op), BaseAfter(g, s, op, |OpActs(g, s, op)|, WritesDone(g, s, op).st.view, base))
  {
    MarkedIs(s);
    InvBasics(g, s, base);
    Unmarked(g, s, op);
    var a := OpActs(g, s, op);
    OtherOps(g, s, op, base);
    hide *;
    assert forall i :: 0 <= i < k ==> a[..k][i] == a[i];
    NoMarks(a[..k]);
    PlainSame(a[..k]);
    SupQuiet(SupOf(s.st), a[..k]);
    SupFollows(s.st, a[..k]);
    OpSafe(g, s, op, base, k);
    var f := PerformAll(s.st, a[..k]);
    forall e: Disk | Crash(f, e) ensures Mountable(g, e, BaseAfter(g, s, op, k, e, base)) {
      CrashAt(f, e, g.blocksCount);
      if !s.open {
        ChangeIdle(g, s, op, base, k);
        IdleMedium(g, f, s.vol, base, e, s.vol.sequence);
      }
      SupIs(s.st, Super(s.open, s.vol.sequence));
      MountableIs(g, e, BaseAfter(g, s, op, k, e, base));
    }
    if k == |a| {
      assert a[..k] == a;
      InvIs(g, WritesDone(g, s, op), BaseAfter(g, s, op, k, WritesDone(g, s, op).st.view, base));
      JournaledIs(g, OpDone(g, s, op), BaseAfter(g, s, op, k, OpDone(g, s, op).st.view, base));
    }
  }

  lemma {:induction false} SupIs(st: Store, x: Block)
    requires |st.view| == |st.may| > 0 && st.view[0] == x && st.may[0] == {x}
    ensures SupOf(st) == Sup(x, {x})
  {
  }

  lemma {:induction false} JournaledIs(g: Geometry, s: Sys, base: Disk)
    ensures Journaled(g, s, base) <==> if s.open then InTransaction(g, s.st, s.vol, base) else Idle(g, s.st, s.vol, base)
  {
  }

  lemma {:induction false} NoMarks(a: seq<Act>)
    requires forall i :: 0 <= i < |a| ==> !a[i].Barrier? && a[i].block != 0
    ensures forall i :: 0 <= i < |a| ==> !IsMark(a[i])
  {
  }

  lemma {:induction false} OtherOps(g: Geometry, s: Sys, op: Op, base: Disk)
    requires g.Wf() && |s.st.view| == |s.st.may| == g.blocksCount && Guard(g, s, op) && s.st.view[0].Super?
    requires !op.Begin? && !op.Finish? && Journaled(g, s, base)
    ensures OpWrites(g, s, op) == OpActs(g, s, op) && WritesDone(g, s, op) == OpDone(g, s, op)
    ensures OpDone(g, s, op).st == PerformAll(s.st, OpActs(g, s, op))
    ensures OpDone(g, s, op).open == s.open && OpDone(g, s, op).vol.sequence == s.vol.sequence
    ensures !s.open ==> op.Change? && !g.Kept(op.home) && |OpActs(g, s, op)| == 1 && OpDone(g, s, op).vol == s.vol
    ensures !s.open ==> forall n, e :: BaseAfter(g, s, op, n, e, base) == base
  {
    hide PerformAll, MakeDescriptor, MakeCommit;
  }

  /** Outside a transaction only blocks change whose content need not come back. */
  lemma {:induction false} ChangeIdle(g: Geometry, s: Sys, op: Op, base: Disk, k: nat)
    requires Journaled(g, s, base) && g.Wf() && |s.st.view| == |s.st.may| == g.blocksCount && Guard(g, s, op) && !s.open
    requires op.Change? && k <= |OpActs(g, s, op)| <= 1
    ensures Idle(g, PerformAll(s.st, OpActs(g, s, op)[..k]), s.vol, base)
  {
    var a := OpActs(g, s, op);
    assert a == [Lazy(op.home, op.value)] && !g.Internal(op.home) && !g.Kept(op.home) && Idle(g, s.st, s.vol, base);
    hide *;
    if k == 0 {
      assert a[..0] == [];
      PerformNone(s.st);
    } else {
      assert a[..1] == a;
      PerformOne(s.st, Lazy(op.home, op.value));
      HomeWrite(g, s.st, s.vol, base, op.home, op.value);
    }
  }

  // ----- runs with crashes

  /** An interrupted mount: how far it came and what the medium then held. */
  datatype Attempt = Attempt(k: nat, medium: Disk)

  datatype Event =
    | Completed(op: Op)
    | Crashed(op: Op, k: nat, medium: Disk, attempts: seq<Attempt>)

  ghost predicate AttemptsOk(g: Geometry, d: Disk, attempts: seq<Attempt>)
    requires g.Wf() && |d| == g.blocksCount
    decreases |attempts|
  {
    attempts != [] ==>
      && d[0].Super? && attempts[0].k <= |MountOp(g, d).writes|
      && Crash(PerformAll(Settled(d), MountOp(g, d).writes[..attempts[0].k]), attempts[0].medium)
      && AttemptsOk(g, attempts[0].medium, attempts[1..])
  }

  /** The medium that the last mount finds. */
  function LastMedium(d: Disk, attempts: seq<Attempt>): Disk {
    if attempts == [] then d else attempts[|attempts| - 1].medium
  }

  ghost predicate EventOk(g: Geometry, s: Sys, e: Event)
    requires g.Wf() && |s.st.view| == |s.st.may| == g.blocksCount && s.st.view[0].Super?
  {
    && Guard(g, s, e.op)
    && (e.Crashed? ==>
          && e.k <= |OpWrites(g, s, e.op)|
          && Crash(PerformAll(s.st, OpWrites(g, s, e.op)[..e.k]), e.medium)
          && AttemptsOk(g, e.medium, e.attempts))
  }

  ghost function Step(g: Geometry, s: Sys, e: Event): Sys
    requires g.Wf() && |s.st.view| == |s.st.may| == g.blocksCount && s.st.view[0].Super? && EventOk(g, s, e)
  {
    match e
    case Completed(op) => WritesDone(g, s, op)
    case Crashed(op, k, medium, attempts) =>
      var d := LastMedium(medium, attempts);
      if |d| != g.blocksCount || !d[0].Super? then s
      else Sys(PerformAll(Settled(d), MountOp(g, d).writes), Vol(MountOp(g, d).sequence, []), false)
  }

  /** What the run has to keep from then on. */
  ghost function NextBase(g: Geometry, s: Sys, e: Event, base: Disk): Disk
    requires g.Wf() && |s.st.view| == |s.st.may| == g.blocksCount && s.st.view[0].Super? && EventOk(g, s, e)
  {
    if e.Crashed? then BaseAfter(g, s, e.op, |Plain(OpWrites(g, s, e.op)[..e.k])|, e.medium, base)
    else BaseAfter(g, s, e.op, |OpActs(g, s, e.op)|, WritesDone(g, s, e.op).st.view, base)
  }

  lemma {:induction false} AttemptsSafe(g: Geometry, d: Disk, attempts: seq<Attempt>, img: Disk)
    requires Mountable(g, d, img) && g.Wf() && |d| == g.blocksCount && AttemptsOk(g, d, attempts)
    ensures Mountable(g, LastMedium(d, attempts), img)
    decreases |attempts|
  {
    hide Mountable, MountOp, PerformAll, Crash;
    if attempts != [] {
      MountStages(g, d, img, attempts[0].k, attempts[0].medium);
      MediumSize(g, attempts[0].medium, img);
      AttemptsSafe(g, attempts[0].medium, attempts[1..], img);
    }
  }

  lemma {:induction false} MediumSize(g: Geometry, d: Disk, img: Disk)
    requires Mountable(g, d, img)
    ensures g.Wf() && |d| == g.blocksCount > 0 && d[0].Super?
  {
  }

  lemma {:induction false} StepSafe(g: Geometry, s: Sys, e: Event, base: Disk)
    requires Inv(g, s, base) && g.Wf() && |s.st.view| == |s.st.may| == g.blocksCount && s.st.view[0].Super?
    requires EventOk(g, s, e)
    ensures Inv(g, Step(g, s, e), NextBase(g, s, e, base))
  {
    hide Mountable, MountOp, PerformAll, Crash, OpActs, OpWrites, Idle, InTransaction, Guard, BaseAfter, Inv;
    hide WritesDone, Plain, SupOf;
    if e.Completed? {
      OpStages(g, s, e.op, base, |OpWrites(g, s, e.op)|);
    } else {
      var img := NextBase(g, s, e, base);
      OpStages(g, s, e.op, base, e.k);
      MediumSize(g, e.medium, img);
      AttemptsSafe(g, e.medium, e.attempts, img);
      var d := LastMedium(e.medium, e.attempts);
      MediumSize(g, d, img);
      MountEnds(g, d, img);
      InvIs(g, Step(g, s, e), img);
    }
  }

  ghost predicate RunOk(g: Geometry, s: Sys, run: seq<Event>)
    decreases |run|
  {
    run != [] ==>
      && g.Wf() && |s.st.view| == |s.st.may| == g.blocksCount && s.st.view[0].Super?
      && EventOk(g, s, run[0]) && RunOk(g, Step(g, s, run[0]), run[1..])
  }

  ghost function After(g: Geometry, s: Sys, run: seq<Event>, base: Disk): (Sys, Disk)
    requires RunOk(g, s, run)
    decreases |run|
  {
    if run == [] then (s, base) else After(g, Step(g, s, run[0]), run[1..], NextBase(g, s, run[0], base))
  }

  /** Main theorem. In every run, whatever lazy writes a crash lets through, also of the recovery flag, without which a
      mount does not replay, recovery brings back the contents at begin of the interrupted transaction, with the changes
      that were made in front of the record of their block and with no other, or the new contents once its idle control
      block was written. */
  lemma {:induction false} UndoSafety(g: Geometry, s: Sys, run: seq<Event>, base: Disk)
    requires Inv(g, s, base) && RunOk(g, s, run)
    ensures var (t, img) := After(g, s, run, base); Inv(g, t, img)
    decreases |run|
  {
    if run != [] {
      hide Inv, EventOk, NextBase, Step;
      StepSafe(g, s, run[0], base);
      UndoSafety(g, Step(g, s, run[0]), run[1..], NextBase(g, s, run[0], base));
    }
  }

  /** In a state of such a run, a crash and a mount make programs read exactly the image; where the medium shows a clear
      flag, it holds the image already. */
  lemma {:induction false} RecoveredView(g: Geometry, s: Sys, base: Disk, d: Disk)
    requires Inv(g, s, base) && Crash(s.st, d)
    ensures g.Wf() && |d| == g.blocksCount && g.blocksCount > 0 && d[0].Super?
    ensures MountOp(g, d).err == Ok && SameHomes(g, PerformAll(Settled(d), MountOp(g, d).writes).view, base)
    ensures d[0].recovery <==> s.open
    ensures !d[0].recovery ==> SameHomes(g, d, base)
  {
    InvIs(g, s, base);
    InvBasics(g, s, base);
    CrashAt(s.st, d, g.blocksCount);
    hide *;
    if s.open {
      TransactionCrash(g, s.st, s.vol, base, d);
    } else {
      IdleCrash(g, s.st, s.vol, base, d);
      IdleMedium(g, s.st, s.vol, base, d, s.vol.sequence);
      IdleHomes(g, Settled(d), Vol(s.vol.sequence, []), base);
    }
    SupIs(s.st, Super(s.open, s.vol.sequence));
    MountableIs(g, d, base);
    MountEnds(g, d, base);
    IdleHomes(g, PerformAll(Settled(d), MountOp(g, d).writes), Vol(MountOp(g, d).sequence, []), base);
  }

  lemma {:induction false} IdleHomes(g: Geometry, st: Store, v: Vol, img: Disk)
    requires Idle(g, st, v, img)
    ensures SameHomes(g, st.view, img)
  {
    forall b: nat | g.Kept(b) ensures st.view[b] == img[b] {
      assert st.view[b] in st.may[b];
    }
    hide ControlValid;
  }
}
