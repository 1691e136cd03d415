/** Crash safety of the undo journal. */
module UndoCrash {
  import opened UndoLayout
  import opened UndoSpec

  /** Two disks agree on every block whose content is to come back. */
  ghost predicate SameHomes(g: Geometry, d: Disk, e: Disk) {
    |d| == |e| == g.blocksCount && forall b: nat :: g.Kept(b) ==> d[b] == e[b]
  }

  /** A medium from which replay brings back the image `img`. */
  ghost predicate Undoable(g: Geometry, d: Disk, img: Disk) {
    && g.Wf() && |d| == |img| == g.blocksCount
    && ControlValid(g, d[g.journalBlock])
    && var c, s, m := d[g.journalBlock], d[g.DescriptorBlock()], d[g.CommitBlock()];
       && (m.Commit? ==> m.sequence <= if c.active == 0 then c.last else c.active)
       && (c.active != 0 ==> c.active == c.last + 1)
       && if !Restores(g, d) then SameHomes(g, d, img) && (c.active != 0 && m.Commit? ==> m.sequence < c.active)
          else
            && (forall i :: 0 <= i < m.entries ==>
                  && g.Recordable(s.homes[i])
                  && (g.Kept(s.homes[i]) ==> d[g.PayloadStart() + i] == img[s.homes[i]]))
            && (forall b: nat :: g.Kept(b) && d[b] != img[b] ==> b in s.homes[..m.entries])
  }

  // ----- replay

  /** All entries counted by the commit can be restored. */
  lemma {:induction false} RestoreAccepted(g: Geometry, d: Disk, homes: seq<nat>, n: nat)
    requires g.Wf() && |d| == g.blocksCount && n <= |homes| <= g.Capacity()
    requires forall i :: 0 <= i < n ==> g.Recordable(homes[i])
    ensures var (acts, err) := RestoreActs(g, d, homes, n); err == Ok && |acts| == n
    ensures forall k :: 0 <= k < n ==> RestoreActs(g, d, homes, n).0[k] == Lazy(homes[k], d[g.PayloadStart() + k])
  {
    if n > 0 {
      RestoreAccepted(g, d, homes, n - 1);
    }
  }

  /** The store after some restores: the journal is untouched, and a home block holds what it held or its
      before-image. */
  lemma {:induction false} RestoreStore(g: Geometry, d: Disk, img: Disk, acts: seq<Act>, b: nat)
    requires |d| == |img| == g.blocksCount && b < |d|
    requires forall i :: 0 <= i < |acts| ==>
               && acts[i].Lazy? && acts[i].block < |d| && !g.Internal(acts[i].block)
               && (g.Kept(acts[i].block) ==> acts[i].value == img[acts[i].block])
    ensures var st := PerformAll(Settled(d), acts);
            && (g.Internal(b) ==> st.may[b] == {d[b]} && st.view[b] == d[b])
            && (g.Kept(b) ==> forall x :: x in st.may[b] ==> x == d[b] || x == img[b])
            && d[b] in st.may[b]
            && (g.Kept(b) ==> st.view[b] == if exists i :: 0 <= i < |acts| && acts[i].block == b then img[b] else d[b])
  {
    if acts != [] {
      var init := acts[..|acts| - 1];
      RestoreStore(g, d, img, init, b);
      assert forall i :: 0 <= i < |init| ==> init[i] == acts[i];
      if acts[|acts| - 1].block != b && exists i :: 0 <= i < |acts| && acts[i].block == b {
        var i :| 0 <= i < |acts| && acts[i].block == b;
        assert init[i].block == b;
      }
    }
  }

  /** What replay of an undoable medium restores. */
  lemma {:induction false} UndoableActs(g: Geometry, d: Disk, img: Disk)
    requires Undoable(g, d, img)
    ensures var r := ReplayOp(g, d);
            && r.err == Ok
            && (forall i :: 0 <= i < |r.restores| ==>
                  var a := r.restores[i];
                  && a.Lazy? && a.block < |d| && !g.Internal(a.block) && (g.Kept(a.block) ==> a.value == img[a.block]))
            && (Restores(g, d) ==>
                  && |r.restores| == d[g.CommitBlock()].entries
                  && forall i :: 0 <= i < |r.restores| ==> r.restores[i].block == d[g.DescriptorBlock()].homes[i])
            && (!Restores(g, d) ==> r.restores == [])
  {
    if Restores(g, d) {
      RestoreAccepted(g, d, d[g.DescriptorBlock()].homes, d[g.CommitBlock()].entries);
    }
  }

  /** A crash after any number of restores leaves a medium that still leads back to the same image. */
  lemma {:induction false} RestoreRestart(g: Geometry, d: Disk, img: Disk, k: nat, e: Disk)
    requires Undoable(g, d, img) && k <= |ReplayOp(g, d).restores|
    requires Crash(PerformAll(Settled(d), ReplayOp(g, d).restores[..k]), e)
    ensures Undoable(g, e, img)
  {
    hide ReplayOp;
    UndoableActs(g, d, img);
    var acts := ReplayOp(g, d).restores[..k];
    forall b: nat | b < |d|
      ensures (g.Internal(b) ==> e[b] == d[b]) && (g.Kept(b) ==> e[b] == d[b] || e[b] == img[b])
    {
      RestoreStore(g, d, img, acts, b);
      assert e[b] in PerformAll(Settled(d), acts).may[b];
    }
    UndoableMove(g, d, img, e);
  }

  /** Bringing home blocks to their image keeps a medium undoable. */
  lemma {:induction false} UndoableMove(g: Geometry, d: Disk, img: Disk, e: Disk)
    requires Undoable(g, d, img) && |e| == |d|
    requires forall b: nat :: b < |d| ==> (g.Internal(b) ==> e[b] == d[b]) && (g.Kept(b) ==> e[b] == d[b] || e[b] == img[b])
    ensures Undoable(g, e, img)
  {
    assert g.Internal(g.journalBlock) && g.Internal(g.DescriptorBlock()) && g.Internal(g.CommitBlock());
    assert Restores(g, e) <==> Restores(g, d);
  }

  /** Replay accepts the medium, and afterwards programs read exactly the image. */
  lemma {:induction false} ReplayRestores(g: Geometry, d: Disk, img: Disk)
    requires Undoable(g, d, img)
    ensures var r := ReplayOp(g, d);
            r.err == Ok && SameHomes(g, PerformAll(Settled(d), r.restores).view, img)
  {
    hide ReplayOp, PerformAll;
    UndoableActs(g, d, img);
    var acts := ReplayOp(g, d).restores;
    forall b: nat | g.Kept(b)
      ensures PerformAll(Settled(d), acts).view[b] == img[b]
    {
      RestoreStore(g, d, img, acts, b);
      if Restores(g, d) && d[b] != img[b] {
        var homes, n := d[g.DescriptorBlock()].homes, d[g.CommitBlock()].entries;
        var i :| 0 <= i < n && homes[..n][i] == b;
        assert acts[i].block == b;
      }
    }
  }

  // ----- the idle state

  /** Nothing has to come back. The control block may still be that of a begin that was cut off, with no record that
      counts. */
  ghost predicate Idle(g: Geometry, st: Store, v: Vol, img: Disk) {
    && g.Wf() && StoreOk(st, g.blocksCount) && |img| == g.blocksCount && v.homes == []
    && st.may[g.journalBlock] == {st.view[g.journalBlock]}
    && ControlValid(g, st.view[g.journalBlock])
    && (st.view[g.journalBlock].active != 0 ==> st.view[g.journalBlock].active == st.view[g.journalBlock].last + 1)
    && (forall m :: m in st.may[g.CommitBlock()] && m.Commit? ==>
          m.sequence <= v.sequence && m.sequence <= st.view[g.journalBlock].last)
    && (forall b: nat :: g.Kept(b) ==> st.may[b] == {img[b]})
  }

  lemma {:induction false} IdleCrash(g: Geometry, st: Store, v: Vol, img: Disk, e: Disk)
    requires Idle(g, st, v, img) && Crash(st, e)
    ensures Undoable(g, e, img)
  {
    assert e[g.journalBlock] in st.may[g.journalBlock];
    assert e[g.CommitBlock()] in st.may[g.CommitBlock()];
  }

  /** Up to three actions, spelled out. */
  lemma {:induction false} PerformThree(st: Store, acts: seq<Act>)
    requires |st.view| == |st.may| && 1 <= |acts| <= 3
    ensures var s1 := Perform(st, acts[0]);
            PerformAll(st, acts) == if |acts| == 1 then s1 else
              var s2 := Perform(s1, acts[1]);
              if |acts| == 2 then s2 else Perform(s2, acts[2])
  {
    PerformOne(st, acts[0]);
    assert acts[..1] == [acts[0]];
    if |acts| >= 2 { assert acts[..2][..1] == acts[..1]; }
    assert acts[..|acts|] == acts;
  }

  /** Writing the idle control block, the empty descriptor and the empty commit over settled homes. */
  lemma {:induction false} ResetStages(g: Geometry, st: Store, last: nat, img: Disk, k: nat)
    requires g.Wf() && StoreOk(st, g.blocksCount) && |img| == g.blocksCount && 1 <= k <= 3
    requires forall m :: m in st.may[g.CommitBlock()] && m.Commit? ==> m.sequence <= last
    requires forall b: nat :: g.Kept(b) ==> st.may[b] == {img[b]}
    ensures Idle(g, PerformAll(st, ResetActs(g, last)[..k]), Vol(last, []), img)
  {
    assert |st.view| == |st.may|;
    hide MakeControl, MakeDescriptor, StoreOk, PerformAll;
    PerformThree(st, ResetActs(g, last)[..k]);
    PerformAllOk(st, ResetActs(g, last)[..k], g.blocksCount);
    assert MakeCommit(g, 0, 0, last).sequence == last;
    IdleControl(g, last);
  }

  lemma {:induction false} IdleControl(g: Geometry, last: nat)
    ensures var c := MakeControl(g, 0, 0, last); ControlValid(g, c) && c.active == 0 && c.last == last
  {
  }

  lemma {:induction false} PerformAllOk(st: Store, acts: seq<Act>, n: nat)
    requires StoreOk(st, n)
    ensures StoreOk(PerformAll(st, acts), n)
  {
  }

  // ----- inside a transaction

  /** All blocks changed since begin are recorded, and their before-images are on the medium. */
  ghost predicate InTransaction(g: Geometry, st: Store, v: Vol, img: Disk) {
    && g.Wf() && StoreOk(st, g.blocksCount) && |img| == g.blocksCount && v.sequence > 0
    && st.may[g.journalBlock] == {MakeControl(g, ACTIVE, v.sequence, v.sequence - 1)}
    && |v.homes| <= g.Capacity()
    && (forall i :: 0 <= i < |v.homes| ==>
          && g.Recordable(v.homes[i])
          && (g.Kept(v.homes[i]) ==> st.may[g.PayloadStart() + i] == {img[v.homes[i]]}))
    && (if v.homes == [] then forall m :: m in st.may[g.CommitBlock()] && m.Commit? ==> m.sequence < v.sequence
        else
          && st.may[g.DescriptorBlock()] == {MakeDescriptor(g, ACTIVE, v.homes, v.sequence)}
          && st.may[g.CommitBlock()] == {MakeCommit(g, COMMITTED, |v.homes|, v.sequence)})
    && (forall b: nat :: g.Kept(b) && b !in v.homes ==> st.may[b] == {img[b]})
  }

  lemma {:induction false} TransactionCrash(g: Geometry, st: Store, v: Vol, img: Disk, e: Disk)
    requires InTransaction(g, st, v, img) && Crash(st, e)
    ensures Undoable(g, e, img)
  {
    assert e[g.journalBlock] in st.may[g.journalBlock];
    assert e[g.CommitBlock()] in st.may[g.CommitBlock()];
    assert e[g.DescriptorBlock()] in st.may[g.DescriptorBlock()];
    if v.homes != [] {
      assert v.homes[..|v.homes|] == v.homes;
      forall i | 0 <= i < |v.homes| ensures g.Kept(v.homes[i]) ==> e[g.PayloadStart() + i] == img[v.homes[i]] {
        assert e[g.PayloadStart() + i] in st.may[g.PayloadStart() + i];
      }
    }
  }

  /** A flush keeps an open transaction, and an idle journal. */
  lemma {:induction false} SettledKeeps(g: Geometry, st: Store, v: Vol, img: Disk)
    ensures InTransaction(g, st, v, img) ==> InTransaction(g, Settled(st.view), v, img)
    ensures Idle(g, st, v, img) ==> Idle(g, Settled(st.view), v, img)
  {
    hide MakeControl, MakeDescriptor, MakeCommit, ControlValid;
    var s := Settled(st.view);
    if InTransaction(g, st, v, img) || Idle(g, st, v, img) {
      forall b: nat, x | b < g.blocksCount && st.may[b] == {x} ensures s.may[b] == {x} {
        assert st.view[b] in st.may[b];
      }
      assert st.view[g.CommitBlock()] in st.may[g.CommitBlock()];
    }
  }

  /** Begin: from the first write on, an empty transaction is open. */
  lemma {:induction false} BeginStages(g: Geometry, st: Store, v: Vol, img: Disk, k: nat)
    requires Idle(g, st, v, img) && 1 <= k <= 4
    ensures InTransaction(g, PerformAll(st, BeginActs(g, v.sequence)[..k]), Vol(v.sequence + 1, []), img)
  {
    assert |st.view| == |st.may|;
    hide MakeControl, StoreOk, PerformAll;
    var acts := BeginActs(g, v.sequence);
    var n := if k == 4 then 3 else k;
    PerformThree(st, acts[..n]);
    PerformAllOk(st, acts[..n], g.blocksCount);
    assert InTransaction(g, PerformAll(st, acts[..n]), Vol(v.sequence + 1, []), img);
    if k == 4 {
      assert acts[..4] == acts[..3] + [Barrier];
      PerformAppend(st, acts[..3], [Barrier]);
      PerformOne(PerformAll(st, acts[..3]), Barrier);
      SettledKeeps(g, PerformAll(st, acts[..3]), Vol(v.sequence + 1, []), img);
    }
  }

  /** Record: whatever the number of its writes on the medium, the image at begin can be restored. After the last one
      the block may be changed, if what was saved is its content at begin. */
  lemma {:induction false} RecordStages(g: Geometry, st: Store, v: Vol, img: Disk, home: nat, content: Block, k: nat)
    requires InTransaction(g, st, v, img) && home < g.blocksCount
    requires k <= |RecordOp(g, v, home, content).acts| && (k == 3 && g.Kept(home) ==> content == img[home])
    ensures var r := RecordOp(g, v, home, content);
            var s := PerformAll(st, r.acts[..k]);
            && (forall e :: Crash(s, e) ==> Undoable(g, e, img))
            && (k == |r.acts| ==> InTransaction(g, s, r.vol, img))
  {
    hide InTransaction, Undoable, Crash, MakeDescriptor, MakeCommit, PerformAll;
    InTransactionBasics(g, st, v, img);
    var r := RecordOp(g, v, home, content);
    var s := PerformAll(st, r.acts[..k]);
    if k == 0 {
      PerformNone(st);
      assert r.acts[..0] == [];
      forall e | Crash(s, e) ensures Undoable(g, e, img) { TransactionCrash(g, st, v, img, e); }
    } else {
      RecordPayload(g, st, v, img, content);
      PerformThree(st, r.acts[..k]);
      var s1 := Perform(st, r.acts[0]);
      if k == 1 {
        forall e | Crash(s, e) ensures Undoable(g, e, img) { TransactionCrash(g, s1, v, img, e); }
      } else if k == 2 {
        forall e | Crash(s, e) ensures Undoable(g, e, img) { RecordMiddle(g, s1, v, img, home, e); }
      } else {
        assert r.acts[..k] == r.acts;
        RecordDone(g, s1, v, img, home);
        forall e | Crash(s, e) ensures Undoable(g, e, img) { TransactionCrash(g, s, r.vol, img, e); }
      }
    }
  }

  lemma {:induction false} InTransactionBasics(g: Geometry, st: Store, v: Vol, img: Disk)
    requires InTransaction(g, st, v, img)
    ensures g.Wf() && |st.view| == |st.may| == |img| == g.blocksCount
    ensures forall b: nat :: g.Kept(b) && b !in v.homes ==> st.view[b] == img[b]
  {
    forall b: nat | g.Kept(b) && b !in v.homes ensures st.view[b] == img[b] {
      assert st.view[b] in st.may[b];
    }
  }

  lemma {:induction false} RecordPayload(g: Geometry, st: Store, v: Vol, img: Disk, content: Block)
    requires InTransaction(g, st, v, img) && |v.homes| < g.Capacity()
    ensures var s := Perform(st, Sync(g.PayloadStart() + |v.homes|, content));
            InTransaction(g, s, v, img) && s.may[g.PayloadStart() + |v.homes|] == {content}
  {
    hide MakeControl, MakeDescriptor, MakeCommit;
  }

  /** The descriptor already names the new block, the commit does not count it yet. */
  lemma {:induction false} RecordMiddle(g: Geometry, st: Store, v: Vol, img: Disk, home: nat, e: Disk)
    requires InTransaction(g, st, v, img) && g.Recordable(home) && |v.homes| < g.Capacity()
    requires Crash(Perform(st, Sync(g.DescriptorBlock(), MakeDescriptor(g, ACTIVE, v.homes + [home], v.sequence))), e)
    ensures Undoable(g, e, img)
  {
    var s := Perform(st, Sync(g.DescriptorBlock(), MakeDescriptor(g, ACTIVE, v.homes + [home], v.sequence)));
    assert e[g.journalBlock] in s.may[g.journalBlock];
    assert e[g.CommitBlock()] in s.may[g.CommitBlock()];
    assert e[g.DescriptorBlock()] in s.may[g.DescriptorBlock()];
    if v.homes != [] {
      assert (v.homes + [home])[..|v.homes|] == v.homes;
      forall i | 0 <= i < |v.homes| ensures g.Kept(v.homes[i]) ==> e[g.PayloadStart() + i] == img[v.homes[i]] {
        assert e[g.PayloadStart() + i] in s.may[g.PayloadStart() + i];
      }
    }
  }

  lemma {:induction false} RecordDone(g: Geometry, st: Store, v: Vol, img: Disk, home: nat)
    requires InTransaction(g, st, v, img) && g.Recordable(home) && |v.homes| < g.Capacity()
    requires g.Kept(home) ==> st.may[g.PayloadStart() + |v.homes|] == {img[home]}
    ensures var homes := v.homes + [home];
            var s := Perform(st, Sync(g.DescriptorBlock(), MakeDescriptor(g, ACTIVE, homes, v.sequence)));
            InTransaction(g, Perform(s, Sync(g.CommitBlock(), MakeCommit(g, COMMITTED, |homes|, v.sequence))),
                          v.(homes := homes), img)
  {
    hide MakeControl, MakeDescriptor, MakeCommit;
  }

  /** Changing a recorded block, lazily, keeps the transaction undoable; so does changing one whose content
      need not come back. */
  lemma {:induction false} HomeWrite(g: Geometry, st: Store, v: Vol, img: Disk, home: nat, value: Block)
    requires !g.Internal(home)
    ensures InTransaction(g, st, v, img) && (home in v.homes || !g.Kept(home))
            ==> InTransaction(g, Perform(st, Lazy(home, value)), v, img)
    ensures Idle(g, st, v, img) && !g.Kept(home) ==> Idle(g, Perform(st, Lazy(home, value)), v, img)
  {
    hide MakeControl, MakeDescriptor, MakeCommit, ControlValid;
  }

  /** Commit: until the idle control block is written the image at begin can be restored; from that
      write on the new contents are final. */
  lemma {:induction false} CommitStages(g: Geometry, st: Store, v: Vol, img: Disk, k: nat)
    requires InTransaction(g, st, v, img) && k <= 6
    ensures var s := PerformAll(st, CommitActs(g, v.sequence)[..k]);
            && (k <= 2 ==> forall e :: Crash(s, e) ==> Undoable(g, e, img))
            && (k > 2 ==> Idle(g, s, Vol(v.sequence, []), st.view))
  {
    hide PerformAll, ResetActs;
    var acts := CommitActs(g, v.sequence);
    var reset := ResetActs(g, v.sequence);
    ResetLength(g, v.sequence);
    var flushed := Settled(st.view);
    if k == 0 {
      assert acts[..0] == [] && PerformAll(st, acts[..0]) == st by { PerformNone(st); }
      forall e | Crash(st, e) ensures Undoable(g, e, img) { TransactionCrash(g, st, v, img, e); }
    } else if k <= 2 {
      assert acts[..1] == [Barrier] && acts[..2] == [Barrier, Barrier];
      PerformTwice(st);
      forall e | Crash(flushed, e) ensures Undoable(g, e, img) { SettledCrash(st, e); TransactionCrash(g, st, v, img, e); }
    } else {
      var n := if k == 6 then 3 else k - 2;
      assert acts[..n + 2] == [Barrier, Barrier] + reset[..n];
      PerformTwice(st);
      PerformAppend(st, [Barrier, Barrier], reset[..n]);
      CommitBound(g, st, v, img);
      ResetStages(g, flushed, v.sequence, st.view, n);
      if k == 6 {
        var s := PerformAll(st, acts[..5]);
        assert acts[..6] == acts[..5] + [Barrier];
        PerformAppend(st, acts[..5], [Barrier]);
        PerformOne(s, Barrier);
        SettledKeeps(g, s, Vol(v.sequence, []), st.view);
      }
    }
  }

  lemma {:induction false} PerformTwice(st: Store)
    requires |st.view| == |st.may|
    ensures PerformAll(st, [Barrier]) == PerformAll(st, [Barrier, Barrier]) == Settled(st.view)
  {
    PerformThree(st, [Barrier]);
    PerformThree(st, [Barrier, Barrier]);
  }

  lemma {:induction false} PerformNone(st: Store)
    requires |st.view| == |st.may|
    ensures PerformAll(st, []) == st
  {
  }

  lemma {:induction false} ResetLength(g: Geometry, last: nat)
    requires g.Wf()
    ensures |ResetActs(g, last)| == 3
  {
  }

  lemma {:induction false} SettledCrash(st: Store, e: Disk)
    requires StoreOk(st, |st.view|) && Crash(Settled(st.view), e)
    ensures Crash(st, e)
  {
    forall b | 0 <= b < |e| ensures e[b] in st.may[b] {
      assert e[b] in Settled(st.view).may[b];
    }
  }

  lemma {:induction false} CommitBound(g: Geometry, st: Store, v: Vol, img: Disk)
    requires InTransaction(g, st, v, img)
    ensures forall m :: m in Settled(st.view).may[g.CommitBlock()] && m.Commit? ==> m.sequence <= v.sequence
    ensures StoreOk(Settled(st.view), g.blocksCount)
  {
    assert st.view[g.CommitBlock()] in st.may[g.CommitBlock()];
  }
}
