/** The superblock beside the journal: when the recovery flag may be clear on the medium. */
module UndoFlag {
  import opened UndoLayout
  import opened UndoSpec
  import opened UndoCrash

  // ----- writes of the superblock aside

  predicate IsMark(a: Act) { a.Lazy? && a.block == 0 }

  /** The actions without those on the superblock. */
  function Plain(acts: seq<Act>): (r: seq<Act>)
    ensures |r| <= |acts|
  {
    if acts == [] then []
    else Plain(acts[..|acts| - 1]) + if IsMark(acts[|acts| - 1]) then [] else [acts[|acts| - 1]]
  }

  lemma {:induction false} PlainAppend(a: seq<Act>, b: seq<Act>)
    ensures Plain(a + b) == Plain(a) + Plain(b)
  {
    if b == [] {
      assert a + b == a;
    } else {
      var n := |b| - 1;
      assert (a + b)[..|a + b| - 1] == a + b[..n] && (a + b)[|a + b| - 1] == b[n];
      PlainAppend(a, b[..n]);
    }
  }

  lemma {:induction false} PlainSame(a: seq<Act>)
    requires forall i :: 0 <= i < |a| ==> !IsMark(a[i])
    ensures Plain(a) == a
  {
    if a != [] {
      var n := |a| - 1;
      assert forall i :: 0 <= i < n ==> a[..n][i] == a[i];
      PlainSame(a[..n]);
    }
  }

  lemma {:induction false} PlainMark(a: Act)
    ensures Plain([a]) == if IsMark(a) then [] else [a]
  {
    assert [a][..0] == [];
  }

  /** Some of the actions are some of those without the superblock. */
  lemma {:induction false} PlainPrefix(acts: seq<Act>, k: nat)
    requires k <= |acts|
    ensures |Plain(acts[..k])| <= |Plain(acts)| && Plain(acts)[..|Plain(acts[..k])|] == Plain(acts[..k])
  {
    assert acts == acts[..k] + acts[k..];
    PlainAppend(acts[..k], acts[k..]);
  }

  /** The same on all blocks but the superblock. */
  ghost predicate Alike(a: Store, b: Store) {
    && |a.view| == |a.may| == |b.view| == |b.may|
    && forall i :: 0 < i < |a.view| ==> a.view[i] == b.view[i] && a.may[i] == b.may[i]
  }

  lemma {:induction false} PlainAlike(a: Store, b: Store, acts: seq<Act>)
    requires Alike(a, b)
    ensures Alike(PerformAll(a, acts), PerformAll(b, Plain(acts)))
  {
    if acts != [] {
      var n := |acts| - 1;
      PlainAlike(a, b, acts[..n]);
      var p := Plain(acts[..n]);
      assert Plain(acts) == p + if IsMark(acts[n]) then [] else [acts[n]];
      LastAct(a, acts);
      hide PerformAll, Perform, Alike, IsMark, Plain;
      AlikeStep(PerformAll(a, acts[..n]), PerformAll(b, p), acts[n]);
      if IsMark(acts[n]) {
        assert p + [] == p;
      } else {
        PerformAppend(b, p, [acts[n]]);
        PerformOne(PerformAll(b, p), acts[n]);
      }
    }
  }

  lemma {:induction false} LastAct(st: Store, acts: seq<Act>)
    requires |st.view| == |st.may| && acts != []
    ensures PerformAll(st, acts) == Perform(PerformAll(st, acts[..|acts| - 1]), acts[|acts| - 1])
  {
    hide Perform;
  }

  lemma {:induction false} AlikeStep(a: Store, b: Store, act: Act)
    requires Alike(a, b)
    ensures Alike(Perform(a, act), if IsMark(act) then b else Perform(b, act))
  {
  }

  lemma {:induction false} AlikeIdle(g: Geometry, a: Store, b: Store, v: Vol, img: Disk)
    requires Alike(a, b) && StoreOk(a, g.blocksCount) && Idle(g, b, v, img)
    ensures Idle(g, a, v, img)
  {
    hide ControlValid;
  }

  lemma {:induction false} AlikeTransaction(g: Geometry, a: Store, b: Store, v: Vol, img: Disk)
    requires Alike(a, b) && StoreOk(a, g.blocksCount) && InTransaction(g, b, v, img)
    ensures InTransaction(g, a, v, img)
  {
    hide MakeControl, MakeDescriptor, MakeCommit;
  }

  /** The superblock does not matter to what recovery brings back. */
  lemma {:induction false} AlikeCrash(g: Geometry, a: Store, b: Store, e: Disk, img: Disk) returns (f: Disk)
    requires Alike(a, b) && StoreOk(b, g.blocksCount) && g.blocksCount > 0 && Crash(a, e)
    ensures Crash(b, f) && |f| == |e| && forall i :: 0 < i < |e| ==> f[i] == e[i]
    ensures Undoable(g, f, img) ==> Undoable(g, e, img)
  {
    f := e[0 := b.view[0]];
    if Undoable(g, f, img) {
      OtherSuper(g, f, e, img);
    }
  }

  lemma {:induction false} OtherSuper(g: Geometry, d: Disk, e: Disk, img: Disk)
    requires Undoable(g, d, img) && |e| == |d| && forall i :: 0 < i < |d| ==> e[i] == d[i]
    ensures Undoable(g, e, img)
  {
    UndoableMove(g, d, img, e) by {
      assert g.Wf();
      assert forall b: nat :: g.Internal(b) || g.Kept(b) ==> b > 0;
    }
  }

  // ----- the superblock alone

  datatype Sup = Sup(view: Block, may: set<Block>)

  ghost function SupOf(st: Store): Sup
    requires |st.view| == |st.may| > 0
  {
    Sup(st.view[0], st.may[0])
  }

  ghost function SupAfter(s: Sup, acts: seq<Act>): Sup {
    if acts == [] then s
    else
      var t, a := SupAfter(s, acts[..|acts| - 1]), acts[|acts| - 1];
      if a.Barrier? then Sup(t.view, {t.view})
      else if IsMark(a) then Sup(a.value, t.may + {a.value})
      else t
  }

  /** No synchronous write touches the superblock. */
  predicate Guarded(acts: seq<Act>) { forall i :: 0 <= i < |acts| ==> acts[i].Sync? ==> acts[i].block != 0 }

  lemma {:induction false} SupFollows(st: Store, acts: seq<Act>)
    requires |st.view| == |st.may| > 0 && Guarded(acts)
    ensures SupOf(PerformAll(st, acts)) == SupAfter(SupOf(st), acts)
  {
    if acts != [] {
      var n := |acts| - 1;
      assert forall i :: 0 <= i < n ==> acts[..n][i] == acts[i];
      SupFollows(st, acts[..n]);
    }
  }

  lemma {:induction false} SupAppend(s: Sup, a: seq<Act>, b: seq<Act>)
    ensures SupAfter(s, a + b) == SupAfter(SupAfter(s, a), b)
  {
    if b == [] {
      assert a + b == a;
    } else {
      var n := |b| - 1;
      assert (a + b)[..|a + b| - 1] == a + b[..n] && (a + b)[|a + b| - 1] == b[n];
      SupAppend(s, a, b[..n]);
    }
  }

  /** What the superblock shows, if the flag is set in all of it. */
  ghost predicate Set(s: Sup) { s.view in s.may && forall x :: x in s.may ==> x.Super? && x.recovery }

  /** While the flag is not taken back it stays set. */
  lemma {:induction false} SetStays(s: Sup, acts: seq<Act>)
    requires Set(s) && forall i :: 0 <= i < |acts| && IsMark(acts[i]) ==> acts[i].value.Super? && acts[i].value.recovery
    ensures Set(SupAfter(s, acts))
  {
    if acts != [] {
      var n := |acts| - 1;
      assert forall i :: 0 <= i < n ==> acts[..n][i] == acts[i];
      SetStays(s, acts[..n]);
    }
  }

  /** Taking it back, and the flush behind. */
  lemma {:induction false} TakenBack(s: Sup, n: nat)
    requires Set(s)
    ensures forall x :: x in SupAfter(s, [Mark(false, n)]).may ==> x.Super? && (!x.recovery ==> x.sequence == n)
    ensures SupAfter(s, [Mark(false, n), Barrier]) == Sup(Super(false, n), {Super(false, n)})
  {
    assert [Mark(false, n)][..0] == [];
    assert [Mark(false, n), Barrier][..1] == [Mark(false, n)];
  }

  // ----- a clear flag

  /** A medium that a mount brings to `img`: with the flag set by a replay, and without it as it is. */
  ghost predicate Mountable(g: Geometry, d: Disk, img: Disk) {
    && Undoable(g, d, img) && d[0].Super?
    && (!d[0].recovery ==> Idle(g, Settled(d), Vol(d[0].sequence, []), img))
  }

  /** A medium in the idle state, whatever sequence number the superblock shows beyond the last record. */
  lemma {:induction false} IdleMedium(g: Geometry, st: Store, v: Vol, img: Disk, e: Disk, n: nat)
    requires Idle(g, st, v, img) && Crash(st, e) && n >= v.sequence
    ensures Idle(g, Settled(e), Vol(n, []), img)
  {
    assert e[g.journalBlock] in st.may[g.journalBlock];
    assert e[g.CommitBlock()] in st.may[g.CommitBlock()];
    hide ControlValid;
  }

  /** A transaction that has recorded nothing leaves such a medium too. */
  lemma {:induction false} EmptyMedium(g: Geometry, st: Store, v: Vol, img: Disk, e: Disk, n: nat)
    requires InTransaction(g, st, v, img) && v.homes == [] && Crash(st, e) && n + 1 >= v.sequence
    ensures Idle(g, Settled(e), Vol(n, []), img)
  {
    assert e[g.journalBlock] in st.may[g.journalBlock];
    assert e[g.CommitBlock()] in st.may[g.CommitBlock()];
    hide MakeDescriptor, MakeCommit;
  }

  /** The crash images of a list of actions that takes the flag back at its end. */
  lemma {:induction false} Closing(g: Geometry, st: Store, acts: seq<Act>, n: nat, k: nat)
    requires StoreOk(st, g.blocksCount) && g.blocksCount > 0 && Set(SupOf(st)) && Guarded(acts)
    requires forall i :: 0 <= i < |acts| && IsMark(acts[i]) ==> acts[i].value.Super? && acts[i].value.recovery
    requires k <= |acts| + 2
    ensures var all := acts + [Mark(false, n), Barrier];
            var s := SupOf(PerformAll(st, all[..k]));
            && (forall x :: x in s.may ==> x.Super? && (!x.recovery ==> x.sequence == n && k > |acts|))
            && (k == |acts| + 2 ==> s == Sup(Super(false, n), {Super(false, n)}))
  {
    var tail := [Mark(false, n), Barrier];
    var all := acts + tail;
    hide PerformAll, Set;
    if k <= |acts| {
      assert all[..k] == acts[..k];
      assert forall i :: 0 <= i < k ==> acts[..k][i] == acts[i];
      SupFollows(st, acts[..k]);
      SetStays(SupOf(st), acts[..k]);
      SetIs(SupAfter(SupOf(st), acts[..k]));
    } else {
      var j := k - |acts|;
      assert all[..k] == acts + tail[..j];
      assert tail[..1] == [Mark(false, n)] && tail[..2] == tail;
      SupFollows(st, acts + tail[..j]);
      SetStays(SupOf(st), acts);
      SupAppend(SupOf(st), acts, tail[..j]);
      TakenBack(SupAfter(SupOf(st), acts), n);
    }
  }

  lemma {:induction false} SetIs(s: Sup)
    requires Set(s)
    ensures forall x :: x in s.may ==> x.Super? && x.recovery
  {
  }
}
