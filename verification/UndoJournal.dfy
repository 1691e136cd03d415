/** The undo journal as the program runs it, block by block through the buffer cache, with every write that
    waits for the medium and every one that does not. */
module UndoJournal {
  import opened UndoLayout
  import opened UndoSpec

  /** One action more. */
  lemma {:induction false} PerformNext(initial: Store, acts: seq<Act>, a: Act)
    requires |initial.view| == |initial.may|
    ensures PerformAll(initial, acts + [a]) == Perform(PerformAll(initial, acts), a)
  {
    hide Perform;
    assert (acts + [a])[..|acts + [a]| - 1] == acts;
  }

  lemma {:induction false} LazyIs(st: Store, b: nat, v: Block)
    requires |st.view| == |st.may|
    ensures Perform(st, Lazy(b, v)) == if b < |st.view| then Store(st.view[b := v], st.may[b := st.may[b] + {v}]) else st
  {
  }

  lemma {:induction false} SyncIs(st: Store, b: nat, v: Block)
    requires |st.view| == |st.may|
    ensures Perform(st, Sync(b, v)) == if b < |st.view| then Store(st.view[b := v], st.may[b := {v}]) else st
  {
  }

  lemma {:induction false} BarrierIs(st: Store)
    requires |st.view| == |st.may|
    ensures Perform(st, Barrier) == Store(st.view, Settled(st.view).may) && Settled(st.view).view == st.view
  {
  }

  /** Actions one by one. */
  lemma {:induction false} SixMore(acts: seq<Act>, more: seq<Act>)
    requires |more| == 6
    ensures acts + [more[0]] + [more[1]] + [more[2]] + [more[3]] + [more[4]] + [more[5]] == acts + more
  {
  }

  lemma {:induction false} ThreeMore(acts: seq<Act>, more: seq<Act>)
    requires |more| == 3
    ensures acts + [more[0]] + [more[1]] + [more[2]] == acts + more
  {
  }

  lemma {:induction false} CommitIs(acts: seq<Act>, g: Geometry, last: nat, marked: nat)
    requires g.Wf()
    ensures acts + [Barrier] + [Barrier] + ResetActs(g, last) + [Mark(false, marked)] + [Barrier]
            == acts + CommitWrites(g, last, marked)
  {
    hide ResetActs;
  }

  class Journal {
    const g: Geometry
    /** The buffer cache: what every read returns. */
    var view: Disk
    /** The values each block may have on the medium. */
    ghost var may: seq<set<Block>>
    /** Everything done so far, and the state it was done on. */
    ghost var acts: seq<Act>
    ghost const initial: Store
    var sequence: nat
    var homes: seq<nat>

    function State(): Vol
      reads this
    {
      Vol(sequence, homes)
    }

    ghost predicate Valid()
      reads `view, `may, `acts
    {
      && g.Wf() && |view| == g.blocksCount && view[0].Super? && StoreOk(initial, g.blocksCount)
      && Store(view, may) == PerformAll(initial, acts)
    }

    /** A machine that has just read the superblock of the medium `medium`. */
    constructor (g: Geometry, medium: Disk)
      requires g.Wf() && |medium| == g.blocksCount && medium[0].Super?
      ensures Valid() && acts == [] && this.g == g && view == medium && initial == Settled(medium)
      ensures State() == Vol(medium[0].sequence, [])
    {
      this.g, this.view, this.may := g, medium, Settled(medium).may;
      this.initial, this.acts := Settled(medium), [];
      this.sequence, this.homes := medium[0].sequence, [];
    }

    /** Write a block into the buffer cache. */
    method WriteBlock(block: nat, value: Block)
      requires Valid() && (block == 0 ==> value.Super?)
      modifies `view, `may, `acts
      ensures Valid() && acts == old(acts) + [Lazy(block, value)]
      ensures view == if block < |old(view)| then old(view)[block := value] else old(view)
    {
      PerformNext(initial, acts, Lazy(block, value));
      LazyIs(Store(view, may), block, value);
      hide PerformAll, Perform, StoreOk, Geometry.Wf;
      if block < |view| {
        view, may := view[block := value], may[block := may[block] + {value}];
      }
      acts := acts + [Lazy(block, value)];
    }

    /** Write a block and wait until it is on the medium. */
    method WriteSync(block: nat, value: Block)
      requires Valid() && block != 0
      modifies `view, `may, `acts
      ensures Valid() && acts == old(acts) + [Sync(block, value)]
      ensures view == if block < |old(view)| then old(view)[block := value] else old(view)
    {
      PerformNext(initial, acts, Sync(block, value));
      SyncIs(Store(view, may), block, value);
      hide PerformAll, Perform, StoreOk, Geometry.Wf;
      if block < |view| {
        view, may := view[block := value], may[block := {value}];
      }
      acts := acts + [Sync(block, value)];
    }

    /** Wait until all of the buffer cache is on the medium. */
    method SyncDevice()
      requires Valid()
      modifies `may, `acts
      ensures Valid() && acts == old(acts) + [Barrier]
    {
      PerformNext(initial, acts, Barrier);
      BarrierIs(Store(view, may));
      hide PerformAll, Perform, StoreOk, Geometry.Wf, Settled;
      may := Settled(view).may;
      acts := acts + [Barrier];
    }

    lemma {:induction false} Sized()
      requires Valid()
      ensures g.Wf() && |view| == g.blocksCount > 0 && view[0].Super?
      ensures g.journalBlock != 0 && g.DescriptorBlock() != 0 && g.CommitBlock() != 0 && g.PayloadStart() != 0
    {
    }

    /** Change the superblock. */
    method WriteSuper(recovery: bool, marked: nat)
      requires Valid()
      modifies `view, `may, `acts
      ensures Valid() && acts == old(acts) + [Mark(recovery, marked)]
      ensures |view| == |old(view)| > 0 && view == old(view)[0 := Super(recovery, marked)]
    {
      hide Valid, PerformAll;
      Sized();
      WriteBlock(0, Super(recovery, marked));
    }

    method Begin() returns (err: Errno)
      requires Valid()
      modifies this
      ensures Valid() && err == Ok && |old(view)| > 0 && old(view)[0].Super?
      ensures acts == old(acts) + BeginWrites(g, old(sequence), old(view)[0].recovery)
      ensures State() == Vol(old(sequence) + 1, [])
    {
      hide Valid, MakeControl, PerformAll;
      Sized();
      var previous := sequence;
      homes := [];
      sequence := previous + 1;
      WriteSuper(view[0].recovery, sequence);
      WriteSuper(true, sequence);
      WriteSync(g.journalBlock, MakeControl(g, ACTIVE, sequence, previous));
      WriteBlock(g.DescriptorBlock(), ZERO);
      WriteBlock(g.CommitBlock(), ZERO);
      SyncDevice();
      SixMore(old(acts), BeginWrites(g, previous, old(view)[0].recovery));
      err := Ok;
    }

    method RecordBlock(home: nat) returns (err: Errno)
      requires Valid() && home < g.blocksCount
      modifies this
      ensures Valid()
      ensures var r := RecordOp(g, old(State()), home, old(view[home]));
              err == r.err && acts == old(acts) + r.acts && State() == r.vol
    {
      var content := view[home];
      hide Valid, MakeControl, MakeDescriptor, MakeCommit, PerformAll;
      if home == 0 || !g.dataBlock(home) || g.Internal(home) {
        return Einval;
      }
      for i := 0 to |homes|
        invariant home !in homes[..i]
      {
        if homes[i] == home {
          return Ok;
        }
      }
      assert homes[..|homes|] == homes;
      var entries := |homes|;
      if entries >= g.Capacity() {
        return Enospc;
      }
      homes := homes + [home];
      SaveImage(content);
      err := Ok;
    }

    /** Before-image of the newest recorded block, descriptor, commit, each synchronously. */
    method SaveImage(content: Block)
      requires Valid() && homes != []
      modifies `view, `may, `acts
      ensures Valid()
      ensures acts == old(acts) + [Sync(g.PayloadStart() + |homes| - 1, content),
                                   Sync(g.DescriptorBlock(), MakeDescriptor(g, ACTIVE, homes, sequence)),
                                   Sync(g.CommitBlock(), MakeCommit(g, COMMITTED, |homes|, sequence))]
    {
      hide Valid, MakeDescriptor, MakeCommit, PerformAll;
      Sized();
      WriteSync(g.PayloadStart() + |homes| - 1, content);
      WriteSync(g.DescriptorBlock(), MakeDescriptor(g, ACTIVE, homes, sequence));
      WriteSync(g.CommitBlock(), MakeCommit(g, COMMITTED, |homes|, sequence));
      ThreeMore(old(acts), [Sync(g.PayloadStart() + |homes| - 1, content),
                            Sync(g.DescriptorBlock(), MakeDescriptor(g, ACTIVE, homes, sequence)),
                            Sync(g.CommitBlock(), MakeCommit(g, COMMITTED, |homes|, sequence))]);
    }

    method ResetState(last: nat)
      requires Valid()
      modifies `view, `may, `acts
      ensures Valid() && g.Wf() && acts == old(acts) + ResetActs(g, last)
      ensures |view| == |old(view)| > 0 && view[0] == old(view)[0]
    {
      hide Valid, MakeControl, MakeDescriptor, MakeCommit, PerformAll;
      Sized();
      WriteSync(g.journalBlock, MakeControl(g, 0, 0, last));
      WriteSync(g.DescriptorBlock(), MakeDescriptor(g, 0, [], last));
      WriteSync(g.CommitBlock(), MakeCommit(g, 0, 0, last));
      ThreeMore(old(acts), ResetActs(g, last));
    }

    method Commit() returns (err: Errno)
      requires Valid()
      modifies this
      ensures Valid() && err == Ok && |old(view)| > 0 && old(view)[0].Super?
      ensures acts == old(acts) + CommitWrites(g, old(sequence), old(view)[0].sequence)
      ensures State() == Vol(old(sequence), [])
    {
      hide Valid, ResetActs, PerformAll;
      Sized();
      SyncDevice(); // ordered data
      SyncDevice(); // metadata
      ResetState(sequence);
      WriteSuper(false, view[0].sequence);
      SyncDevice();
      CommitIs(old(acts), g, sequence, old(view)[0].sequence);
      homes := [];
      err := Ok;
    }

    /** Write the before-images back, in the order they were recorded. */
    method RestoreHomes(entries: seq<nat>, n: nat) returns (err: Errno)
      requires Valid() && n <= |entries| <= g.Capacity()
      modifies `view, `may, `acts
      ensures Valid()
      ensures var (restores, e) := RestoreActs(g, old(view), entries, n);
              err == e && acts == old(acts) + restores
      ensures |view| == |old(view)| > 0 && view[0] == old(view)[0]
    {
      hide *;
      Sized();
      ghost var d := view;
      NoRestores(g, d, entries);
      for i := 0 to n
        invariant Valid() && |view| == |d| && view[0] == d[0]
        invariant RestoreActs(g, d, entries, i).1 == Ok
        invariant acts == old(acts) + RestoreActs(g, d, entries, i).0
        invariant forall b: nat :: b < |d| && g.Internal(b) ==> view[b] == d[b]
      {
        var home := entries[i];
        RestoreMore(g, d, entries, i);
        if !g.Recordable(home) {
          RestoreStops(g, d, entries, i + 1, n);
          return Euclean;
        }
        WriteBlock(home, view[g.PayloadStart() + i]);
      }
      err := Ok;
    }

    /** Set the sequence number, in the superblock too. */
    method SetSequence(last: nat)
      requires Valid()
      modifies `view, `may, `acts, `sequence
      ensures Valid() && sequence == last && |view| == |old(view)| > 0 && old(view)[0].Super?
      ensures acts == old(acts) + [Mark(old(view)[0].recovery, last)]
      ensures view == old(view)[0 := Super(old(view)[0].recovery, last)]
    {
      hide *;
      Sized();
      sequence := last;
      WriteSuper(view[0].recovery, last);
    }

    /** Reset the journal, take the recovery flag back and flush. */
    method Finish(last: nat)
      requires Valid() && |view| > 0 && view[0].Super? && view[0].sequence == last
      modifies `view, `may, `acts
      ensures Valid() && g.Wf() && acts == old(acts) + ResetActs(g, last) + [Mark(false, last), Barrier]
    {
      hide *;
      Sized();
      ResetState(last);
      WriteSuper(false, view[0].sequence);
      SyncDevice();
      TwoMore(old(acts) + ResetActs(g, last), Mark(false, last), Barrier);
    }

    method Replay() returns (err: Errno)
      requires Valid()
      modifies this
      ensures Valid() && g.Wf() && |old(view)| == g.blocksCount > 0 && old(view)[0].Super?
      ensures var r := ReplayOp(g, old(view));
              err == r.err && acts == old(acts) + ReplayWrites(g, old(view)) && (err == Ok ==> sequence == r.sequence)
    {
      hide *;
      Sized();
      ReplayIs(g, view);
      ghost var d := view;
      var control := view[g.journalBlock];
      if !ControlValid(g, control) {
        NothingMore(acts);
        return Euclean;
      }
      SetSequence(control.last);
      ghost var first := [Mark(d[0].recovery, control.last)];
      if control.active == 0 {
        WriteSuper(false, view[0].sequence);
        SyncDevice();
        TwoMore(old(acts) + first, Mark(false, control.last), Barrier);
        Joined(old(acts), first, [], [Mark(false, control.last), Barrier]);
        return Ok;
      }
      var descriptor, commit := view[g.DescriptorBlock()], view[g.CommitBlock()];
      if !DescriptorValid(g, descriptor) {
        Finish(control.last);
        Joined(old(acts), first, ResetActs(g, control.last), [Mark(false, control.last), Barrier]);
        return Ok;
      }
      if !CommitValid(g, commit) || commit.sequence != control.active || descriptor.sequence != control.active
         || commit.entries > |descriptor.homes| {
        Finish(control.last);
        Joined(old(acts), first, ResetActs(g, control.last), [Mark(false, control.last), Barrier]);
        return Ok;
      }
      SameRestores(g, d, view, descriptor.homes, commit.entries);
      err := RestoreHomes(descriptor.homes, commit.entries);
      ghost var restores := RestoreActs(g, d, descriptor.homes, commit.entries).0;
      if err != Ok {
        Joined(old(acts), first, [], restores);
        return;
      }
      SyncDevice();
      SetSequence(control.active);
      Finish(control.active);
      Restored(old(acts), first, restores, Mark(d[0].recovery, control.active), ResetActs(g, control.active),
               [Mark(false, control.active), Barrier]);
    }

    /** A mount: the sequence number is that of the superblock, and only a set recovery flag makes it replay. */
    method Mount() returns (err: Errno)
      requires Valid()
      modifies this
      ensures Valid() && g.Wf() && |old(view)| == g.blocksCount > 0 && old(view)[0].Super?
      ensures var m := MountOp(g, old(view));
              err == m.err && acts == old(acts) + m.writes && (err == Ok ==> sequence == m.sequence)
    {
      hide *;
      Sized();
      MountIs(g, view);
      sequence := view[0].sequence;
      if !view[0].recovery {
        NothingMore(acts);
        return Ok;
      }
      err := Replay();
    }
  }

  lemma {:induction false} MountIs(g: Geometry, d: Disk)
    requires g.Wf() && |d| == g.blocksCount && d[0].Super?
    ensures MountOp(g, d) == if d[0].recovery then Mounted(ReplayOp(g, d).err, ReplayWrites(g, d), ReplayOp(g, d).sequence)
                             else Mounted(Ok, [], d[0].sequence)
  {
  }

  lemma {:induction false} NothingMore(acts: seq<Act>)
    ensures acts + [] == acts
  {
  }

  lemma {:induction false} TwoMore(acts: seq<Act>, a: Act, b: Act)
    ensures acts + [a] + [b] == acts + [a, b]
  {
  }

  lemma {:induction false} Joined(acts: seq<Act>, a: seq<Act>, b: seq<Act>, c: seq<Act>)
    ensures acts + a + b + c == acts + (a + (b + c)) && acts + a + c == acts + (a + c)
  {
  }

  lemma {:induction false} Restored(acts: seq<Act>, a: seq<Act>, b: seq<Act>, m: Act, c: seq<Act>, z: seq<Act>)
    ensures acts + a + b + [Barrier] + [m] + c + z == acts + (a + (b + [Barrier, m] + c + z))
  {
  }

  /** The superblock is not among what is restored. */
  lemma {:induction false} SameRestores(g: Geometry, d: Disk, e: Disk, homes: seq<nat>, n: nat)
    requires g.Wf() && |d| == |e| == g.blocksCount && n <= |homes| <= g.Capacity() && e == d[0 := e[0]]
    ensures RestoreActs(g, e, homes, n) == RestoreActs(g, d, homes, n)
  {
    if n > 0 {
      SameRestores(g, d, e, homes, n - 1);
      assert g.PayloadStart() + n - 1 > 0;
    }
  }

  /** What replay decides, case by case. */
  lemma {:induction false} ReplayIs(g: Geometry, d: Disk)
    requires g.Wf() && |d| == g.blocksCount
    ensures g.journalBlock < |d| && g.DescriptorBlock() < |d| && g.CommitBlock() < |d|
    ensures d[0].Super? ==>
              var c, r := d[g.journalBlock], ReplayOp(g, d);
              ReplayWrites(g, d)
              == if !ControlValid(g, c) then []
                 else
                   [Mark(d[0].recovery, c.last)]
                   + if c.active == 0 then [Mark(false, c.last), Barrier]
                     else if !Restores(g, d) then ResetActs(g, c.last) + [Mark(false, c.last), Barrier]
                     else if r.err != Ok then r.restores
                     else
                       r.restores + [Barrier, Mark(d[0].recovery, c.active)] + ResetActs(g, c.active)
                       + [Mark(false, c.active), Barrier]
    ensures ControlValid(g, d[g.journalBlock]) ==>
              (Restores(g, d) <==>
                 var c, s, m := d[g.journalBlock], d[g.DescriptorBlock()], d[g.CommitBlock()];
                 && c.active != 0 && DescriptorValid(g, s) && CommitValid(g, m)
                 && m.sequence == c.active && s.sequence == c.active && m.entries <= |s.homes|)
    ensures ControlValid(g, d[g.journalBlock]) ==> d[g.journalBlock].Control?
    ensures DescriptorValid(g, d[g.DescriptorBlock()]) ==>
              d[g.DescriptorBlock()].Descriptor? && |d[g.DescriptorBlock()].homes| <= g.Capacity()
    ensures CommitValid(g, d[g.CommitBlock()]) ==> d[g.CommitBlock()].Commit?
    ensures var c, s, m := d[g.journalBlock], d[g.DescriptorBlock()], d[g.CommitBlock()];
            ReplayOp(g, d)
            == if !ControlValid(g, c) then Recovery(Euclean, [], [], 0)
               else if c.active == 0 then Recovery(Ok, [], [Barrier], c.last)
               else if !DescriptorValid(g, s) || !CommitValid(g, m) || m.sequence != c.active || s.sequence != c.active
                       || m.entries > |s.homes|
                    then Recovery(Ok, [], ResetActs(g, c.last) + [Barrier], c.last)
               else
                 var (acts, err) := RestoreActs(g, d, s.homes, m.entries);
                 if err != Ok then Recovery(err, acts, [], c.last)
                 else Recovery(Ok, acts, [Barrier] + ResetActs(g, c.active) + [Barrier], c.active)
  {
    hide RestoreActs, ResetActs, SealOk;
  }

  lemma {:induction false} NoRestores(g: Geometry, d: Disk, entries: seq<nat>)
    requires g.Wf() && |d| == g.blocksCount && |entries| <= g.Capacity()
    ensures RestoreActs(g, d, entries, 0) == ([], Ok)
  {
  }

  /** One restore more. */
  lemma {:induction false} RestoreMore(g: Geometry, d: Disk, entries: seq<nat>, i: nat)
    requires g.Wf() && |d| == g.blocksCount && i < |entries| <= g.Capacity() && RestoreActs(g, d, entries, i).1 == Ok
    ensures g.PayloadStart() + i < |d| && g.Internal(g.PayloadStart() + i)
    ensures g.Recordable(entries[i]) ==> !g.Internal(entries[i]) && entries[i] != 0
    ensures RestoreActs(g, d, entries, i + 1)
            == if g.Recordable(entries[i]) then
                 (RestoreActs(g, d, entries, i).0 + [Lazy(entries[i], d[g.PayloadStart() + i])], Ok)
               else (RestoreActs(g, d, entries, i).0, Euclean)
  {
  }

  lemma {:induction false} RestoreStops(g: Geometry, d: Disk, entries: seq<nat>, i: nat, n: nat)
    requires g.Wf() && |d| == g.blocksCount && i <= n <= |entries| <= g.Capacity()
    requires RestoreActs(g, d, entries, i).1 != Ok
    ensures RestoreActs(g, d, entries, n) == RestoreActs(g, d, entries, i)
  {
    if i < n {
      RestoreStops(g, d, entries, i, n - 1);
    }
  }
}
