/** The actions of every undo-journal operation. */
module UndoSpec {
  import opened UndoLayout

  /** The in-memory fields: the running or last sequence number and the recorded blocks. */
  datatype Vol = Vol(sequence: nat, homes: seq<nat>)

  function BeginActs(g: Geometry, previous: nat): seq<Act>
    requires g.Wf()
  {
    [Sync(g.journalBlock, MakeControl(g, ACTIVE, previous + 1, previous)),
     Lazy(g.DescriptorBlock(), ZERO), Lazy(g.CommitBlock(), ZERO), Barrier]
  }

  datatype RecordResult = RecordResult(err: Errno, acts: seq<Act>, vol: Vol)

  /** Save the before-image of `home`, then a descriptor that names it, then a commit that counts it. */
  function RecordOp(g: Geometry, v: Vol, home: nat, content: Block): RecordResult
    requires g.Wf()
  {
    if !g.Recordable(home) then RecordResult(Einval, [], v)
    else if home in v.homes then RecordResult(Ok, [], v)
    else if |v.homes| >= g.Capacity() then RecordResult(Enospc, [], v)
    else
      var homes := v.homes + [home];
      RecordResult(Ok,
                   [Sync(g.PayloadStart() + |v.homes|, content),
                    Sync(g.DescriptorBlock(), MakeDescriptor(g, ACTIVE, homes, v.sequence)),
                    Sync(g.CommitBlock(), MakeCommit(g, COMMITTED, |homes|, v.sequence))],
                   v.(homes := homes))
  }

  function ResetActs(g: Geometry, last: nat): seq<Act>
    requires g.Wf()
  {
    [Sync(g.journalBlock, MakeControl(g, 0, 0, last)),
     Sync(g.DescriptorBlock(), MakeDescriptor(g, 0, [], last)),
     Sync(g.CommitBlock(), MakeCommit(g, 0, 0, last))]
  }

  /** Commit: everything reaches the medium, by the barrier of ordered data and by the flush of metadata, then
      the control block turns idle. */
  function CommitActs(g: Geometry, sequence: nat): seq<Act>
    requires g.Wf()
  {
    [Barrier, Barrier] + ResetActs(g, sequence) + [Barrier]
  }

  /** Whether replay of `d` restores before-images. */
  predicate Restores(g: Geometry, d: Disk)
    requires g.Wf() && |d| == g.blocksCount && d[g.journalBlock].Control?
  {
    var c, s, m := d[g.journalBlock], d[g.DescriptorBlock()], d[g.CommitBlock()];
    c.active != 0 && DescriptorValid(g, s) && CommitValid(g, m)
    && m.sequence == c.active && s.sequence == c.active && m.entries <= |s.homes|
  }

  /** Lazy restores of the first `n` entries; stops before an entry that may not be restored. */
  function RestoreActs(g: Geometry, d: Disk, homes: seq<nat>, n: nat): (r: (seq<Act>, Errno))
    requires g.Wf() && |d| == g.blocksCount && n <= |homes| <= g.Capacity()
  {
    if n == 0 then ([], Ok)
    else
      var (acts, err) := RestoreActs(g, d, homes, n - 1);
      if err != Ok then (acts, err)
      else if !g.Recordable(homes[n - 1]) then (acts, Euclean)
      else (acts + [Lazy(homes[n - 1], d[g.PayloadStart() + n - 1])], Ok)
  }

  /** Restores, then flushes and the reset of the journal. */
  datatype Recovery = Recovery(err: Errno, restores: seq<Act>, finish: seq<Act>, sequence: nat)

  function ReplayOp(g: Geometry, d: Disk): Recovery
    requires g.Wf() && |d| == g.blocksCount
  {
    var c := d[g.journalBlock];
    if !ControlValid(g, c) then Recovery(Euclean, [], [], 0)
    else if c.active == 0 then Recovery(Ok, [], [Barrier], c.last)
    else if !Restores(g, d) then Recovery(Ok, [], ResetActs(g, c.last) + [Barrier], c.last)
    else
      var (acts, err) := RestoreActs(g, d, d[g.DescriptorBlock()].homes, d[g.CommitBlock()].entries);
      if err != Ok then Recovery(err, acts, [], c.last)
      else Recovery(Ok, acts, [Barrier] + ResetActs(g, c.active) + [Barrier], c.active)
  }

  // ----- with the superblock

  /** The superblock is written lazily: the recovery flag, and the sequence number a mount starts with. */
  function Mark(recovery: bool, sequence: nat): Act { Lazy(0, Super(recovery, sequence)) }

  /** Begin, with its two changes of the superblock; `recovery` is the flag so far. */
  function BeginWrites(g: Geometry, previous: nat, recovery: bool): seq<Act>
    requires g.Wf()
  {
    [Mark(recovery, previous + 1), Mark(true, previous + 1)] + BeginActs(g, previous)
  }

  /** Commit, which takes the flag back behind the reset; `marked` is the sequence number in the superblock. */
  function CommitWrites(g: Geometry, sequence: nat, marked: nat): seq<Act>
    requires g.Wf()
  {
    [Barrier, Barrier] + ResetActs(g, sequence) + [Mark(false, marked), Barrier]
  }

  /** Replay, with its changes of the superblock. */
  function ReplayWrites(g: Geometry, d: Disk): seq<Act>
    requires g.Wf() && |d| == g.blocksCount && d[0].Super?
  {
    var c, r := d[g.journalBlock], ReplayOp(g, d);
    if !ControlValid(g, c) then []
    else
      [Mark(d[0].recovery, c.last)]
      + if c.active == 0 then [Mark(false, c.last), Barrier]
        else if !Restores(g, d) then ResetActs(g, c.last) + [Mark(false, c.last), Barrier]
        else if r.err != Ok then r.restores
        else r.restores + [Barrier, Mark(d[0].recovery, c.active)] + ResetActs(g, c.active) + [Mark(false, c.active), Barrier]
  }

  /** A mount: it replays only when the flag is set. */
  datatype Mounted = Mounted(err: Errno, writes: seq<Act>, sequence: nat)

  function MountOp(g: Geometry, d: Disk): Mounted
    requires g.Wf() && |d| == g.blocksCount && d[0].Super?
  {
    if d[0].recovery then Mounted(ReplayOp(g, d).err, ReplayWrites(g, d), ReplayOp(g, d).sequence)
    else Mounted(Ok, [], d[0].sequence)
  }

  // ----- what is decided

  /** A transaction may record `n` blocks exactly when their before-images, a descriptor, a commit block and the control
      block fit into the journal, and the header and `n` entries of 8 bytes into the descriptor. */
  lemma {:induction false} CapacityIsLargest(g: Geometry, n: nat)
    requires n > 0
    ensures n <= g.Capacity() <==> n + 3 <= g.journalBlocks && 72 + 8 * n <= 4096
  {
  }

  /** One record: the block joins what is recorded exactly when it is a data block outside the journal and is there or
      has room. Only then, and when it was not there, is anything written. */
  lemma {:induction false} RecordExactly(g: Geometry, v: Vol, home: nat, content: Block)
    requires g.Wf()
    ensures var r := RecordOp(g, v, home, content);
            var mayBe := 0 < home < g.blocksCount && g.dataBlock(home)
                         && !(g.journalBlock <= home < g.journalBlock + g.journalBlocks);
            && (r.err == Ok <==> mayBe && (home in v.homes || |v.homes| < g.Capacity()))
            && (r.err == Einval <==> !mayBe)
            && (r.err == Enospc <==> mayBe && home !in v.homes && |v.homes| >= g.Capacity())
            && r.vol == v.(homes := if r.err == Ok && home !in v.homes then v.homes + [home] else v.homes)
            && (r.acts == [] <==> r.err != Ok || home in v.homes)
  {
  }

  /** The three blocks that turn the journal idle: a valid control block without a transaction, a descriptor that lists
      nothing, and a commit block that counts nothing and is not marked as such, none of which says that anything is to be
      restored. */
  lemma {:induction false} ResetExactly(g: Geometry, last: nat)
    requires g.Wf()
    ensures var acts := ResetActs(g, last);
            && |acts| == 3 && (forall i :: 0 <= i < 3 ==> acts[i].Sync?)
            && acts[0].block == g.journalBlock && acts[1].block == g.journalBlock + 1
            && acts[2].block == g.journalBlock + g.journalBlocks - 1
            && var c, s, m := acts[0].value, acts[1].value, acts[2].value;
               && ControlValid(g, c) && c.active == 0 && c.flags == 0 && c.last == c.checkpoint == c.tail == last
               && DescriptorValid(g, s) && s.homes == [] && s.flags == 0 && s.sequence == last
               && m.Commit? && SealOk(g, m) && m.entries == 0 && m.flags == 0 && m.sequence == last && !CommitValid(g, m)
  {
  }

  /** Over arbitrary contents: replay restores exactly when descriptor and commit block are those of the transaction that
      the control block names, the commit block marked as such, and it counts no more blocks than the descriptor lists. */
  lemma {:induction false} RestoresExactly(g: Geometry, d: Disk)
    requires g.Wf() && |d| == g.blocksCount && d[g.journalBlock].Control?
    ensures var c, s, m := d[g.journalBlock], d[g.DescriptorBlock()], d[g.CommitBlock()];
            Restores(g, d)
            <==> && c.active != 0 && s.Descriptor? && m.Commit?
                 && s == MakeDescriptor(g, s.flags, s.homes, c.active) && |s.homes| <= g.Capacity()
                 && m == MakeCommit(g, m.flags, m.entries, c.active) && m.flags / 2 % 2 == 1 && m.entries <= |s.homes|
  {
  }

  /** The restores go through the list in order, each with its own before-image, up to the first block that may not be
      recorded. */
  lemma {:induction false} RestoresInOrder(g: Geometry, d: Disk, homes: seq<nat>, n: nat)
    requires g.Wf() && |d| == g.blocksCount && n <= |homes| <= g.Capacity()
    ensures var (acts, err) := RestoreActs(g, d, homes, n);
            && |acts| <= n && (err == Ok <==> |acts| == n)
            && (forall i :: 0 <= i < |acts| ==> g.Recordable(homes[i]) && acts[i] == Lazy(homes[i], d[g.journalBlock + 2 + i]))
            && (err != Ok ==> err == Euclean && !g.Recordable(homes[|acts|]))
  {
    if n > 0 {
      RestoresInOrder(g, d, homes, n - 1);
    }
  }

  /** What replay answers: it fails on a control block that is not valid, and on a list with a block that may not be
      recorded, and goes on with the transaction it restored or with the last one before it. */
  lemma {:induction false} ReplayExactly(g: Geometry, d: Disk)
    requires g.Wf() && |d| == g.blocksCount
    ensures var r, c, s, m := ReplayOp(g, d), d[g.journalBlock], d[g.DescriptorBlock()], d[g.CommitBlock()];
            && (r.err == Ok || r.err == Euclean)
            && (r.err == Ok <==> && ControlValid(g, c)
                                 && (Restores(g, d) ==> forall i :: 0 <= i < m.entries ==> g.Recordable(s.homes[i])))
            && (!ControlValid(g, c) || !Restores(g, d) ==> r.restores == [])
            && (r.err != Ok ==> r.finish == [])
            && (r.err == Ok ==> r.sequence == if Restores(g, d) then c.active else c.last)
            && (r.err == Ok ==> r.finish != [] && r.finish[|r.finish| - 1] == Barrier)
  {
    var s, m := d[g.DescriptorBlock()], d[g.CommitBlock()];
    if ControlValid(g, d[g.journalBlock]) && Restores(g, d) {
      RestoresInOrder(g, d, s.homes, m.entries);
    }
  }

  /** A replay that fails puts back what stands in front of the block that may not be recorded and leaves the journal and
      the recovery flag alone, so the next mount finds the same transaction. */
  lemma {:induction false} FailureKeepsJournal(g: Geometry, d: Disk)
    requires g.Wf() && |d| == g.blocksCount && d[0].Super? && ReplayOp(g, d).err != Ok
    ensures var w, c, s := ReplayWrites(g, d), d[g.journalBlock], d[g.DescriptorBlock()];
            if !ControlValid(g, c) then w == []
            else
              && Restores(g, d) && w != [] && w[0] == Mark(d[0].recovery, c.last)
              && |w| - 1 < d[g.CommitBlock()].entries && !g.Recordable(s.homes[|w| - 1])
              && forall i :: 1 <= i < |w| ==>
                   g.Recordable(s.homes[i - 1]) && w[i] == Lazy(s.homes[i - 1], d[g.journalBlock + 1 + i])
  {
    if ControlValid(g, d[g.journalBlock]) {
      RestoresInOrder(g, d, d[g.DescriptorBlock()].homes, d[g.CommitBlock()].entries);
    }
  }
}
