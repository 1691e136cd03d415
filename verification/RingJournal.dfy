/** The ring journal as the program runs it: fields that are updated in place, one synchronous block
    write at a time. Every method is proved to make the decisions and writes of its specification. */
module RingJournal {
  import opened Device
  import opened RingLayout
  import opened RingSpec

  class Journal {
    const g: Geometry
    /** The disk before the first write of this mount. */
    ghost const disk0: Disk
    var disk: Disk
    /** All synchronous writes so far; every prefix is a possible crash image. */
    ghost var log: Log

    var sequence: Seq64
    var lastSequence: Seq64
    var activeSequence: Seq64
    var tailSequence: Seq64
    var checkpointSequence: Seq64
    var head: nat
    var tail: nat
    var homes: seq<nat>
    var error: Errno

    function State(): Vol
      reads `sequence, `lastSequence, `activeSequence, `tailSequence, `checkpointSequence, `head, `tail, `homes, `error
    {
      Vol(sequence, lastSequence, activeSequence, tailSequence, checkpointSequence, head, tail, homes, error)
    }

    ghost predicate Valid()
      reads `disk, `log, `homes
    {
      && g.Wf() && |disk| == |disk0| == g.blocksCount
      && disk == Apply(disk0, log)
      && (forall h :: h in homes ==> h < g.blocksCount)
    }

    lemma {:induction false} Parts()
      requires Valid()
      ensures g.Wf() && |disk| == g.blocksCount && g.journalBlock < |disk| && g.journalBlocks >= 3
      ensures |disk0| == g.blocksCount && disk == Apply(disk0, log) && forall h :: h in homes ==> h < g.blocksCount
    {
    }

    constructor (g: Geometry, disk: Disk)
      requires g.Wf() && |disk| == g.blocksCount
      ensures Valid() && this.g == g && this.disk == this.disk0 == disk && this.log == []
      ensures State() == Vol(0, 0, 0, 0, 0, 0, 0, [], Ok)
    {
      this.g, this.disk, this.disk0, this.log := g, disk, disk, [];
      sequence, lastSequence, activeSequence, tailSequence, checkpointSequence := 0, 0, 0, 0, 0;
      head, tail, homes, error := 0, 0, [], Ok;
    }

    method WriteSync(block: nat, value: Block)
      requires Valid()
      modifies `disk, `log
      ensures Valid() && log == old(log) + [Write(block, value)]
      ensures disk == Store(old(disk), Write(block, value))
    {
      if block < |disk| {
        disk := disk[block := value];
      }
      log := log + [Write(block, value)];
      assert log[..|log| - 1] == old(log);
    }

    method ClearRuntime()
      modifies `homes, `error, `activeSequence
      ensures State() == Clear(old(State())) && homes == []
    {
      homes, error, activeSequence := [], Ok, 0;
    }

    method Begin() returns (err: Errno)
      requires Valid()
      modifies `homes, `error, `activeSequence
      ensures Valid() && (err, State()) == BeginOp(g, old(State()))
    {
      if activeSequence != 0 {
        return if error != Ok then error else Euclean;
      }
      if g.Capacity() == 0 {
        return Eopnotsupp;
      }
      ClearRuntime();
      activeSequence := (sequence + 1) % 0x1_0000_0000_0000_0000;
      return Ok;
    }

    method RecordBlock(home: nat) returns (err: Errno)
      requires Valid()
      modifies `homes, `error
      ensures Valid() && (err, State()) == RecordOp(g, old(State()), home)
    {
      if activeSequence == 0 {
        return Einval;
      }
      if error != Ok {
        return error;
      }
      if home >= g.blocksCount || g.Internal(home) {
        error := Einval;
        return Einval;
      }
      for i := 0 to |homes|
        invariant home !in homes[..i]
      {
        if homes[i] == home {
          return Ok;
        }
      }
      assert homes[..|homes|] == homes;
      if |homes| >= g.Capacity() {
        error := Enospc;
        return Enospc;
      }
      homes := homes + [home];
      return Ok;
    }

    method Abort()
      modifies `homes, `error, `activeSequence
      ensures State() == Clear(old(State()))
    {
      ClearRuntime();
    }

    /** Write the payloads of the open transaction, collecting the descriptor entries and the folded
        checksum. */
    method WritePayloads(cache: Disk, at: nat, ghost s: Segment) returns (entries: seq<Entry>, checksum: nat)
      requires Valid() && |cache| == |disk|
      requires s == CachedSegment(activeSequence, homes, cache)
      modifies `disk, `log
      ensures Valid() && log == old(log) + PayloadWrites(s, at)
      ensures entries == MakeEntries(g, s.updates) && checksum == Aggregate(g, Payloads(s.updates))
    {
      hide *;
      Parts();
      ghost var ps := Payloads(s.updates);
      NoPayloads(g);
      entries, checksum := [], OFFSET_BASIS;
      for i := 0 to |homes|
        invariant Valid() && log == old(log) + PayloadWrites(s, at)[..i]
        invariant entries == MakeEntries(g, s.updates)[..i] && checksum == Fold(g, ps[..i])
      {
        assert homes[i] in homes;
        var payload := cache[homes[i]];
        OnePayload(g, s, at, i, activeSequence, homes, cache);
        checksum := g.fold(checksum, payload);
        entries := entries + [Entry(homes[i], Hash(g, payload), 0)];
        WriteSync(at + 1 + i, payload);
      }
      assert ps[..|homes|] == ps && PayloadWrites(s, at)[..|homes|] == PayloadWrites(s, at);
      assert MakeEntries(g, s.updates)[..|homes|] == MakeEntries(g, s.updates);
      AggregateIs(g, ps);
      if |homes| == 0 {
        checksum := 0;
      }
    }

    /** The synchronous writes of a commit, in order: payloads, descriptor, PREPARED control block,
        commit block, COMMITTED control block. */
    method WriteSegment(cache: Disk, at: nat, ghost s: Segment)
      requires Valid() && |cache| == |disk|
      requires s == CachedSegment(activeSequence, homes, cache)
      modifies `disk, `log
      ensures Valid() && log == old(log) + CommitWrites(g, State(), s, at)
    {
      hide *;
      States();
      var commitAt := at + 1 + |homes|;
      Parts();
      SegmentIs(s, activeSequence, homes, cache);
      var entries, checksum := WritePayloads(cache, at, s);
      var descriptor := Sealed(g, Descriptor(activeSequence, at + 1, commitAt, entries, 0));
      DescriptorIs(g, s, at);
      WriteSync(at, descriptor);
      WriteSync(g.journalBlock, MakeControl(g, PREPARED, sequence, activeSequence, checkpointSequence, at, at + 1, |homes|,
                                            commitAt, head, tail));
      WriteSync(commitAt, Sealed(g, RingLayout.Block.Commit(FLAG_COMMITTED, |homes|, activeSequence, at,
                                                            descriptor.checksum, checksum, 0)));
      WriteSync(g.journalBlock, MakeControl(g, COMMITTED, activeSequence, 0, checkpointSequence, at, at + 1, |homes|,
                                            commitAt, head, tail));
      CommitTail(old(log), g, State(), s, at);
      StateIs();
    }

    lemma {:induction false} StateIs()
      ensures State() == Vol(sequence, lastSequence, activeSequence, tailSequence, checkpointSequence, head, tail, homes, error)
    {
    }

    method Commit(cache: Disk) returns (err: Errno)
      requires Valid() && |cache| == |disk|
      modifies this
      ensures Valid()
      ensures var o := CommitOp(g, old(State()), cache);
              err == o.err && State() == o.vol && log == old(log) + o.writes
    {
      hide CommitWrites, Apply, Allocate;
      err := error;
      if err != Ok {
        ClearRuntime();
        return;
      }
      var ignored := RecordBlock(g.superBlock);
      if error != Ok {
        err := error;
        ClearRuntime();
        return;
      }
      var placement := Allocate(g, head, tail, |homes|);
      if placement == None {
        err := Enospc;
        ClearRuntime();
        return;
      }
      if tail == head {
        tail := placement.value.at;
      }
      head := placement.value.nextHead;
      WriteSegment(cache, placement.value.at, CachedSegment(activeSequence, homes, cache));
      sequence, lastSequence := activeSequence, activeSequence;
      ClearRuntime();
    }

    // ----- checkpoint

    /** Check every entry and payload of a descriptor and the folded checksum of its commit record. */
    method VerifyPayloads(descriptor: Block, commit: Block) returns (ok: bool)
      requires Valid() && descriptor.Descriptor? && commit.Commit?
      requires descriptor.payloadStart + |descriptor.entries| <= |disk|
      ensures ok <==> PayloadsOk(g, disk, descriptor, commit)
    {
      var start, entries := descriptor.payloadStart, descriptor.entries;
      var checksum := OFFSET_BASIS;
      ghost var ps := disk[start..start + |entries|];
      for i := 0 to |entries|
        invariant forall j :: 0 <= j < i ==> EntryOk(g, entries[j]) && Hash(g, disk[start + j]) == entries[j].checksum
        invariant checksum == Fold(g, ps[..i])
      {
        if entries[i].home >= g.blocksCount || g.Internal(entries[i].home) || entries[i].flags != 0 {
          return false;
        }
        if Hash(g, disk[start + i]) != entries[i].checksum {
          return false;
        }
        assert ps[..i + 1][..i] == ps[..i] && ps[i] == disk[start + i];
        checksum := g.fold(checksum, disk[start + i]);
      }
      assert ps[..|entries|] == ps;
      if |entries| == 0 {
        checksum := 0;
      }
      ok := checksum == commit.payloadChecksum;
    }

    /** Copy the payloads of a descriptor to their home blocks. */
    method CopyHome(descriptor: Block)
      requires Valid() && descriptor.Descriptor?
      requires descriptor.payloadStart + |descriptor.entries| <= |disk|
      modifies `disk, `log
      ensures Valid() && log == old(log) + CopyWrites(old(disk), descriptor.entries, descriptor.payloadStart)
      ensures disk == Apply(old(disk), CopyWrites(old(disk), descriptor.entries, descriptor.payloadStart))
    {
      hide *;
      var start, entries := descriptor.payloadStart, descriptor.entries;
      NoCopies(disk, entries, start);
      for i := 0 to |entries|
        invariant Valid() && |disk| == |old(disk)|
        invariant log == old(log) + CopyWrites(old(disk), entries[..i], start)
        invariant disk == Apply(old(disk), CopyWrites(old(disk), entries[..i], start))
      {
        OneCopy(old(disk), entries, start, i);
        WriteSync(entries[i].home, disk[start + i]);
      }
      assert entries[..|entries|] == entries;
    }

    /** The home writes of a verified segment, the new tail, and the closing control block. */
    method RetireSegment(at: nat, descriptor: Block, super: Block)
      requires Valid() && descriptor.Descriptor?
      requires descriptor.payloadStart + |descriptor.entries| <= |disk|
      modifies `disk, `log, `tail, `tailSequence, `checkpointSequence
      ensures Valid()
      ensures State() == old(State()).(tail := g.Next(descriptor.commitBlock + 1), tailSequence := descriptor.sequence,
                                       checkpointSequence := descriptor.sequence)
      ensures log == old(log) + CopyWrites(old(disk), descriptor.entries, descriptor.payloadStart)
                     + if tail == head then
                       [Write(g.superBlock, super), Write(g.journalBlock, CheckpointControl(g, IDLE, State(), descriptor, at))]
                     else [Write(g.journalBlock, CheckpointControl(g, COMMITTED, State(), descriptor, at))]
    {
      hide CopyWrites, CheckpointControl;
      CopyHome(descriptor);
      tail := g.Next(descriptor.commitBlock + 1);
      tailSequence, checkpointSequence := descriptor.sequence, descriptor.sequence;
      if tail == head {
        WriteSync(g.superBlock, super);
        WriteSync(g.journalBlock, CheckpointControl(g, IDLE, State(), descriptor, at));
      } else {
        WriteSync(g.journalBlock, CheckpointControl(g, COMMITTED, State(), descriptor, at));
      }
    }

    /** Copy the oldest segment home and move the tail behind it. */
    method CheckpointOne(super: Block) returns (err: Errno)
      requires Valid()
      modifies `disk, `log, `tail, `tailSequence, `checkpointSequence
      ensures Valid()
      ensures var o := CheckpointOp(g, old(disk), old(State()), super);
              err == o.err && State() == o.vol && log == old(log) + o.writes
    {
      hide PayloadsOk, CopyWrites, CheckpointHeader, CheckpointControl, Valid;
      if tail == head {
        return Ok;
      }
      err := CheckpointHeader(g, disk, tail, checkpointSequence);
      if err != Ok {
        return;
      }
      HeaderShape(g, disk, tail, checkpointSequence);
      var at, descriptor := tail, disk[tail];
      var commit := disk[descriptor.commitBlock];
      ApplyOne(disk, Write(g.journalBlock, CheckpointControl(g, CHECKPOINTING, State(), descriptor, at)));
      WriteSync(g.journalBlock, CheckpointControl(g, CHECKPOINTING, State(), descriptor, at));
      var ok := VerifyPayloads(descriptor, commit);
      if !ok {
        return Euclean;
      }
      RetireSegment(at, descriptor, super);
    }

    /** Checkpoint until the ring is empty or a checkpoint fails. */
    method CheckpointSync(super: Block) returns (err: Errno)
      requires Valid()
      modifies `disk, `log, `tail, `tailSequence, `checkpointSequence
      ensures Valid()
      ensures var o := DrainOp(g, old(disk), old(State()), super);
              err == o.err && State() == o.vol && log == old(log) + o.writes
    {
      hide *;
      StateIs();
      err := Ok;
      ghost var all, done: Log := DrainOp(g, disk, State(), super), [];
      while err == Ok && tail != head
        invariant Valid() && log == old(log) + done
        invariant if err != Ok then all == Outcome(err, done, State())
                  else
                    var r := DrainOp(g, disk, State(), super);
                    all == Outcome(r.err, done + r.writes, r.vol)
        decreases err == Ok, 0xFFFF_FFFF_FFFF_FFFF - checkpointSequence
      {
        StateIs();
        DiskIs(log, []);
        ghost var log1, o := log, CheckpointOp(g, disk, State(), super);
        CheckpointGrows(g, disk, State(), super);
        DrainStep(g, disk, State(), super);
        err := CheckpointOne(super);
        DiskIs(log1, o.writes);
        StateIs();
        done := done + o.writes;
      }
      StateIs();
      if err == Ok {
        DrainEnd(g, disk, State(), super);
      }
    }

    lemma {:induction false} DiskIs(log1: Log, ws: Log)
      requires Valid() && log == log1 + ws
      ensures disk == Apply(Apply(disk0, log1), ws) && disk == Apply(disk0, log)
    {
      ApplyAppend(disk0, log1, ws);
    }

    // ----- replay at mount

    /** Does an earlier entry name the same home block? */
    method NamedBefore(entries: seq<Entry>, i: nat) returns (again: bool)
      requires i < |entries|
      ensures again <==> exists k :: 0 <= k < i && entries[k].home == entries[i].home
    {
      for j := 0 to i
        invariant forall k :: 0 <= k < j ==> entries[k].home != entries[i].home
      {
        if entries[j].home == entries[i].home {
          return true;
        }
      }
      again := false;
    }

    /** Like VerifyPayloads, but also refusing a home block that is named twice. */
    method VerifyForReplay(descriptor: Block, commit: Block) returns (ok: bool)
      requires Valid() && descriptor.Descriptor? && commit.Commit?
      requires descriptor.payloadStart + |descriptor.entries| <= |disk|
      ensures ok <==> Distinct(descriptor.entries) && PayloadsOk(g, disk, descriptor, commit)
    {
      hide Valid, Hash;
      var start, entries := descriptor.payloadStart, descriptor.entries;
      var checksum := OFFSET_BASIS;
      ghost var ps := disk[start..start + |entries|];
      for i := 0 to |entries|
        invariant forall j :: 0 <= j < i ==> EntryOk(g, entries[j]) && Hash(g, disk[start + j]) == entries[j].checksum
        invariant forall j, k :: 0 <= k < j < i ==> entries[k].home != entries[j].home
        invariant checksum == Fold(g, ps[..i])
      {
        if entries[i].home >= g.blocksCount || g.Internal(entries[i].home) || entries[i].flags != 0 {
          return false;
        }
        var again := NamedBefore(entries, i);
        if again {
          return false;
        }
        if Hash(g, disk[start + i]) != entries[i].checksum {
          return false;
        }
        assert ps[..i + 1][..i] == ps[..i] && ps[i] == disk[start + i];
        checksum := g.fold(checksum, disk[start + i]);
      }
      assert ps[..|entries|] == ps;
      if |entries| == 0 {
        checksum := 0;
      }
      ok := checksum == commit.payloadChecksum;
    }

    /** The verdict on the segment at `at`. */
    method JudgeSegment(at: nat, after: Seq64) returns (verdict: Verdict)
      requires Valid()
      ensures verdict == Judge(g, disk, at, after)
    {
      hide PayloadsOk;
      var err := DescriptorCheck(g, disk, at, after);
      if err != Ok {
        return Failed(err);
      }
      var descriptor := disk[at];
      var commit := disk[descriptor.commitBlock];
      if !CommitMatches(g, commit, descriptor, at) || commit.flags != FLAG_COMMITTED {
        return Uncommitted;
      }
      if commit.descriptorChecksum != descriptor.checksum {
        return Failed(Euclean);
      }
      var ok := VerifyForReplay(descriptor, commit);
      return if ok then Committed else Failed(Euclean);
    }

    /** Walk the ring from `from` to `end`, copying committed segments home. */
    method WalkRing(from: nat, end: nat, after: Seq64, initial: Seq64) returns (err: Errno, last: Seq64)
      requires Valid()
      modifies `disk, `log
      ensures Valid()
      ensures var w := Walk(g, old(disk), from, end, after, initial);
              err == w.err && last == w.last && log == old(log) + w.writes
    {
      hide *;
      var position, previous := from, after;
      last := initial;
      ghost var all, done: Log := Walk(g, disk, from, end, after, initial), [];
      while position != end
        invariant Valid() && log == old(log) + done
        invariant var r := Walk(g, disk, position, end, previous, last);
                  all == WalkResult(r.err, done + r.writes, r.last)
        decreases 0xFFFF_FFFF_FFFF_FFFF - previous
      {
        var verdict := JudgeSegment(position, previous);
        WalkStep(g, disk, position, end, previous, last);
        if verdict.Failed? {
          return verdict.err, last;
        }
        var segmentEnd := g.Next(disk[position].commitBlock + 1);
        if verdict == Uncommitted {
          return if segmentEnd == end then Ok else Euclean, last;
        }
        var descriptor := disk[position];
        done := done + CopyWrites(disk, descriptor.entries, descriptor.payloadStart);
        CopyHome(descriptor);
        last, previous, position := descriptor.sequence, descriptor.sequence, segmentEnd;
      }
      WalkStops(g, disk, end, previous, last);
      err := Ok;
    }

    /** The reading part of replay: decide from the control block, and copy the live segments home. */
    method Recover(needsRecovery: bool) returns (err: Errno, last: Seq64, discard: bool)
      requires Valid()
      modifies `disk, `log
      ensures Valid()
      ensures var r := RecoverOp(g, old(disk), needsRecovery);
              err == r.err && log == old(log) + r.homeWrites && (err == Ok ==> last == r.last && discard == r.discard)
    {
      hide Walk;
      if !ControlOk(g, disk) {
        return Euclean, 0, false;
      }
      var control := disk[g.journalBlock];
      if control.state == IDLE {
        if control.activeSequence != 0 || control.checkpointSequence != control.lastSequence {
          return Euclean, 0, false;
        }
        return Ok, control.lastSequence, needsRecovery;
      }
      if control.state > CHECKPOINTING {
        return Euclean, 0, false;
      }
      err, last := WalkRing(control.ringTail, control.ringHead, control.checkpointSequence, control.lastSequence);
      discard := true;
    }

    /** Mount-time replay: recover the home blocks, then empty the log. */
    method Replay(needsRecovery: bool, super: Block) returns (err: Errno)
      requires Valid()
      modifies this
      ensures Valid()
      ensures var o := ReplayOp(g, old(disk), old(State()), needsRecovery, super);
              err == o.err && State() == o.vol && log == old(log) + o.writes
    {
      hide *;
      Parts();
      ReplayIs(g, disk, State(), needsRecovery, super);
      var control := disk[g.journalBlock];
      var last, discard;
      err, last, discard := Recover(needsRecovery);
      if err != Ok {
        return;
      }
      Adopt(last, control.ringHead);
      if discard {
        WriteSync(g.superBlock, super);
        ResetDisk(last, control.ringHead);
        Parts();
        ClearRuntime();
        NoHomes();
      } else {
        Close();
      }
    }

    /** The positions and sequence numbers a mount starts with. */
    method Adopt(last: Seq64, position: nat)
      modifies `sequence, `lastSequence, `tailSequence, `checkpointSequence, `head, `tail
      ensures State() == old(State()).(sequence := last, lastSequence := last, tailSequence := last, checkpointSequence := last,
                                       head := position, tail := position)
    {
      sequence, lastSequence, tailSequence, checkpointSequence := last, last, last, last;
      head, tail := position, position;
    }

    method Close()
      modifies `activeSequence
      ensures State() == old(State()).(activeSequence := 0)
    {
      activeSequence := 0;
    }

    lemma {:induction false} NoHomes()
      requires g.Wf() && |disk| == |disk0| == g.blocksCount && disk == Apply(disk0, log) && homes == []
      ensures Valid()
    {
    }

    method ResetDisk(last: Seq64, position: nat)
      requires Valid()
      modifies `disk, `log
      ensures Valid() && log == old(log) + ResetWrites(g, last, position)
    {
      assert g.journalBlocks >= 3;
      hide Valid;
      var descriptor := Sealed(g, Descriptor(last, g.journalBlock + 2, g.RingEnd() - 1, [], 0));
      WriteSync(g.RingStart(), descriptor);
      WriteSync(g.RingEnd() - 1, Sealed(g, RingLayout.Block.Commit(0, 0, last, g.RingStart(), descriptor.checksum, 0, 0)));
      WriteSync(g.journalBlock, MakeControl(g, IDLE, last, 0, last, g.RingStart(), g.journalBlock + 2, g.journalBlocks - 3,
                                            g.RingEnd() - 1, position, position));
    }
  }

  // ----- commit, write by write

  lemma {:induction false} States()
    ensures IDLE == 0 && PREPARED == 2 && COMMITTED == 3 && FLAG_COMMITTED == 1
  {
  }

  lemma {:induction false} NoPayloads(g: Geometry)
    ensures Fold(g, []) == OFFSET_BASIS
  {
  }

  /** What one payload adds to the writes, the entries and the folded checksum. */
  lemma {:induction false} OnePayload(g: Geometry, s: Segment, at: nat, i: nat, sequence: Seq64, homes: seq<nat>,
                                      cache: Disk)
    requires (forall h :: h in homes ==> h < |cache|) && i < |homes| && s == CachedSegment(sequence, homes, cache)
    ensures |s.updates| == |homes| && homes[i] in homes
    ensures PayloadWrites(s, at)[..i + 1] == PayloadWrites(s, at)[..i] + [Write(at + 1 + i, cache[homes[i]])]
    ensures MakeEntries(g, s.updates)[..i + 1]
            == MakeEntries(g, s.updates)[..i] + [Entry(homes[i], Hash(g, cache[homes[i]]), 0)]
    ensures Fold(g, Payloads(s.updates)[..i + 1]) == g.fold(Fold(g, Payloads(s.updates)[..i]), cache[homes[i]])
  {
    hide Hash;
    assert homes[i] in homes;
    assert s.updates[i] == Write(homes[i], cache[homes[i]]);
    var ps := Payloads(s.updates);
    assert ps[..i + 1][..i] == ps[..i];
  }

  lemma {:induction false} AggregateIs(g: Geometry, ps: seq<Block>)
    ensures Aggregate(g, ps) == if |ps| == 0 then 0 else Fold(g, ps)
  {
  }

  lemma {:induction false} SegmentIs(s: Segment, sequence: Seq64, homes: seq<nat>, cache: Disk)
    requires (forall h :: h in homes ==> h < |cache|) && s == CachedSegment(sequence, homes, cache)
    ensures s.sequence == sequence && |s.updates| == |homes|
  {
  }

  lemma {:induction false} DescriptorIs(g: Geometry, s: Segment, at: nat)
    ensures !Descriptor(s.sequence, at + 1, at + 1 + |s.updates|, MakeEntries(g, s.updates), 0).Data?
    ensures var d := Sealed(g, Descriptor(s.sequence, at + 1, at + 1 + |s.updates|, MakeEntries(g, s.updates), 0));
            && d.Descriptor? && d == MakeDescriptor(g, s, at) && s.CommitAt(at) == at + 1 + |s.updates|
            && Sealed(g, RingLayout.Block.Commit(FLAG_COMMITTED, |s.updates|, s.sequence, at, d.checksum,
                                                 Aggregate(g, Payloads(s.updates)), 0)) == MakeCommit(g, s, at)
  {
  }

  /** All writes of a commit. */
  lemma {:induction false} CommitTail(log: Log, g: Geometry, v: Vol, s: Segment, at: nat)
    ensures var commitAt := at + 1 + |s.updates|;
            log + PayloadWrites(s, at) + [Write(at, MakeDescriptor(g, s, at))]
            + [Write(g.journalBlock, MakeControl(g, PREPARED, v.sequence, s.sequence, v.checkpointSequence, at, at + 1,
                                                 |s.updates|,
                                                 commitAt, v.head, v.tail))]
            + [Write(commitAt, MakeCommit(g, s, at))]
            + [Write(g.journalBlock, MakeControl(g, COMMITTED, s.sequence, 0, v.checkpointSequence, at, at + 1, |s.updates|,
                                                 commitAt, v.head, v.tail))]
            == log + CommitWrites(g, v, s, at)
  {
    hide MakeDescriptor, MakeCommit, MakeControl, PayloadWrites;
  }

  lemma {:induction false} NoCopies(d: Disk, es: seq<Entry>, start: nat)
    requires start + |es| <= |d|
    ensures CopyWrites(d, es[..0], start) == [] && Apply(d, CopyWrites(d, es[..0], start)) == d
  {
  }

  /** One payload more copied home. */
  lemma {:induction false} OneCopy(d: Disk, es: seq<Entry>, start: nat, i: nat)
    requires start + |es| <= |d| && i < |es|
    ensures var ws := CopyWrites(d, es[..i], start);
            var w := Write(es[i].home, Apply(d, ws)[start + i]);
            && CopyWrites(d, es[..i + 1], start) == ws + [w]
            && Apply(d, ws + [w]) == Store(Apply(d, ws), w)
  {
    assert es[..i + 1][..i] == es[..i];
    var ws := CopyWrites(d, es[..i], start);
    var w := Write(es[i].home, Apply(d, ws)[start + i]);
    assert (ws + [w])[..|ws + [w]| - 1] == ws;
  }

  // ----- replay, segment by segment

  /** One segment of the walk. */
  lemma {:induction false} WalkStep(g: Geometry, d: Disk, at: nat, head: nat, after: Seq64, last: Seq64)
    requires at != head
    ensures !Judge(g, d, at, after).Failed? ==>
              && at < |d| && d[at].Descriptor? && d[at].sequence > after && d[at].payloadStart + |d[at].entries| <= |d|
    ensures Walk(g, d, at, head, after, last)
            == match Judge(g, d, at, after)
               case Failed(e) => WalkResult(e, [], last)
               case Uncommitted =>
                 WalkResult(if g.Next(d[at].commitBlock + 1) == head then Ok else Euclean, [], last)
               case Committed =>
                 var copies := CopyWrites(d, d[at].entries, d[at].payloadStart);
                 var r := Walk(g, Apply(d, copies), g.Next(d[at].commitBlock + 1), head, d[at].sequence, d[at].sequence);
                 r.(writes := copies + r.writes)
  {
    VerdictShape(g, d, at, after);
    hide Judge, CopyWrites, Apply;
  }

  lemma {:induction false} WalkStops(g: Geometry, d: Disk, at: nat, after: Seq64, last: Seq64)
    ensures Walk(g, d, at, at, after, last) == WalkResult(Ok, [], last)
  {
  }

  /** What replay does after the walk. */
  lemma {:induction false} ReplayIs(g: Geometry, d: Disk, v: Vol, needsRecovery: bool, super: Block)
    requires g.journalBlocks >= 1
    ensures var r := RecoverOp(g, d, needsRecovery);
            && (r.err == Ok ==> g.journalBlock < |d| && d[g.journalBlock].Control?)
            && ReplayOp(g, d, v, needsRecovery, super)
               == if r.err != Ok then Outcome(r.err, r.homeWrites, v)
                  else
                    var head := d[g.journalBlock].ringHead;
                    var v1 := v.(sequence := r.last, lastSequence := r.last, tailSequence := r.last,
                                 checkpointSequence := r.last,
                                 head := head, tail := head);
                    if r.discard then
                      Outcome(Ok, r.homeWrites + [Write(g.superBlock, super)] + ResetWrites(g, r.last, head), Clear(v1))
                    else Outcome(Ok, r.homeWrites, v1.(activeSequence := 0))
  {
    RecoveredControl(g, d, needsRecovery);
    hide RecoverOp, ResetWrites;
  }

  lemma {:induction false} DrainStep(g: Geometry, d: Disk, v: Vol, super: Block)
    requires v.tail != v.head
    ensures var o := CheckpointOp(g, d, v, super);
            DrainOp(g, d, v, super) ==
            if o.err != Ok then o
            else
              var r := DrainOp(g, Apply(d, o.writes), o.vol, super);
              r.(writes := o.writes + r.writes)
  {
    hide CheckpointOp;
  }

  lemma {:induction false} DrainEnd(g: Geometry, d: Disk, v: Vol, super: Block)
    requires v.tail == v.head
    ensures DrainOp(g, d, v, super) == Outcome(Ok, [], v)
  {
  }

  lemma {:induction false} RecoveredControl(g: Geometry, d: Disk, needsRecovery: bool)
    ensures RecoverOp(g, d, needsRecovery).err == Ok ==> g.journalBlock < |d| && d[g.journalBlock].Control?
  {
  }

  lemma {:induction false} VerdictShape(g: Geometry, d: Disk, at: nat, after: Seq64)
    ensures !Judge(g, d, at, after).Failed? ==>
              at < |d| && d[at].Descriptor? && d[at].sequence > after
              && d[at].payloadStart + |d[at].entries| <= |d|
  {
  }

  lemma {:induction false} CheckpointGrows(g: Geometry, d: Disk, v: Vol, super: Block)
    requires v.tail != v.head
    ensures CheckpointOp(g, d, v, super).err == Ok ==>
              CheckpointOp(g, d, v, super).vol.checkpointSequence > v.checkpointSequence
  {
    hide PayloadsOk, CopyWrites, CheckpointControl;
  }

  lemma {:induction false} HeaderShape(g: Geometry, d: Disk, at: nat, after: Seq64)
    requires CheckpointHeader(g, d, at, after) == Ok
    ensures at < |d| && d[at].Descriptor? && d[at].commitBlock < |d| && d[d[at].commitBlock].Commit?
    ensures d[at].commitBlock == d[at].payloadStart + |d[at].entries| && d[at].sequence > after
  {
  }
}
