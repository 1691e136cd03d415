/** Runs of the ring journal, with crashes. */
module RingRuns {
  import opened Device
  import opened RingLayout
  import opened RingSpec
  import opened RingRecord
  import opened RingLog
  import opened RingCrash
  import opened RingCommit
  import opened RingCheckpoint
  import opened RingRecovery

  /** The whole state: what survives a crash, and what does not. */
  datatype State = State(disk: Disk, vol: Vol)

  /** The invariant with the committed image made explicit. */
  ghost predicate Holds(g: Geometry, s: State, img: Image) {
    && (exists segs :: Inv(g, s.disk, s.vol, segs) && Logical(g, s.disk, segs) == img)
    && s.vol.activeSequence == 0 && s.vol.homes == [] && s.vol.error == Ok
  }

  // ----- one operation

  datatype Op =
    | Transact(homes: seq<nat>, cache: Disk)
    | Abandon(homes: seq<nat>)
    | CheckpointOne(super: Block)

  /** The in-memory fields when a transaction reaches commit. */
  function Open(g: Geometry, v: Vol, homes: seq<nat>): Vol {
    RecordAll(g, BeginOp(g, v).1, homes)
  }

  function OpOutcome(g: Geometry, s: State, op: Op): Outcome
    requires |s.disk| == g.blocksCount && s.vol.homes == []
    requires op.Transact? ==> |op.cache| == g.blocksCount
  {
    match op
    case Transact(homes, cache) =>
      if BeginOp(g, s.vol).0 != Ok then Outcome(BeginOp(g, s.vol).0, [], s.vol)
      else
        RecordAllKeeps(g, BeginOp(g, s.vol).1, homes);
        CommitOp(g, Open(g, s.vol, homes), cache)
    case Abandon(homes) => Outcome(Ok, [], Clear(Open(g, s.vol, homes)))
    case CheckpointOne(super) => CheckpointOp(g, s.disk, s.vol, super)
  }

  /** The blocks a transaction logs. */
  ghost function Logged(g: Geometry, homes: seq<nat>): set<nat> {
    Members(homes) + {g.superBlock}
  }

  /** The condition a caller can check before an operation. A commit that goes through must not wrap the sequence
      number and needs a walkable placement; one that is refused, for lack of room or any other reason, needs nothing. */
  ghost predicate Guard(g: Geometry, s: State, op: Op) {
    match op
    case Transact(homes, cache) =>
      && |cache| == g.blocksCount && (forall b :: 0 <= b < |cache| ==> cache[b].Data?)
      && |s.disk| == g.blocksCount && s.vol.homes == []
      && (OpOutcome(g, s, op).err == Ok ==>
            && s.vol.sequence < 0xFFFF_FFFF_FFFF_FFFF
            && Walkable(g, s.vol.head, s.vol.tail, |Logged(g, homes)|))
    case Abandon(homes) => true
    case CheckpointOne(super) => super.Data?
  }

  /** The image after the operation has completed: a transaction that goes through gives every block it recorded, and the
      superblock, the content of the buffer cache, and changes nothing else. */
  ghost function Effect(g: Geometry, s: State, op: Op, img: Image): Image
    requires |s.disk| == g.blocksCount && s.vol.homes == []
    requires op.Transact? ==> |op.cache| == g.blocksCount
  {
    if op.Transact? && OpOutcome(g, s, op).err == Ok then
      map b | b in img :: if b in Logged(g, op.homes) && b < |op.cache| then op.cache[b] else img[b]
    else img
  }

  /** The number of writes after which a crash no longer undoes the operation: the commit block is the
      last write but one of a commit. */
  function CommitPoint(g: Geometry, s: State, op: Op): int
    requires |s.disk| == g.blocksCount && s.vol.homes == []
    requires op.Transact? ==> |op.cache| == g.blocksCount
  {
    if op.Transact? then |OpOutcome(g, s, op).writes| - 1 else 0
  }

  /** When a transaction goes through, whatever the order and the repetitions of its records: every block may be logged,
      with the superblock they are no more than a segment can hold, and the ring has room for them. One that does not
      writes nothing and leaves the fields as they were; the error tells whether a block that may not be logged came
      before the room for another one was missing. */
  lemma {:induction false} TransactExactly(g: Geometry, s: State, homes: seq<nat>, cache: Disk)
    requires g.Wf() && |s.disk| == |cache| == g.blocksCount
    requires s.vol.homes == [] && s.vol.error == Ok && s.vol.activeSequence == 0 && s.vol.sequence < 0xFFFF_FFFF_FFFF_FFFF
    ensures var o, n := OpOutcome(g, s, Transact(homes, cache)), |Logged(g, homes)|;
            && (o.err == Ok <==> && (forall h :: h in homes ==> Loggable(g, h)) && n <= g.Capacity()
                                 && Allocate(g, s.vol.head, s.vol.tail, n).Some?)
            && (o.err != Ok ==> o.writes == [] && o.vol == s.vol)
            && (o.err == Einval <==> exists i :: 0 <= i < |homes| && FailsAt(g, {}, homes, i, Einval))
            && (o.err != Ok && o.err != Einval ==> o.err == Enospc)
  {
    hide *;
    var v := TransactOpen(g, s, homes, cache);
    CommitRecords(g, v, homes);
    CommitDecides(g, Open(g, s.vol, homes), s.vol, cache);
    LoggedMembers(g, homes);
    forall i | 0 <= i < |homes| && FailsAt(g, {}, homes, i, Einval)
      ensures OpOutcome(g, s, Transact(homes, cache)).err == Einval
    {
      FirstFailure(g, homes, i, Einval);
      if Open(g, s.vol, homes).error != Ok {
        var j :| 0 <= j < |homes| && FailsAt(g, {}, homes, j, Open(g, s.vol, homes).error);
        FailsOnce(g, {}, homes, i, Einval, j, Open(g, s.vol, homes).error);
      }
    }
  }

  lemma {:induction false} FirstFailure(g: Geometry, homes: seq<nat>, i: nat, err: Errno)
    requires i < |homes| && FailsAt(g, {}, homes, i, err)
    ensures !Admitted(g, {}, homes)
  {
    if Admitted(g, {}, homes) {
      AdmittedFront(g, {}, homes, i + 1);
    }
  }

  lemma {:induction false} LoggedMembers(g: Geometry, homes: seq<nat>)
    ensures Logged(g, homes) == Members(homes) + {g.superBlock}
    ensures Admitted(g, {}, homes) && |Logged(g, homes)| <= g.Capacity()
            <==> (forall h :: h in homes ==> Loggable(g, h)) && |Logged(g, homes)| <= g.Capacity()
  {
    assert {} + Members(homes) == Members(homes);
    Subset(Members(homes), Logged(g, homes));
  }

  /** An idle journal opens a transaction, and what the commit is given. */
  lemma {:induction false} TransactOpen(g: Geometry, s: State, homes: seq<nat>, cache: Disk) returns (v: Vol)
    requires g.Wf() && |s.disk| == |cache| == g.blocksCount
    requires s.vol.homes == [] && s.vol.activeSequence == 0 && s.vol.sequence < 0xFFFF_FFFF_FFFF_FFFF
    ensures v == s.vol.(homes := [], error := Ok, activeSequence := s.vol.sequence + 1)
    ensures Open(g, s.vol, homes) == RecordAll(g, v, homes)
    ensures forall h :: h in Open(g, s.vol, homes).homes ==> h < g.blocksCount
    ensures OpOutcome(g, s, Transact(homes, cache)) == CommitOp(g, Open(g, s.vol, homes), cache)
  {
    v := BeginOp(g, s.vol).1;
    RecordAllKeeps(g, v, homes);
    hide CommitOp, RecordAll;
  }

  /** What a commit decides, given what its record of the superblock answers. */
  lemma {:induction false} CommitDecides(g: Geometry, w: Vol, v: Vol, cache: Disk)
    requires |cache| == g.blocksCount && forall h :: h in w.homes ==> h < g.blocksCount
    requires v.homes == [] && v.error == Ok && v.activeSequence == 0
    requires w == v.(homes := w.homes, error := w.error, activeSequence := w.activeSequence)
    requires var w1 := RecordOp(g, w, g.superBlock).1;
             w1 == w.(homes := w1.homes, error := w1.error) && forall h :: h in w1.homes ==> h < g.blocksCount
    ensures var o, w1 := CommitOp(g, w, cache), RecordOp(g, w, g.superBlock).1;
            && (o.err == Ok <==> w.error == Ok && w1.error == Ok && Allocate(g, v.head, v.tail, |w1.homes|).Some?)
            && (o.err != Ok ==> o.writes == [] && o.vol == v)
            && (o.err != Ok ==> o.err == if w.error != Ok then w.error else if w1.error != Ok then w1.error else Enospc)
  {
    hide RecordOp, CommitWrites, Allocate;
  }

  /** What a successful commit is made of. */
  lemma {:induction false} CommitUnfold(g: Geometry, s: State, homes: seq<nat>, cache: Disk)
    returns (seg: Segment, p: Placement)
    requires |s.disk| == g.blocksCount && s.vol.homes == []
    requires Guard(g, s, Transact(homes, cache))
    requires g.Wf() && s.vol.activeSequence == 0
    requires OpOutcome(g, s, Transact(homes, cache)).err == Ok
    ensures Placed(g, s.vol, seg, p) && Walkable(g, s.vol.head, s.vol.tail, |seg.updates|)
    ensures var o := OpOutcome(g, s, Transact(homes, cache));
            && o.writes == CommitWrites(g, MoveHead(s.vol, p), seg, p.at)
            && o.vol == Clear(MoveHead(s.vol, p)).(sequence := seg.sequence, lastSequence := seg.sequence)
    ensures forall img :: Effect(g, s, Transact(homes, cache), img) == Overlay(img, seg.updates)
    ensures seg.sequence == s.vol.sequence + 1 && |seg.updates| >= 1
    ensures exists i :: 0 <= i < |seg.updates| && seg.updates[i].block == g.superBlock
  {
    GuardParts(g, s, homes, cache);
    hide *;
    var v0 := TransactOpen(g, s, homes, cache);
    var v := Open(g, s.vol, homes);
    CommitRecords(g, v0, homes);
    LoggedMembers(g, homes);
    p := CommitSucceeds(g, v, cache);
    var v1 := RecordOp(g, v, g.superBlock).1;
    seg := CachedSegment(v1.activeSequence, v1.homes, cache);
    SegmentIs(g, s.vol, v1, cache, p);
    MovedIs(g, s.vol, v1, seg, p);
    EffectIs(g, s, homes, cache, v1);
  }

  lemma {:induction false} GuardParts(g: Geometry, s: State, homes: seq<nat>, cache: Disk)
    requires |s.disk| == g.blocksCount && s.vol.homes == [] && Guard(g, s, Transact(homes, cache))
    requires OpOutcome(g, s, Transact(homes, cache)).err == Ok
    ensures |cache| == g.blocksCount && forall b :: 0 <= b < |cache| ==> cache[b].Data?
    ensures s.vol.sequence < 0xFFFF_FFFF_FFFF_FFFF && Walkable(g, s.vol.head, s.vol.tail, |Logged(g, homes)|)
  {
    hide OpOutcome, Walkable;
  }

  /** What a commit that goes through consists of. */
  lemma {:induction false} CommitSucceeds(g: Geometry, v: Vol, cache: Disk) returns (p: Placement)
    requires |cache| == g.blocksCount && forall h :: h in v.homes ==> h < g.blocksCount
    requires v.activeSequence > 0 && CommitOp(g, v, cache).err == Ok
    ensures var v1 := RecordOp(g, v, g.superBlock).1;
            && (forall h :: h in v1.homes ==> h < g.blocksCount) && g.superBlock in v1.homes && v1.error == Ok
            && Allocate(g, v1.head, v1.tail, |v1.homes|) == Some(p)
            && var s := CachedSegment(v1.activeSequence, v1.homes, cache);
               var v2 := v1.(head := p.nextHead, tail := if v1.tail == v1.head then p.at else v1.tail);
               CommitOp(g, v, cache) == Outcome(Ok, CommitWrites(g, v2, s, p.at),
                                                Clear(v2).(sequence := s.sequence, lastSequence := s.sequence))
  {
    hide CommitWrites, Allocate;
    var v1 := RecordOp(g, v, g.superBlock).1;
    p := Allocate(g, v1.head, v1.tail, |v1.homes|).value;
  }

  lemma {:induction false} SegmentIs(g: Geometry, v: Vol, v1: Vol, cache: Disk, p: Placement)
    requires Recorded(g, v1.homes) && |cache| == g.blocksCount && g.superBlock in v1.homes
    requires (forall h :: h in v1.homes ==> h < g.blocksCount) && forall b :: 0 <= b < |cache| ==> cache[b].Data?
    requires v1.activeSequence == v.sequence + 1 && v1.head == v.head && v1.tail == v.tail
    requires Allocate(g, v.head, v.tail, |v1.homes|) == Some(p)
    ensures var seg := CachedSegment(v1.activeSequence, v1.homes, cache);
            && Placed(g, v, seg, p) && |seg.updates| == |v1.homes| >= 1 && seg.sequence == v1.activeSequence
            && exists i :: 0 <= i < |seg.updates| && seg.updates[i].block == g.superBlock
  {
    hide Allocate;
    var seg := CachedSegment(v1.activeSequence, v1.homes, cache);
    var i :| 0 <= i < |v1.homes| && v1.homes[i] == g.superBlock;
    assert seg.updates[i].block == g.superBlock;
  }

  lemma {:induction false} MovedIs(g: Geometry, v: Vol, v1: Vol, seg: Segment, p: Placement)
    requires v1 == v.(homes := v1.homes, error := v1.error, activeSequence := v1.activeSequence)
    ensures var v2 := v1.(head := p.nextHead, tail := if v1.tail == v1.head then p.at else v1.tail);
            && CommitWrites(g, v2, seg, p.at) == CommitWrites(g, MoveHead(v, p), seg, p.at)
            && Clear(v2).(sequence := seg.sequence, lastSequence := seg.sequence)
               == Clear(MoveHead(v, p)).(sequence := seg.sequence, lastSequence := seg.sequence)
  {
    hide MakeControl, MakeDescriptor, MakeCommit, PayloadWrites;
  }

  /** The effect is the one of the segment that was logged. */
  lemma {:induction false} EffectIs(g: Geometry, s: State, homes: seq<nat>, cache: Disk, v1: Vol)
    requires |s.disk| == g.blocksCount && s.vol.homes == [] && |cache| == g.blocksCount
    requires OpOutcome(g, s, Transact(homes, cache)).err == Ok
    requires Recorded(g, v1.homes) && Members(v1.homes) == Logged(g, homes) && forall h :: h in v1.homes ==> h < |cache|
    ensures forall img :: Effect(g, s, Transact(homes, cache), img)
                          == Overlay(img, CachedSegment(v1.activeSequence, v1.homes, cache).updates)
  {
    hide OpOutcome, Overlay, Logged;
    forall img: Image
      ensures Effect(g, s, Transact(homes, cache), img)
              == Overlay(img, CachedSegment(v1.activeSequence, v1.homes, cache).updates)
    {
      var us := CachedSegment(v1.activeSequence, v1.homes, cache).updates;
      forall b | b in img
        ensures Overlay(img, us)[b] == if b in v1.homes then cache[b] else img[b]
      {
        OverlayAt(img, us, b);
        if b in v1.homes {
          var i :| 0 <= i < |v1.homes| && v1.homes[i] == b;
          LastWriteDistinct(us, i);
        } else {
          LastWriteHit(us, b);
        }
      }
      assert forall b :: b in Logged(g, homes) <==> b in v1.homes;
    }
  }

  /** A crash in the middle of an operation: the old image before the commit point, the new one after. */
  lemma {:induction false} OpCrash(g: Geometry, s: State, op: Op, img: Image, k: nat) returns (last: Seq64)
    requires Holds(g, s, img) && Guard(g, s, op)
    requires k <= |OpOutcome(g, s, op).writes|
    ensures Durable(g, Apply(s.disk, OpOutcome(g, s, op).writes[..k]),
                    if k >= CommitPoint(g, s, op) then Effect(g, s, op, img) else img, last)
  {
    hide OpOutcome, Durable, Readable, CheckpointOp, CommitWrites, Effect, Chain, Increasing;
    var segs :| Inv(g, s.disk, s.vol, segs) && Logical(g, s.disk, segs) == img;
    var o := OpOutcome(g, s, op);
    InvReadable(g, s.disk, s.vol, segs);
    last := s.vol.sequence;
    if o.writes == [] {
      NoWrites(g, s, op, img);
      DurableIntro(g, s.disk, segs, s.vol.head, last, img);
    } else if op.Transact? {
      TransactWrites(g, s, op);
      var seg, p := CommitUnfold(g, s, op.homes, op.cache);
      CommitCrash(g, s.disk, s.vol, segs, seg, p, k);
      last := if k < |seg.updates| + 3 then last else seg.sequence;
    } else {
      CheckpointWrites(g, s, op, segs);
      CheckpointCrash(g, s.disk, s.vol, segs, op.super, k);
    }
  }

  lemma {:induction false} NoWrites(g: Geometry, s: State, op: Op, img: Image)
    requires Holds(g, s, img) && Guard(g, s, op) && OpOutcome(g, s, op).writes == []
    ensures Effect(g, s, op, img) == img
  {
  }

  lemma {:induction false} TransactWrites(g: Geometry, s: State, op: Op)
    requires |s.disk| == g.blocksCount && s.vol.homes == [] && Guard(g, s, op)
    requires op.Transact? && OpOutcome(g, s, op).writes != []
    ensures OpOutcome(g, s, op).err == Ok
  {
  }

  lemma {:induction false} CheckpointWrites(g: Geometry, s: State, op: Op, segs: seq<Segment>)
    requires Inv(g, s.disk, s.vol, segs) && s.vol.homes == [] && Guard(g, s, op)
    requires !op.Transact? && OpOutcome(g, s, op).writes != []
    ensures op.CheckpointOne? && op.super.Data? && segs != []
    ensures OpOutcome(g, s, op) == CheckpointOp(g, s.disk, s.vol, op.super)
    ensures forall img :: Effect(g, s, op, img) == img
  {
    hide Stored, SegmentOk, CheckpointHeader, PayloadsOk, CopyWrites, CheckpointControl;
  }

  /** An operation that runs to its end. */
  lemma {:induction false} OpDone(g: Geometry, s: State, op: Op, img: Image)
    requires Holds(g, s, img) && Guard(g, s, op)
    ensures var o := OpOutcome(g, s, op);
            Holds(g, State(Apply(s.disk, o.writes), o.vol), Effect(g, s, op, img))
  {
    hide OpOutcome, Durable, Readable, CheckpointOp, CommitWrites, Effect, Chain, Increasing;
    var segs :| Inv(g, s.disk, s.vol, segs) && Logical(g, s.disk, segs) == img;
    var o := OpOutcome(g, s, op);
    if o.writes == [] {
      NoWrites(g, s, op, img);
      QuietVol(g, s, op, segs);
    } else if op.Transact? {
      TransactWrites(g, s, op);
      var seg, p := CommitUnfold(g, s, op.homes, op.cache);
      CommitCrash(g, s.disk, s.vol, segs, seg, p, |seg.updates| + 4);
      VolOnly(g, Apply(s.disk, o.writes), MoveHead(s.vol, p).(sequence := seg.sequence, lastSequence := seg.sequence), o.vol,
              segs + [seg]);
    } else {
      CheckpointWrites(g, s, op, segs);
      CheckpointDone(g, s.disk, s.vol, segs, op.super);
    }
  }

  /** The invariant does not mention the fields of an open transaction. */
  lemma {:induction false} VolOnly(g: Geometry, d: Disk, v: Vol, w: Vol, segs: seq<Segment>)
    requires Inv(g, d, v, segs)
    requires w.sequence == v.sequence && w.lastSequence == v.lastSequence && w.head == v.head && w.tail == v.tail
             && w.checkpointSequence == v.checkpointSequence
    ensures Inv(g, d, w, segs)
  {
    hide Chain, Increasing, ControlOk, NoFuture;
  }

  /** An operation that writes nothing leaves the positions and sequence numbers as they were. */
  lemma {:induction false} QuietVol(g: Geometry, s: State, op: Op, segs: seq<Segment>)
    requires Inv(g, s.disk, s.vol, segs) && s.vol.homes == [] && s.vol.error == Ok && s.vol.activeSequence == 0
    requires Guard(g, s, op) && OpOutcome(g, s, op).writes == []
    ensures var v := OpOutcome(g, s, op).vol;
            Inv(g, s.disk, v, segs) && v.homes == [] && v.error == Ok && v.activeSequence == 0
  {
    hide Chain, Increasing, ControlOk, NoFuture, CheckpointHeader, PayloadsOk, CopyWrites, CheckpointControl;
    if !op.CheckpointOne? {
      RecordAllKeeps(g, BeginOp(g, s.vol).1, op.homes);
      RecordKeeps(g, Open(g, s.vol, op.homes), g.superBlock);
    }
  }

  // ----- runs

  /** What can happen: an operation completes, or the machine stops after `k` of its writes and is mounted again, possibly
      after several attempts that were interrupted, also inside the log reset. */
  datatype Event =
    | Completed(op: Op)
    | Crashed(op: Op, k: nat, attempts: seq<Attempt>, needsRecovery: bool, super: Block)

  /** In-memory fields right after a boot. */
  const BOOT := Vol(0, 0, 0, 0, 0, 0, 0, [], Ok)

  /** The disk after interrupted attempts at replay. */
  function Interrupted(g: Geometry, d: Disk, attempts: seq<Attempt>): Disk
    requires g.journalBlocks >= 1
  {
    if attempts == [] then d else Stopped(g, Interrupted(g, d, attempts[..|attempts| - 1]), attempts[|attempts| - 1])
  }

  /** Every attempt is cut off where it may be. */
  ghost predicate MayInterrupt(g: Geometry, d: Disk, attempts: seq<Attempt>)
    requires g.journalBlocks >= 1
  {
    attempts != [] ==>
      && MayInterrupt(g, d, attempts[..|attempts| - 1])
      && MayStop(g, Interrupted(g, d, attempts[..|attempts| - 1]), attempts[|attempts| - 1])
  }

  lemma {:induction false} InterruptedDurable(g: Geometry, d: Disk, attempts: seq<Attempt>, img: Image, last: Seq64)
    requires Durable(g, d, img, last) && g.Wf() && MayInterrupt(g, d, attempts)
    ensures Durable(g, Interrupted(g, d, attempts), img, last)
  {
    hide Durable, MayStop, Stopped;
    if attempts != [] {
      InterruptedDurable(g, d, attempts[..|attempts| - 1], img, last);
      StoppedDurable(g, Interrupted(g, d, attempts[..|attempts| - 1]), img, last, attempts[|attempts| - 1]);
    }
  }

  /** The result of an event, and the error of the mount it may contain. */
  function Step(g: Geometry, s: State, e: Event): (State, Errno)
    requires |s.disk| == g.blocksCount && s.vol.homes == [] && g.journalBlocks >= 1
    requires e.op.Transact? ==> |e.op.cache| == g.blocksCount
  {
    var o := OpOutcome(g, s, e.op);
    match e
    case Completed(op) => (State(Apply(s.disk, o.writes), o.vol), Ok)
    case Crashed(op, k, attempts, needsRecovery, super) =>
      var d := Interrupted(g, Apply(s.disk, Cut(o.writes, k)), attempts);
      var m := ReplayOp(g, d, BOOT, needsRecovery, super);
      (State(Apply(d, m.writes), m.vol), m.err)
  }

  ghost predicate EventGuard(g: Geometry, s: State, e: Event) {
    && Guard(g, s, e.op)
    && (e.Crashed? ==>
          && |s.disk| == g.blocksCount && s.vol.homes == [] && g.journalBlocks >= 1
          && e.super.Data? && MayInterrupt(g, Apply(s.disk, Cut(OpOutcome(g, s, e.op).writes, e.k)), e.attempts))
  }

  /** What the event means for the image: the whole transaction, or nothing of it. */
  ghost function NextImage(g: Geometry, s: State, e: Event, img: Image): Image
    requires |s.disk| == g.blocksCount && s.vol.homes == []
    requires e.op.Transact? ==> |e.op.cache| == g.blocksCount
  {
    if e.Crashed? && e.k < CommitPoint(g, s, e.op) then img else Effect(g, s, e.op, img)
  }

  lemma {:induction false} StepSafe(g: Geometry, s: State, e: Event, img: Image)
    requires Holds(g, s, img) && EventGuard(g, s, e)
    ensures Step(g, s, e).1 == Ok && Holds(g, Step(g, s, e).0, NextImage(g, s, e, img))
  {
    hide OpOutcome, Effect, ReplayOp, Durable, Interrupted, Chain, Increasing;
    OpDone(g, s, e.op, img);
    if e.Crashed? {
      var ws := OpOutcome(g, s, e.op).writes;
      var k := if e.k <= |ws| then e.k else |ws|;
      assert ws[..|ws|] == ws;
      var last := OpCrash(g, s, e.op, img, k);
      var d := Interrupted(g, Apply(s.disk, Cut(ws, e.k)), e.attempts);
      InterruptedDurable(g, Apply(s.disk, ws[..k]), e.attempts, NextImage(g, s, e, img), last);
      ReplayDone(g, d, BOOT, NextImage(g, s, e, img), last, e.needsRecovery, e.super);
      EmptyLogHolds(g, Step(g, s, e).0, NextImage(g, s, e, img));
    }
  }

  lemma {:induction false} EmptyLogHolds(g: Geometry, s: State, img: Image)
    requires Inv(g, s.disk, s.vol, []) && Home(g, s.disk) == img
    requires s.vol.activeSequence == 0 && s.vol.homes == [] && s.vol.error == Ok
    ensures Holds(g, s, img)
  {
    assert Logical(g, s.disk, []) == img;
  }

  /** The ring as mkfs leaves it: an idle control block, and no commit record of a transaction. */
  ghost predicate Formatted(g: Geometry, d: Disk) {
    && g.Wf() && |d| == g.blocksCount && NoFuture(d, 0)
    && d[g.journalBlock] == MakeControl(g, IDLE, 0, 0, 0, g.RingStart(), g.journalBlock + 2, g.journalBlocks - 3,
                                        g.RingEnd() - 1,
                                        g.RingStart(), g.RingStart())
  }

  /** Mounting a formatted disk starts a run with what is on its home blocks. */
  lemma {:induction false} FormattedMounts(g: Geometry, d: Disk, needsRecovery: bool, super: Block)
    requires Formatted(g, d) && super.Data?
    ensures var m := ReplayOp(g, d, BOOT, needsRecovery, super);
            m.err == Ok && Holds(g, State(Apply(d, m.writes), m.vol), Home(g, d))
  {
    var img := Home(g, d);
    assert Readable(g, d, [], 0, 0);
    assert Logical(g, d, []) == img;
    DurableIntro(g, d, [], 0, 0, img);
    hide Formatted, Durable, ReplayOp, Readable, Chain, Increasing;
    ReplayDone(g, d, BOOT, img, 0, needsRecovery, super);
    var m := ReplayOp(g, d, BOOT, needsRecovery, super);
    EmptyLogHolds(g, State(Apply(d, m.writes), m.vol), img);
  }

  /** All events of a run meet their guard in the state they happen in. */
  ghost predicate Guarded(g: Geometry, s: State, run: seq<Event>)
    requires |s.disk| == g.blocksCount && s.vol.homes == [] && g.journalBlocks >= 1
    decreases |run|
  {
    run != [] ==>
      && EventGuard(g, s, run[0])
      && var t := Step(g, s, run[0]).0;
         |t.disk| == g.blocksCount && t.vol.homes == [] && Guarded(g, t, run[1..])
  }

  /** The state, the image and the first mount error after a run. */
  ghost function After(g: Geometry, s: State, run: seq<Event>, img: Image): (State, Image, Errno)
    requires |s.disk| == g.blocksCount && s.vol.homes == [] && g.journalBlocks >= 1
    requires Guarded(g, s, run)
    decreases |run|
  {
    if run == [] then (s, img, Ok)
    else
      var (t, err) := Step(g, s, run[0]);
      if err != Ok then (t, img, err) else After(g, t, run[1..], NextImage(g, s, run[0], img))
  }

  /** Main theorem. In every guarded run of transactions, aborts and checkpoints, with crashes between
      any two block writes, every mount succeeds and the image is the initial one with exactly the
      transactions whose commit block was written, each whole and in order. */
  lemma {:induction false} CrashSafety(g: Geometry, s: State, run: seq<Event>, img: Image)
    requires Holds(g, s, img) && Guarded(g, s, run)
    ensures var (t, last, err) := After(g, s, run, img); err == Ok && Holds(g, t, last)
    decreases |run|
  {
    if run != [] {
      hide Holds, EventGuard, NextImage;
      StepSafe(g, s, run[0], img);
      CrashSafety(g, Step(g, s, run[0]).0, run[1..], NextImage(g, s, run[0], img));
    }
  }
}
