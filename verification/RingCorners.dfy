/** Where ring recovery needs a condition. */
module RingCorners {
  import opened Device
  import opened RingLayout
  import opened RingSpec
  import opened RingLog
  import opened RingCrash
  import opened RingCommit
  import opened RingCheckpoint

  /** The disk after a completed commit. */
  function CommitDisk(g: Geometry, d: Disk, v: Vol, s: Segment, p: Placement): Disk {
    Apply(d, CommitWrites(g, MoveHead(v, p), s, p.at))
  }

  lemma {:induction false} CommitDiskFacts(g: Geometry, d: Disk, v: Vol, segs: seq<Segment>, s: Segment, p: Placement)
    requires Inv(g, d, v, segs) && Placed(g, v, s, p)
    ensures var e := CommitDisk(g, d, v, s, p);
            && PayloadsIn(g, d, e, s, p.at) && e[p.at] == MakeDescriptor(g, s, p.at)
            && e[s.CommitAt(p.at)] == MakeCommit(g, s, p.at)
            && e[g.journalBlock] == CommitControl(g, COMMITTED, s.sequence, 0, MoveHead(v, p), s, p.at)
            && g.InRing(p.nextHead) && g.RingStart() <= p.at && p.at + s.Size() <= g.RingEnd()
            && ControlOk(g, e)
            && (forall b: nat :: Live(g, v.tail, v.head, b) ==> e[b] == d[b])
  {
    hide Chain, Increasing, MakeDescriptor, MakeCommit, Stored;
    var w := MoveHead(v, p);
    var ws := CommitWrites(g, w, s, p.at);
    AllocateSafe(g, v.head, v.tail, |s.updates|);
    CommitEnd(g, d, w, s, p.at, 4);
    assert ws[..|s.updates| + 4] == ws;
    ControlBuilt(g, CommitDisk(g, d, v, s, p), COMMITTED, s.sequence, 0, w.checkpointSequence, p.at, p.at + 1,
                 |s.updates|, s.CommitAt(p.at), w.head, w.tail);
  }

  /** When the new head meets the tail of a non-empty ring, every reader takes the ring for empty:
      replay applies nothing at all, neither this transaction nor the older live ones, and still
      reports success with the new sequence number. */
  lemma {:induction false} ExactFitLosesLog(g: Geometry, d: Disk, v: Vol, segs: seq<Segment>, s: Segment, p: Placement,
                                            needsRecovery: bool)
    requires Inv(g, d, v, segs) && Placed(g, v, s, p)
    requires v.head != v.tail && p.nextHead == v.tail
    ensures RecoverOp(g, CommitDisk(g, d, v, s, p), needsRecovery) == Recovery(Ok, [], s.sequence, true)
  {
    hide Chain, Increasing, MakeDescriptor, MakeCommit, Stored;
    CommitDiskFacts(g, d, v, segs, s, p);
  }

  /** When the segment went to the start of the ring while older segments are live, replay reaches the
      unused end of the ring, finds no committed segment there, and never applies the transaction. */
  lemma {:induction false} GapLosesTransaction(g: Geometry, d: Disk, v: Vol, segs: seq<Segment>, s: Segment,
                                               p: Placement, needsRecovery: bool)
    requires Inv(g, d, v, segs) && Placed(g, v, s, p)
    requires v.head != v.tail && p.at != v.head && p.nextHead != v.tail
    ensures RecoverOp(g, CommitDisk(g, d, v, s, p), needsRecovery).homeWrites == LogWrites(segs)
  {
    hide MakeDescriptor, MakeCommit, Stored, SegmentOk, Walk, Increasing;
    var e := CommitDisk(g, d, v, s, p);
    CommitDiskFacts(g, d, v, segs, s, p);
    ChainLive(g, d, e, v.tail, segs, v.head, v.head);
    ChainMoveHead(g, e, v.tail, segs, v.head, p.nextHead);
    WalkThrough(g, e, v.tail, segs, v.head, p.nextHead, v.checkpointSequence, s.sequence);
    ChainSegmentsOk(g, e, v.tail, segs, v.head, p.nextHead);
    LogKeepsRing(g, e, segs);
    var f := Apply(e, LogWrites(segs));
    GapJudge(g, d, v, segs, s, p, f);
    GapWalk(g, f, v.head, p.nextHead, v.sequence, LastOf(segs, s.sequence));
  }

  lemma {:induction false} GapWalk(g: Geometry, d: Disk, at: nat, head: nat, after: Seq64, last: Seq64)
    requires at != head && Judge(g, d, at, after) != Committed
    ensures Walk(g, d, at, head, after, last).writes == []
  {
    hide Judge;
  }

  /** Nothing at the old head can pass for a committed segment younger than the last one. */
  lemma {:induction false} GapJudge(g: Geometry, d: Disk, v: Vol, segs: seq<Segment>, s: Segment, p: Placement, f: Disk)
    requires Inv(g, d, v, segs) && Placed(g, v, s, p)
    requires v.head != v.tail && p.at != v.head
    requires f == Apply(CommitDisk(g, d, v, s, p), LogWrites(segs))
    ensures Judge(g, f, v.head, v.sequence) != Committed
  {
    hide MakeDescriptor, Stored, SegmentOk, Increasing, PayloadsOk;
    var e := CommitDisk(g, d, v, s, p);
    CommitDiskFacts(g, d, v, segs, s, p);
    ChainSegmentsOk(g, d, v.tail, segs, v.head, v.head);
    LogWritesOutside(g, segs);
    GapCommits(g, d, e, s, p.at, LogWrites(segs), v.sequence);
  }

  /** The only commit record younger than the last transaction is the new one, for its own position. */
  lemma {:induction false} GapCommits(g: Geometry, d: Disk, e: Disk, s: Segment, at: nat, ws: Log, last: Seq64)
    requires g.Wf() && |d| == g.blocksCount && NoFuture(d, last) && SegmentOk(g, s) && Outside(g, ws)
    requires g.RingStart() <= at && at + s.Size() <= g.RingEnd()
    requires PayloadsIn(g, d, e, s, at) && e[at] == MakeDescriptor(g, s, at)
    requires e[s.CommitAt(at)] == MakeCommit(g, s, at) && e[g.journalBlock].Control?
    ensures forall b: nat :: b < |e| && Apply(e, ws)[b].Commit? ==>
              Apply(e, ws)[b].sequence <= last || Apply(e, ws)[b].descriptorBlock == at
  {
    forall b: nat | b < |e|
      ensures Apply(e, ws)[b].Commit? ==> Apply(e, ws)[b].sequence <= last || Apply(e, ws)[b].descriptorBlock == at
    {
      ApplyAt(e, ws, b);
      LastWriteHit(ws, b);
      assert at < b < s.CommitAt(at) ==> e[b] == s.updates[b - at - 1].value;
    }
  }

  /** Exactly when a completed commit can be recovered: replay after it succeeds and applies all live
      transactions and this one if and only if the placement was walkable. */
  lemma {:induction false} RecoverableExactly(g: Geometry, d: Disk, v: Vol, segs: seq<Segment>, s: Segment,
                                              p: Placement, needsRecovery: bool)
    requires Inv(g, d, v, segs) && Placed(g, v, s, p) && s.updates != []
    ensures var r := RecoverOp(g, CommitDisk(g, d, v, s, p), needsRecovery);
            r.err == Ok && r.homeWrites == LogWrites(segs + [s]) <==> Walkable(g, v.head, v.tail, |s.updates|)
  {
    hide Inv, RecoverOp, SegmentOk, Durable, Readable, Chain;
    InvBasics(g, d, v, segs);
    WalkableExact(g, v.head, v.tail, |s.updates|);
    LogWritesSnoc(segs, s);
    if Walkable(g, v.head, v.tail, |s.updates|) {
      CommitCrash(g, d, v, segs, s, p, |s.updates| + 4);
      var w := MoveHead(v, p).(sequence := s.sequence, lastSequence := s.sequence);
      InvReadable(g, CommitDisk(g, d, v, s, p), w, segs + [s]);
      RecoverReadable(g, CommitDisk(g, d, v, s, p), segs + [s], w.head, s.sequence, needsRecovery);
    } else if p.nextHead == v.tail {
      ExactFitLosesLog(g, d, v, segs, s, p, needsRecovery);
    } else {
      GapLosesTransaction(g, d, v, segs, s, p, needsRecovery);
    }
  }

  lemma {:induction false} InvBasics(g: Geometry, d: Disk, v: Vol, segs: seq<Segment>)
    requires Inv(g, d, v, segs)
    ensures g.Wf() && g.InRing(v.head) && g.InRing(v.tail)
  {
  }

  // ----- a crash while replay resets the log

  /** The sentinel descriptor that replay writes first when it empties the log. */
  function Sentinel(g: Geometry, last: Seq64): Block
    requires g.journalBlocks >= 1
  {
    ResetWrites(g, last, 0)[0].value
  }

  /** A walk that comes to a sentinel at the start of the ring reports corruption. */
  lemma {:induction false} WalkHitsSentinel(g: Geometry, d: Disk, e: Disk, at: nat, segs: seq<Segment>, stop: nat,
                                            head: nat,
                                            after: Seq64, last: Seq64, sentinel: Seq64)
    requires g.Wf() && |d| == |e| == g.blocksCount && g.InRing(head) && g.InRing(at)
    requires Chain(g, d, at, segs, stop, head) && Increasing(segs, after)
    requires stop == head || Torn(g, d, stop, head, LastOf(segs, after))
    requires Live(g, at, head, g.RingStart())
    requires e[g.RingStart()] == Sentinel(g, sentinel)
    requires forall b: nat :: g.InRing(b) && b != g.RingStart() ==> e[b] == d[b]
    ensures Walk(g, e, at, head, after, last).err == Euclean
    decreases |segs|
  {
    hide Walk, SegmentOk, Stored, Sentinel;
    if at == g.RingStart() {
      SentinelWalk(g, e, head, after, last, sentinel);
    } else {
      LiveStartNotTorn(g, d, at, segs, stop, head, after);
      hide Torn, DescriptorCheck;
      var s := segs[0];
      StoredMoved(g, d, e, at, s);
      WalkStored(g, e, at, s, head, after, last);
      SegmentKeepsRing(g, e, s);
      NextInRing(g, at, s);
      WalkHitsSentinel(g, d, Apply(e, s.updates), g.Next(at + s.Size()), segs[1..], stop, head, s.sequence, s.sequence,
                       sentinel);
    }
  }

  /** A torn segment reaches up to the head, so the start of the ring cannot be live behind it. */
  lemma {:induction false} LiveStartNotTorn(g: Geometry, d: Disk, at: nat, segs: seq<Segment>, stop: nat, head: nat,
                                            after: Seq64)
    requires g.Wf() && g.InRing(head) && g.InRing(at) && at != g.RingStart()
    requires Chain(g, d, at, segs, stop, head)
    requires stop == head || Torn(g, d, stop, head, LastOf(segs, after))
    requires Live(g, at, head, g.RingStart())
    ensures segs != []
  {
  }

  lemma {:induction false} StoredMoved(g: Geometry, d: Disk, e: Disk, at: nat, s: Segment)
    requires Stored(g, d, at, s) && |d| == |e| && g.RingStart() < at && at + s.Size() <= g.RingEnd()
    requires forall b: nat :: g.InRing(b) && b < |d| && b != g.RingStart() ==> e[b] == d[b]
    ensures Stored(g, e, at, s)
  {
  }

  lemma {:induction false} SentinelJudge(g: Geometry, d: Disk, after: Seq64, last: Seq64)
    requires g.Wf() && |d| == g.blocksCount && d[g.RingStart()] == Sentinel(g, last)
    ensures Judge(g, d, g.RingStart(), after) == Failed(Euclean)
  {
  }

  lemma {:induction false} SentinelWalk(g: Geometry, d: Disk, head: nat, after: Seq64, last: Seq64, sentinel: Seq64)
    requires g.Wf() && |d| == g.blocksCount && d[g.RingStart()] == Sentinel(g, sentinel) && head != g.RingStart()
    ensures Walk(g, d, g.RingStart(), head, after, last).err == Euclean
  {
    hide Judge, Sentinel;
    SentinelJudge(g, d, after, sentinel);
  }

  /** The disk when replay has finished its home writes and written the sentinel descriptor. */
  function ResetTornDisk(g: Geometry, d: Disk, needsRecovery: bool, super: Block, last: Seq64): Disk
    requires g.journalBlocks >= 1
  {
    var e := Apply(d, ReplayHomeWrites(g, d, needsRecovery, super));
    Store(e, Write(g.RingStart(), Sentinel(g, last)))
  }

  /** Exactly when replay survives a crash right after its sentinel descriptor: the next mount recovers
      the image if and only if the control block is idle or no live segment starts the ring. */
  lemma {:induction false} ResetCrashExactly(g: Geometry, d: Disk, segs: seq<Segment>, stop: nat, last: Seq64,
                                             needsRecovery: bool, super: Block,
                          again: bool)
    requires Readable(g, d, segs, stop, last) && super.Data?
    ensures var c := d[g.journalBlock];
            var f := ResetTornDisk(g, d, needsRecovery, super, last);
            var r := RecoverOp(g, f, again);
            && ((r.err == Ok && r.last == last && Home(g, Apply(f, r.homeWrites)) == Logical(g, d, segs))
                <==> c.state == IDLE || !Live(g, c.ringTail, c.ringHead, g.RingStart()))
            && (c.state != IDLE && Live(g, c.ringTail, c.ringHead, g.RingStart()) ==> r.err == Euclean)
  {
    hide Readable, RecoverOp, Durable, Chain, Torn, Walk;
    ReadableBasics(g, d, segs, stop, last);
    ReadableSegmentsOk(g, d, segs, stop, last);
    RecoverReadable(g, d, segs, stop, last, needsRecovery);
    var ws := ReplayHomeWrites(g, d, needsRecovery, super);
    var e := Apply(d, ws);
    assert ws[..|ws|] == ws;
    ReadableAfterHomeWrites(g, d, segs, stop, last, super, |ws|);
    ReadableBasics(g, e, segs, stop, last);
    ControlKept(g, d, ws, segs);
    var f := ResetTornDisk(g, d, needsRecovery, super, last);
    var c := d[g.journalBlock];
    if c.state == IDLE || !Live(g, c.ringTail, c.ringHead, g.RingStart()) {
      SentinelHarmless(g, e, segs, stop, last, f);
      RecoverReadable(g, f, segs, stop, last, again);
      HomeApply(g, f, LogWrites(segs));
    } else {
      SentinelFatal(g, e, segs, stop, last, f, again);
    }
  }

  lemma {:induction false} ReadableBasics(g: Geometry, d: Disk, segs: seq<Segment>, stop: nat, last: Seq64)
    requires Readable(g, d, segs, stop, last)
    ensures g.Wf() && |d| == g.blocksCount && d[g.journalBlock].Control?
  {
    hide Chain, Torn, Increasing, NoFuture;
  }

  lemma {:induction false} ControlKept(g: Geometry, d: Disk, ws: Log, segs: seq<Segment>)
    requires g.Wf() && |d| == g.blocksCount
    requires forall i :: 0 <= i < |segs| ==> SegmentOk(g, segs[i])
    requires exists super :: ws == LogWrites(segs) + [Write(g.superBlock, super)]
    ensures Apply(d, ws)[g.journalBlock] == d[g.journalBlock]
  {
    hide SegmentOk;
    LogWritesOutside(g, segs);
    ApplyAt(d, ws, g.journalBlock);
    LastWriteHit(ws, g.journalBlock);
  }

  lemma {:induction false} SentinelHarmless(g: Geometry, d: Disk, segs: seq<Segment>, stop: nat, last: Seq64, f: Disk)
    requires Readable(g, d, segs, stop, last)
    requires var c := d[g.journalBlock]; c.state == IDLE || !Live(g, c.ringTail, c.ringHead, g.RingStart())
    requires f == d[g.RingStart() := Sentinel(g, last)]
    ensures Readable(g, f, segs, stop, last) && Home(g, f) == Home(g, d)
  {
    hide Increasing, SegmentOk, Stored;
    var c := d[g.journalBlock];
    assert Sentinel(g, last).Descriptor?;
    if c.state != IDLE {
      ChainLive(g, d, f, c.ringTail, segs, stop, c.ringHead);
      if stop != c.ringHead {
        ChainReach(g, d, c.ringTail, segs, stop, c.ringHead, g.RingStart());
        assert Live(g, stop, c.ringHead, stop);
      }
    }
  }

  /** What is live from a later position of the chain is live from an earlier one. */
  lemma {:induction false} ChainReach(g: Geometry, d: Disk, at: nat, segs: seq<Segment>, stop: nat, head: nat, b: nat)
    requires Chain(g, d, at, segs, stop, head) && g.InRing(head) && g.InRing(at)
    ensures Live(g, stop, head, b) ==> Live(g, at, head, b)
    decreases |segs|
  {
    if segs != [] {
      hide Stored, SegmentOk;
      ChainReach(g, d, g.Next(at + segs[0].Size()), segs[1..], stop, head, b);
    }
  }

  lemma {:induction false} SentinelFatal(g: Geometry, d: Disk, segs: seq<Segment>, stop: nat, last: Seq64, f: Disk,
                                         again: bool)
    requires Readable(g, d, segs, stop, last)
    requires var c := d[g.journalBlock]; c.state != IDLE && Live(g, c.ringTail, c.ringHead, g.RingStart())
    requires f == d[g.RingStart() := Sentinel(g, last)]
    ensures RecoverOp(g, f, again).err == Euclean
  {
    hide Chain, Torn, Increasing, Walk, Sentinel;
    var c := d[g.journalBlock];
    WalkHitsSentinel(g, d, f, c.ringTail, segs, stop, c.ringHead, c.checkpointSequence, c.lastSequence, last);
  }
}
