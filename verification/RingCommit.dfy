/** Crash safety of a ring commit. */
module RingCommit {
  import opened Device
  import opened RingLayout
  import opened RingSpec
  import opened RingLog
  import opened RingCrash

  /** What the disk and the in-memory fields satisfy between transactions; `segs` are the segments
      that were committed and not yet checkpointed. */
  ghost predicate Inv(g: Geometry, d: Disk, v: Vol, segs: seq<Segment>) {
    && g.Wf() && |d| == g.blocksCount && ControlOk(g, d) && NoFuture(d, v.sequence)
    && v.sequence == v.lastSequence && g.InRing(v.head) && g.InRing(v.tail)
    && Chain(g, d, v.tail, segs, v.head, v.head)
    && Increasing(segs, v.checkpointSequence) && LastOf(segs, v.checkpointSequence) == v.sequence
    && var c := d[g.journalBlock];
       if segs == [] then
         c.state == IDLE && c.activeSequence == 0 && c.checkpointSequence == c.lastSequence == v.sequence
       else
         && PREPARED <= c.state <= CHECKPOINTING && c.ringHead == v.head && c.ringTail == v.tail
         && c.checkpointSequence == v.checkpointSequence
  }

  lemma {:induction false} InvReadable(g: Geometry, d: Disk, v: Vol, segs: seq<Segment>)
    requires Inv(g, d, v, segs)
    ensures Readable(g, d, segs, v.head, v.sequence)
    ensures forall i :: 0 <= i < |segs| ==> SegmentOk(g, segs[i])
    ensures segs == [] <==> v.tail == v.head
  {
    ChainSegmentsOk(g, d, v.tail, segs, v.head, v.head);
    ReadableSegmentsOk(g, d, segs, v.head, v.sequence);
  }

  /** A transaction about to be placed at `p`. */
  ghost predicate Placed(g: Geometry, v: Vol, s: Segment, p: Placement) {
    && SegmentOk(g, s) && s.sequence > v.sequence
    && Allocate(g, v.head, v.tail, |s.updates|) == Some(p)
  }

  /** The fields the control block of the commit is built from. */
  function MoveHead(v: Vol, p: Placement): Vol {
    v.(head := p.nextHead, tail := if v.tail == v.head then p.at else v.tail)
  }

  /** Some of the payloads are written: nothing else moved. */
  lemma {:induction false} PayloadAt(d: Disk, s: Segment, at: nat, k: nat, b: nat)
    requires k <= |s.updates| && b < |d|
    ensures Apply(d, PayloadWrites(s, at)[..k])[b] == if at + 1 <= b < at + 1 + k then s.updates[b - at - 1].value else d[b]
  {
    var ws := PayloadWrites(s, at)[..k];
    ApplyAt(d, ws, b);
    if at + 1 <= b < at + 1 + k {
      LastWriteDistinct(ws, b - at - 1);
    } else {
      LastWriteHit(ws, b);
    }
  }

  lemma {:induction false} PayloadStage(d: Disk, s: Segment, at: nat, k: nat)
    requires k <= |s.updates|
    ensures var e := Apply(d, PayloadWrites(s, at)[..k]);
            forall b: nat :: b < |d| ==> e[b] == if at + 1 <= b < at + 1 + k then s.updates[b - at - 1].value else d[b]
  {
    forall b: nat | b < |d|
      ensures Apply(d, PayloadWrites(s, at)[..k])[b]
              == if at + 1 <= b < at + 1 + k then s.updates[b - at - 1].value else d[b]
    {
      PayloadAt(d, s, at, k, b);
    }
  }

  /** The disk differs from `d` only inside the new segment and, there, holds no new commit record. */
  ghost predicate OnlySegment(g: Geometry, d: Disk, e: Disk, s: Segment, at: nat) {
    && |e| == |d|
    && (forall b: nat :: b < |d| && !(at <= b < at + s.Size()) ==> e[b] == d[b])
    && (forall b: nat :: b < |d| && at <= b < at + s.Size() ==> e[b] == d[b] || !e[b].Commit?)
  }

  /** Before the descriptor is written. */
  lemma {:induction false} CommitStart(g: Geometry, d: Disk, v: Vol, s: Segment, at: nat, k: nat)
    requires SegmentOk(g, s) && at + s.Size() <= |d| && k <= |s.updates|
    ensures OnlySegment(g, d, Apply(d, CommitWrites(g, v, s, at)[..k]), s, at)
  {
    assert CommitWrites(g, v, s, at)[..k] == PayloadWrites(s, at)[..k];
    PayloadStage(d, s, at, k);
  }

  /** A list of at most four writes, spelled out. */
  lemma {:induction false} ApplyTail(d: Disk, ws: Log)
    requires 1 <= |ws| <= 4 && forall i :: 0 <= i < |ws| ==> ws[i].block < |d|
    ensures Apply(d, ws) ==
            var d1 := d[ws[0].block := ws[0].value];
            if |ws| == 1 then d1 else
              var d2 := d1[ws[1].block := ws[1].value];
              if |ws| == 2 then d2 else
                var d3 := d2[ws[2].block := ws[2].value];
                if |ws| == 3 then d3 else d3[ws[3].block := ws[3].value]
  {
    var n := |ws| - 1;
    if n == 0 {
      assert ws[..0] == [];
    } else {
      ApplyTail(d, ws[..n]);
    }
  }

  /** The disk after the payloads, one more block at `at`, and perhaps others. */
  ghost predicate PayloadsIn(g: Geometry, d: Disk, e: Disk, s: Segment, at: nat) {
    && |e| == |d| && at + s.Size() <= |d|
    && (forall b: nat :: at < b < s.CommitAt(at) ==> e[b] == s.updates[b - at - 1].value)
    && (forall b: nat :: b < |d| && b != g.journalBlock && !(at <= b < at + s.Size()) ==> e[b] == d[b])
  }

  /** Up to four more writes on a disk `f` that already holds the payloads. */
  lemma {:induction false} StoreFour(g: Geometry, d: Disk, f: Disk, s: Segment, at: nat, ws: Log, k: nat)
    requires g.Wf() && |d| == |f| == g.blocksCount
    requires g.RingStart() <= at && at + s.Size() <= g.RingEnd()
    requires forall b: nat :: b < |d| ==> f[b] == if at + 1 <= b < s.CommitAt(at) then s.updates[b - at - 1].value else d[b]
    requires |ws| == 4 && ws[0].block == at && ws[1].block == ws[3].block == g.journalBlock
    requires ws[2].block == s.CommitAt(at)
    requires 1 <= k <= 4
    ensures var e := Apply(f, ws[..k]);
            && PayloadsIn(g, d, e, s, at) && e[at] == ws[0].value
            && e[s.CommitAt(at)] == (if k >= 3 then ws[2].value else d[s.CommitAt(at)])
            && e[g.journalBlock] == (if k == 4 then ws[3].value else if k >= 2 then ws[1].value else d[g.journalBlock])
  {
    ApplyTail(f, ws[..k]);
  }

  /** The disks between the last four writes. */
  lemma {:induction false} CommitEnd(g: Geometry, d: Disk, v: Vol, s: Segment, at: nat, k: nat)
    requires g.Wf() && |d| == g.blocksCount
    requires g.RingStart() <= at && at + s.Size() <= g.RingEnd()
    requires 1 <= k <= 4
    ensures var e := Apply(d, CommitWrites(g, v, s, at)[..|s.updates| + k]);
            && PayloadsIn(g, d, e, s, at) && e[at] == MakeDescriptor(g, s, at)
            && e[s.CommitAt(at)] == (if k >= 3 then MakeCommit(g, s, at) else d[s.CommitAt(at)])
            && e[g.journalBlock] == (if k == 4 then CommitControl(g, COMMITTED, s.sequence, 0, v, s, at)
                                     else if k >= 2 then CommitControl(g, PREPARED, v.sequence, s.sequence, v, s, at)
                                     else d[g.journalBlock])
  {
    var p := PayloadWrites(s, at);
    var all := CommitWrites(g, v, s, at);
    var four := all[|p|..];
    PayloadStage(d, s, at, |p|);
    assert p[..|p|] == p;
    assert all[..|p| + k] == p + four[..k];
    ApplyAppend(d, p, four[..k]);
    StoreFour(g, d, Apply(d, p), s, at, four, k);
  }

  /** A crash before the control block is written still recovers the old segments. */
  lemma {:induction false} CommitEarly(g: Geometry, d: Disk, v: Vol, segs: seq<Segment>, s: Segment, p: Placement,
                                       e: Disk)
    requires Inv(g, d, v, segs) && Placed(g, v, s, p)
    requires OnlySegment(g, d, e, s, p.at)
    ensures Readable(g, e, segs, v.head, v.sequence) && Home(g, e) == Home(g, d)
  {
    hide Stored, SegmentOk;
    AllocateSafe(g, v.head, v.tail, |s.updates|);
    InvReadable(g, d, v, segs);
    if segs != [] {
      ChainLive(g, d, e, v.tail, segs, v.head, v.head);
    }
  }

  /** The chain of the old segments seen from the new head. */
  lemma {:induction false} CommitChain(g: Geometry, d: Disk, v: Vol, segs: seq<Segment>, s: Segment, p: Placement,
                                       e: Disk)
    requires Inv(g, d, v, segs) && Placed(g, v, s, p) && Walkable(g, v.head, v.tail, |s.updates|)
    requires |e| == |d|
    requires forall b: nat :: b < |d| && b != g.journalBlock && !(p.at <= b < p.at + s.Size()) ==> e[b] == d[b]
    ensures var w := MoveHead(v, p);
            Chain(g, e, w.tail, segs, p.at, w.head) && p.at != w.head && p.at + s.Size() <= Limit(g, p.at, w.head)
            && g.InRing(p.at) && g.InRing(w.head) && g.InRing(w.tail)
  {
    AllocateSafe(g, v.head, v.tail, |s.updates|);
    InvReadable(g, d, v, segs);
    if segs != [] {
      ChainMoveHead(g, d, v.tail, segs, v.head, p.nextHead);
      ChainLive(g, d, e, v.tail, segs, v.head, v.head);
      ChainMoveHead(g, e, v.tail, segs, v.head, p.nextHead);
    }
  }

  /** Writing a segment adds no commit record but its own. */
  lemma {:induction false} PayloadsNoFuture(g: Geometry, d: Disk, e: Disk, s: Segment, at: nat, last: Seq64,
                                            next: Seq64)
    requires NoFuture(d, last) && last <= next && SegmentOk(g, s) && g.Wf() && |d| == g.blocksCount
    requires g.RingStart() <= at && at + s.Size() <= g.RingEnd()
    requires PayloadsIn(g, d, e, s, at) && e[at] == MakeDescriptor(g, s, at) && e[g.journalBlock].Control?
    requires e[s.CommitAt(at)] == d[s.CommitAt(at)] || (e[s.CommitAt(at)] == MakeCommit(g, s, at) && s.sequence <= next)
    ensures NoFuture(e, next)
  {
    forall b: nat | b < |e|
      ensures e[b].Commit? ==> e[b].sequence <= next
    {
      assert at < b < s.CommitAt(at) ==> e[b] == s.updates[b - at - 1].value;
    }
  }

  /** A crash between the PREPARED control block and the commit block: the new segment is torn. */
  lemma {:induction false} CommitPrepared(g: Geometry, d: Disk, v: Vol, segs: seq<Segment>, s: Segment, p: Placement,
                                          e: Disk)
    requires Inv(g, d, v, segs) && Placed(g, v, s, p) && Walkable(g, v.head, v.tail, |s.updates|)
    requires PayloadsIn(g, d, e, s, p.at) && e[p.at] == MakeDescriptor(g, s, p.at)
    requires e[s.CommitAt(p.at)] == d[s.CommitAt(p.at)]
    requires e[g.journalBlock] == CommitControl(g, PREPARED, v.sequence, s.sequence, MoveHead(v, p), s, p.at)
    ensures Readable(g, e, segs, p.at, v.sequence)
  {
    AllocateSafe(g, v.head, v.tail, |s.updates|);
    CommitChain(g, d, v, segs, s, p, e);
    PreparedTorn(g, d, v, segs, s, p, e);
    PayloadsNoFuture(g, d, e, s, p.at, v.sequence, v.sequence);
    hide Stored, Chain, Torn, Increasing, Walkable, Allocate, NoFuture, SegmentOk;
  }

  lemma {:induction false} PreparedTorn(g: Geometry, d: Disk, v: Vol, segs: seq<Segment>, s: Segment, p: Placement,
                                        e: Disk)
    requires Inv(g, d, v, segs) && Placed(g, v, s, p) && Walkable(g, v.head, v.tail, |s.updates|)
    requires PayloadsIn(g, d, e, s, p.at) && e[p.at] == MakeDescriptor(g, s, p.at)
    requires e[s.CommitAt(p.at)] == d[s.CommitAt(p.at)]
    ensures Torn(g, e, p.at, p.nextHead, LastOf(segs, v.checkpointSequence))
  {
    AllocateSafe(g, v.head, v.tail, |s.updates|);
    hide Stored, Chain, Increasing;
    assert g.InRing(s.CommitAt(p.at));
  }

  /** Control blocks written with positions inside the ring are valid. */
  lemma {:induction false} ControlBuilt(g: Geometry, d: Disk, state: nat, last: Seq64, active: Seq64, checkpoint: Seq64,
                                        at: nat, payloadAt: nat,
                     payloads: nat, commitAt: nat, head: nat, tail: nat)
    requires g.journalBlock < |d|
    requires d[g.journalBlock] == MakeControl(g, state, last, active, checkpoint, at, payloadAt, payloads, commitAt, head, tail)
    requires g.InRing(head) && g.InRing(tail) && (state == IDLE ==> head == tail)
    ensures ControlOk(g, d)
  {
  }

  lemma {:induction false} LoggedStored(g: Geometry, d: Disk, e: Disk, s: Segment, at: nat)
    requires PayloadsIn(g, d, e, s, at) && e[at] == MakeDescriptor(g, s, at)
    requires e[s.CommitAt(at)] == MakeCommit(g, s, at)
    ensures Stored(g, e, at, s)
  {
  }

  /** Once the commit block is written the new segment belongs to the log. */
  lemma {:induction false} CommitDone(g: Geometry, d: Disk, v: Vol, segs: seq<Segment>, s: Segment, p: Placement,
                                      e: Disk, done: bool)
    requires Inv(g, d, v, segs) && Placed(g, v, s, p) && Walkable(g, v.head, v.tail, |s.updates|)
    requires PayloadsIn(g, d, e, s, p.at) && e[p.at] == MakeDescriptor(g, s, p.at)
    requires e[s.CommitAt(p.at)] == MakeCommit(g, s, p.at)
    requires e[g.journalBlock] == if done then CommitControl(g, COMMITTED, s.sequence, 0, MoveHead(v, p), s, p.at)
                                  else CommitControl(g, PREPARED, v.sequence, s.sequence, MoveHead(v, p), s, p.at)
    ensures Inv(g, e, MoveHead(v, p).(sequence := s.sequence, lastSequence := s.sequence), segs + [s])
  {
    hide Stored, Chain, Increasing, NoFuture, SegmentOk, Walkable, MakeDescriptor, MakeCommit;
    var w := MoveHead(v, p);
    AllocateSafe(g, v.head, v.tail, |s.updates|);
    CommitChain(g, d, v, segs, s, p, e);
    PayloadsNoFuture(g, d, e, s, p.at, v.sequence, s.sequence);
    LoggedStored(g, d, e, s, p.at);
    assert g.Next(p.at + s.Size()) == p.nextHead;
    hide PayloadsIn, Allocate;
    ChainSnoc(g, e, w.tail, segs, p.at, w.head, s);
    IncreasingSnoc(segs, v.checkpointSequence, s);
    ControlBuilt(g, e, if done then COMMITTED else PREPARED, if done then s.sequence else v.sequence,
                 if done then 0 else s.sequence, w.checkpointSequence, p.at, p.at + 1, |s.updates|, s.CommitAt(p.at),
                    w.head, w.tail);
  }

  lemma {:induction false} CommitKeepsHome(g: Geometry, d: Disk, v: Vol, s: Segment, at: nat, k: nat)
    requires g.Wf() && g.RingStart() <= at && at + s.Size() <= g.RingEnd() && k <= |s.updates| + 4
    ensures Home(g, Apply(d, CommitWrites(g, v, s, at)[..k])) == Home(g, d)
  {
    var ws := CommitWrites(g, v, s, at)[..k];
    forall b | b in Home(g, d)
      ensures Apply(d, ws)[b] == d[b]
    {
      ApplyAt(d, ws, b);
      LastWriteHit(ws, b);
    }
  }

  /** A crash after any number of the writes of a commit: before the commit block is written the disk
      durably holds the old image, from then on the old image with the whole transaction. */
  lemma {:induction false} CommitCrash(g: Geometry, d: Disk, v: Vol, segs: seq<Segment>, s: Segment, p: Placement,
                                       k: nat)
    requires Inv(g, d, v, segs) && Placed(g, v, s, p) && Walkable(g, v.head, v.tail, |s.updates|)
    requires k <= |s.updates| + 4
    ensures var e := Apply(d, CommitWrites(g, MoveHead(v, p), s, p.at)[..k]);
            if k < |s.updates| + 3 then Durable(g, e, Logical(g, d, segs), v.sequence)
            else Durable(g, e, Overlay(Logical(g, d, segs), s.updates), s.sequence)
    ensures k == |s.updates| + 4 ==>
              Inv(g, Apply(d, CommitWrites(g, MoveHead(v, p), s, p.at)),
                  MoveHead(v, p).(sequence := s.sequence, lastSequence := s.sequence), segs + [s])
              && Logical(g, Apply(d, CommitWrites(g, MoveHead(v, p), s, p.at)), segs + [s])
                 == Overlay(Logical(g, d, segs), s.updates)
  {
    hide Readable, Stored, Chain, Walkable, MakeDescriptor, MakeCommit, CommitControl, SegmentOk, PayloadsIn;
    var w, n := MoveHead(v, p), |s.updates|;
    var all := CommitWrites(g, w, s, p.at);
    var e := Apply(d, all[..k]);
    AllocateSafe(g, v.head, v.tail, n);
    CommitKeepsHome(g, d, w, s, p.at, k);
    if k <= n {
      CommitStart(g, d, w, s, p.at, k);
      CommitEarly(g, d, v, segs, s, p, e);
      DurableIntro(g, e, segs, v.head, v.sequence, Logical(g, d, segs));
    } else {
      CommitEnd(g, d, w, s, p.at, k - n);
      if k == n + 1 {
        DescriptorOnly(g, d, e, s, p.at);
        CommitEarly(g, d, v, segs, s, p, e);
        DurableIntro(g, e, segs, v.head, v.sequence, Logical(g, d, segs));
      } else if k == n + 2 {
        CommitPrepared(g, d, v, segs, s, p, e);
        DurableIntro(g, e, segs, p.at, v.sequence, Logical(g, d, segs));
      } else {
        CommitDone(g, d, v, segs, s, p, e, k == n + 4);
        InvReadable(g, e, w.(sequence := s.sequence, lastSequence := s.sequence), segs + [s]);
        LogWritesSnoc(segs, s);
        OverlayAppend(Home(g, d), LogWrites(segs), s.updates);
        DurableIntro(g, e, segs + [s], w.head, s.sequence, Overlay(Logical(g, d, segs), s.updates));
        assert k == n + 4 ==> all[..k] == all;
      }
    }
  }

  lemma {:induction false} DescriptorOnly(g: Geometry, d: Disk, e: Disk, s: Segment, at: nat)
    requires g.Wf() && |d| == g.blocksCount && SegmentOk(g, s) && g.RingStart() <= at && at + s.Size() <= g.RingEnd()
    requires PayloadsIn(g, d, e, s, at) && e[at] == MakeDescriptor(g, s, at)
    requires e[s.CommitAt(at)] == d[s.CommitAt(at)] && e[g.journalBlock] == d[g.journalBlock]
    ensures OnlySegment(g, d, e, s, at)
  {
    forall b: nat | b < |d| && at <= b < at + s.Size()
      ensures e[b] == d[b] || !e[b].Commit?
    {
      assert at < b < s.CommitAt(at) ==> e[b] == s.updates[b - at - 1].value;
    }
  }
}
