/** What replay recovers after a crash. */
module RingCrash {
  import opened Device
  import opened RingLayout
  import opened RingSpec
  import opened RingLog

  /** No commit record on the disk is younger than the last committed transaction, so none can be
      taken for the commit of a transaction that is still being written. */
  ghost predicate NoFuture(d: Disk, last: Seq64) {
    forall b: nat :: b < |d| && d[b].Commit? ==> d[b].sequence <= last
  }

  /** Writes to home blocks and to the superblock; neither ever looks like a journal record. */
  ghost predicate Outside(g: Geometry, ws: Log) {
    forall i :: 0 <= i < |ws| ==> !g.Internal(ws[i].block) && ws[i].value.Data?
  }

  /** A disk from which replay can recover the segments `segs`. */
  ghost predicate Readable(g: Geometry, d: Disk, segs: seq<Segment>, stop: nat, last: Seq64) {
    && g.Wf() && |d| == g.blocksCount && ControlOk(g, d) && NoFuture(d, last)
    && var c := d[g.journalBlock];
       if c.state == IDLE then
         segs == [] && c.activeSequence == 0 && c.checkpointSequence == c.lastSequence == last
       else
         && c.state <= CHECKPOINTING
         && Chain(g, d, c.ringTail, segs, stop, c.ringHead)
         && Increasing(segs, c.checkpointSequence) && LastOf(segs, c.lastSequence) == last
         && (stop == c.ringHead || Torn(g, d, stop, c.ringHead, LastOf(segs, c.checkpointSequence)))
  }

  lemma {:induction false} ReadableSegmentsOk(g: Geometry, d: Disk, segs: seq<Segment>, stop: nat, last: Seq64)
    requires Readable(g, d, segs, stop, last)
    ensures forall i :: 0 <= i < |segs| ==> SegmentOk(g, segs[i])
  {
    if segs != [] {
      ChainSegmentsOk(g, d, d[g.journalBlock].ringTail, segs, stop, d[g.journalBlock].ringHead);
    }
  }

  /** Home blocks overlaid by the live segments, oldest first. */
  ghost function Logical(g: Geometry, d: Disk, segs: seq<Segment>): Image
  {
    Overlay(Home(g, d), LogWrites(segs))
  }

  /** The disk durably holds the image `img`, with `last` the last committed sequence number. */
  ghost predicate Durable(g: Geometry, d: Disk, img: Image, last: Seq64) {
    exists segs, stop ::
      Readable(g, d, segs, stop, last) && Logical(g, d, segs) == img
  }

  lemma {:induction false} DurableIntro(g: Geometry, d: Disk, segs: seq<Segment>, stop: nat, last: Seq64, img: Image)
    requires Readable(g, d, segs, stop, last)
    requires Logical(g, d, segs) == img
    ensures Durable(g, d, img, last)
  {
  }

  // ----- replay

  /** Replay of a readable disk performs the logged writes. */
  lemma {:induction false} RecoverReadable(g: Geometry, d: Disk, segs: seq<Segment>, stop: nat, last: Seq64,
                                           needsRecovery: bool)
    requires Readable(g, d, segs, stop, last)
    ensures var r := RecoverOp(g, d, needsRecovery);
            r.err == Ok && r.last == last && r.homeWrites == LogWrites(segs)
  {
    var c := d[g.journalBlock];
    if c.state != IDLE {
      WalkChain(g, d, c.ringTail, segs, stop, c.ringHead, c.checkpointSequence, c.lastSequence);
    }
  }

  /** Replay of a durable disk succeeds and its home writes produce exactly the image. */
  lemma {:induction false} RecoverDurable(g: Geometry, d: Disk, img: Image, last: Seq64, needsRecovery: bool)
    requires Durable(g, d, img, last)
    ensures var r := RecoverOp(g, d, needsRecovery);
            r.err == Ok && r.last == last && Home(g, Apply(d, r.homeWrites)) == img
  {
    var segs, stop :| Readable(g, d, segs, stop, last) && Logical(g, d, segs) == img;
    RecoverReadable(g, d, segs, stop, last, needsRecovery);
    HomeApply(g, d, RecoverOp(g, d, needsRecovery).homeWrites);
  }

  lemma {:induction false} OutsideNoFuture(g: Geometry, d: Disk, ws: Log, last: Seq64)
    requires NoFuture(d, last) && Outside(g, ws)
    ensures NoFuture(Apply(d, ws), last)
  {
    forall b: nat | b < |d|
      ensures Apply(d, ws)[b].Commit? ==> Apply(d, ws)[b].sequence <= last
    {
      ApplyAt(d, ws, b);
      LastWriteHit(ws, b);
    }
  }

  /** Writes that leave the control block and the ring alone keep a disk readable. */
  lemma {:induction false} ReadableOutside(g: Geometry, d: Disk, ws: Log, segs: seq<Segment>, stop: nat, last: Seq64)
    requires Readable(g, d, segs, stop, last)
    requires Outside(g, ws)
    ensures Readable(g, Apply(d, ws), segs, stop, last)
  {
    var e := Apply(d, ws);
    OutsideNoFuture(g, d, ws, last);
    OutsideKeepsRing(g, d, ws);
    ApplyAt(d, ws, g.journalBlock);
    LastWriteHit(ws, g.journalBlock);
    var c := d[g.journalBlock];
    if c.state != IDLE {
      ChainSameRing(g, d, e, c.ringTail, segs, stop, c.ringHead);
      TornSameRing(g, d, e, stop, c.ringHead, LastOf(segs, c.checkpointSequence));
    }
  }

  lemma {:induction false} LogWritesOutside(g: Geometry, segs: seq<Segment>)
    requires forall i :: 0 <= i < |segs| ==> SegmentOk(g, segs[i])
    ensures Outside(g, LogWrites(segs))
    decreases |segs|
  {
    if segs != [] {
      LogWritesOutside(g, segs[1..]);
    }
  }

  /** Redoing a log after a part of it, and perhaps one write that does not show, was done. */
  lemma {:induction false} OverlayRestartAfter(img: Image, log: Log, w: Write<Block>, k: nat)
    requires w.block !in img && k <= |log| + 1
    ensures Overlay(Overlay(img, (log + [w])[..k]), log) == Overlay(img, log)
  {
    if k <= |log| {
      assert (log + [w])[..k] == log[..k];
      OverlayRestart(img, log, k);
    } else {
      assert (log + [w])[..k][..|log|] == log[..|log|];
      OverlayRestart(img, log, |log|);
    }
  }

  /** The home writes of replay, then the superblock: everything before the log is reset. */
  function ReplayHomeWrites(g: Geometry, d: Disk, needsRecovery: bool, super: Block): Log {
    RecoverOp(g, d, needsRecovery).homeWrites + [Write(g.superBlock, super)]
  }

  lemma {:induction false} ReadableAfterHomeWrites(g: Geometry, d: Disk, segs: seq<Segment>, stop: nat, last: Seq64,
                                                   super: Block, k: nat)
    requires Readable(g, d, segs, stop, last)
    requires k <= |LogWrites(segs)| + 1 && g.Wf() && super.Data?
    ensures var e := Apply(d, (LogWrites(segs) + [Write(g.superBlock, super)])[..k]);
            Readable(g, e, segs, stop, last) && Logical(g, e, segs) == Logical(g, d, segs)
  {
    var ws := (LogWrites(segs) + [Write(g.superBlock, super)])[..k];
    ReadableSegmentsOk(g, d, segs, stop, last);
    LogWritesOutside(g, segs);
    ReadableOutside(g, d, ws, segs, stop, last);
    HomeApply(g, d, ws);
    OverlayRestartAfter(Home(g, d), LogWrites(segs), Write(g.superBlock, super), k);
  }

  /** A crash at any home write of replay leaves the disk durable with the same image: replay can be
      restarted any number of times. */
  lemma {:induction false} ReplayRestart(g: Geometry, d: Disk, img: Image, last: Seq64, needsRecovery: bool,
                                         super: Block, k: nat)
    requires Durable(g, d, img, last) && super.Data?
    requires k <= |ReplayHomeWrites(g, d, needsRecovery, super)|
    ensures Durable(g, Apply(d, ReplayHomeWrites(g, d, needsRecovery, super)[..k]), img, last)
  {
    var segs, stop :| Readable(g, d, segs, stop, last) && Logical(g, d, segs) == img;
    RecoverReadable(g, d, segs, stop, last, needsRecovery);
    ReadableAfterHomeWrites(g, d, segs, stop, last, super, k);
    DurableIntro(g, Apply(d, ReplayHomeWrites(g, d, needsRecovery, super)[..k]), segs, stop, last, img);
  }
}
