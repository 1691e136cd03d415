/** A mount that is cut off anywhere, also inside the log reset. */
module RingRecovery {
  import opened Device
  import opened RingLayout
  import opened RingSpec
  import opened RingLog
  import opened RingCrash
  import opened RingCommit
  import opened RingCheckpoint
  import opened RingCorners
  import opened RingReset

  /** An attempt at replay that is cut off after `k` of its writes in front of the idle control block. */
  datatype Attempt = Attempt(needsRecovery: bool, super: Block, k: nat)

  function Cut(ws: Log, k: nat): Log {
    if k <= |ws| then ws[..k] else ws
  }

  /** Home writes, superblock, and the two sentinels. */
  function AttemptWrites(g: Geometry, d: Disk, a: Attempt): Log
    requires g.journalBlocks >= 1
  {
    ReplayHomeWrites(g, d, a.needsRecovery, a.super) + ResetWrites(g, RecoverOp(g, d, a.needsRecovery).last, 0)[..2]
  }

  function Stopped(g: Geometry, d: Disk, a: Attempt): Disk
    requires g.journalBlocks >= 1
  {
    Apply(d, Cut(AttemptWrites(g, d, a), a.k))
  }

  /** When both sentinels may be on disk. */
  ghost predicate HalfSafe(g: Geometry, d: Disk, segs: seq<Segment>, stop: nat, last: Seq64)
    requires g.Wf() && |d| == g.blocksCount && d[g.journalBlock].Control?
  {
    var c := d[g.journalBlock];
    || c.state == IDLE || !Covers(g, c.ringTail, stop, c.ringHead)
    || (!Live(g, c.ringTail, c.ringHead, g.RingStart()) && |segs| == 1 && c.lastSequence == last)
  }

  /** Where the attempt may be cut off: anywhere in front of the log reset, and inside it under the exact conditions. */
  ghost predicate MayStop(g: Geometry, d: Disk, a: Attempt) {
    && a.super.Data?
    && var n := |ReplayHomeWrites(g, d, a.needsRecovery, a.super)|;
       && (a.k == n + 1 ==>
             && g.Wf() && |d| == g.blocksCount && d[g.journalBlock].Control?
             && var c := d[g.journalBlock]; c.state == IDLE || !Live(g, c.ringTail, c.ringHead, g.RingStart()))
       && (a.k > n + 1 ==>
             && g.Wf() && |d| == g.blocksCount && d[g.journalBlock].Control?
             && exists segs, stop, last :: Readable(g, d, segs, stop, last) && HalfSafe(g, d, segs, stop, last))
  }

  // ----- the disk inside the reset

  lemma {:induction false} InReset(g: Geometry, d: Disk, a: Attempt)
    requires g.Wf() && |d| == g.blocksCount
    ensures var n, homes := |ReplayHomeWrites(g, d, a.needsRecovery, a.super)|,
            ReplayHomeWrites(g, d, a.needsRecovery, a.super);
            var last := RecoverOp(g, d, a.needsRecovery).last;
            var e := Apply(d, homes);
            && |e| == |d|
            && (a.k <= n ==> Stopped(g, d, a) == Apply(d, homes[..a.k]))
            && (a.k == n + 1 ==> Stopped(g, d, a) == e[g.RingStart() := Sentinel(g, last)])
            && (a.k > n + 1 ==>
                  Stopped(g, d, a) == e[g.RingStart() := Sentinel(g, last)][g.RingEnd() - 1 := SentinelCommit(g, last)])
  {
    var homes := ReplayHomeWrites(g, d, a.needsRecovery, a.super);
    var last := RecoverOp(g, d, a.needsRecovery).last;
    var reset := ResetWrites(g, last, 0);
    SentinelFacts(g, last);
    hide ReplayHomeWrites, RecoverOp;
    if a.k > |homes| {
      var part := if a.k == |homes| + 1 then reset[..1] else reset[..2];
      assert Cut(AttemptWrites(g, d, a), a.k) == homes + part;
      ApplyAppend(d, homes, part);
      hide ResetWrites;
      OneStore(Apply(d, homes), reset[0]);
      TwoStores(Apply(d, homes), reset[0], reset[1]);
      assert reset[..1] == [reset[0]] && reset[..2] == [reset[0], reset[1]];
    } else {
      assert Cut(AttemptWrites(g, d, a), a.k) == homes[..a.k];
    }
  }

  lemma {:induction false} OneStore(d: Disk, w: Write<Block>)
    ensures Apply(d, [w]) == Store(d, w)
  {
    assert [w][..0] == [];
  }

  lemma {:induction false} TwoStores(d: Disk, w: Write<Block>, x: Write<Block>)
    ensures Apply(d, [w, x]) == Store(Store(d, w), x)
  {
    assert [w, x] == [w] + [x];
    ApplyAppend(d, [w], [x]);
    OneStore(d, w);
    OneStore(Apply(d, [w]), x);
  }

  /** The only complete segment overwritten: what is left is an empty log, and the home blocks have everything. */
  lemma {:induction false} AloneCovered(g: Geometry, d: Disk, segs: seq<Segment>, stop: nat, last: Seq64, f: Disk)
    requires Readable(g, d, segs, stop, last) && |segs| == 1 && d[g.journalBlock].lastSequence == last
    requires var c := d[g.journalBlock];
             c.state != IDLE && !Live(g, c.ringTail, c.ringHead, g.RingStart()) && Live(g, c.ringTail, stop, g.RingEnd() - 1)
    requires f == d[g.RingStart() := Sentinel(g, last)][g.RingEnd() - 1 := SentinelCommit(g, last)]
    ensures Readable(g, f, [], d[g.journalBlock].ringTail, last) && Home(g, f) == Home(g, d)
  {
    hide SegmentOk, Stored, Sentinel, SentinelCommit, CommitMatches, DescriptorCheck, Walk;
    var c := d[g.journalBlock];
    SentinelFacts(g, last);
    StopWraps(g, d, c.ringTail, segs, stop, c.ringHead);
    var pos := ChainLast(g, d, c.ringTail, segs, stop, c.ringHead, c.checkpointSequence);
    assert segs[..0] == [] && pos == c.ringTail;
    CoveredIsTorn(g, d, f, pos, segs[0], c.ringHead, c.checkpointSequence, last);
  }

  /** Every readable disk is replayed to its image. */
  lemma {:induction false} ReadableImage(g: Geometry, d: Disk, img: Image, last: Seq64, segs: seq<Segment>, stop: nat,
                                         end: Seq64)
    requires Durable(g, d, img, last) && Readable(g, d, segs, stop, end)
    ensures end == last && Logical(g, d, segs) == img
  {
    hide Durable, Readable, RecoverOp;
    RecoverDurable(g, d, img, last, false);
    RecoverReadable(g, d, segs, stop, end, false);
    HomeApply(g, d, LogWrites(segs));
  }

  /** The disk behind the home writes. */
  lemma {:induction false} Homed(g: Geometry, d: Disk, a: Attempt, segs: seq<Segment>, stop: nat, last: Seq64)
    requires Readable(g, d, segs, stop, last) && a.super.Data?
    ensures g.Wf() && |d| == g.blocksCount
    ensures var e := Apply(d, ReplayHomeWrites(g, d, a.needsRecovery, a.super));
            && Readable(g, e, segs, stop, last) && Logical(g, e, segs) == Home(g, e) == Logical(g, d, segs)
            && |e| == |d| && e[g.journalBlock] == d[g.journalBlock] && RecoverOp(g, d, a.needsRecovery).last == last
  {
    hide Readable, RecoverOp, Durable, Chain, Torn, Walk;
    ReadableBasics(g, d, segs, stop, last);
    ReadableSegmentsOk(g, d, segs, stop, last);
    RecoverReadable(g, d, segs, stop, last, a.needsRecovery);
    var ws := ReplayHomeWrites(g, d, a.needsRecovery, a.super);
    assert ws[..|ws|] == ws;
    ReadableAfterHomeWrites(g, d, segs, stop, last, a.super, |ws|);
    ReadableBasics(g, Apply(d, ws), segs, stop, last);
    ControlKept(g, d, ws, segs);
    HomeAfter(g, d, segs, a.super);
  }

  /** An attempt at replay that is cut off where it may be leaves the image durable. */
  lemma {:induction false} StoppedDurable(g: Geometry, d: Disk, img: Image, last: Seq64, a: Attempt)
    requires Durable(g, d, img, last) && g.Wf() && MayStop(g, d, a)
    ensures Durable(g, Stopped(g, d, a), img, last)
  {
    hide Readable, RecoverOp, ReplayHomeWrites, Logical, Live, Covers, Sentinel, SentinelCommit, AttemptWrites, Stopped;
    var segs, stop :| Readable(g, d, segs, stop, last) && Logical(g, d, segs) == img;
    Homed(g, d, a, segs, stop, last);
    InReset(g, d, a);
    var n := |ReplayHomeWrites(g, d, a.needsRecovery, a.super)|;
    var e := Apply(d, ReplayHomeWrites(g, d, a.needsRecovery, a.super));
    var f := Stopped(g, d, a);
    if a.k <= n {
      ReplayRestart(g, d, img, last, a.needsRecovery, a.super, a.k);
    } else if a.k == n + 1 {
      SentinelHarmless(g, e, segs, stop, last, f);
      SameLogical(g, e, f, segs);
      DurableIntro(g, f, segs, stop, last, img);
    } else {
      var more, at, end :| Readable(g, d, more, at, end) && HalfSafe(g, d, more, at, end);
      HalfDurable(g, d, img, last, a, more, at, end);
    }
  }

  lemma {:induction false} SameLogical(g: Geometry, d: Disk, e: Disk, segs: seq<Segment>)
    requires Home(g, d) == Home(g, e)
    ensures Logical(g, d, segs) == Logical(g, e, segs)
  {
  }

  lemma {:induction false} HalfDurable(g: Geometry, d: Disk, img: Image, last: Seq64, a: Attempt, segs: seq<Segment>,
                                       stop: nat, end: Seq64)
    requires Durable(g, d, img, last) && g.Wf() && |d| == g.blocksCount && d[g.journalBlock].Control? && a.super.Data?
    requires Readable(g, d, segs, stop, end) && HalfSafe(g, d, segs, stop, end)
    requires a.k > |ReplayHomeWrites(g, d, a.needsRecovery, a.super)| + 1
    ensures Durable(g, Stopped(g, d, a), img, last)
  {
    ReadableImage(g, d, img, last, segs, stop, end);
    Homed(g, d, a, segs, stop, last);
    InReset(g, d, a);
    hide Durable, Readable, RecoverOp, ReplayHomeWrites, Logical, Live, Sentinel, SentinelCommit, AttemptWrites;
    hide Stopped;
    var c := d[g.journalBlock];
    var e := Apply(d, ReplayHomeWrites(g, d, a.needsRecovery, a.super));
    var f := Stopped(g, d, a);
    if c.state == IDLE || !Covers(g, c.ringTail, stop, c.ringHead) {
      ResetHarmless(g, e, segs, stop, last, f);
      SameLogical(g, e, f, segs);
      DurableIntro(g, f, segs, stop, last, img);
    } else {
      AloneCovered(g, e, segs, stop, last, f);
      NoLog(g, f);
      DurableIntro(g, f, [], c.ringTail, last, img);
    }
  }

  lemma {:induction false} NoLog(g: Geometry, d: Disk)
    ensures Logical(g, d, []) == Home(g, d)
  {
  }
}
