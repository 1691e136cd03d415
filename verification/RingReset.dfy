/** A crash behind the second write of the log reset. */
module RingReset {
  import opened Device
  import opened RingLayout
  import opened RingSpec
  import opened RingLog
  import opened RingCrash
  import opened RingCommit
  import opened RingCheckpoint
  import opened RingCorners

  /** The sentinel commit record, the second thing replay writes when it empties the log. */
  function SentinelCommit(g: Geometry, last: Seq64): Block
    requires g.journalBlocks >= 1
  {
    ResetWrites(g, last, 0)[1].value
  }

  lemma {:induction false} SentinelFacts(g: Geometry, last: Seq64)
    requires g.Wf()
    ensures Sentinel(g, last).Descriptor?
    ensures var c := SentinelCommit(g, last); c.Commit? && c.descriptorBlock == g.RingStart() && c.sequence == last
    ensures ResetWrites(g, last, 0)[0].block == g.RingStart() && ResetWrites(g, last, 0)[1].block == g.RingEnd() - 1
  {
  }

  /** The three blocks of the log reset belong together: an empty descriptor at the start of the ring and an empty commit
      record, not marked as committed, at its end that name each other, and an idle control block that names both and the
      area between them. */
  lemma {:induction false} SentinelsPaired(g: Geometry, last: Seq64, head: nat)
    requires g.Wf()
    ensures var ws := ResetWrites(g, last, head);
            var s, c, k := ws[0].value, ws[1].value, ws[2].value;
            && ws[0].block == g.journalBlock + 1 && ws[1].block == g.journalBlock + g.journalBlocks - 1
            && ws[2].block == g.journalBlock
            && s.Descriptor? && SealOk(g, s) && s.entries == [] && s.sequence == last
            && s.payloadStart == ws[0].block + 1 && s.commitBlock == ws[1].block
            && c.Commit? && SealOk(g, c) && c.flags == 0 && c.entryCount == 0 && c.payloadChecksum == 0
            && c.sequence == last && c.descriptorBlock == ws[0].block && c.descriptorChecksum == s.checksum
            && k.Control? && SealOk(g, k) && k.state == 0 && k.activeSequence == 0
            && k.lastSequence == k.checkpointSequence == last && k.ringHead == k.ringTail == head
            && k.descriptorAt == ws[0].block && k.payloadAt == s.payloadStart && k.commitAt == ws[1].block
            && k.payloadAt + k.payloadBlocks == k.commitAt
  {
  }

  /** The disk when both are written and the control block is not. */
  function ResetHalfDisk(g: Geometry, d: Disk, needsRecovery: bool, super: Block, last: Seq64): Disk
    requires g.journalBlocks >= 1
  {
    Store(ResetTornDisk(g, d, needsRecovery, super, last), Write(g.RingEnd() - 1, SentinelCommit(g, last)))
  }

  /** A segment whose commit record was overwritten by the sentinel looks torn. */
  lemma {:induction false} CoveredIsTorn(g: Geometry, d: Disk, f: Disk, at: nat, s: Segment, head: nat, after: Seq64,
                                         sentinel: Seq64)
    requires g.Wf() && |d| == |f| == g.blocksCount
    requires SegmentOk(g, s) && Stored(g, d, at, s) && s.sequence > after && g.InRing(at)
    requires at != g.RingStart() && at + s.Size() == g.RingEnd()
    requires f[at] == d[at] && f[g.RingEnd() - 1] == SentinelCommit(g, sentinel)
    ensures DescriptorCheck(g, f, at, after) == Ok && f[at].commitBlock == g.RingEnd() - 1
    ensures !CommitMatches(g, f[f[at].commitBlock], f[at], at)
    ensures at != head && head == g.RingStart() ==> Torn(g, f, at, head, after)
    ensures at != head && head != g.RingStart() ==> forall last :: Walk(g, f, at, head, after, last).err == Euclean
  {
    StoredAccepted(g, d, at, s, after);
    SentinelFacts(g, sentinel);
  }

  // ----- the start of the ring is live

  /** Whatever happened to the last block of the ring, a walk that comes to a sentinel reports corruption. */
  lemma {:induction false} WalkHitsReset(g: Geometry, d: Disk, e: Disk, at: nat, segs: seq<Segment>, stop: nat,
                                         head: nat,
                                         after: Seq64, last: Seq64, sentinel: Seq64)
    requires g.Wf() && |d| == |e| == g.blocksCount && g.InRing(head) && g.InRing(at)
    requires Chain(g, d, at, segs, stop, head) && Increasing(segs, after)
    requires stop == head || Torn(g, d, stop, head, LastOf(segs, after))
    requires Live(g, at, head, g.RingStart())
    requires e[g.RingStart()] == Sentinel(g, sentinel) && e[g.RingEnd() - 1] == SentinelCommit(g, sentinel)
    requires forall b: nat :: g.InRing(b) && b != g.RingStart() && b != g.RingEnd() - 1 ==> e[b] == d[b]
    ensures Walk(g, e, at, head, after, last).err == Euclean
    decreases |segs|
  {
    hide Walk, SegmentOk, Stored, Sentinel, SentinelCommit;
    if at == g.RingStart() {
      SentinelWalk(g, e, head, after, last, sentinel);
    } else {
      LiveStartNotTorn(g, d, at, segs, stop, head, after);
      hide Torn, DescriptorCheck, CommitMatches;
      var s := segs[0];
      if at + s.Size() == g.RingEnd() {
        CoveredIsTorn(g, d, e, at, s, head, after, sentinel);
      } else {
        StoredInside(g, d, e, at, s);
        WalkStored(g, e, at, s, head, after, last);
        SegmentKeepsRing(g, e, s);
        NextInRing(g, at, s);
        WalkHitsReset(g, d, Apply(e, s.updates), g.Next(at + s.Size()), segs[1..], stop, head, s.sequence, s.sequence,
                      sentinel);
      }
    }
  }

  lemma {:induction false} StoredInside(g: Geometry, d: Disk, e: Disk, at: nat, s: Segment)
    requires Stored(g, d, at, s) && |d| == |e| && g.RingStart() < at && at + s.Size() < g.RingEnd()
    requires forall b: nat :: g.InRing(b) && b < |d| && b != g.RingStart() && b != g.RingEnd() - 1 ==> e[b] == d[b]
    ensures Stored(g, e, at, s)
  {
  }

  // ----- the start of the ring is not live

  /** The last segment of a chain. */
  lemma {:induction false} ChainLast(g: Geometry, d: Disk, at: nat, segs: seq<Segment>, stop: nat, head: nat,
                                     after: Seq64) returns (pos: nat)
    requires Chain(g, d, at, segs, stop, head) && Increasing(segs, after) && segs != []
    ensures var s, init := segs[|segs| - 1], segs[..|segs| - 1];
            && Chain(g, d, at, init, pos, head) && Increasing(init, after) && LastOf(init, after) < s.sequence
            && pos != head && g.InRing(pos) && pos + s.Size() <= Limit(g, pos, head)
            && SegmentOk(g, s) && Stored(g, d, pos, s) && g.Next(pos + s.Size()) == stop
    decreases |segs|
  {
    hide SegmentOk, Stored;
    if |segs| == 1 {
      pos := at;
      assert segs[..0] == [];
    } else {
      pos := ChainLast(g, d, g.Next(at + segs[0].Size()), segs[1..], stop, head, segs[0].sequence);
      var init := segs[..|segs| - 1];
      assert segs[1..][..|segs| - 2] == init[1..] && init[0] == segs[0];
    }
  }

  /** A chain that does not wrap around depends on the blocks in front of its end. */
  lemma {:induction false} ChainBefore(g: Geometry, d: Disk, e: Disk, at: nat, segs: seq<Segment>, stop: nat, head: nat)
    requires g.Wf() && Chain(g, d, at, segs, stop, head) && g.InRing(at) && g.InRing(head) && |d| == |e|
    requires !Live(g, at, head, g.RingStart()) && (stop != head || at <= head)
    requires forall b: nat :: at <= b < stop && b < |d| ==> e[b] == d[b]
    ensures at <= stop && Chain(g, e, at, segs, stop, head)
    ensures stop == g.RingStart() ==> stop == head
    decreases |segs|
  {
    if segs != [] {
      hide SegmentOk;
      var next := g.Next(at + segs[0].Size());
      if next == head {
        EndsAt(g, d, next, segs[1..], stop, head);
      }
      ChainBefore(g, d, e, next, segs[1..], stop, head);
    }
  }

  lemma {:induction false} EndsAt(g: Geometry, d: Disk, at: nat, segs: seq<Segment>, stop: nat, head: nat)
    requires Chain(g, d, at, segs, stop, head) && at == head
    ensures segs == [] && stop == head
  {
  }

  /** What the two sentinels overwrite. */
  ghost predicate Covers(g: Geometry, tail: nat, stop: nat, head: nat)
    requires g.Wf()
  {
    Live(g, tail, head, g.RingStart()) || Live(g, tail, stop, g.RingEnd() - 1)
  }

  /** When they overwrite no complete segment, nothing is lost. */
  lemma {:induction false} ResetHarmless(g: Geometry, d: Disk, segs: seq<Segment>, stop: nat, last: Seq64, f: Disk)
    requires Readable(g, d, segs, stop, last)
    requires var c := d[g.journalBlock]; c.state == IDLE || !Covers(g, c.ringTail, stop, c.ringHead)
    requires f == d[g.RingStart() := Sentinel(g, last)][g.RingEnd() - 1 := SentinelCommit(g, last)]
    ensures Readable(g, f, segs, stop, last) && Home(g, f) == Home(g, d)
  {
    hide Increasing, SegmentOk, Stored, Sentinel, SentinelCommit, CommitMatches, DescriptorCheck;
    var c := d[g.journalBlock];
    SentinelFacts(g, last);
    if c.state != IDLE {
      ChainBefore(g, d, f, c.ringTail, segs, stop, c.ringHead);
      if stop != c.ringHead {
        TornKept(g, d, f, stop, c.ringHead, LastOf(segs, c.checkpointSequence), last);
      }
    }
  }

  lemma {:induction false} TornKept(g: Geometry, d: Disk, f: Disk, at: nat, head: nat, after: Seq64, sentinel: Seq64)
    requires g.Wf() && |d| == g.blocksCount && Torn(g, d, at, head, after) && at != g.RingStart()
    requires f == d[g.RingStart() := Sentinel(g, sentinel)][g.RingEnd() - 1 := SentinelCommit(g, sentinel)]
    ensures Torn(g, f, at, head, after)
  {
    SentinelFacts(g, sentinel);
    hide Sentinel, SentinelCommit;
  }

  /** When only the last complete segment is overwritten, replay goes up to the one in front of it. */
  lemma {:induction false} LastCovered(g: Geometry, d: Disk, segs: seq<Segment>, stop: nat, last: Seq64, f: Disk,
                                       again: bool)
    requires Readable(g, d, segs, stop, last)
    requires var c := d[g.journalBlock];
             c.state != IDLE && !Live(g, c.ringTail, c.ringHead, g.RingStart()) && Live(g, c.ringTail, stop, g.RingEnd() - 1)
    requires f == d[g.RingStart() := Sentinel(g, last)][g.RingEnd() - 1 := SentinelCommit(g, last)]
    ensures segs != []
    ensures var init := segs[..|segs| - 1];
            && RecoverOp(g, f, again) == Recovery(Ok, LogWrites(init), LastOf(init, d[g.journalBlock].lastSequence), true)
            && (init != [] ==> LastOf(init, d[g.journalBlock].lastSequence) != last)
    ensures Home(g, f) == Home(g, d)
  {
    hide SegmentOk, Stored, Sentinel, SentinelCommit, CommitMatches, DescriptorCheck, Walk;
    var c := d[g.journalBlock];
    SentinelFacts(g, last);
    StopWraps(g, d, c.ringTail, segs, stop, c.ringHead);
    var init, s := segs[..|segs| - 1], segs[|segs| - 1];
    var pos := ChainLast(g, d, c.ringTail, segs, stop, c.ringHead, c.checkpointSequence);
    ChainBefore(g, d, f, c.ringTail, init, pos, c.ringHead);
    CoveredIsTorn(g, d, f, pos, s, c.ringHead, LastOf(init, c.checkpointSequence), last);
    WalkChain(g, f, c.ringTail, init, pos, c.ringHead, c.checkpointSequence, c.lastSequence);
  }

  /** Where the chain ends when it reaches the end of the ring. */
  lemma {:induction false} StopWraps(g: Geometry, d: Disk, at: nat, segs: seq<Segment>, stop: nat, head: nat)
    requires g.Wf() && Chain(g, d, at, segs, stop, head) && g.InRing(at) && g.InRing(head)
    requires !Live(g, at, head, g.RingStart()) && Live(g, at, stop, g.RingEnd() - 1)
    ensures segs != [] && stop == head == g.RingStart() && at > head
    decreases |segs|
  {
    if segs != [] {
      hide SegmentOk, Stored;
      var next := g.Next(at + segs[0].Size());
      if next == head {
        EndsAt(g, d, next, segs[1..], stop, head);
      } else {
        StopWraps(g, d, next, segs[1..], stop, head);
      }
    }
  }

  /** Exactly when replay survives a crash behind the sentinel commit record: the control block is idle, or the two
      sentinels overwrote no complete segment, or only the one that was there, and the control block knew of its commit. */
  lemma {:induction false} ResetCommitCrashExactly(g: Geometry, d: Disk, segs: seq<Segment>, stop: nat, last: Seq64,
                                                   needsRecovery: bool,
                                                   super: Block, again: bool)
    requires Readable(g, d, segs, stop, last) && super.Data?
    ensures var c := d[g.journalBlock];
            var f := ResetHalfDisk(g, d, needsRecovery, super, last);
            var r := RecoverOp(g, f, again);
            (r.err == Ok && r.last == last && Home(g, Apply(f, r.homeWrites)) == Logical(g, d, segs))
            <==> || c.state == IDLE || !Covers(g, c.ringTail, stop, c.ringHead)
                 || (!Live(g, c.ringTail, c.ringHead, g.RingStart()) && |segs| == 1 && c.lastSequence == last)
  {
    hide Readable, RecoverOp, Durable, Chain, Torn, Walk, Live, Sentinel, SentinelCommit;
    ReadableBasics(g, d, segs, stop, last);
    ReadableSegmentsOk(g, d, segs, stop, last);
    RecoverReadable(g, d, segs, stop, last, needsRecovery);
    var ws := ReplayHomeWrites(g, d, needsRecovery, super);
    var e := Apply(d, ws);
    assert ws[..|ws|] == ws;
    ReadableAfterHomeWrites(g, d, segs, stop, last, super, |ws|);
    ReadableBasics(g, e, segs, stop, last);
    ControlKept(g, d, ws, segs);
    HomeAfter(g, d, segs, super);
    var f := ResetHalfDisk(g, d, needsRecovery, super, last);
    var c := d[g.journalBlock];
    assert f == e[g.RingStart() := Sentinel(g, last)][g.RingEnd() - 1 := SentinelCommit(g, last)];
    if c.state == IDLE || !Covers(g, c.ringTail, stop, c.ringHead) {
      ResetHarmless(g, e, segs, stop, last, f);
      RecoverReadable(g, f, segs, stop, last, again);
      HomeApply(g, f, LogWrites(segs));
    } else if Live(g, c.ringTail, c.ringHead, g.RingStart()) {
      StartCovered(g, e, segs, stop, last, f, again);
    } else {
      LastCovered(g, e, segs, stop, last, f, again);
      if |segs| == 1 {
        assert segs[..0] == [];
        assert Apply(f, LogWrites([])) == f;
      }
    }
  }

  /** All home writes of replay bring the home blocks to the image. */
  lemma {:induction false} HomeAfter(g: Geometry, d: Disk, segs: seq<Segment>, super: Block)
    ensures Home(g, Apply(d, LogWrites(segs) + [Write(g.superBlock, super)])) == Logical(g, d, segs)
  {
    var ws := LogWrites(segs) + [Write(g.superBlock, super)];
    HomeApply(g, d, ws);
    assert ws[..|ws| - 1] == LogWrites(segs);
  }

  lemma {:induction false} StartCovered(g: Geometry, d: Disk, segs: seq<Segment>, stop: nat, last: Seq64, f: Disk,
                                        again: bool)
    requires Readable(g, d, segs, stop, last)
    requires var c := d[g.journalBlock]; c.state != IDLE && Live(g, c.ringTail, c.ringHead, g.RingStart())
    requires f == d[g.RingStart() := Sentinel(g, last)][g.RingEnd() - 1 := SentinelCommit(g, last)]
    ensures RecoverOp(g, f, again).err == Euclean
  {
    hide Chain, Torn, Increasing, Walk, Sentinel, SentinelCommit;
    var c := d[g.journalBlock];
    WalkHitsReset(g, d, f, c.ringTail, segs, stop, c.ringHead, c.checkpointSequence, c.lastSequence, last);
  }
}
