/** The log as a chain of stored segments. */
module RingLog {
  import opened Device
  import opened RingLayout
  import opened RingSpec

  // ----- images of the home blocks

  type Image = map<nat, Block>

  /** The contents of all home blocks. */
  ghost function Home(g: Geometry, d: Disk): Image {
    map b: nat | 0 <= b < |d| && g.IsHome(b) :: d[b]
  }

  /** An image after a list of writes; writes to other blocks do not show. */
  ghost function Overlay(img: Image, ws: Log): (r: Image)
    ensures r.Keys == img.Keys
  {
    if ws == [] then img
    else
      var r := Overlay(img, ws[..|ws| - 1]);
      var w := ws[|ws| - 1];
      if w.block in r then r[w.block := w.value] else r
  }

  lemma {:induction false} HomeApply(g: Geometry, d: Disk, ws: Log)
    ensures Home(g, Apply(d, ws)) == Overlay(Home(g, d), ws)
  {
    if ws != [] {
      HomeApply(g, d, ws[..|ws| - 1]);
    }
  }

  lemma {:induction false} OverlayAt(img: Image, ws: Log, b: nat)
    requires b in img
    ensures Overlay(img, ws)[b] == match LastWrite(ws, b) case None => img[b] case Some(v) => v
  {
    if ws != [] {
      OverlayAt(img, ws[..|ws| - 1], b);
    }
  }

  lemma {:induction false} OverlayAppend(img: Image, a: Log, b: Log)
    ensures Overlay(img, a + b) == Overlay(Overlay(img, a), b)
  {
    if b == [] {
      assert a + b == a;
    } else {
      assert (a + b)[..|a + b| - 1] == a + b[..|b| - 1];
      OverlayAppend(img, a, b[..|b| - 1]);
    }
  }

  /** Redoing a list of writes after any part of it was already done gives the same image. */
  lemma {:induction false} OverlayRestart(img: Image, ws: Log, k: nat)
    requires k <= |ws|
    ensures Overlay(Overlay(img, ws[..k]), ws) == Overlay(img, ws)
  {
    forall b | b in img
      ensures Overlay(Overlay(img, ws[..k]), ws)[b] == Overlay(img, ws)[b]
    {
      OverlayAt(img, ws[..k], b);
      OverlayAt(Overlay(img, ws[..k]), ws, b);
      OverlayAt(img, ws, b);
      LastWriteHit(ws[..k], b);
      LastWriteHit(ws, b);
      if LastWrite(ws[..k], b).Some? {
        var i :| 0 <= i < k && ws[..k][i].block == b;
        assert ws[i].block == b;
      }
    }
  }

  // ----- stored segments

  /** What record and commit guarantee of a transaction. */
  ghost predicate SegmentOk(g: Geometry, s: Segment) {
    && |s.updates| <= g.Capacity()
    && (forall i :: 0 <= i < |s.updates| ==> s.updates[i].block < g.blocksCount && !g.Internal(s.updates[i].block))
    && (forall i, j :: 0 <= i < j < |s.updates| ==> s.updates[i].block != s.updates[j].block)
    && (forall i :: 0 <= i < |s.updates| ==> s.updates[i].value.Data?)
  }

  ghost predicate Stored(g: Geometry, d: Disk, at: nat, s: Segment) {
    && at + s.Size() <= |d|
    && d[at] == MakeDescriptor(g, s, at)
    && (forall i :: 0 <= i < |s.updates| ==> d[at + 1 + i] == s.updates[i].value)
    && d[s.CommitAt(at)] == MakeCommit(g, s, at)
  }

  /** Two disks whose ring blocks agree. */
  ghost predicate SameRing(g: Geometry, d: Disk, e: Disk) {
    |d| == |e| && forall b: nat :: g.InRing(b) && b < |d| ==> d[b] == e[b]
  }

  /** Where a segment that starts at `at` has to end at the latest. */
  function Limit(g: Geometry, at: nat, head: nat): nat {
    if at < head then head else g.RingEnd()
  }

  /** The segments `segs` lie one after the other from `at` to `stop`, all before `head`. */
  ghost predicate Chain(g: Geometry, d: Disk, at: nat, segs: seq<Segment>, stop: nat, head: nat)
    decreases |segs|
  {
    if segs == [] then at == stop
    else
      && at != head && g.InRing(at)
      && at + segs[0].Size() <= Limit(g, at, head)
      && SegmentOk(g, segs[0]) && Stored(g, d, at, segs[0])
      && Chain(g, d, g.Next(at + segs[0].Size()), segs[1..], stop, head)
  }

  /** Sequence numbers strictly increase from `after` on. */
  ghost predicate Increasing(segs: seq<Segment>, after: nat)
    decreases |segs|
  {
    segs != [] ==> segs[0].sequence > after && Increasing(segs[1..], segs[0].sequence)
  }

  ghost function LastOf(segs: seq<Segment>, last: Seq64): Seq64 {
    if segs == [] then last else segs[|segs| - 1].sequence
  }

  /** All home writes of the segments in log order. */
  ghost function LogWrites(segs: seq<Segment>): Log
    decreases |segs|
  {
    if segs == [] then [] else segs[0].updates + LogWrites(segs[1..])
  }

  lemma {:induction false} ChainSegmentsOk(g: Geometry, d: Disk, at: nat, segs: seq<Segment>, stop: nat, head: nat)
    requires Chain(g, d, at, segs, stop, head)
    ensures forall i :: 0 <= i < |segs| ==> SegmentOk(g, segs[i])
    decreases |segs|
  {
    if segs != [] {
      ChainSegmentsOk(g, d, g.Next(at + segs[0].Size()), segs[1..], stop, head);
    }
  }

  /** A chain only depends on the live blocks. */
  lemma {:induction false} ChainLive(g: Geometry, d: Disk, e: Disk, at: nat, segs: seq<Segment>, stop: nat, head: nat)
    requires Chain(g, d, at, segs, stop, head) && g.InRing(head) && |d| == |e|
    requires forall b: nat :: Live(g, at, head, b) && b < |d| ==> d[b] == e[b]
    ensures Chain(g, e, at, segs, stop, head)
    decreases |segs|
  {
    if segs != [] {
      ChainLive(g, d, e, g.Next(at + segs[0].Size()), segs[1..], stop, head);
    }
  }

  lemma {:induction false} ChainSameRing(g: Geometry, d: Disk, e: Disk, at: nat, segs: seq<Segment>, stop: nat,
                                         head: nat)
    requires Chain(g, d, at, segs, stop, head) && SameRing(g, d, e) && g.InRing(head)
    ensures Chain(g, e, at, segs, stop, head)
  {
    if segs != [] {
      ChainLive(g, d, e, at, segs, stop, head);
    }
  }

  /** A chain up to the head stays one when the head moves on over free blocks. */
  lemma {:induction false} ChainMoveHead(g: Geometry, d: Disk, at: nat, segs: seq<Segment>, head: nat, next: nat)
    requires Chain(g, d, at, segs, head, head) && g.InRing(head) && g.InRing(next)
    requires at == head || (at < head < next) || (next < at < head) || (head < next < at)
    ensures Chain(g, d, at, segs, head, next)
    decreases |segs|
  {
    if segs != [] {
      ChainMoveHead(g, d, g.Next(at + segs[0].Size()), segs[1..], head, next);
    }
  }

  lemma {:induction false} ChainSnoc(g: Geometry, d: Disk, at: nat, segs: seq<Segment>, stop: nat, head: nat,
                                     s: Segment)
    requires Chain(g, d, at, segs, stop, head)
    requires stop != head && g.InRing(stop) && stop + s.Size() <= Limit(g, stop, head)
    requires SegmentOk(g, s) && Stored(g, d, stop, s)
    ensures Chain(g, d, at, segs + [s], g.Next(stop + s.Size()), head)
    decreases |segs|
  {
    hide Stored, SegmentOk;
    if segs == [] {
      assert (segs + [s])[1..] == [];
    } else {
      ChainSnoc(g, d, g.Next(at + segs[0].Size()), segs[1..], stop, head, s);
      assert (segs + [s])[1..] == segs[1..] + [s];
    }
  }

  lemma {:induction false} IncreasingSnoc(segs: seq<Segment>, after: Seq64, s: Segment)
    requires Increasing(segs, after) && s.sequence > LastOf(segs, after)
    ensures Increasing(segs + [s], after)
    decreases |segs|
  {
    if segs == [] {
      assert (segs + [s])[1..] == [];
    } else {
      assert LastOf(segs[1..], segs[0].sequence) == LastOf(segs, after);
      IncreasingSnoc(segs[1..], segs[0].sequence, s);
      assert (segs + [s])[1..] == segs[1..] + [s];
    }
  }

  lemma {:induction false} LogWritesSnoc(segs: seq<Segment>, s: Segment)
    ensures LogWrites(segs + [s]) == LogWrites(segs) + s.updates
    decreases |segs|
  {
    if segs == [] {
      assert (segs + [s])[1..] == [];
    } else {
      LogWritesSnoc(segs[1..], s);
      assert (segs + [s])[1..] == segs[1..] + [s];
    }
  }

  // ----- readers accept what the writer produced

  /** Writer and readers agree: a stored segment passes every check of the checkpointer and of replay. */
  lemma {:induction false} StoredAccepted(g: Geometry, d: Disk, at: nat, s: Segment, after: Seq64)
    requires SegmentOk(g, s) && Stored(g, d, at, s) && s.sequence > after
    ensures Judge(g, d, at, after) == Committed
    ensures CheckpointHeader(g, d, at, after) == Ok
    ensures PayloadsOk(g, d, d[at], d[d[at].commitBlock])
    ensures d[at].commitBlock == s.CommitAt(at) && d[at].sequence == s.sequence && d[at].payloadStart == at + 1
  {
    assert d[at + 1..s.CommitAt(at)] == Payloads(s.updates);
  }

  /** The control block is accepted exactly when it is one that the journal writes for its ring, with head and tail in the
      ring, and the same when it says that nothing is logged. */
  lemma {:induction false} ControlExactly(g: Geometry, d: Disk)
    requires g.journalBlock < |d| && d[g.journalBlock].Control?
    ensures var c := d[g.journalBlock];
            ControlOk(g, d)
            <==> && c == MakeControl(g, c.state, c.lastSequence, c.activeSequence, c.checkpointSequence, c.descriptorAt,
                                     c.payloadAt, c.payloadBlocks, c.commitAt, c.ringHead, c.ringTail)
                 && g.journalBlock < c.ringHead < g.journalBlock + g.journalBlocks
                 && g.journalBlock < c.ringTail < g.journalBlock + g.journalBlocks
                 && (c.state == IDLE ==> c.ringHead == c.ringTail)
  {
    assert g.RingEnd() == g.journalBlock + g.journalBlocks;
  }

  /** What a mount makes of the control block, over arbitrary contents: one that is not accepted, or is in no known state,
      or idle with a transaction open or not checkpointed, is an error and nothing is written; an idle one ends the mount
      with its last sequence number. The log is emptied unless it is idle and nobody asked for recovery. */
  lemma {:induction false} RecoverExactly(g: Geometry, d: Disk, needsRecovery: bool)
    ensures var r := RecoverOp(g, d, needsRecovery);
            if !ControlOk(g, d) then r.err == Euclean && r.homeWrites == [] && !r.discard
            else
              var c := d[g.journalBlock];
              && (c.state > 4 ==> r.err == Euclean && r.homeWrites == [])
              && (c.state == 0 ==>
                    && r.homeWrites == []
                    && r.err == (if c.activeSequence == 0 && c.checkpointSequence == c.lastSequence then Ok else Euclean)
                    && (r.err == Ok ==> r.last == c.lastSequence))
              && (r.discard <==> r.err == Ok && (needsRecovery || c.state != 0))
  {
    hide Walk, RingValid, SealOk;
  }

  /** A transaction as a descriptor can name it: distinct blocks, outside the journal, no more than fit. */
  ghost predicate Nameable(g: Geometry, s: Segment) {
    && |s.updates| <= g.Capacity()
    && (forall i :: 0 <= i < |s.updates| ==> s.updates[i].block < g.blocksCount && !g.Internal(s.updates[i].block))
    && (forall i, j :: 0 <= j < i < |s.updates| ==> s.updates[j].block != s.updates[i].block)
  }

  /** The transaction that the blocks from `at` on spell out. */
  ghost function SegmentAt(d: Disk, at: nat): Segment
    requires at < |d| && d[at].Descriptor? && at + 1 + |d[at].entries| <= |d|
  {
    var es := d[at].entries;
    Segment(d[at].sequence, seq(|es|, i requires 0 <= i < |es| => Write(es[i].home, d[at + 1 + i])))
  }

  /** Over arbitrary contents: replay accepts exactly what record and commit would have stored, of a transaction that is
      younger than `after`. */
  lemma {:induction false} JudgedExactly(g: Geometry, d: Disk, at: nat, after: Seq64)
    ensures Judge(g, d, at, after) == Committed <==> exists s :: Nameable(g, s) && Stored(g, d, at, s) && s.sequence > after
  {
    if s :| Nameable(g, s) && Stored(g, d, at, s) && s.sequence > after {
      WrittenJudged(g, d, at, s, after);
    }
    if Judge(g, d, at, after) == Committed {
      var s := d[at];
      PayloadsAre(g, d, at, |s.entries|);
      SpelledStored(g, d, at, after, d[s.commitBlock]);
      hide Judge, Stored;
      assert SegmentAt(d, at).sequence > after;
    }
  }

  /** The same for the checkpointer, which relies on its entries being distinct. */
  lemma {:induction false} CheckpointedExactly(g: Geometry, d: Disk, at: nat, after: Seq64)
    ensures CheckpointHeader(g, d, at, after) == Ok && PayloadsOk(g, d, d[at], d[d[at].commitBlock]) && Distinct(d[at].entries)
            <==> exists s :: Nameable(g, s) && Stored(g, d, at, s) && s.sequence > after
  {
    JudgedExactly(g, d, at, after);
  }

  lemma {:induction false} WrittenJudged(g: Geometry, d: Disk, at: nat, s: Segment, after: Seq64)
    requires Nameable(g, s) && Stored(g, d, at, s) && s.sequence > after
    ensures Judge(g, d, at, after) == Committed
  {
    assert d[at + 1..s.CommitAt(at)] == Payloads(s.updates);
  }

  lemma {:induction false} PayloadsAre(g: Geometry, d: Disk, at: nat, n: nat)
    requires at + 1 + n <= |d| && at < |d| && d[at].Descriptor? && n == |d[at].entries|
    ensures d[at + 1..at + 1 + n] == Payloads(SegmentAt(d, at).updates)
  {
  }

  /** A descriptor and a commit record that pass all checks are those of the transaction they spell out. */
  lemma {:induction false} SpelledStored(g: Geometry, d: Disk, at: nat, after: Seq64, c: Block)
    requires DescriptorCheck(g, d, at, after) == Ok && c == d[d[at].commitBlock]
    requires CommitMatches(g, c, d[at], at) && c.flags == FLAG_COMMITTED
    requires c.descriptorChecksum == d[at].checksum && Distinct(d[at].entries) && PayloadsOk(g, d, d[at], c)
    requires d[at + 1..at + 1 + |d[at].entries|] == Payloads(SegmentAt(d, at).updates)
    ensures Nameable(g, SegmentAt(d, at)) && Stored(g, d, at, SegmentAt(d, at))
  {
    var s := SegmentAt(d, at);
    assert MakeEntries(g, s.updates) == d[at].entries;
  }

  /** Writes outside the ring leave it alone. */
  lemma {:induction false} OutsideKeepsRing(g: Geometry, d: Disk, ws: Log)
    requires forall i :: 0 <= i < |ws| ==> !g.InRing(ws[i].block)
    ensures SameRing(g, d, Apply(d, ws))
  {
    forall b: nat | g.InRing(b) && b < |d|
      ensures Apply(d, ws)[b] == d[b]
    {
      ApplyAt(d, ws, b);
      LastWriteHit(ws, b);
    }
  }

  /** Copying payloads to places outside the payload area writes exactly the payloads. */
  lemma {:induction false} CopyOutside(d: Disk, es: seq<Entry>, start: nat, ws: Log, k: nat)
    requires |es| == |ws| && start + |es| <= |d| && k <= |es|
    requires forall i :: 0 <= i < |es| ==> ws[i] == Write(es[i].home, d[start + i])
    requires forall i :: 0 <= i < |es| ==> !(start <= ws[i].block < start + |es|)
    ensures CopyWrites(d, es[..k], start) == ws[..k]
  {
    if k > 0 {
      CopyOutside(d, es, start, ws, k - 1);
      assert es[..k][..k - 1] == es[..k - 1];
      ApplyAt(d, ws[..k - 1], start + k - 1);
      LastWriteHit(ws[..k - 1], start + k - 1);
    }
  }

  /** The entries of a stored segment name its targets, which lie outside the payload area. */
  lemma {:induction false} StoredEntries(g: Geometry, d: Disk, at: nat, s: Segment)
    requires SegmentOk(g, s) && Stored(g, d, at, s) && g.InRing(at) && at + s.Size() <= g.RingEnd()
    ensures d[at].Descriptor? && at + 1 + |s.updates| <= |d| && |d[at].entries| == |s.updates|
    ensures forall i :: 0 <= i < |s.updates| ==> s.updates[i] == Write(d[at].entries[i].home, d[at + 1 + i])
    ensures forall i :: 0 <= i < |s.updates| ==> !(at + 1 <= s.updates[i].block < at + 1 + |s.updates|)
  {
    hide Hash, MakeCommit, Aggregate;
  }

  /** Copying a stored segment home writes exactly the transaction's contents. */
  lemma {:induction false} CopyStored(g: Geometry, d: Disk, at: nat, s: Segment)
    requires SegmentOk(g, s) && Stored(g, d, at, s) && g.InRing(at) && at + s.Size() <= g.RingEnd()
    ensures d[at].Descriptor? && CopyWrites(d, d[at].entries, at + 1) == s.updates
  {
    hide Stored, SegmentOk, CopyWrites;
    StoredEntries(g, d, at, s);
    var es, n := d[at].entries, |s.updates|;
    CopyOutside(d, es, at + 1, s.updates, n);
    assert es[..n] == es && s.updates[..n] == s.updates;
  }

  lemma {:induction false} SegmentKeepsRing(g: Geometry, d: Disk, s: Segment)
    requires SegmentOk(g, s)
    ensures SameRing(g, d, Apply(d, s.updates))
  {
    OutsideKeepsRing(g, d, s.updates);
  }

  // ----- replay of a chain

  /** A descriptor whose commit block was not written, as the last thing before `head`. */
  ghost predicate Torn(g: Geometry, d: Disk, at: nat, head: nat, after: Seq64) {
    && at != head && g.InRing(at)
    && DescriptorCheck(g, d, at, after) == Ok
    && d[at].commitBlock < g.RingEnd()
    && !CommitMatches(g, d[d[at].commitBlock], d[at], at)
    && g.Next(d[at].commitBlock + 1) == head
  }

  /** Replay of one stored segment performs its writes and goes on behind it. */
  lemma {:induction false} WalkStored(g: Geometry, d: Disk, at: nat, s: Segment, head: nat, after: Seq64, last: Seq64)
    requires SegmentOk(g, s) && Stored(g, d, at, s) && g.InRing(at) && at + s.Size() <= g.RingEnd()
    requires s.sequence > after && at != head
    ensures var r := Walk(g, Apply(d, s.updates), g.Next(at + s.Size()), head, s.sequence, s.sequence);
            Walk(g, d, at, head, after, last) == r.(writes := s.updates + r.writes)
  {
    hide Judge, CopyWrites, Stored, SegmentOk;
    StoredAccepted(g, d, at, s, after);
    CopyStored(g, d, at, s);
  }

  lemma {:induction false} WalkEnd(g: Geometry, d: Disk, at: nat, head: nat, after: Seq64, last: Seq64)
    requires at == head || Torn(g, d, at, head, after)
    ensures Walk(g, d, at, head, after, last) == WalkResult(Ok, [], last)
  {
  }

  /** Replay goes through a chain performing exactly the logged writes and continues at its end. */
  lemma {:induction false} WalkThrough(g: Geometry, d: Disk, at: nat, segs: seq<Segment>, stop: nat, head: nat,
                                       after: Seq64, last: Seq64)
    requires g.Wf() && |d| == g.blocksCount && g.InRing(head)
    requires Chain(g, d, at, segs, stop, head) && Increasing(segs, after)
    ensures var r := Walk(g, Apply(d, LogWrites(segs)), stop, head, LastOf(segs, after), LastOf(segs, last));
            Walk(g, d, at, head, after, last) == r.(writes := LogWrites(segs) + r.writes)
    decreases |segs|
  {
    hide *;
    if segs == [] {
      NoSegments(g, d, at, stop, head, after, last);
    } else {
      var s := segs[0];
      ChainParts(g, d, at, segs, stop, head);
      LogSplit(segs, after, last);
      WalkStored(g, d, at, s, head, after, last);
      SegmentKeepsRing(g, d, s);
      var e := Apply(d, s.updates);
      var next := g.Next(at + s.Size());
      ChainSameRing(g, d, e, next, segs[1..], stop, head);
      ApplyAppend(d, s.updates, LogWrites(segs[1..]));
      WalkThrough(g, e, next, segs[1..], stop, head, s.sequence, s.sequence);
      var r := Walk(g, Apply(e, LogWrites(segs[1..])), stop, head, LastOf(segs, after), LastOf(segs, last));
      assert s.updates + (LogWrites(segs[1..]) + r.writes) == LogWrites(segs) + r.writes;
    }
  }

  lemma {:induction false} NoSegments(g: Geometry, d: Disk, at: nat, stop: nat, head: nat, after: Seq64, last: Seq64)
    requires Chain(g, d, at, [], stop, head)
    ensures var r := Walk(g, Apply(d, LogWrites([])), stop, head, LastOf([], after), LastOf([], last));
            Walk(g, d, at, head, after, last) == r.(writes := LogWrites([]) + r.writes)
  {
    hide Walk;
  }

  lemma {:induction false} ChainParts(g: Geometry, d: Disk, at: nat, segs: seq<Segment>, stop: nat, head: nat)
    requires Chain(g, d, at, segs, stop, head) && segs != [] && g.InRing(head)
    ensures at != head && g.InRing(at) && at + segs[0].Size() <= g.RingEnd()
    ensures SegmentOk(g, segs[0]) && Stored(g, d, at, segs[0])
    ensures Chain(g, d, g.Next(at + segs[0].Size()), segs[1..], stop, head)
  {
    hide Stored, SegmentOk;
  }

  lemma {:induction false} LogSplit(segs: seq<Segment>, after: Seq64, last: Seq64)
    requires segs != [] && Increasing(segs, after)
    ensures LogWrites(segs) == segs[0].updates + LogWrites(segs[1..])
    ensures segs[0].sequence > after && Increasing(segs[1..], segs[0].sequence)
    ensures LastOf(segs[1..], segs[0].sequence) == LastOf(segs, after) == LastOf(segs, last)
  {
  }

  lemma {:induction false} LogKeepsRing(g: Geometry, d: Disk, segs: seq<Segment>)
    requires forall i :: 0 <= i < |segs| ==> SegmentOk(g, segs[i])
    ensures SameRing(g, d, Apply(d, LogWrites(segs)))
    decreases |segs|
  {
    hide SegmentOk;
    if segs != [] {
      SegmentKeepsRing(g, d, segs[0]);
      LogKeepsRing(g, Apply(d, segs[0].updates), segs[1..]);
      ApplyAppend(d, segs[0].updates, LogWrites(segs[1..]));
    }
  }

  /** Replay of a chain, with or without a torn last segment, performs exactly the logged writes. */
  lemma {:induction false} WalkChain(g: Geometry, d: Disk, at: nat, segs: seq<Segment>, stop: nat, head: nat,
                                     after: Seq64, last: Seq64)
    requires g.Wf() && |d| == g.blocksCount && g.InRing(head)
    requires Chain(g, d, at, segs, stop, head) && Increasing(segs, after)
    requires stop == head || Torn(g, d, stop, head, LastOf(segs, after))
    ensures Walk(g, d, at, head, after, last) == WalkResult(Ok, LogWrites(segs), LastOf(segs, last))
  {
    hide Walk, Chain, Torn, SegmentOk;
    var e := Apply(d, LogWrites(segs));
    ChainSegmentsOk(g, d, at, segs, stop, head);
    LogKeepsRing(g, d, segs);
    WalkThrough(g, d, at, segs, stop, head, after, last);
    TornSameRing(g, d, e, stop, head, LastOf(segs, after));
    WalkEnd(g, e, stop, head, LastOf(segs, after), LastOf(segs, last));
  }

  lemma {:induction false} TornSameRing(g: Geometry, d: Disk, e: Disk, at: nat, head: nat, after: Seq64)
    requires SameRing(g, d, e)
    ensures Torn(g, d, at, head, after) ==> Torn(g, e, at, head, after)
  {
  }
}
