/** Crash safety of checkpoint and log reset. */
module RingCheckpoint {
  import opened Device
  import opened RingLayout
  import opened RingSpec
  import opened RingLog
  import opened RingCrash
  import opened RingCommit

  /** The first write of a checkpoint only changes the state of the control block. */
  lemma {:induction false} CheckpointStart(g: Geometry, d: Disk, v: Vol, segs: seq<Segment>)
    requires Inv(g, d, v, segs) && segs != []
    ensures v.tail < |d| && d[v.tail].Descriptor?
    ensures var d1 := Apply(d, [Write(g.journalBlock, CheckpointControl(g, CHECKPOINTING, v, d[v.tail], v.tail))]);
            Inv(g, d1, v, segs) && Home(g, d1) == Home(g, d)
  {
    var s := d[v.tail];
    var ws := [Write(g.journalBlock, CheckpointControl(g, CHECKPOINTING, v, s, v.tail))];
    var d1 := Apply(d, ws);
    ApplyTail(d, ws);
    assert d1 == d[g.journalBlock := ws[0].value];
    hide Stored, SegmentOk, Increasing;
    ControlBuilt(g, d1, CHECKPOINTING, v.lastSequence, 0, v.checkpointSequence, v.tail, s.payloadStart, |s.entries|,
                 s.commitBlock, v.head, v.tail);
    ChainSameRing(g, d, d1, v.tail, segs, v.head, v.head);
  }

  /** The writes of a checkpoint that copies `us` home and goes on at `next`. */
  function CheckpointPlan(g: Geometry, d: Disk, v: Vol, super: Block, us: Log, w: Vol): Log
    requires v.tail < |d| && d[v.tail].Descriptor?
  {
    [Write(g.journalBlock, CheckpointControl(g, CHECKPOINTING, v, d[v.tail], v.tail))] + us
    + if w.tail == v.head then
        [Write(g.superBlock, super), Write(g.journalBlock, CheckpointControl(g, IDLE, w, d[v.tail], v.tail))]
      else [Write(g.journalBlock, CheckpointControl(g, COMMITTED, w, d[v.tail], v.tail))]
  }

  function DropFirst(g: Geometry, v: Vol, s: Segment): Vol {
    v.(tail := g.Next(v.tail + s.Size()), tailSequence := s.sequence, checkpointSequence := s.sequence)
  }

  lemma {:induction false} CheckpointUnfold(g: Geometry, d: Disk, v: Vol, s: Segment, super: Block)
    requires v.tail != v.head && CheckpointHeader(g, d, v.tail, v.checkpointSequence) == Ok
    requires d[v.tail].sequence == s.sequence && d[v.tail].commitBlock == s.CommitAt(v.tail)
    requires d[v.tail].payloadStart == v.tail + 1
    requires var d1 := Apply(d, [Write(g.journalBlock, CheckpointControl(g, CHECKPOINTING, v, d[v.tail], v.tail))]);
             PayloadsOk(g, d1, d[v.tail], d[s.CommitAt(v.tail)]) && CopyWrites(d1, d[v.tail].entries, v.tail + 1) == s.updates
    ensures CheckpointOp(g, d, v, super)
            == Outcome(Ok, CheckpointPlan(g, d, v, super, s.updates, DropFirst(g, v, s)), DropFirst(g, v, s))
  {
    hide CheckpointControl, PayloadsOk, CopyWrites, CommitMatches, SealOk, Apply;
  }

  /** The oldest segment passes all checks, so the operation is the sequence of writes it promises. */
  lemma {:induction false} CheckpointShape(g: Geometry, d: Disk, v: Vol, segs: seq<Segment>, super: Block)
    requires Inv(g, d, v, segs) && segs != []
    ensures d[v.tail].Descriptor?
    ensures CheckpointOp(g, d, v, super)
            == Outcome(Ok, CheckpointPlan(g, d, v, super, segs[0].updates, DropFirst(g, v, segs[0])), DropFirst(g, v, segs[0]))
  {
    hide Stored, SegmentOk, CheckpointHeader, PayloadsOk, CopyWrites, CheckpointControl, CheckpointOp, CheckpointPlan;
    CheckpointStart(g, d, v, segs);
    var s := segs[0];
    var d1 := Apply(d, [Write(g.journalBlock, CheckpointControl(g, CHECKPOINTING, v, d[v.tail], v.tail))]);
    StoredAccepted(g, d, v.tail, s, v.checkpointSequence);
    StoredAccepted(g, d1, v.tail, s, v.checkpointSequence);
    CopyStored(g, d1, v.tail, s);
    SameHeader(g, d, d1, v.tail, s);
    CheckpointUnfold(g, d, v, s, super);
  }

  lemma {:induction false} SameHeader(g: Geometry, d: Disk, e: Disk, at: nat, s: Segment)
    requires Stored(g, d, at, s) && Stored(g, e, at, s)
    ensures e[at] == d[at] && e[s.CommitAt(at)] == d[s.CommitAt(at)]
  {
  }

  /** After the copies, writing a control block that points behind the oldest segment drops it. */
  lemma {:induction false} DropOldest(g: Geometry, d: Disk, v: Vol, segs: seq<Segment>, ws: Log, w: Vol, e: Disk)
    requires Inv(g, d, v, segs) && segs != [] && Outside(g, ws)
    requires w == v.(tail := g.Next(v.tail + segs[0].Size()), tailSequence := segs[0].sequence,
                     checkpointSequence := segs[0].sequence)
    requires |e| == |d| && (forall b: nat :: b < |d| && b != g.journalBlock ==> e[b] == Apply(d, ws)[b])
    requires ControlOk(g, e)
    requires var c := e[g.journalBlock];
             c.ringHead == w.head && c.ringTail == w.tail && c.checkpointSequence == w.checkpointSequence
             && c.lastSequence == v.sequence && c.activeSequence == 0
             && c.state == if w.tail == w.head then IDLE else COMMITTED
    ensures Inv(g, e, w, segs[1..])
  {
    hide Stored, SegmentOk;
    OutsideKeepsRing(g, d, ws);
    OutsideNoFuture(g, d, ws, v.sequence);
    ChainSegmentsOk(g, d, v.tail, segs, v.head, v.head);
    ChainSameRing(g, d, e, w.tail, segs[1..], v.head, v.head);
    assert LastOf(segs[1..], segs[0].sequence) == LastOf(segs, v.checkpointSequence);
    NextInRing(g, v.tail, segs[0]);
    assert segs[1..] == [] <==> w.tail == w.head;
  }

  lemma {:induction false} NextInRing(g: Geometry, at: nat, s: Segment)
    requires g.Wf() && g.InRing(at) && at + s.Size() <= g.RingEnd()
    ensures g.InRing(g.Next(at + s.Size()))
  {
  }

  /** The image is the same whether the oldest segment is still in the log or already copied home. */
  lemma {:induction false} DropImage(g: Geometry, d: Disk, segs: seq<Segment>, ws: Log, e: Disk)
    requires segs != [] && segs[0].updates <= ws
    requires forall i :: |segs[0].updates| <= i < |ws| ==> !g.IsHome(ws[i].block)
    requires Home(g, e) == Home(g, Apply(d, ws))
    ensures Logical(g, e, segs[1..]) == Logical(g, d, segs)
  {
    var u := segs[0].updates;
    HomeApply(g, d, ws);
    OverlayHidden(g, Home(g, d), u, ws[|u|..]);
    assert ws == u + ws[|u|..];
    OverlayAppend(Home(g, d), u, LogWrites(segs[1..]));
  }

  lemma {:induction false} OverlayHidden(g: Geometry, img: Image, u: Log, ws: Log)
    requires forall b :: b in img ==> g.IsHome(b)
    requires forall i :: 0 <= i < |ws| ==> !g.IsHome(ws[i].block)
    ensures Overlay(img, u + ws) == Overlay(img, u)
  {
    if ws == [] {
      assert u + ws == u;
    } else {
      OverlayHidden(g, img, u, ws[..|ws| - 1]);
      assert (u + ws)[..|u + ws| - 1] == u + ws[..|ws| - 1];
    }
  }

  /** The whole checkpoint removes the oldest segment without changing the logical image. */
  lemma {:induction false} CheckpointDone(g: Geometry, d: Disk, v: Vol, segs: seq<Segment>, super: Block)
    requires Inv(g, d, v, segs) && segs != [] && super.Data?
    ensures var o := CheckpointOp(g, d, v, super);
            && o.err == Ok && o.vol == DropFirst(g, v, segs[0])
            && Inv(g, Apply(d, o.writes), o.vol, segs[1..])
            && Logical(g, Apply(d, o.writes), segs[1..]) == Logical(g, d, segs)
  {
    hide CheckpointOp, Chain, Stored, SegmentOk, CheckpointControl, Increasing;
    CheckpointShape(g, d, v, segs, super);
    CheckpointStart(g, d, v, segs);
    var o := CheckpointOp(g, d, v, super);
    var first := o.writes[..1];
    assert o.writes == first + o.writes[1..];
    ApplyAppend(d, first, o.writes[1..]);
    CheckpointFinish(g, Apply(d, first), v, segs, super, o.vol, o.writes[1..]);
  }

  /** A crash after any number of the writes of a checkpoint leaves the same durable image. */
  lemma {:induction false} CheckpointCrash(g: Geometry, d: Disk, v: Vol, segs: seq<Segment>, super: Block, k: nat)
    requires Inv(g, d, v, segs) && segs != [] && super.Data?
    requires k <= |CheckpointOp(g, d, v, super).writes|
    ensures Durable(g, Apply(d, CheckpointOp(g, d, v, super).writes[..k]), Logical(g, d, segs), v.sequence)
  {
    hide CheckpointOp, Inv, Readable, CheckpointControl, Durable;
    InvReadable(g, d, v, segs);
    CheckpointDone(g, d, v, segs, super);
    var o := CheckpointOp(g, d, v, super);
    var e := Apply(d, o.writes[..k]);
    InvReadable(g, Apply(d, o.writes), o.vol, segs[1..]);
    assert o.vol.head == v.head;
    if k == 0 {
      DurableIntro(g, e, segs, v.head, v.sequence, Logical(g, d, segs));
    } else if k == |o.writes| {
      assert o.writes[..k] == o.writes;
      DurableIntro(g, e, segs[1..], o.vol.head, v.sequence, Logical(g, d, segs));
    } else {
      CheckpointInside(g, d, v, segs, super, k);
    }
  }

  lemma {:induction false} CheckpointInside(g: Geometry, d: Disk, v: Vol, segs: seq<Segment>, super: Block, k: nat)
    requires Inv(g, d, v, segs) && segs != [] && super.Data?
    requires 0 < k < |CheckpointOp(g, d, v, super).writes|
    requires segs[1..] == [] <==> CheckpointOp(g, d, v, super).vol.tail == v.head
    ensures Durable(g, Apply(d, CheckpointOp(g, d, v, super).writes[..k]), Logical(g, d, segs), v.sequence)
  {
    hide CheckpointOp, Inv, Readable, CheckpointControl, Durable, CheckpointPlan, Logical;
    CheckpointShape(g, d, v, segs, super);
    CheckpointStart(g, d, v, segs);
    var ws := CheckpointOp(g, d, v, super).writes;
    var first, rest := ws[..1], ws[1..];
    PlanShape(g, d, v, super, segs[0].updates, DropFirst(g, v, segs[0]));
    InvReadable(g, Apply(d, first), v, segs);
    SameHomeLogical(g, d, Apply(d, first), segs);
    CheckpointMiddle(g, Apply(d, first), segs, v.head, v.sequence, super, rest, k - 1);
    assert ws[..k] == first + rest[..k - 1];
    ApplyAppend(d, first, rest[..k - 1]);
  }

  lemma {:induction false} PlanShape(g: Geometry, d: Disk, v: Vol, super: Block, us: Log, w: Vol)
    requires v.tail < |d| && d[v.tail].Descriptor?
    ensures var ws := CheckpointPlan(g, d, v, super, us, w);
            && |ws| == |us| + (if w.tail == v.head then 3 else 2)
            && ws[..1] == [Write(g.journalBlock, CheckpointControl(g, CHECKPOINTING, v, d[v.tail], v.tail))]
            && us <= ws[1..]
            && (w.tail == v.head ==> ws[1..][|us|] == Write(g.superBlock, super))
  {
    hide CheckpointControl;
  }

  lemma {:induction false} SameHomeLogical(g: Geometry, d: Disk, e: Disk, segs: seq<Segment>)
    requires Home(g, e) == Home(g, d)
    ensures Logical(g, e, segs) == Logical(g, d, segs)
  {
  }

  /** A crash among the home writes of a checkpoint, and before the last control block. */
  lemma {:induction false} CheckpointMiddle(g: Geometry, d: Disk, segs: seq<Segment>, stop: nat, last: Seq64,
                                            super: Block, ws: Log, k: nat)
    requires Readable(g, d, segs, stop, last) && segs != [] && g.Wf() && super.Data?
    requires k < |ws| && segs[0].updates <= ws
    requires |ws| == |segs[0].updates| + 1 || (segs[1..] == [] && |ws| == |segs[0].updates| + 2)
    requires |ws| == |segs[0].updates| + 2 ==> ws[|segs[0].updates|] == Write(g.superBlock, super)
    ensures Durable(g, Apply(d, ws[..k]), Logical(g, d, segs), last)
  {
    hide Readable;
    var log := LogWrites(segs) + [Write(g.superBlock, super)];
    assert segs[1..] == [] ==> LogWrites(segs) == segs[0].updates + [];
    assert ws[..k] == log[..k];
    ReadableAfterHomeWrites(g, d, segs, stop, last, super, k);
    DurableIntro(g, Apply(d, ws[..k]), segs, stop, last, Logical(g, d, segs));
  }

  /** All the writes after the first one. */
  lemma {:induction false} CheckpointFinish(g: Geometry, d: Disk, v: Vol, segs: seq<Segment>, super: Block, w: Vol,
                                            rest: Log)
    requires Inv(g, d, v, segs) && segs != [] && super.Data?
    requires w == v.(tail := g.Next(v.tail + segs[0].Size()), tailSequence := segs[0].sequence,
                     checkpointSequence := segs[0].sequence)
    requires d[v.tail].Descriptor?
    requires var s := d[v.tail];
             rest == segs[0].updates + if w.tail == v.head then
               [Write(g.superBlock, super), Write(g.journalBlock, CheckpointControl(g, IDLE, w, s, v.tail))]
             else [Write(g.journalBlock, CheckpointControl(g, COMMITTED, w, s, v.tail))]
    ensures Inv(g, Apply(d, rest), w, segs[1..]) && Logical(g, Apply(d, rest), segs[1..]) == Logical(g, d, segs)
  {
    hide Stored, Increasing, SegmentOk, NoFuture, CheckpointControl;
    var u := segs[0].updates;
    var ws := rest[..|rest| - 1];
    var e := Apply(d, rest);
    FirstOutside(g, d, v, segs);
    NextInRing(g, v.tail, segs[0]);
    hide Chain;
    assert Outside(g, ws) by {
      assert forall i :: 0 <= i < |u| ==> ws[i] == u[i];
    }
    CheckpointLast(g, d, v, segs, w, d[v.tail], Apply(d, ws), e);
    DropOldest(g, d, v, segs, ws, w, e);
    DropImage(g, d, segs, ws, e);
  }

  lemma {:induction false} FirstOutside(g: Geometry, d: Disk, v: Vol, segs: seq<Segment>)
    requires Inv(g, d, v, segs) && segs != []
    ensures Outside(g, segs[0].updates) && v.tail + segs[0].Size() <= g.RingEnd() && g.InRing(v.tail)
  {
  }

  lemma {:induction false} CheckpointLast(g: Geometry, d: Disk, v: Vol, segs: seq<Segment>, w: Vol, s: Block, f: Disk,
                                          e: Disk)
    requires g.Wf() && |d| == |f| == |e| == g.blocksCount && s.Descriptor? && g.InRing(w.head) && g.InRing(w.tail)
    requires e == f[g.journalBlock := CheckpointControl(g, if w.tail == w.head then IDLE else COMMITTED, w, s, v.tail)]
    ensures ControlOk(g, e)
    ensures var c := e[g.journalBlock];
            c.ringHead == w.head && c.ringTail == w.tail && c.checkpointSequence == w.checkpointSequence
            && c.lastSequence == w.lastSequence && c.activeSequence == 0
            && c.state == if w.tail == w.head then IDLE else COMMITTED
    ensures Home(g, e) == Home(g, f)
  {
  }

  /** A drain ends with an empty ring and the logical image in the home blocks, and a crash between
      any two of its writes leaves that image durable. */
  lemma {:induction false} DrainSafe(g: Geometry, d: Disk, v: Vol, segs: seq<Segment>, super: Block, k: nat)
    requires Inv(g, d, v, segs) && super.Data?
    requires k <= |DrainOp(g, d, v, super).writes|
    ensures var o := DrainOp(g, d, v, super);
            && o.err == Ok && o.vol.tail == o.vol.head && o.vol.sequence == v.sequence
            && Inv(g, Apply(d, o.writes), o.vol, [])
            && Home(g, Apply(d, o.writes)) == Logical(g, d, segs)
            && Durable(g, Apply(d, o.writes[..k]), Logical(g, d, segs), v.sequence)
    decreases |segs|
  {
    hide *;
    InvReadable(g, d, v, segs);
    DrainIs(g, d, v, super);
    var o := DrainOp(g, d, v, super);
    if segs == [] {
      NothingLogged(g, d, segs, k);
      DurableIntro(g, Apply(d, o.writes[..k]), segs, v.head, v.sequence, Logical(g, d, segs));
    } else {
      var c := CheckpointOp(g, d, v, super);
      CheckpointDone(g, d, v, segs, super);
      DroppedSequence(g, v, segs[0]);
      var e := Apply(d, c.writes);
      var r := DrainOp(g, e, c.vol, super);
      DrainSafe(g, e, c.vol, segs[1..], super, if k <= |c.writes| then 0 else k - |c.writes|);
      ApplyAppend(d, c.writes, r.writes);
      if k <= |c.writes| {
        CheckpointCrash(g, d, v, segs, super, k);
        assert o.writes[..k] == c.writes[..k];
      } else {
        assert o.writes[..k] == c.writes + r.writes[..k - |c.writes|];
        ApplyAppend(d, c.writes, r.writes[..k - |c.writes|]);
      }
    }
  }

  /** One round of the drain. */
  lemma {:induction false} DrainIs(g: Geometry, d: Disk, v: Vol, super: Block)
    ensures v.tail == v.head ==> DrainOp(g, d, v, super) == Outcome(Ok, [], v)
    ensures var c := CheckpointOp(g, d, v, super);
            v.tail != v.head && c.err == Ok ==>
              var r := DrainOp(g, Apply(d, c.writes), c.vol, super);
              DrainOp(g, d, v, super) == r.(writes := c.writes + r.writes)
  {
    hide CheckpointOp;
  }

  lemma {:induction false} NothingLogged(g: Geometry, d: Disk, segs: seq<Segment>, k: nat)
    requires segs == [] && k == 0
    ensures var none: Log := []; Apply(d, none) == d && Apply(d, none[..k]) == d
    ensures Logical(g, d, segs) == Home(g, d)
  {
  }

  lemma {:induction false} DroppedSequence(g: Geometry, v: Vol, s: Segment)
    ensures DropFirst(g, v, s).sequence == v.sequence
  {
  }

  /** Over arbitrary contents: a checkpoint of distinct blocks goes through exactly when the oldest segment is one that
      record and commit would have stored there, younger than the last one checkpointed; one that does not leaves the
      fields as they were and writes nothing but the control block. */
  lemma {:induction false} CheckpointExactly(g: Geometry, d: Disk, v: Vol, super: Block)
    requires v.tail != v.head && g.journalBlock < v.tail
    ensures var o := CheckpointOp(g, d, v, super);
            && (o.err == Ok ==> v.tail < |d| && d[v.tail].Descriptor?)
            && (o.err == Ok && Distinct(d[v.tail].entries)
                <==> exists s :: Nameable(g, s) && Stored(g, d, v.tail, s) && s.sequence > v.checkpointSequence)
            && (o.err != Ok ==> o.vol == v && |o.writes| <= 1 && forall w :: w in o.writes ==> w.block == g.journalBlock)
  {
    CheckpointedExactly(g, d, v.tail, v.checkpointSequence);
    if CheckpointHeader(g, d, v.tail, v.checkpointSequence) == Ok {
      var s := d[v.tail];
      var w := Write(g.journalBlock, CheckpointControl(g, CHECKPOINTING, v, s, v.tail));
      ApplyOne(d, w);
      SamePayloads(g, d, Apply(d, [w]), s, d[s.commitBlock]);
    }
    hide PayloadsOk, Stored, Nameable, CheckpointControl, CopyWrites, CommitMatches, SealOk, Distinct;
  }

  /** The payloads of a segment behind the control block do not depend on that block. */
  lemma {:induction false} SamePayloads(g: Geometry, d: Disk, e: Disk, s: Block, c: Block)
    requires s.Descriptor? && c.Commit? && s.payloadStart + |s.entries| <= |d| == |e| && g.journalBlock < s.payloadStart
    requires forall b: nat :: b < |d| && b != g.journalBlock ==> e[b] == d[b]
    ensures PayloadsOk(g, e, s, c) <==> PayloadsOk(g, d, s, c)
  {
    hide Hash, Aggregate, EntryOk;
    assert e[s.payloadStart..s.payloadStart + |s.entries|] == d[s.payloadStart..s.payloadStart + |s.entries|];
    assert forall b :: s.payloadStart <= b < s.payloadStart + |s.entries| ==> e[b] == d[b];
  }

  /** The recovery flag in the superblock is taken back when the last segment leaves the log, and only behind its home
      writes: with all writes in front of that one done, the image is in the home blocks. */
  lemma {:induction false} FlagLast(g: Geometry, d: Disk, v: Vol, segs: seq<Segment>, super: Block)
    requires Inv(g, d, v, segs) && segs != [] && super.Data?
    ensures var ws, n := CheckpointOp(g, d, v, super).writes, |CheckpointOp(g, d, v, super).writes|;
            if |segs| == 1 then
              && n >= 2 && ws[n - 2] == Write(g.superBlock, super)
              && Home(g, Apply(d, ws[..n - 2])) == Logical(g, d, segs) && Apply(d, ws)[g.superBlock] == super
            else |ws| == |segs[0].updates| + 2
  {
    hide CheckpointOp, Inv, CheckpointControl, CheckpointPlan, Logical, LogWrites, Home;
    CheckpointShape(g, d, v, segs, super);
    CheckpointDone(g, d, v, segs, super);
    CheckpointStart(g, d, v, segs);
    var ws, n := CheckpointOp(g, d, v, super).writes, |CheckpointOp(g, d, v, super).writes|;
    InvReadable(g, d, v, segs);
    InvReadable(g, Apply(d, ws), DropFirst(g, v, segs[0]), segs[1..]);
    PlanShape(g, d, v, super, segs[0].updates, DropFirst(g, v, segs[0]));
    if |segs| == 1 {
      var first, us := ws[..1], segs[0].updates;
      assert ws[..n - 2] == first + us;
      ApplyAppend(d, first, us);
      HomeApply(g, Apply(d, first), us);
      OneSegment(g, d, segs);
      assert ws[n - 1].block == g.journalBlock by { PlanEnds(g, d, v, super, us, DropFirst(g, v, segs[0])); }
      SuperStays(g, d, v, segs, ws, super);
    }
  }

  lemma {:induction false} OneSegment(g: Geometry, d: Disk, segs: seq<Segment>)
    requires |segs| == 1
    ensures Logical(g, d, segs) == Overlay(Home(g, d), segs[0].updates)
  {
    assert LogWrites(segs) == segs[0].updates + LogWrites(segs[1..]) && LogWrites(segs[1..]) == [];
    assert segs[0].updates + [] == segs[0].updates;
  }

  lemma {:induction false} PlanEnds(g: Geometry, d: Disk, v: Vol, super: Block, us: Log, w: Vol)
    requires v.tail < |d| && d[v.tail].Descriptor?
    ensures var ws := CheckpointPlan(g, d, v, super, us, w); ws[|ws| - 1].block == g.journalBlock
  {
    hide CheckpointControl;
  }

  lemma {:induction false} SuperStays(g: Geometry, d: Disk, v: Vol, segs: seq<Segment>, ws: Log, super: Block)
    requires Inv(g, d, v, segs) && |ws| >= 2 && ws[|ws| - 2] == Write(g.superBlock, super)
    requires ws[|ws| - 1].block == g.journalBlock
    ensures Apply(d, ws)[g.superBlock] == super
  {
    assert ws[..|ws| - 1][..|ws| - 2] == ws[..|ws| - 2];
  }

  // ----- the end of replay

  /** A completed replay leaves an empty log, the image in the home blocks, and the last committed
      sequence number in memory. */
  lemma {:induction false} ReplayDone(g: Geometry, d: Disk, v: Vol, img: Image, last: Seq64, needsRecovery: bool,
                                      super: Block)
    requires Durable(g, d, img, last) && g.Wf() && super.Data?
    ensures var o := ReplayOp(g, d, v, needsRecovery, super);
            && o.err == Ok && o.vol.sequence == last
            && Inv(g, Apply(d, o.writes), o.vol, [])
            && Home(g, Apply(d, o.writes)) == img
            && o.vol.activeSequence == 0 && (v.homes == [] && v.error == Ok ==> o.vol.homes == [] && o.vol.error == Ok)
  {
    hide Durable, RecoverOp, ResetWrites;
    var o := ReplayOp(g, d, v, needsRecovery, super);
    RecoverDurable(g, d, img, last, needsRecovery);
    DurableControl(g, d, img, last, needsRecovery);
    var r := RecoverOp(g, d, needsRecovery);
    if r.discard {
      var homes := ReplayHomeWrites(g, d, needsRecovery, super);
      var reset := ResetWrites(g, last, d[g.journalBlock].ringHead);
      assert o.writes == homes + reset;
      ApplyAppend(d, homes, reset);
      ReplayRestart(g, d, img, last, needsRecovery, super, |homes|);
      assert homes[..|homes|] == homes;
      DurableControl(g, Apply(d, homes), img, last, needsRecovery);
      ResetDone(g, Apply(d, homes), last, d[g.journalBlock].ringHead, o.vol);
      ResetKeepsHome(g, Apply(d, homes), last, d[g.journalBlock].ringHead);
      OverlayHidden(g, Home(g, d), r.homeWrites, [Write(g.superBlock, super)]);
      HomeApply(g, d, r.homeWrites);
      HomeApply(g, d, homes);
    }
  }

  lemma {:induction false} DurableControl(g: Geometry, d: Disk, img: Image, last: Seq64, needsRecovery: bool)
    requires Durable(g, d, img, last)
    ensures |d| == g.blocksCount && ControlOk(g, d) && NoFuture(d, last)
    ensures !RecoverOp(g, d, needsRecovery).discard ==>
              d[g.journalBlock].state == IDLE && RecoverOp(g, d, needsRecovery).homeWrites == []
              && d[g.journalBlock].activeSequence == 0
              && d[g.journalBlock].checkpointSequence == d[g.journalBlock].lastSequence == last
  {
    hide Chain, Walk;
    RecoverDurable(g, d, img, last, needsRecovery);
  }

  lemma {:induction false} ResetDone(g: Geometry, d: Disk, last: Seq64, head: nat, v: Vol)
    requires g.Wf() && |d| == g.blocksCount && NoFuture(d, last) && g.InRing(head)
    requires v.sequence == v.lastSequence == v.checkpointSequence == last && v.head == v.tail == head
    ensures Inv(g, Apply(d, ResetWrites(g, last, head)), v, [])
  {
    var ws := ResetWrites(g, last, head);
    ApplyTail(d, ws);
    var e := Apply(d, ws);
    ControlBuilt(g, e, IDLE, last, 0, last, g.RingStart(), g.journalBlock + 2, g.journalBlocks - 3, g.RingEnd() - 1,
                 head, head);
  }

  lemma {:induction false} ResetKeepsHome(g: Geometry, d: Disk, last: Seq64, head: nat)
    requires g.Wf() && |d| == g.blocksCount
    ensures Home(g, Apply(d, ResetWrites(g, last, head))) == Home(g, d)
  {
    ApplyTail(d, ResetWrites(g, last, head));
  }

  /** A mount that finds the recovery flag set, or a log that is not idle, writes the superblock without the flag: behind
      the home writes, with the image in the home blocks, and in front of the reset. Any other mount writes nothing. */
  lemma {:induction false} ReplayMarks(g: Geometry, d: Disk, v: Vol, img: Image, last: Seq64, needsRecovery: bool,
                                       super: Block)
    requires Durable(g, d, img, last) && g.Wf() && super.Data?
    ensures |d| == g.blocksCount
    ensures var ws, n := ReplayOp(g, d, v, needsRecovery, super).writes, |ReplayOp(g, d, v, needsRecovery, super).writes|;
            if needsRecovery || (d[g.journalBlock].Control? && d[g.journalBlock].state != IDLE) then
              && n >= 4 && ws[n - 4] == Write(g.superBlock, super) && Home(g, Apply(d, ws[..n - 4])) == img
              && Apply(d, ws)[g.superBlock] == super
            else ws == []
  {
    hide Durable, RecoverOp, ResetWrites, Home;
    RecoverDurable(g, d, img, last, needsRecovery);
    DurableControl(g, d, img, last, needsRecovery);
    DiscardIs(g, d, needsRecovery);
    var r := RecoverOp(g, d, needsRecovery);
    if r.discard {
      var reset := ResetWrites(g, last, d[g.journalBlock].ringHead);
      var ws := ReplayOp(g, d, v, needsRecovery, super).writes;
      assert ws == r.homeWrites + [Write(g.superBlock, super)] + reset;
      assert ws[..|ws| - 4] == r.homeWrites;
      ApplyAppend(d, r.homeWrites + [Write(g.superBlock, super)], reset);
      assert (r.homeWrites + [Write(g.superBlock, super)])[..|r.homeWrites|] == r.homeWrites;
      ResetKeepsSuper(g, Apply(d, r.homeWrites + [Write(g.superBlock, super)]), last, d[g.journalBlock].ringHead);
    }
  }

  lemma {:induction false} DiscardIs(g: Geometry, d: Disk, needsRecovery: bool)
    requires RecoverOp(g, d, needsRecovery).err == Ok
    ensures g.journalBlock < |d| && d[g.journalBlock].Control?
    ensures RecoverOp(g, d, needsRecovery).discard <==> needsRecovery || d[g.journalBlock].state != IDLE
  {
    hide Walk;
  }

  lemma {:induction false} ResetKeepsSuper(g: Geometry, d: Disk, last: Seq64, head: nat)
    requires g.Wf() && |d| == g.blocksCount
    ensures Apply(d, ResetWrites(g, last, head))[g.superBlock] == d[g.superBlock]
  {
    ApplyTail(d, ResetWrites(g, last, head));
  }
}
