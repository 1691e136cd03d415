/** Runs that show what the ring's conditions exclude. */
module RingWitness {
  import opened Device
  import opened RingLayout
  import opened RingRecord
  import opened RingSpec
  import opened RingLog
  import opened RingCrash
  import opened RingCommit
  import opened RingCheckpoint
  import opened RingRuns
  import opened RingCorners

  /** A device of sixteen blocks: superblock 0, the journal with a ring of twelve blocks from block 2 on, and the home
      blocks 14 and 15. */
  function Small(fold: (nat, Block) -> nat): Geometry {
    Geometry(1, 13, 16, 0, fold)
  }

  /** As mkfs leaves it, with `a` and `b` in the home blocks. */
  function Fresh(fold: (nat, Block) -> nat, a: Block, b: Block): Disk {
    var g, z := Small(fold), Data([]);
    [z, MakeControl(g, IDLE, 0, 0, 0, 2, 3, 10, 13, 2, 2), z, z, z, z, z, z, z, z, z, z, z, z, a, b]
  }

  /** The fields after the mount. */
  const START := Vol(0, 0, 0, 0, 0, 2, 2, [], Ok)

  // ----- transactions of one or two home blocks

  /** What a transaction does when the placement is `p`, walkable or not. */
  lemma {:induction false} Committed(g: Geometry, s: State, homes: seq<nat>, cache: Disk, p: Placement)
    returns (seg: Segment)
    requires g.Wf() && |s.disk| == |cache| == g.blocksCount && s.vol.homes == [] && s.vol.error == Ok
    requires s.vol.activeSequence == 0
    requires s.vol.sequence < 0xFFFF_FFFF_FFFF_FFFF && forall b :: 0 <= b < |cache| ==> cache[b].Data?
    requires homes == [14] || homes == [14, 15]
    requires g.Capacity() >= 3 && g.blocksCount > 15 && g.superBlock == 0 && g.journalBlock + g.journalBlocks <= 14
    requires g.journalBlock > 0
    requires Allocate(g, s.vol.head, s.vol.tail, |homes| + 1) == Some(p)
    ensures var op := Transact(homes, cache);
            && OpOutcome(g, s, op)
               == Outcome(Ok, CommitWrites(g, MoveHead(s.vol, p), seg, p.at),
                          Clear(MoveHead(s.vol, p)).(sequence := seg.sequence, lastSequence := seg.sequence))
            && (Walkable(g, s.vol.head, s.vol.tail, |homes| + 1) ==> Guard(g, s, op))
            && (forall img :: Effect(g, s, op, img) == Overlay(img, seg.updates))
    ensures seg.sequence == s.vol.sequence + 1 && |seg.updates| == |homes| + 1 && Placed(g, s.vol, seg, p)
    ensures forall i :: 0 <= i < |homes| ==> seg.updates[i] == Write(homes[i], cache[homes[i]])
  {
    hide *;
    RecordedTwo(g, s.vol, homes);
    TwoHomes(g, homes);
    var v := Open(g, s.vol, homes);
    var v1 := v.(homes := homes + [0]);
    OpIs(g, s, homes, cache);
    LoggedTwo(g, homes);
    CommitGoes(g, v, cache, p);
    seg := CachedSegment(v1.activeSequence, v1.homes, cache);
    SegmentIs(g, s.vol, v1, cache, p);
    MovedIs(g, s.vol, v1, seg, p);
    EffectIs(g, s, homes, cache, v1);
    FirstUpdates(v1.activeSequence, homes, cache);
  }

  /** A commit of what was recorded, with a placement. */
  lemma {:induction false} CommitGoes(g: Geometry, v: Vol, cache: Disk, p: Placement)
    requires |cache| == g.blocksCount && (forall h :: h in v.homes ==> h < g.blocksCount) && v.error == Ok
    requires var v1 := RecordOp(g, v, g.superBlock).1;
             && v1.error == Ok && (forall h :: h in v1.homes ==> h < |cache|)
                && Allocate(g, v1.head, v1.tail, |v1.homes|) == Some(p)
    ensures var v1 := RecordOp(g, v, g.superBlock).1;
            var s := CachedSegment(v1.activeSequence, v1.homes, cache);
            var v2 := v1.(head := p.nextHead, tail := if v1.tail == v1.head then p.at else v1.tail);
            CommitOp(g, v, cache) == Outcome(Ok, CommitWrites(g, v2, s, p.at),
                                             Clear(v2).(sequence := s.sequence, lastSequence := s.sequence))
  {
    hide CommitWrites, Allocate, RecordOp;
  }

  lemma {:induction false} OpIs(g: Geometry, s: State, homes: seq<nat>, cache: Disk)
    requires |s.disk| == |cache| == g.blocksCount && s.vol.homes == [] && BeginOp(g, s.vol).0 == Ok
    requires (forall b :: 0 <= b < |cache| ==> cache[b].Data?) && s.vol.sequence < 0xFFFF_FFFF_FFFF_FFFF
    ensures forall h :: h in Open(g, s.vol, homes).homes ==> h < g.blocksCount
    ensures OpOutcome(g, s, Transact(homes, cache)) == CommitOp(g, Open(g, s.vol, homes), cache)
    ensures Walkable(g, s.vol.head, s.vol.tail, |Logged(g, homes)|)
            ==> Guard(g, s, Transact(homes, cache))
  {
    RecordAllKeeps(g, BeginOp(g, s.vol).1, homes);
    hide CommitOp, RecordAll, RecordOp, Walkable;
  }

  lemma {:induction false} TwoHomes(g: Geometry, homes: seq<nat>)
    requires g.Wf() && (homes == [14] || homes == [14, 15])
    requires g.Capacity() >= 3 && g.blocksCount > 15 && g.superBlock == 0 && g.journalBlock + g.journalBlocks <= 14
    requires g.journalBlock > 0
    ensures Recorded(g, homes + [0]) && 0 in homes + [0] && forall h :: h in homes + [0] ==> h < g.blocksCount
  {
    assert (homes + [0])[|homes|] == 0;
  }

  lemma {:induction false} LoggedTwo(g: Geometry, homes: seq<nat>)
    requires (homes == [14] || homes == [14, 15]) && g.superBlock == 0
    ensures Members(homes + [0]) == Logged(g, homes) && |Logged(g, homes)| == |homes| + 1
  {
    MembersCount(homes + [0]);
    assert Members(homes + [0]) == Logged(g, homes);
  }

  lemma {:induction false} FirstUpdates(sequence: Seq64, homes: seq<nat>, cache: Disk)
    requires forall h :: h in homes + [0] ==> h < |cache|
    ensures var seg := CachedSegment(sequence, homes + [0], cache);
            forall i :: 0 <= i < |homes| ==> homes[i] < |cache| && seg.updates[i] == Write(homes[i], cache[homes[i]])
  {
    forall i | 0 <= i < |homes| ensures homes[i] < |cache| {
      assert (homes + [0])[i] == homes[i];
      assert homes[i] in homes + [0];
    }
  }

  lemma {:induction false} RecordedTwo(g: Geometry, v: Vol, homes: seq<nat>)
    requires g.Wf() && v.homes == [] && v.error == Ok && v.activeSequence == 0 && v.sequence < 0xFFFF_FFFF_FFFF_FFFF
    requires homes == [14] || homes == [14, 15]
    requires g.Capacity() >= 3 && g.blocksCount > 15 && g.superBlock == 0 && g.journalBlock + g.journalBlocks <= 14
    requires g.journalBlock > 0
    ensures BeginOp(g, v).0 == Ok
    ensures var w := Open(g, v, homes);
            && w == v.(homes := homes, activeSequence := v.sequence + 1)
            && RecordOp(g, w, 0).1 == w.(homes := homes + [0])
  {
    var w := BeginOp(g, v).1;
    assert RecordAll(g, w, []) == w;
    assert [14][..0] == [] && [14, 15][..1] == [14];
    assert RecordAll(g, w, [14]) == w.(homes := [14]);
  }

  /** The state after a transaction that was committed. */
  function Next(g: Geometry, s: State, op: Op): State
    requires |s.disk| == g.blocksCount && s.vol.homes == []
    requires op.Transact? ==> |op.cache| == g.blocksCount
  {
    State(Apply(s.disk, OpOutcome(g, s, op).writes), OpOutcome(g, s, op).vol)
  }

  ghost predicate Ready(g: Geometry, s: State, segs: seq<Segment>) {
    Inv(g, s.disk, s.vol, segs) && s.vol.homes == [] && s.vol.error == Ok && s.vol.activeSequence == 0
  }

  lemma {:induction false} ReadyParts(g: Geometry, s: State, segs: seq<Segment>)
    requires Ready(g, s, segs)
    ensures |s.disk| == g.blocksCount && Inv(g, s.disk, s.vol, segs) && s.vol.homes == [] && s.vol.error == Ok
    ensures s.vol.activeSequence == 0
    ensures g.InRing(s.vol.head) && g.InRing(s.vol.tail) && g.Wf()
  {
  }

  /** The devices these runs are about. */
  ghost predicate Fits(g: Geometry) {
    && g.Wf() && g.Capacity() >= 3 && g.blocksCount > 15 && g.superBlock == 0
    && g.journalBlock > 0 && g.journalBlock + g.journalBlocks <= 14
  }

  predicate AllData(g: Geometry, cache: Disk) {
    |cache| == g.blocksCount && forall b :: 0 <= b < |cache| ==> cache[b].Data?
  }

  /** A walkable transaction adds its segment to the log. */
  lemma {:induction false} CommitStep(g: Geometry, s: State, segs: seq<Segment>, homes: seq<nat>, cache: Disk,
                                      p: Placement)
    returns (seg: Segment)
    requires Fits(g) && Ready(g, s, segs) && AllData(g, cache) && s.vol.sequence < 0xFFFF_FFFF_FFFF_FFFF
    requires homes == [14] || homes == [14, 15]
    requires Allocate(g, s.vol.head, s.vol.tail, |homes| + 1) == Some(p)
    requires Walkable(g, s.vol.head, s.vol.tail, |homes| + 1)
    ensures |s.disk| == g.blocksCount && Guard(g, s, Transact(homes, cache))
    ensures var t := Next(g, s, Transact(homes, cache));
            && Ready(g, t, segs + [seg]) && Logical(g, t.disk, segs + [seg]) == Overlay(Logical(g, s.disk, segs), seg.updates)
            && t.vol == Clear(MoveHead(s.vol, p)).(sequence := seg.sequence, lastSequence := seg.sequence)
            && Home(g, t.disk) == Home(g, s.disk)
    ensures seg.sequence == s.vol.sequence + 1 && |seg.updates| == |homes| + 1 && seg.updates[0] == Write(14, cache[14])
    ensures forall i :: 0 < i < |seg.updates| ==> seg.updates[i].block != 14
  {
    hide *;
    ReadyParts(g, s, segs);
    FitsParts(g, cache);
    seg := Committed(g, s, homes, cache, p);
    PlacedParts(g, s.vol, seg, p);
    var n, ws := |seg.updates|, CommitWrites(g, MoveHead(s.vol, p), seg, p.at);
    CommitCrash(g, s.disk, s.vol, segs, seg, p, n + 4);
    CommitKeepsHome(g, s.disk, MoveHead(s.vol, p), seg, p.at, n + 4);
    assert |ws| == n + 4 && ws[..n + 4] == ws;
    var t := Next(g, s, Transact(homes, cache));
    assert t == State(Apply(s.disk, ws),
                      Clear(MoveHead(s.vol, p)).(sequence := seg.sequence, lastSequence := seg.sequence)) by {
      NextIs(g, s, Transact(homes, cache));
    }
    ReadyAgain(g, t, MoveHead(s.vol, p), seg.sequence, segs + [seg]);
  }

  lemma {:induction false} NextIs(g: Geometry, s: State, op: Op)
    requires |s.disk| == g.blocksCount && s.vol.homes == [] && (op.Transact? ==> |op.cache| == g.blocksCount)
    ensures Next(g, s, op) == State(Apply(s.disk, OpOutcome(g, s, op).writes), OpOutcome(g, s, op).vol)
  {
  }

  lemma {:induction false} ReadyAgain(g: Geometry, t: State, v: Vol, last: Seq64, segs: seq<Segment>)
    requires Inv(g, t.disk, v.(sequence := last, lastSequence := last), segs)
    requires t.vol == Clear(v).(sequence := last, lastSequence := last)
    ensures Ready(g, t, segs)
  {
    VolOnly(g, t.disk, v.(sequence := last, lastSequence := last), t.vol, segs);
    hide Inv;
  }

  lemma {:induction false} FitsParts(g: Geometry, cache: Disk)
    requires Fits(g) && AllData(g, cache)
    ensures g.Wf() && g.Capacity() >= 3 && g.blocksCount > 15 && g.superBlock == 0
    ensures g.journalBlock > 0 && g.journalBlock + g.journalBlocks <= 14
    ensures |cache| == g.blocksCount && forall b :: 0 <= b < |cache| ==> cache[b].Data?
  {
  }

  lemma {:induction false} PlacedParts(g: Geometry, v: Vol, seg: Segment, p: Placement)
    requires Placed(g, v, seg, p) && g.Wf() && g.InRing(v.head) && g.InRing(v.tail)
    ensures g.RingStart() <= p.at && p.at + seg.Size() <= g.RingEnd()
    ensures seg.updates != [] ==> forall i :: 0 < i < |seg.updates| ==> seg.updates[i].block != seg.updates[0].block
  {
    AllocateSafe(g, v.head, v.tail, |seg.updates|);
  }

  /** A commit that is not walkable still succeeds. */
  lemma {:induction false} BadStep(g: Geometry, s: State, segs: seq<Segment>, cache: Disk, p: Placement)
    returns (seg: Segment)
    requires Fits(g) && Ready(g, s, segs) && AllData(g, cache) && s.vol.sequence < 0xFFFF_FFFF_FFFF_FFFF
    requires Allocate(g, s.vol.head, s.vol.tail, 2) == Some(p)
    ensures |s.disk| == g.blocksCount
    ensures OpOutcome(g, s, Transact([14], cache)).err == Ok
    ensures Next(g, s, Transact([14], cache)).disk == CommitDisk(g, s.disk, s.vol, seg, p) && Placed(g, s.vol, seg, p)
    ensures seg.sequence == s.vol.sequence + 1 && seg.updates != []
    ensures Home(g, Next(g, s, Transact([14], cache)).disk) == Home(g, s.disk)
  {
    hide *;
    ReadyParts(g, s, segs);
    FitsParts(g, cache);
    seg := Committed(g, s, [14], cache, p);
    PlacedParts(g, s.vol, seg, p);
    NextIs(g, s, Transact([14], cache));
    CommitDiskIs(g, s.disk, s.vol, seg, p);
    var n, ws := |seg.updates|, CommitWrites(g, MoveHead(s.vol, p), seg, p.at);
    CommitKeepsHome(g, s.disk, MoveHead(s.vol, p), seg, p.at, n + 4);
    assert |ws| == n + 4 && ws[..n + 4] == ws;
  }

  lemma {:induction false} CommitDiskIs(g: Geometry, d: Disk, v: Vol, seg: Segment, p: Placement)
    ensures CommitDisk(g, d, v, seg, p) == Apply(d, CommitWrites(g, MoveHead(v, p), seg, p.at))
  {
  }

  /** One operation in front of a run. */
  lemma {:induction false} RunStep(g: Geometry, s: State, op: Op, run: seq<Event>, img: Image)
    requires g.journalBlocks >= 1 && |s.disk| == g.blocksCount && s.vol.homes == []
    requires (op.Transact? ==> |op.cache| == g.blocksCount) && Guard(g, s, op) && Next(g, s, op).vol.homes == []
    requires Guarded(g, Next(g, s, op), run)
    ensures Guarded(g, s, [Completed(op)] + run)
    ensures After(g, s, [Completed(op)] + run, img)
            == After(g, Next(g, s, op), run, NextImage(g, s, Completed(op), img))
  {
    hide OpOutcome, Guard, NextImage;
    var all := [Completed(op)] + run;
    assert all[0] == Completed(op) && all[1..] == run;
    assert Step(g, s, all[0]) == (Next(g, s, op), Ok);
  }

  /** Two transactions on a new device. */
  lemma {:induction false} TwoCommits(fold: (nat, Block) -> nat, a: Block, b: Block, homes: seq<nat>, c1: Disk,
                                      c2: Disk)
    returns (t: State, seg1: Segment, seg2: Segment)
    requires a.Data? && b.Data? && AllData(Small(fold), c1) && AllData(Small(fold), c2)
    requires (homes == [14] || homes == [14, 15])
    ensures var g, s, end := Small(fold), State(Fresh(fold, a, b), START), 5 + |homes|;
            && Fits(g) && Guard(g, s, Transact(homes, c1)) && Next(g, s, Transact(homes, c1)).vol.homes == []
            && Guard(g, Next(g, s, Transact(homes, c1)), Transact([14], c2))
            && t == Next(g, Next(g, s, Transact(homes, c1)), Transact([14], c2))
            && Ready(g, t, [seg1, seg2]) && |t.disk| == g.blocksCount && |seg1.updates| == |homes| + 1
            && t.vol.head == end + 4 && t.vol.tail == 2 && t.vol.sequence == 2 && t.disk[14] == a
            && Logical(g, t.disk, [seg1, seg2]) == Overlay(Overlay(Home(g, s.disk), seg1.updates), seg2.updates)
            && seg2.updates != [] && seg2.updates[0] == Write(14, c2[14])
            && forall i :: 0 < i < |seg2.updates| ==> seg2.updates[i].block != 14
  {
    hide *;
    var g, s := Small(fold), State(Fresh(fold, a, b), START);
    var end := 5 + |homes|;
    SmallFits(fold);
    FreshReady(fold, a, b);
    FitsParts(g, c1);
    FitsParts(g, c2);
    ReadyParts(g, s, []);
    FirstPlaces(fold, end);
    seg1 := CommitStep(g, s, [], homes, c1, Placement(2, end));
    var s1 := Next(g, s, Transact(homes, c1));
    assert [] + [seg1] == [seg1];
    ReadyParts(g, s1, [seg1]);
    Moved(s.vol, Placement(2, end), seg1.sequence);
    seg2 := CommitStep(g, s1, [seg1], [14], c2, Placement(end, end + 4));
    assert [seg1] + [seg2] == [seg1, seg2];
    t := Next(g, s1, Transact([14], c2));
    Moved(s1.vol, Placement(end, end + 4), seg2.sequence);
    ReadyParts(g, t, [seg1, seg2]);
    HomeAt(g, t.disk, s.disk, 14);
  }

  /** Where the allocator puts the first two segments. */
  lemma {:induction false} FirstPlaces(fold: (nat, Block) -> nat, end: nat)
    requires 6 <= end <= 7
    ensures var g := Small(fold);
            && Allocate(g, 2, 2, end - 4) == Some(Placement(2, end)) && Walkable(g, 2, 2, end - 4)
            && Allocate(g, end, 2, 2) == Some(Placement(end, end + 4)) && Walkable(g, end, 2, 2)
  {
  }

  lemma {:induction false} Moved(v: Vol, p: Placement, sequence: Seq64)
    ensures var w := Clear(MoveHead(v, p)).(sequence := sequence, lastSequence := sequence);
            w.head == p.nextHead && w.tail == (if v.head == v.tail then p.at else v.tail) && w.sequence == sequence
  {
  }

  /** Three transactions fill the ring exactly. The third commit succeeds, and if the machine stops behind it, the next
      mount succeeds, finds nothing to replay, and leaves the block as it was before all three. */
  lemma {:induction false} ExactFitRun(fold: (nat, Block) -> nat, a: Block, b: Block, c1: Disk, c2: Disk, c3: Disk)
    requires a.Data? && b.Data? && AllData(Small(fold), c1) && AllData(Small(fold), c2) && AllData(Small(fold), c3)
    ensures var g, s := Small(fold), State(Fresh(fold, a, b), START);
            var run := [Completed(Transact([14], c1)), Completed(Transact([14], c2))];
            && Guarded(g, s, run)
            && var t := After(g, s, run, Home(g, s.disk)).0;
               |t.disk| == g.blocksCount && t.vol.homes == []
               && var o := OpOutcome(g, t, Transact([14], c3));
                  && o.err == Ok && !Guard(g, t, Transact([14], c3))
                  && var e := Apply(t.disk, o.writes);
                     RecoverOp(g, e, false) == Recovery(Ok, [], 3, true) && e[14] == a
  {
    hide *;
    var g, s := Small(fold), State(Fresh(fold, a, b), START);
    var op1, op2, op3 := Transact([14], c1), Transact([14], c2), Transact([14], c3);
    SmallFits(fold);
    FreshReady(fold, a, b);
    FitsParts(g, c1);
    FitsParts(g, c2);
    FitsParts(g, c3);
    var t, seg1, seg2 := TwoCommits(fold, a, b, [14], c1, c2);
    ReadyParts(g, t, [seg1, seg2]);
    NoEvents(g, t);
    NextIs(g, s, op1);
    RunStep(g, Next(g, s, op1), op2, [], NextImage(g, s, Completed(op1), Home(g, s.disk)));
    RunStep(g, s, op1, [Completed(op2)] + [], Home(g, s.disk));
    assert [Completed(op1)] + ([Completed(op2)] + []) == [Completed(op1), Completed(op2)];
    var p := Placement(10, 2);
    SmallPlaces(fold);
    NextIs(g, t, op3);
    var seg3 := BadStep(g, t, [seg1, seg2], c3, p);
    ExactFitLosesLog(g, t.disk, t.vol, [seg1, seg2], seg3, p, false);
    BadGuard(g, t, c3);
    HomeAt(g, Next(g, t, op3).disk, t.disk, 14);
  }

  lemma {:induction false} SmallFits(fold: (nat, Block) -> nat)
    ensures var g := Small(fold); Fits(g) && g.journalBlocks == 13 && g.blocksCount == 16 && g.IsHome(14)
    ensures START.head == START.tail == 2 && START.sequence == 0 && START.homes == []
  {
  }

  /** Where the allocator puts a segment of four blocks at the end of the ring. */
  lemma {:induction false} SmallPlaces(fold: (nat, Block) -> nat)
    ensures var g := Small(fold);
            && Allocate(g, 10, 2, 2) == Some(Placement(10, 2)) && !Walkable(g, 10, 2, 2)
            && Allocate(g, 11, 7, 2) == Some(Placement(2, 6)) && !Walkable(g, 11, 7, 2)
  {
  }

  /** Two transactions, a checkpoint of the first, and a third one that goes to the start of the ring. The third commit
      succeeds, and if the machine stops behind it, replay writes the content of the second one back. */
  lemma {:induction false} GapRun(fold: (nat, Block) -> nat, a: Block, b: Block, c1: Disk, c2: Disk, c3: Disk,
                                  super: Block)
    requires a.Data? && b.Data? && super.Data?
    requires AllData(Small(fold), c1) && AllData(Small(fold), c2) && AllData(Small(fold), c3)
    ensures var g, s := Small(fold), State(Fresh(fold, a, b), START);
            var run := [Completed(Transact([14, 15], c1)), Completed(Transact([14], c2)), Completed(CheckpointOne(super))];
            && Guarded(g, s, run)
            && var t := After(g, s, run, Home(g, s.disk)).0;
               |t.disk| == g.blocksCount && t.vol.homes == []
               && var o := OpOutcome(g, t, Transact([14], c3));
                  && o.err == Ok && !Guard(g, t, Transact([14], c3))
                  && var e := Apply(t.disk, o.writes);
                     Apply(e, RecoverOp(g, e, false).homeWrites)[14] == c2[14]
  {
    hide *;
    var g, s := Small(fold), State(Fresh(fold, a, b), START);
    var op1, op2, op3 := Transact([14, 15], c1), Transact([14], c2), CheckpointOne(super);
    SmallFits(fold);
    FreshReady(fold, a, b);
    FitsParts(g, c1);
    FitsParts(g, c2);
    FitsParts(g, c3);
    var t2, seg1, seg2 := TwoCommits(fold, a, b, [14, 15], c1, c2);
    ReadyParts(g, t2, [seg1, seg2]);
    var t := Drained(g, t2, seg1, seg2, super);
    ReadyParts(g, t, [seg2]);
    NoEvents(g, t);
    NextIs(g, s, op1);
    var img := Home(g, s.disk);
    var img1 := NextImage(g, s, Completed(op1), img);
    var img2 := NextImage(g, Next(g, s, op1), Completed(op2), img1);
    RunStep(g, t2, op3, [], img2);
    RunStep(g, Next(g, s, op1), op2, [Completed(op3)] + [], img1);
    RunStep(g, s, op1, [Completed(op2)] + ([Completed(op3)] + []), img);
    assert [Completed(op1)] + ([Completed(op2)] + ([Completed(op3)] + [])) == [Completed(op1), Completed(op2), Completed(op3)];
    var p := Placement(2, 6);
    SmallPlaces(fold);
    NextIs(g, t, Transact([14], c3));
    assert t.vol.head == 11 && t.vol.tail == 7 && t.vol.sequence == 2 by { DroppedTail(fold, t2.vol, seg1); }
    var seg3 := BadStep(g, t, [seg2], c3, p);
    GapLosesTransaction(g, t.disk, t.vol, [seg2], seg3, p, false);
    BadGuard(g, t, c3);
    FirstUpdate(Next(g, t, Transact([14], c3)).disk, seg2, c2[14]);
  }

  lemma {:induction false} DroppedTail(fold: (nat, Block) -> nat, v: Vol, seg: Segment)
    requires v.tail == 2 && v.head == 11 && |seg.updates| == 3
    ensures var w := DropFirst(Small(fold), v, seg); w.tail == 7 && w.head == 11 && w.sequence == v.sequence
  {
  }

  /** The checkpoint of the first of two transactions. */
  lemma {:induction false} Drained(g: Geometry, s: State, seg1: Segment, seg2: Segment, super: Block) returns (t: State)
    requires Ready(g, s, [seg1, seg2]) && super.Data?
    ensures |s.disk| == g.blocksCount && Guard(g, s, CheckpointOne(super)) && t == Next(g, s, CheckpointOne(super))
    ensures Ready(g, t, [seg2]) && t.vol == DropFirst(g, s.vol, seg1)
  {
    hide CheckpointOp, Chain, Increasing, ControlOk, NoFuture, Logical;
    CheckpointDone(g, s.disk, s.vol, [seg1, seg2], super);
    assert [seg1, seg2][1..] == [seg2];
    t := Next(g, s, CheckpointOne(super));
  }

  lemma {:induction false} FirstUpdate(d: Disk, seg: Segment, value: Block)
    requires 14 < |d| && seg.updates != [] && seg.updates[0] == Write(14, value)
    requires forall i :: 0 < i < |seg.updates| ==> seg.updates[i].block != 14
    ensures Apply(d, LogWrites([seg]))[14] == value
  {
    assert LogWrites([seg]) == seg.updates by { assert [seg][1..] == []; }
    ApplyAt(d, seg.updates, 14);
    LastWriteHit(seg.updates, 14);
  }

  /** One transaction, a stop, and a second stop while the mount empties the log: the third mount reports corruption. */
  lemma {:induction false} ResetRun(fold: (nat, Block) -> nat, a: Block, b: Block, c1: Disk, super: Block,
                                    needsRecovery: bool, again: bool)
    requires a.Data? && b.Data? && super.Data? && AllData(Small(fold), c1)
    ensures var g, s := Small(fold), State(Fresh(fold, a, b), START);
            && Guard(g, s, Transact([14], c1)) && |s.disk| == g.blocksCount
            && var d := Next(g, s, Transact([14], c1)).disk;
               && RecoverOp(g, d, needsRecovery).err == Ok
               && RecoverOp(g, ResetTornDisk(g, d, needsRecovery, super, 1), again).err == Euclean
  {
    var g, s := Small(fold), State(Fresh(fold, a, b), START);
    FreshReady(fold, a, b);
    hide OpOutcome, Guard, Logical, Overlay, RecoverOp, CommitDisk, Fresh, Home, Fits, AllData;
    var seg := CommitStep(g, s, [], [14], c1, Placement(2, 6));
    var t := Next(g, s, Transact([14], c1));
    assert [] + [seg] == [seg];
    LiveStart(g, t, seg);
    hide Inv, ResetTornDisk, Readable;
    InvReadable(g, t.disk, t.vol, [seg]);
    RecoverReadable(g, t.disk, [seg], 6, 1, needsRecovery);
    ResetCrashExactly(g, t.disk, [seg], 6, 1, needsRecovery, super, again);
  }

  lemma {:induction false} LiveStart(g: Geometry, t: State, seg: Segment)
    requires Ready(g, t, [seg]) && t.vol.tail == g.RingStart() < t.vol.head
    ensures g.journalBlock < |t.disk| && var c := t.disk[g.journalBlock];
            c.Control? && c.state != IDLE && Live(g, c.ringTail, c.ringHead, g.RingStart())
  {
  }

  lemma {:induction false} NoEvents(g: Geometry, s: State)
    requires g.journalBlocks >= 1 && |s.disk| == g.blocksCount && s.vol.homes == []
    ensures Guarded(g, s, []) && forall img :: After(g, s, [], img) == (s, img, Ok)
  {
  }

  lemma {:induction false} HomeAt(g: Geometry, d: Disk, e: Disk, b: nat)
    requires |d| == |e| && b < |d| && g.IsHome(b) && Home(g, d) == Home(g, e)
    ensures d[b] == e[b]
  {
    assert Home(g, d)[b] == d[b] && Home(g, e)[b] == e[b];
  }

  lemma {:induction false} BadGuard(g: Geometry, s: State, cache: Disk)
    requires Fits(g) && |s.disk| == g.blocksCount && s.vol.homes == [] && s.vol.error == Ok && s.vol.activeSequence == 0
    requires AllData(g, cache) && OpOutcome(g, s, Transact([14], cache)).err == Ok
    requires s.vol.sequence < 0xFFFF_FFFF_FFFF_FFFF
    requires !Walkable(g, s.vol.head, s.vol.tail, 2)
    ensures !Guard(g, s, Transact([14], cache))
  {
    hide OpOutcome, Walkable;
    RecordedTwo(g, s.vol, [14]);
    LoggedTwo(g, [14]);
  }

  lemma {:induction false} FreshReady(fold: (nat, Block) -> nat, a: Block, b: Block)
    requires a.Data? && b.Data?
    ensures var g, d := Small(fold), Fresh(fold, a, b);
            Fits(g) && Ready(g, State(d, START), []) && |d| == g.blocksCount && d[14] == a && Logical(g, d, []) == Home(g, d)
  {
    hide Hash;
  }
}
