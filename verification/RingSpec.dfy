/** What each ring operation decides and writes. */
module RingSpec {
  import opened Device
  import opened RingLayout

  type Disk = seq<Block>
  type Log = seq<Write<Block>>

  /** The `sbi->journal_*` fields; a crash loses them. */
  datatype Vol = Vol(sequence: Seq64, lastSequence: Seq64, activeSequence: Seq64, tailSequence: Seq64,
                     checkpointSequence: Seq64, head: nat, tail: nat, homes: seq<nat>, error: Errno)

  datatype Outcome = Outcome(err: Errno, writes: Log, vol: Vol)

  function Clear(v: Vol): Vol {
    v.(homes := [], error := Ok, activeSequence := 0)
  }

  // ----- begin and record

  function BeginOp(g: Geometry, v: Vol): (Errno, Vol) {
    if v.activeSequence != 0 then (if v.error != Ok then v.error else Euclean, v)
    else if g.Capacity() == 0 then (Eopnotsupp, v)
    else (Ok, Clear(v).(activeSequence := (v.sequence + 1) % 0x1_0000_0000_0000_0000))
  }

  function RecordOp(g: Geometry, v: Vol, home: nat): (Errno, Vol) {
    if v.activeSequence == 0 then (Einval, v)
    else if v.error != Ok then (v.error, v)
    else if home >= g.blocksCount || g.Internal(home) then (Einval, v.(error := Einval))
    else if home in v.homes then (Ok, v)
    else if |v.homes| >= g.Capacity() then (Enospc, v.(error := Enospc))
    else (Ok, v.(homes := v.homes + [home]))
  }

  // ----- commit

  /** The segment a commit logs: the recorded blocks with the contents the buffer cache holds. */
  function CachedSegment(sequence: Seq64, homes: seq<nat>, cache: Disk): (s: Segment)
    requires forall h :: h in homes ==> h < |cache|
    ensures |s.updates| == |homes|
  {
    Segment(sequence, seq(|homes|, i requires 0 <= i < |homes| => assert homes[i] in homes; Write(homes[i], cache[homes[i]])))
  }

  /** Payload writes of a segment placed at `at`. */
  function PayloadWrites(s: Segment, at: nat): (ws: Log)
    ensures |ws| == |s.updates|
  {
    seq(|s.updates|, i requires 0 <= i < |s.updates| => Write(at + 1 + i, s.updates[i].value))
  }

  function CommitControl(g: Geometry, state: nat, last: Seq64, active: Seq64, v: Vol, s: Segment, at: nat): Block {
    MakeControl(g, state, last, active, v.checkpointSequence, at, at + 1, |s.updates|, s.CommitAt(at), v.head, v.tail)
  }

  /** The five write steps of a ring commit. `v` already carries the new head and tail. */
  function CommitWrites(g: Geometry, v: Vol, s: Segment, at: nat): (ws: Log)
    ensures |ws| == |s.updates| + 4
  {
    PayloadWrites(s, at)
    + [Write(at, MakeDescriptor(g, s, at)),
       Write(g.journalBlock, CommitControl(g, PREPARED, v.sequence, s.sequence, v, s, at)),
       Write(s.CommitAt(at), MakeCommit(g, s, at)),
       Write(g.journalBlock, CommitControl(g, COMMITTED, s.sequence, 0, v, s, at))]
  }

  function CommitOp(g: Geometry, v: Vol, cache: Disk): Outcome
    requires |cache| == g.blocksCount
    requires forall h :: h in v.homes ==> h < g.blocksCount
  {
    if v.error != Ok then Outcome(v.error, [], Clear(v))
    else
      var v1 := RecordOp(g, v, g.superBlock).1;
      if v1.error != Ok then Outcome(v1.error, [], Clear(v1))
      else
        match Allocate(g, v1.head, v1.tail, |v1.homes|)
        case None => Outcome(Enospc, [], Clear(v1))
        case Some(p) =>
          var s := CachedSegment(v1.activeSequence, v1.homes, cache);
          var v2 := v1.(head := p.nextHead, tail := if v1.tail == v1.head then p.at else v1.tail);
          Outcome(Ok, CommitWrites(g, v2, s, p.at), Clear(v2).(sequence := s.sequence, lastSequence := s.sequence))
  }

  // ----- reading a segment back

  /** Checks on the descriptor at `at` that the checkpointer and replay share. */
  function DescriptorCheck(g: Geometry, d: Disk, at: nat, after: Seq64): Errno {
    if at >= |d| then Eio
    else if !d[at].Descriptor? then Euclean
    else if !SealOk(g, d[at]) then Euclean
    else
      var s := d[at];
      if |s.entries| > g.Capacity() || s.payloadStart != at + 1
         || s.commitBlock != s.payloadStart + |s.entries| || s.sequence <= after then Euclean
      else if s.commitBlock >= |d| then Eio
      else Ok
  }

  /** The commit record names exactly this descriptor. */
  predicate CommitMatches(g: Geometry, c: Block, s: Block, at: nat)
    requires s.Descriptor?
  {
    c.Commit? && c.descriptorBlock == at && c.entryCount == |s.entries| && c.sequence == s.sequence && SealOk(g, c)
  }

  predicate EntryOk(g: Geometry, e: Entry) {
    e.home < g.blocksCount && !g.Internal(e.home) && e.flags == 0
  }

  /** The payloads are the ones the descriptor and the commit record were written for. */
  predicate PayloadsOk(g: Geometry, d: Disk, s: Block, c: Block)
    requires s.Descriptor? && c.Commit?
    requires s.payloadStart + |s.entries| <= |d|
  {
    && (forall i :: 0 <= i < |s.entries| ==>
          EntryOk(g, s.entries[i]) && Hash(g, d[s.payloadStart + i]) == s.entries[i].checksum)
    && Aggregate(g, d[s.payloadStart..s.payloadStart + |s.entries|]) == c.payloadChecksum
  }

  predicate Distinct(es: seq<Entry>) {
    forall i, j :: 0 <= j < i < |es| ==> es[j].home != es[i].home
  }

  /** Copying payloads home one by one, each read from the disk the earlier copies left. */
  function CopyWrites(d: Disk, es: seq<Entry>, payloadStart: nat): (ws: Log)
    requires payloadStart + |es| <= |d|
    ensures |ws| == |es|
  {
    if es == [] then []
    else
      var n := |es| - 1;
      var ws := CopyWrites(d, es[..n], payloadStart);
      ws + [Write(es[n].home, Apply(d, ws)[payloadStart + n])]
  }

  // ----- checkpoint of the oldest segment

  function CheckpointHeader(g: Geometry, d: Disk, at: nat, after: Seq64): Errno {
    var e := DescriptorCheck(g, d, at, after);
    if e != Ok then e
    else
      var s := d[at];
      var c := d[s.commitBlock];
      if CommitMatches(g, c, s, at) && c.flags == FLAG_COMMITTED && c.descriptorChecksum == s.checksum then Ok else Euclean
  }

  function CheckpointControl(g: Geometry, state: nat, v: Vol, s: Block, at: nat): Block
    requires s.Descriptor?
  {
    MakeControl(g, state, v.lastSequence, 0, v.checkpointSequence, at, s.payloadStart, |s.entries|, s.commitBlock,
                v.head, v.tail)
  }

  /** `super` is the superblock image with the recovery flag cleared; it is written when the ring
      has become empty. */
  function CheckpointOp(g: Geometry, d: Disk, v: Vol, super: Block): Outcome {
    if v.tail == v.head then Outcome(Ok, [], v)
    else
      var e := CheckpointHeader(g, d, v.tail, v.checkpointSequence);
      if e != Ok then Outcome(e, [], v)
      else
        var s := d[v.tail];
        var start := [Write(g.journalBlock, CheckpointControl(g, CHECKPOINTING, v, s, v.tail))];
        var d1 := Apply(d, start);
        if !PayloadsOk(g, d1, s, d[s.commitBlock]) then Outcome(Euclean, start, v)
        else
          var copies := CopyWrites(d1, s.entries, s.payloadStart);
          var v1 := v.(tail := g.Next(s.commitBlock + 1), tailSequence := s.sequence, checkpointSequence := s.sequence);
          var finish :=
            if v1.tail == v.head then
              [Write(g.superBlock, super), Write(g.journalBlock, CheckpointControl(g, IDLE, v1, s, v.tail))]
            else [Write(g.journalBlock, CheckpointControl(g, COMMITTED, v1, s, v.tail))];
          Outcome(Ok, start + copies + finish, v1)
  }

  /** Checkpointing until the ring is empty or a checkpoint fails. Each checkpoint raises the
      checkpoint sequence, so the drain ends on every disk. */
  function DrainOp(g: Geometry, d: Disk, v: Vol, super: Block): Outcome
    decreases 0x1_0000_0000_0000_0000 - v.checkpointSequence
  {
    if v.tail == v.head then Outcome(Ok, [], v)
    else
      var o := CheckpointOp(g, d, v, super);
      if o.err != Ok then o
      else
        var r := DrainOp(g, Apply(d, o.writes), o.vol, super);
        r.(writes := o.writes + r.writes)
  }

  // ----- replay at mount

  datatype Verdict = Failed(err: Errno) | Uncommitted | Committed

  function Judge(g: Geometry, d: Disk, at: nat, after: Seq64): Verdict {
    var e := DescriptorCheck(g, d, at, after);
    if e != Ok then Failed(e)
    else
      var s := d[at];
      var c := d[s.commitBlock];
      if !CommitMatches(g, c, s, at) || c.flags != FLAG_COMMITTED then Uncommitted
      else if c.descriptorChecksum == s.checksum && Distinct(s.entries) && PayloadsOk(g, d, s, c) then Committed
      else Failed(Euclean)
  }

  datatype WalkResult = WalkResult(err: Errno, writes: Log, last: Seq64)

  /** Replay of the segments from `at` up to `head`. Each segment has a larger sequence number than
      the one before, so the walk ends on every disk. */
  function Walk(g: Geometry, d: Disk, at: nat, head: nat, after: Seq64, last: Seq64): WalkResult
    decreases 0x1_0000_0000_0000_0000 - after
  {
    if at == head then WalkResult(Ok, [], last)
    else
      match Judge(g, d, at, after)
      case Failed(e) => WalkResult(e, [], last)
      case Uncommitted =>
        if g.Next(d[at].commitBlock + 1) == head then WalkResult(Ok, [], last) else WalkResult(Euclean, [], last)
      case Committed =>
        var s := d[at];
        var copies := CopyWrites(d, s.entries, s.payloadStart);
        var r := Walk(g, Apply(d, copies), g.Next(s.commitBlock + 1), head, s.sequence, s.sequence);
        r.(writes := copies + r.writes)
  }

  predicate RingValid(g: Geometry, c: Block)
    requires c.Control?
  {
    && c.ringStart == g.RingStart() && c.ringEnd == g.RingEnd()
    && g.InRing(c.ringHead) && g.InRing(c.ringTail)
    && (c.state == IDLE ==> c.ringHead == c.ringTail)
  }

  predicate ControlOk(g: Geometry, d: Disk) {
    g.journalBlock < |d| && d[g.journalBlock].Control? && RingValid(g, d[g.journalBlock]) && SealOk(g, d[g.journalBlock])
  }

  /** The result of the reading part of replay. `discard` tells that the log is to be emptied. */
  datatype Recovery = Recovery(err: Errno, homeWrites: Log, last: Seq64, discard: bool)

  function RecoverOp(g: Geometry, d: Disk, needsRecovery: bool): Recovery {
    if !ControlOk(g, d) then Recovery(Euclean, [], 0, false)
    else
      var c := d[g.journalBlock];
      if c.state == IDLE then
        if c.activeSequence != 0 || c.checkpointSequence != c.lastSequence then Recovery(Euclean, [], 0, false)
        else Recovery(Ok, [], c.lastSequence, needsRecovery)
      else if c.state > CHECKPOINTING then Recovery(Euclean, [], 0, false)
      else
        var w := Walk(g, d, c.ringTail, c.ringHead, c.checkpointSequence, c.lastSequence);
        Recovery(w.err, w.writes, w.last, w.err == Ok)
  }

  /** The empty log that replay leaves: sentinel descriptor and commit, then an idle control block. */
  function ResetWrites(g: Geometry, last: Seq64, head: nat): (ws: Log)
    requires g.journalBlocks >= 1
    ensures |ws| == 3
  {
    var descriptor := Sealed(g, Descriptor(last, g.journalBlock + 2, g.RingEnd() - 1, [], 0));
    [Write(g.RingStart(), descriptor),
     Write(g.RingEnd() - 1, Sealed(g, Commit(0, 0, last, g.RingStart(), descriptor.checksum, 0, 0))),
     Write(g.journalBlock, MakeControl(g, IDLE, last, 0, last, g.RingStart(), g.journalBlock + 2,
                                       if g.journalBlocks >= 3 then g.journalBlocks - 3 else 0, g.RingEnd() - 1, head, head))]
  }

  function ReplayOp(g: Geometry, d: Disk, v: Vol, needsRecovery: bool, super: Block): Outcome
    requires g.journalBlocks >= 1
  {
    var r := RecoverOp(g, d, needsRecovery);
    if r.err != Ok then Outcome(r.err, r.homeWrites, v)
    else
      var head := d[g.journalBlock].ringHead;
      var v1 := v.(sequence := r.last, lastSequence := r.last, tailSequence := r.last,
                   checkpointSequence := r.last, head := head, tail := head);
      if r.discard then
        Outcome(Ok, r.homeWrites + [Write(g.superBlock, super)] + ResetWrites(g, r.last, head), Clear(v1))
      else Outcome(Ok, r.homeWrites, v1.(activeSequence := 0))
  }
}
