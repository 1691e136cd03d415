/** Layout of the ring journal, journal v3. */
module RingLayout {
  import opened Device

  const OFFSET_BASIS := 2166136261
  const MIN_BLOCKS := 4
  const MAX_ENTRIES := 251 // (4096 - 72) / 16

  const IDLE := 0
  const ACTIVE := 1
  const PREPARED := 2
  const COMMITTED := 3
  const CHECKPOINTING := 4
  const FLAG_COMMITTED := 1

  /** Sequence numbers are 64-bit words on disk. */
  type Seq64 = s: nat | s < 0x1_0000_0000_0000_0000

  datatype Errno = Ok | Euclean | Enospc | Einval | Eopnotsupp | Eio

  datatype Entry = Entry(home: nat, checksum: nat, flags: nat)

  /** One device block. `Data` is every block that is no journal record; the constructor stands
      for the magic number, layout version and block type of a record. */
  datatype Block =
    | Data(words: seq<nat>)
    | Control(state: nat, lastSequence: Seq64, activeSequence: Seq64, checkpointSequence: Seq64,
              descriptorAt: nat, payloadAt: nat, payloadBlocks: nat, commitAt: nat,
              ringHead: nat, ringTail: nat, ringStart: nat, ringEnd: nat, checksum: nat)
    | Descriptor(sequence: Seq64, payloadStart: nat, commitBlock: nat, entries: seq<Entry>, checksum: nat)
    | Commit(flags: nat, entryCount: nat, sequence: Seq64, descriptorBlock: nat,
             descriptorChecksum: nat, payloadChecksum: nat, checksum: nat)

  /** Where the journal lies; `superBlock` is the home block of the superblock. `fold` is the
      running checksum of a whole block; everything below holds whichever hash it is. */
  datatype Geometry = Geometry(journalBlock: nat, journalBlocks: nat, blocksCount: nat, superBlock: nat,
                               fold: (nat, Block) -> nat) {
    function RingStart(): nat { journalBlock + 1 }

    function RingEnd(): nat { journalBlock + journalBlocks }

    predicate Internal(b: nat) { journalBlock <= b < journalBlock + journalBlocks }

    /** Blocks whose contents the journal protects; the superblock is rewritten in place by the
        recovery flag and is followed separately. */
    predicate IsHome(b: nat) { b < blocksCount && !Internal(b) && b != superBlock }

    predicate InRing(b: nat) { RingStart() <= b < RingEnd() }

    function Capacity(): nat {
      if journalBlocks < MIN_BLOCKS then 0
      else if journalBlocks - 3 < MAX_ENTRIES then journalBlocks - 3 else MAX_ENTRIES
    }

    predicate Wf() {
      journalBlocks >= MIN_BLOCKS && RingEnd() <= blocksCount && superBlock < blocksCount && !Internal(superBlock)
    }

    /** The position after a segment that ends just before `b`. */
    function Next(b: nat): nat { if b == RingEnd() then RingStart() else b }
  }

  /** Hash of a whole block, used for payloads. */
  function Hash(g: Geometry, b: Block): nat { g.fold(OFFSET_BASIS, b) }

  /** Hash of a record over everything but its checksum field. */
  function RecordHash(g: Geometry, b: Block): nat
    requires !b.Data?
  {
    Hash(g, b.(checksum := 0))
  }

  function Sealed(g: Geometry, b: Block): Block
    requires !b.Data?
  {
    b.(checksum := RecordHash(g, b))
  }

  predicate SealOk(g: Geometry, b: Block)
    requires !b.Data?
  {
    b.checksum == RecordHash(g, b)
  }

  /** The checksum folded over all payloads; 0 when there is none. */
  function Aggregate(g: Geometry, payloads: seq<Block>): nat {
    if payloads == [] then 0 else Fold(g, payloads)
  }

  function Fold(g: Geometry, payloads: seq<Block>): nat {
    if payloads == [] then OFFSET_BASIS
    else g.fold(Fold(g, payloads[..|payloads| - 1]), payloads[|payloads| - 1])
  }

  /** The folded checksum goes over all payloads in order: that of one payload is its hash, and each further payload is
      folded in. */
  lemma {:induction false} FoldedExactly(g: Geometry, payloads: seq<Block>, p: Block)
    ensures Aggregate(g, []) == 0
    ensures Aggregate(g, payloads + [p]) == g.fold(if payloads == [] then 2166136261 else Aggregate(g, payloads), p)
  {
    var all := payloads + [p];
    assert all[..|all| - 1] == payloads && all[|all| - 1] == p;
    assert Fold(g, all) == g.fold(Fold(g, payloads), p);
  }

  /** A transaction as the log keeps it: which home blocks, and their new contents. */
  datatype Segment = Segment(sequence: Seq64, updates: seq<Write<Block>>) {
    /** Descriptor, payloads and commit. */
    function Size(): nat { |updates| + 2 }

    function CommitAt(at: nat): nat { at + 1 + |updates| }
  }

  function MakeEntries(g: Geometry, updates: seq<Write<Block>>): (es: seq<Entry>)
    ensures |es| == |updates|
  {
    seq(|updates|, i requires 0 <= i < |updates| => Entry(updates[i].block, Hash(g, updates[i].value), 0))
  }

  function Payloads(updates: seq<Write<Block>>): (ps: seq<Block>)
    ensures |ps| == |updates|
  {
    seq(|updates|, i requires 0 <= i < |updates| => updates[i].value)
  }

  function MakeDescriptor(g: Geometry, s: Segment, at: nat): Block {
    Sealed(g, Descriptor(s.sequence, at + 1, s.CommitAt(at), MakeEntries(g, s.updates), 0))
  }

  function MakeCommit(g: Geometry, s: Segment, at: nat): Block {
    Sealed(g, Commit(FLAG_COMMITTED, |s.updates|, s.sequence, at, MakeDescriptor(g, s, at).checksum,
                     Aggregate(g, Payloads(s.updates)), 0))
  }

  function MakeControl(g: Geometry, state: nat, last: Seq64, active: Seq64, checkpoint: Seq64, at: nat, payloadAt: nat,
                       payloads: nat, commitAt: nat, head: nat, tail: nat): Block
  {
    Sealed(g, Control(state, last, active, checkpoint, at, payloadAt, payloads, commitAt,
                   head, tail, g.RingStart(), g.RingEnd(), 0))
  }

  /** Where `cryexts_journal_v3_ring_allocate` puts a segment. */
  datatype Placement = Placement(at: nat, nextHead: nat)

  function Allocate(g: Geometry, head: nat, tail: nat, entries: nat): Option<Placement> {
    var needed := entries + 2;
    var start := g.RingStart();
    var end := g.RingEnd();
    if needed >= end - start then None
    else if head == tail then
      var at := if head + needed > end then start else head;
      Some(Placement(at, g.Next(at + needed)))
    else if head < tail then
      if head + needed > tail then None else Some(Placement(head, g.Next(head + needed)))
    else if head + needed > end then
      if needed > tail - start then None else Some(Placement(start, g.Next(start + needed)))
    else Some(Placement(head, g.Next(head + needed)))
  }

  /** The blocks that hold live segments when the walk goes from `tail` to `head`. */
  predicate Live(g: Geometry, tail: nat, head: nat, b: nat) {
    if tail <= head then tail <= b < head
    else tail <= b < g.RingEnd() || g.RingStart() <= b < head
  }

  /** Number of live blocks. */
  function LiveCount(g: Geometry, tail: nat, head: nat): int {
    if tail <= head then head - tail else g.RingEnd() - tail + head - g.RingStart()
  }

  /** The placement keeps the log walkable: it starts where the walk arrives (or the ring was
      empty) and does not make a non-empty ring look empty. */
  predicate Walkable(g: Geometry, head: nat, tail: nat, entries: nat) {
    var needed := entries + 2;
    head == tail
    || (head < tail && head + needed < tail)
    || (tail < head && head + needed <= g.RingEnd() && !(head + needed == g.RingEnd() && tail == g.RingStart()))
  }

  /** On all branches: the segment is inside the ring, never crosses its end and overlaps no live
      block, and the head stays inside the ring. */
  lemma {:induction false} AllocateSafe(g: Geometry, head: nat, tail: nat, entries: nat)
    requires g.Wf() && g.InRing(head) && g.InRing(tail)
    requires Allocate(g, head, tail, entries).Some?
    ensures var p := Allocate(g, head, tail, entries).value;
            && g.RingStart() <= p.at && p.at + entries + 2 <= g.RingEnd()
            && g.InRing(p.nextHead)
            && forall b :: p.at <= b < p.at + entries + 2 ==> !Live(g, tail, head, b)
  {
  }

  /** Allocation succeeds exactly when the segment is smaller than the ring and, with live segments,
      fits without touching them at the head or at the start of the ring. */
  lemma {:induction false} AllocateRefusal(g: Geometry, head: nat, tail: nat, entries: nat)
    requires g.Wf() && g.InRing(head) && g.InRing(tail)
    ensures Allocate(g, head, tail, entries).Some? <==>
            entries + 2 < g.journalBlocks - 1 &&
            (head == tail || InFree(g, head, tail, head, entries + 2) || InFree(g, head, tail, g.RingStart(), entries + 2))
  {
    assert head != tail ==> Live(g, tail, head, tail);
    assert head != tail && head != g.RingStart() ==> Live(g, tail, head, g.RingStart()) || tail > g.RingStart();
    assert head < tail && head != g.RingStart() ==> Live(g, tail, head, g.RingStart());
  }

  /** `size` blocks from `at` on lie in the ring and none of them is live. */
  ghost predicate InFree(g: Geometry, head: nat, tail: nat, at: nat, size: nat) {
    g.RingStart() <= at && at + size <= g.RingEnd() && forall b :: at <= b < at + size ==> !Live(g, tail, head, b)
  }

  /** With live segments the new head meets the tail exactly when the segment takes the last free
      block before the tail; an empty ring never ends up looking empty. */
  lemma {:induction false} ExactFit(g: Geometry, head: nat, tail: nat, entries: nat)
    requires g.Wf() && g.InRing(head) && g.InRing(tail)
    requires Allocate(g, head, tail, entries).Some?
    ensures var p := Allocate(g, head, tail, entries).value;
            && (head == tail ==> p.nextHead != p.at)
            && (head != tail && p.at == head ==>
                  (p.nextHead == tail <==> LiveCount(g, tail, head) + entries + 2 == g.journalBlocks - 1))
            && (head != tail && p.at != head ==>
                  (p.nextHead == tail <==> entries + 2 == tail - g.RingStart()))
  {
  }

  /** The guard a caller can evaluate before committing says exactly when the placement is good. */
  lemma {:induction false} WalkableExact(g: Geometry, head: nat, tail: nat, entries: nat)
    requires g.Wf() && g.InRing(head) && g.InRing(tail)
    requires Allocate(g, head, tail, entries).Some?
    ensures var p := Allocate(g, head, tail, entries).value;
            Walkable(g, head, tail, entries) <==> head == tail || (p.at == head && p.nextHead != tail)
  {
  }
}
