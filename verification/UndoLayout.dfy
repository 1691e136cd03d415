/** Records of the undo journal, journal v2. */
module UndoLayout {
  const MIN_BLOCKS := 4
  const MAX_ENTRIES := 503 // (4096 - 72) / 8
  const ACTIVE := 1
  const COMMITTED := 2

  datatype Errno = Ok | Euclean | Enospc | Einval | Eopnotsupp

  datatype Block =
    | Data(words: seq<nat>)
    | Control(flags: nat, last: nat, active: nat, tail: nat, checkpoint: nat, checksum: nat)
    | Descriptor(flags: nat, sequence: nat, homes: seq<nat>, checksum: nat)
    | Commit(flags: nat, sequence: nat, entries: nat, checksum: nat)
    | Super(recovery: bool, sequence: nat)

  /** A block of zero bytes is no journal record. */
  const ZERO := Data([])

  /** Where the journal lies. `dataBlock` is the allocator's test for data blocks and `sum` the hash of a
      record over everything but its checksum. `kept` chooses the blocks whose contents are to come back after a crash:
      not the file data that programs overwrite in place, which is never recorded. All results hold for any choice of
      the three. */
  datatype Geometry = Geometry(journalBlock: nat, journalBlocks: nat, blocksCount: nat, dataBlock: nat -> bool,
                               sum: Block -> nat, kept: nat -> bool) {
    function DescriptorBlock(): nat { journalBlock + 1 }

    function PayloadStart(): nat { journalBlock + 2 }

    function CommitBlock(): nat { if journalBlocks > 0 then journalBlock + journalBlocks - 1 else journalBlock }

    function Capacity(): nat {
      if journalBlocks < MIN_BLOCKS then 0
      else if journalBlocks - 3 < MAX_ENTRIES then journalBlocks - 3 else MAX_ENTRIES
    }

    predicate Internal(b: nat) { journalBlock <= b < journalBlock + journalBlocks }

    /** Blocks that may be recorded and restored. */
    predicate Recordable(b: nat) { 0 < b < blocksCount && dataBlock(b) && !Internal(b) }

    predicate Kept(b: nat) { Recordable(b) && kept(b) }

    /** The superblock is block 0. */
    predicate Wf() { 0 < journalBlock && journalBlocks >= MIN_BLOCKS && journalBlock + journalBlocks <= blocksCount }
  }

  /** Is it a record of the journal? */
  predicate IsRecord(b: Block) { b.Control? || b.Descriptor? || b.Commit? }

  function Sealed(g: Geometry, b: Block): Block
    requires IsRecord(b)
  {
    b.(checksum := g.sum(b.(checksum := 0)))
  }

  predicate SealOk(g: Geometry, b: Block)
    requires IsRecord(b)
  {
    b.checksum == g.sum(b.(checksum := 0))
  }

  function MakeControl(g: Geometry, flags: nat, active: nat, last: nat): Block {
    Sealed(g, Control(flags, last, active, last, last, 0))
  }

  function MakeDescriptor(g: Geometry, flags: nat, homes: seq<nat>, sequence: nat): Block {
    Sealed(g, Descriptor(flags, sequence, homes, 0))
  }

  function MakeCommit(g: Geometry, flags: nat, entries: nat, sequence: nat): Block {
    Sealed(g, Commit(flags, sequence, entries, 0))
  }

  predicate ControlValid(g: Geometry, b: Block) {
    && b.Control? && SealOk(g, b)
    && b.tail <= b.checkpoint <= b.last
    && (b.active != 0 ==> b.active <= b.last + 1)
    && (b.active == 0 && b.last != 0 ==> b.checkpoint == b.last && b.tail == b.last)
  }

  predicate DescriptorValid(g: Geometry, b: Block) {
    b.Descriptor? && |b.homes| <= g.Capacity() && SealOk(g, b)
  }

  predicate CommitValid(g: Geometry, b: Block) {
    b.Commit? && (b.flags / COMMITTED) % 2 == 1 && b.entries <= g.Capacity() && SealOk(g, b)
  }

  // ----- a device with lazy and synchronous writes

  type Disk = seq<Block>

  /** What programs read, and for each block every value a crash might leave on the medium. */
  datatype Store = Store(view: Disk, may: seq<set<Block>>)

  datatype Act =
    | Sync(block: nat, value: Block)
    | Lazy(block: nat, value: Block)
    | Barrier

  ghost predicate StoreOk(st: Store, n: nat) {
    |st.view| == |st.may| == n && forall b :: 0 <= b < n ==> st.view[b] in st.may[b]
  }

  /** One action of the buffer cache. */
  ghost function Perform(st: Store, a: Act): (r: Store)
    requires |st.view| == |st.may|
    ensures |r.view| == |r.may| == |st.view|
    ensures StoreOk(st, |st.view|) ==> StoreOk(r, |st.view|)
  {
    match a
    case Sync(b, v) =>
      if b < |st.view| then Store(st.view[b := v], st.may[b := {v}]) else st
    case Lazy(b, v) =>
      if b < |st.view| then Store(st.view[b := v], st.may[b := st.may[b] + {v}]) else st
    case Barrier => Settled(st.view)
  }

  ghost function PerformAll(st: Store, acts: seq<Act>): (r: Store)
    requires |st.view| == |st.may|
    ensures |r.view| == |r.may| == |st.view|
    ensures StoreOk(st, |st.view|) ==> StoreOk(r, |st.view|)
  {
    if acts == [] then st
    else Perform(PerformAll(st, acts[..|acts| - 1]), acts[|acts| - 1])
  }

  lemma {:induction false} PerformAppend(st: Store, a: seq<Act>, b: seq<Act>)
    requires |st.view| == |st.may|
    ensures PerformAll(st, a + b) == PerformAll(PerformAll(st, a), b)
  {
    if b == [] {
      assert a + b == a;
    } else {
      assert (a + b)[..|a + b| - 1] == a + b[..|b| - 1];
      PerformAppend(st, a, b[..|b| - 1]);
    }
  }

  lemma {:induction false} PerformOne(st: Store, a: Act)
    requires |st.view| == |st.may|
    ensures PerformAll(st, [a]) == Perform(st, a)
  {
    assert [a][..0] == [];
  }

  /** Everything has reached the medium. */
  ghost function Settled(view: Disk): (st: Store)
    ensures |st.view| == |st.may| == |view|
  {
    Store(view, seq(|view|, i requires 0 <= i < |view| => {view[i]}))
  }

  /** `d` is a possible content of the medium when the machine stops in state `st`. */
  ghost predicate Crash(st: Store, d: Disk) {
    |d| == |st.may| && forall b :: 0 <= b < |d| ==> d[b] in st.may[b]
  }
}
