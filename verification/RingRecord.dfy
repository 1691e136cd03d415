/** What the ring journal records of a transaction. */
module RingRecord {
  import opened Device
  import opened RingLayout
  import opened RingSpec

  /** A transaction may log every block of the device that is not the journal's own. */
  ghost predicate Loggable(g: Geometry, home: nat) {
    home < g.blocksCount && !(g.journalBlock <= home < g.journalBlock + g.journalBlocks)
  }

  ghost function Members(homes: seq<nat>): set<nat> {
    set h | h in homes
  }

  /** Recorded blocks are distinct, outside the journal and no more than a segment can hold. */
  ghost predicate Recorded(g: Geometry, homes: seq<nat>) {
    && |homes| <= g.Capacity()
    && (forall i :: 0 <= i < |homes| ==> homes[i] < g.blocksCount && !g.Internal(homes[i]))
    && (forall i, j :: 0 <= i < j < |homes| ==> homes[i] != homes[j])
  }

  /** A segment may have `n` payloads exactly when these, a descriptor, a commit block and the control block fit into
      the journal, and the header and `n` entries of 16 bytes into the descriptor. */
  lemma {:induction false} CapacityIsLargest(g: Geometry, n: nat)
    requires n > 0
    ensures n <= g.Capacity() <==> n + 3 <= g.journalBlocks && 72 + 16 * n <= 4096
  {
  }

  /** When a transaction can be opened, and what it starts with. */
  lemma {:induction false} BeginExactly(g: Geometry, v: Vol)
    ensures var (err, w) := BeginOp(g, v);
            && (err == Ok <==> v.activeSequence == 0 && g.journalBlocks >= 4)
            && (err == Ok ==> w == v.(homes := [], error := Ok, activeSequence := w.activeSequence)
                              && (v.sequence < 0xFFFF_FFFF_FFFF_FFFF ==> w.activeSequence == v.sequence + 1))
            && (err != Ok ==> w == v)
            && (v.activeSequence != 0 ==> err == if v.error != Ok then v.error else Euclean)
            && (v.activeSequence == 0 && g.journalBlocks < 4 ==> err == Eopnotsupp)
  {
  }

  /** One record: the block joins what is recorded exactly when it may be logged and is there or has room; every refusal
      of an open transaction is remembered and refuses all that follow. */
  lemma {:induction false} RecordExactly(g: Geometry, v: Vol, home: nat)
    ensures var (err, w) := RecordOp(g, v, home);
            && (err == Ok <==> && v.activeSequence != 0 && v.error == Ok && Loggable(g, home)
                               && (home in v.homes || |v.homes| < g.Capacity()))
            && (err == Ok ==> w == v.(homes := if home in v.homes then v.homes else v.homes + [home]))
            && (v.activeSequence == 0 ==> err == Einval && w == v)
            && (v.activeSequence != 0 && v.error != Ok ==> err == v.error && w == v)
            && (v.activeSequence != 0 && v.error == Ok && err != Ok ==>
                  w == v.(error := err) && err == if Loggable(g, home) then Enospc else Einval)
  {
  }

  /** Recording the blocks of a transaction one by one; a failed record makes the rest fail. */
  function RecordAll(g: Geometry, v: Vol, homes: seq<nat>): Vol {
    if homes == [] then v
    else RecordOp(g, RecordAll(g, v, homes[..|homes| - 1]), homes[|homes| - 1]).1
  }

  lemma {:induction false} RecordKeeps(g: Geometry, v: Vol, home: nat)
    requires Recorded(g, v.homes)
    ensures Recorded(g, RecordOp(g, v, home).1.homes)
    ensures RecordOp(g, v, home).1 == v.(homes := RecordOp(g, v, home).1.homes, error := RecordOp(g, v, home).1.error)
  {
  }

  lemma {:induction false} RecordAllKeeps(g: Geometry, v: Vol, homes: seq<nat>)
    requires Recorded(g, v.homes)
    ensures Recorded(g, RecordAll(g, v, homes).homes)
    ensures RecordAll(g, v, homes) == v.(homes := RecordAll(g, v, homes).homes, error := RecordAll(g, v, homes).error)
  {
    if homes != [] {
      RecordAllKeeps(g, v, homes[..|homes| - 1]);
      RecordKeeps(g, RecordAll(g, v, homes[..|homes| - 1]), homes[|homes| - 1]);
    }
  }

  /** All of `homes` may be logged, and with the set `base` they are no more than a segment can hold. */
  ghost predicate Admitted(g: Geometry, base: set<nat>, homes: seq<nat>) {
    (forall h :: h in homes ==> Loggable(g, h)) && |base + Members(homes)| <= g.Capacity()
  }

  /** The records fail at block `i`, the first one that may not be logged or has no room. */
  ghost predicate FailsAt(g: Geometry, base: set<nat>, homes: seq<nat>, i: nat, err: Errno)
    requires i < |homes|
  {
    && Admitted(g, base, homes[..i]) && !Admitted(g, base, homes[..i + 1])
    && err == if Loggable(g, homes[i]) then Enospc else Einval
  }

  lemma {:induction false} MembersCount(homes: seq<nat>)
    requires forall i, j :: 0 <= i < j < |homes| ==> homes[i] != homes[j]
    ensures |Members(homes)| == |homes|
  {
    if homes != [] {
      var n := |homes| - 1;
      MembersCount(homes[..n]);
      assert Members(homes) == Members(homes[..n]) + {homes[n]};
    }
  }

  /** Whatever the order and the repetitions: all blocks are recorded if they may be logged and their number fits, and
      the first one for which this fails decides the error. */
  lemma {:induction false} RecordAllExactly(g: Geometry, v: Vol, homes: seq<nat>)
    requires Recorded(g, v.homes) && v.activeSequence != 0 && v.error == Ok
    ensures var w, base := RecordAll(g, v, homes), Members(v.homes);
            && (w.error == Ok <==> Admitted(g, base, homes))
            && (w.error == Ok ==> Members(w.homes) == base + Members(homes) && |w.homes| == |base + Members(homes)|)
            && (w.error != Ok ==> (w.error == Enospc || w.error == Einval)
                                  && exists i :: 0 <= i < |homes| && FailsAt(g, base, homes, i, w.error))
    decreases |homes|, 1
  {
    var w, base := RecordAll(g, v, homes), Members(v.homes);
    RecordAllKeeps(g, v, homes);
    MembersCount(v.homes);
    MembersCount(w.homes);
    if homes == [] {
      assert base + Members(homes) == base;
    } else {
      RecordAllStep(g, v, homes);
    }
  }

  lemma {:induction false} RecordAllStep(g: Geometry, v: Vol, homes: seq<nat>)
    requires Recorded(g, v.homes) && v.activeSequence != 0 && v.error == Ok && homes != []
    ensures var w, base := RecordAll(g, v, homes), Members(v.homes);
            && (w.error == Ok <==> Admitted(g, base, homes))
            && (w.error == Ok ==> Members(w.homes) == base + Members(homes))
            && (w.error != Ok ==> exists i :: 0 <= i < |homes| && FailsAt(g, base, homes, i, w.error))
    decreases |homes|, 0
  {
    var n := |homes| - 1;
    var u := RecordAll(g, v, homes[..n]);
    RecordAllExactly(g, v, homes[..n]);
    RecordAllKeeps(g, v, homes[..n]);
    RecordExactly(g, u, homes[n]);
    if u.error != Ok {
      hide RecordOp, Admitted, FailsAt, Recorded, Members;
      var i :| 0 <= i < n && FailsAt(g, Members(v.homes), homes[..n], i, u.error);
      FailureStays(g, Members(v.homes), homes, i, u.error);
    } else {
      MembersSnoc(homes);
      MembersSnoc(u.homes + [homes[n]]);
      hide RecordOp, FailsAt, Recorded, Members;
      LastRecord(g, u, Members(v.homes), homes);
    }
  }

  lemma {:induction false} FailureStays(g: Geometry, base: set<nat>, homes: seq<nat>, i: nat, err: Errno)
    requires i + 1 < |homes| && FailsAt(g, base, homes[..|homes| - 1], i, err)
    ensures FailsAt(g, base, homes, i, err) && !Admitted(g, base, homes)
  {
    var front := homes[..|homes| - 1];
    assert front[..i] == homes[..i] && front[..i + 1] == homes[..i + 1] && front[i] == homes[i];
    if Admitted(g, base, homes) {
      AdmittedFront(g, base, homes, i + 1);
    }
  }

  /** The last of the records, when those before it went well. */
  lemma {:induction false} LastRecord(g: Geometry, u: Vol, base: set<nat>, homes: seq<nat>)
    requires homes != [] && u.activeSequence != 0 && u.error == Ok
    requires var front := homes[..|homes| - 1];
             && Admitted(g, base, front) && Members(u.homes) == base + Members(front)
             && |u.homes| == |base + Members(front)| && Members(homes) == Members(front) + {homes[|homes| - 1]}
             && Members(u.homes + [homes[|homes| - 1]]) == Members(u.homes) + {homes[|homes| - 1]}
    ensures var w := RecordOp(g, u, homes[|homes| - 1]).1;
            && (w.error == Ok <==> Admitted(g, base, homes))
            && (w.error == Ok ==> Members(w.homes) == base + Members(homes))
            && (w.error != Ok ==> FailsAt(g, base, homes, |homes| - 1, w.error))
  {
    var n := |homes| - 1;
    var home, known := homes[n], base + Members(homes[..n]);
    RecordExactly(g, u, home);
    assert homes[..n + 1] == homes && base + Members(homes) == known + {home};
    assert home in u.homes <==> home in known;
    assert homes == homes[..n] + [home];
  }

  lemma {:induction false} MembersSnoc(homes: seq<nat>)
    requires homes != []
    ensures Members(homes) == Members(homes[..|homes| - 1]) + {homes[|homes| - 1]}
    ensures homes[..|homes| - 1] + [homes[|homes| - 1]] == homes
  {
  }

  lemma {:induction false} AdmittedFront(g: Geometry, base: set<nat>, homes: seq<nat>, k: nat)
    requires k <= |homes| && Admitted(g, base, homes)
    ensures Admitted(g, base, homes[..k])
  {
    Subset(base + Members(homes[..k]), base + Members(homes));
  }

  lemma {:induction false} Subset(a: set<nat>, b: set<nat>)
    requires a <= b
    ensures |a| <= |b|
  {
    assert b == a + (b - a);
  }

  /** What commit finds recorded once it has added the superblock itself. */
  lemma {:induction false} CommitRecords(g: Geometry, v: Vol, homes: seq<nat>)
    requires g.Wf() && v.homes == [] && v.activeSequence != 0 && v.error == Ok
    ensures var w, all := RecordAll(g, v, homes), Members(homes) + {g.superBlock};
            var w1 := RecordOp(g, w, g.superBlock).1;
            && (w.error == Ok <==> Admitted(g, {}, homes))
            && (w.error != Ok ==> (w.error == Enospc || w.error == Einval)
                                  && exists i :: 0 <= i < |homes| && FailsAt(g, {}, homes, i, w.error))
            && (w.error == Ok && w1.error == Ok <==> Admitted(g, {}, homes) && |all| <= g.Capacity())
            && (w.error == Ok && w1.error != Ok ==> w1.error == Enospc)
            && (w.error == Ok && w1.error == Ok ==> Members(w1.homes) == all && |w1.homes| == |all|)
            && (forall h :: h in w.homes ==> h < g.blocksCount) && (forall h :: h in w1.homes ==> h < g.blocksCount)
            && w1 == v.(homes := w1.homes, error := w1.error) && w == v.(homes := w.homes, error := w.error)
            && Recorded(g, w1.homes)
  {
    var w := RecordAll(g, v, homes);
    assert Members(v.homes) == {};
    assert {} + Members(homes) == Members(homes);
    RecordAllExactly(g, v, homes);
    RecordAllKeeps(g, v, homes);
    RecordKeeps(g, w, g.superBlock);
    var w1 := RecordOp(g, w, g.superBlock).1;
    RecordedBlocks(g, w.homes);
    RecordedBlocks(g, w1.homes);
    RecordExactly(g, w, g.superBlock);
    hide *;
    if w.error == Ok {
      MembersCount(w.homes) by { RecordedBlocks(g, w.homes); }
      SuperRecord(g, w, Members(homes));
    }
  }

  lemma {:induction false} RecordedBlocks(g: Geometry, homes: seq<nat>)
    requires Recorded(g, homes)
    ensures forall h :: h in homes ==> h < g.blocksCount
    ensures forall i, j :: 0 <= i < j < |homes| ==> homes[i] != homes[j]
  {
  }

  lemma {:induction false} SuperRecord(g: Geometry, w: Vol, known: set<nat>)
    requires g.Wf() && w.activeSequence != 0 && w.error == Ok && Members(w.homes) == known && |w.homes| == |known|
    ensures var w1, all := RecordOp(g, w, g.superBlock).1, known + {g.superBlock};
            && (w1.error == Ok || w1.error == Enospc) && |w.homes| <= |all|
            && (w1.error == Ok <==> |w.homes| == |all| || |all| <= g.Capacity())
            && (w1.error == Ok ==> Members(w1.homes) == all && |w1.homes| == |all|)
  {
    MembersSnoc(w.homes + [g.superBlock]);
    assert g.superBlock in w.homes <==> g.superBlock in known;
  }

  /** With two errors, or at two blocks, a list cannot fail. */
  lemma {:induction false} FailsOnce(g: Geometry, base: set<nat>, homes: seq<nat>, i: nat, e: Errno, j: nat, f: Errno)
    requires i < |homes| && j < |homes| && FailsAt(g, base, homes, i, e) && FailsAt(g, base, homes, j, f)
    ensures i == j && e == f
  {
    if i < j {
      assert homes[..j][..i + 1] == homes[..i + 1];
      AdmittedFront(g, base, homes[..j], i + 1);
    } else if j < i {
      assert homes[..i][..j + 1] == homes[..j + 1];
      AdmittedFront(g, base, homes[..i], j + 1);
    }
  }
}
