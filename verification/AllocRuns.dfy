/** Runs of allocations and frees. */
module AllocRuns {
  import opened Allocator
  import opened FsckSpec
  import opened Fsck
  import Mkfs

  /** What a caller does: take a free block, or give back one it holds. A block is named by group and bit. */
  datatype Move = Take(g: nat, i: nat) | Give(g: nat, i: nat)

  /** Bitmaps and counters, and the blocks that callers hold. */
  datatype State = State(m: Maps, held: set<nat>)

  /** The allocator hands out clear bits only, and callers give back only what they hold. */
  ghost predicate Allowed(l: Layout, s: State, move: Move) {
    && move.g < |l.groups| == |s.m.bitmaps| == |s.m.free| && FirstBit(l, move.g) <= move.i < |s.m.bitmaps[move.g]|
    && match move
       case Take(g, i) => !s.m.bitmaps[g][i] && s.m.free[g] > 0 && s.m.total > 0
       case Give(g, i) => l.groups[g].start + i in s.held
  }

  ghost function Step(l: Layout, s: State, move: Move): State
    requires Allowed(l, s, move)
  {
    var b := l.groups[move.g].start + move.i;
    match move
    case Take(g, i) => State(Mark(s.m, g, i), s.held + {b})
    case Give(g, i) => State(Unmark(s.m, g, i), s.held - {b})
  }

  ghost predicate Run(l: Layout, s: State, moves: seq<Move>)
    decreases |moves|
  {
    moves != [] ==> Allowed(l, s, moves[0]) && Run(l, Step(l, s, moves[0]), moves[1..])
  }

  ghost function After(l: Layout, s: State, moves: seq<Move>): State
    requires Run(l, s, moves)
    decreases |moves|
  {
    if moves == [] then s else After(l, Step(l, s, moves[0]), moves[1..])
  }

  /** Counters fit the bitmaps, and what is in use is either held by a caller or kept for something else. */
  ghost predicate Inv(l: Layout, s: State, kept: set<nat>) {
    Consistent(l, s.m) && kept !! s.held && UsedBlocks(l, s.m) == kept + s.held
  }

  lemma {:induction false} StepKeeps(l: Layout, s: State, move: Move, kept: set<nat>)
    requires Inv(l, s, kept) && Allowed(l, s, move)
    ensures Inv(l, Step(l, s, move), kept)
    ensures move.Take? ==> l.groups[move.g].start + move.i !in kept + s.held
  {
    hide Consistent, UsedBlocks, Layout.DataBlock, FirstBit;
    var b := l.groups[move.g].start + move.i;
    match move {
      case Take(g, i) =>
        ClearIsFree(l, s.m, g, i);
        MarkConsistent(l, s.m, g, i);
        BitUse(l, s.m, Mark(s.m, g, i), g, i, true);
        assert b !in UsedBlocks(l, s.m);
      case Give(g, i) =>
        assert b in UsedBlocks(l, s.m);
        SetIsUsed(l, s.m, g, i);
        BitUse(l, s.m, Unmark(s.m, g, i), g, i, false);
        UnmarkConsistent(l, s.m, g, i);
    }
  }

  lemma {:induction false} ClearIsFree(l: Layout, m: Maps, g: nat, i: nat)
    requires Consistent(l, m) && g < |l.groups| && FirstBit(l, g) <= i < |m.bitmaps[g]| && !m.bitmaps[g][i]
    ensures l.blocksPerGroup > 0 && l.DataBlock(l.groups[g].start + i) && l.groups[g].start + i !in UsedBlocks(l, m)
  {
    hide Clear, Sum, FirstBit;
    BlockOfBit(l, g, i);
  }

  lemma {:induction false} SetIsUsed(l: Layout, m: Maps, g: nat, i: nat)
    requires Consistent(l, m) && g < |l.groups| && i < |m.bitmaps[g]| && l.groups[g].start + i in UsedBlocks(l, m)
    ensures l.blocksPerGroup > 0 && l.DataBlock(l.groups[g].start + i) && m.bitmaps[g][i]
  {
    hide Clear, Sum, FirstBit;
    BlockOfBit(l, g, i);
  }

  /** In every run no caller ever gets a block that is kept or that another one holds, and nothing is lost. */
  lemma {:induction false} RunsKeep(l: Layout, s: State, moves: seq<Move>, kept: set<nat>)
    requires Inv(l, s, kept) && Run(l, s, moves)
    ensures Inv(l, After(l, s, moves), kept)
    decreases |moves|
  {
    hide Inv, Allowed, Step;
    if moves != [] {
      StepKeeps(l, s, moves[0], kept);
      RunsKeep(l, Step(l, s, moves[0]), moves[1..], kept);
    }
  }

  /** From a new filesystem on, no run of allocations and frees ever reaches a block of the journal. */
  lemma {:induction false} JournalUntouched(p: Mkfs.Plan, prealloc: bool, moves: seq<Move>)
    requires p.Ok() && p.Tail() >= Mkfs.GROUP_META
    ensures p.JournalBlocks() <= p.blocksCount && p.Total() >= 0
    ensures var l, s := p.LayoutOf(prealloc), State(NewMaps(p), NewOwned(p));
            Run(l, s, moves) ==>
              var t := After(l, s, moves);
              && Consistent(l, t.m) && UsedBlocks(l, t.m) == NewJournal(p).Area() + t.held && NewJournal(p).Area() !! t.held
  {
    NewState(p, prealloc);
    var l, s := p.LayoutOf(prealloc), State(NewMaps(p), NewOwned(p));
    hide NewMaps, NewOwned, NewJournal, Mkfs.Plan.LayoutOf, Run, After, Consistent, UsedBlocks;
    if Run(l, s, moves) {
      RunsKeep(l, s, moves, NewJournal(p).Area());
    }
  }
}
