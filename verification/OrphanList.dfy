/** The orphan list (journal.c). */
module OrphanList {
  datatype Errno = Ok | Einval | Eio

  // ----- lists as values

  /** Following `next` from `from` visits `l` and arrives at `to`. Inode numbers start at 1. */
  ghost predicate Chain(next: seq<nat>, from: nat, l: seq<nat>, to: nat)
    decreases l
  {
    if l == [] then from == to
    else from == l[0] && 0 < from < |next| && Chain(next, next[from], l[1..], to)
  }

  ghost predicate Distinct(l: seq<nat>) {
    forall i, j :: 0 <= i < j < |l| ==> l[i] != l[j]
  }

  /** The list that starts at `head`. */
  ghost predicate IsList(next: seq<nat>, head: nat, l: seq<nat>) {
    Chain(next, head, l, 0) && Distinct(l)
  }

  /** `l` without `x`, in the same order. */
  function Without(l: seq<nat>, x: nat): seq<nat> {
    if l == [] then [] else if l[0] == x then l[1..] else [l[0]] + Without(l[1..], x)
  }

  lemma {:induction false} ChainElements(next: seq<nat>, from: nat, l: seq<nat>, to: nat)
    requires Chain(next, from, l, to)
    ensures forall x :: x in l ==> 0 < x < |next|
    decreases l
  {
    if l != [] {
      assert l == [l[0]] + l[1..];
      ChainElements(next, next[from], l[1..], to);
    }
  }

  lemma {:induction false} ChainAppend(next: seq<nat>, from: nat, a: seq<nat>, b: seq<nat>, to: nat, mid: nat)
    requires Chain(next, from, a, mid) && Chain(next, mid, b, to)
    ensures Chain(next, from, a + b, to)
    decreases a
  {
    if a == [] {
      assert a + b == b;
    } else {
      ChainAppend(next, next[from], a[1..], b, to, mid);
      assert (a + b)[1..] == a[1..] + b;
    }
  }

  lemma {:induction false} ChainElsewhere(next: seq<nat>, from: nat, l: seq<nat>, to: nat, x: nat, v: nat)
    requires Chain(next, from, l, to) && x !in l && x < |next|
    ensures Chain(next[x := v], from, l, to)
    decreases l
  {
    if l != [] {
      ChainElsewhere(next, next[from], l[1..], to, x, v);
    }
  }

  /** The last pointer of a chain redirected. */
  lemma {:induction false} ChainRedirect(next: seq<nat>, from: nat, l: seq<nat>, to: nat, v: nat)
    requires Chain(next, from, l, to) && l != [] && Distinct(l)
    ensures 0 < l[|l| - 1] < |next| && Chain(next[l[|l| - 1] := v], from, l, v)
    decreases l
  {
    if |l| == 1 {
      assert l[1..] == [];
    } else {
      assert l[1..][|l[1..]| - 1] == l[|l| - 1];
      ChainRedirect(next, next[from], l[1..], to, v);
    }
  }

  /** Distinct inode numbers are at most as many as there are inodes. */
  lemma {:induction false} ListBound(l: seq<nat>, count: nat)
    requires Distinct(l) && forall x :: x in l ==> 0 < x <= count
    ensures |l| <= count
  {
    if l != [] {
      assert l[0] in l;
    }
    if count > 0 && count in l {
      var i :| 0 <= i < |l| && l[i] == count;
      var rest := l[..i] + l[i + 1..];
      forall j, k | 0 <= j < k < |rest| ensures rest[j] != rest[k] {
        assert rest[j] == l[if j < i then j else j + 1] && rest[k] == l[if k < i then k else k + 1];
      }
      forall x | x in rest ensures 0 < x <= count - 1 {
        var j :| 0 <= j < |rest| && rest[j] == x;
        var k := if j < i then j else j + 1;
        assert x == l[k] && l[k] in l && l[k] != l[i];
      }
      ListBound(rest, count - 1);
    } else if count > 0 {
      ListBound(l, count - 1);
    }
  }

  // ----- setting

  datatype Walked = Hit | End | Bad

  /** The walk that looks for an inode, over arbitrary pointers. */
  function WalkTo(next: seq<nat>, cur: nat, ino: nat, steps: nat): Walked
    decreases steps
  {
    if cur == 0 || steps == 0 then End
    else if cur == ino then Hit
    else if cur >= |next| then Bad
    else WalkTo(next, next[cur], ino, steps - 1)
  }

  lemma {:induction false} WalkList(next: seq<nat>, cur: nat, l: seq<nat>, ino: nat, steps: nat)
    requires Chain(next, cur, l, 0) && |l| <= steps
    ensures WalkTo(next, cur, ino, steps) == if ino in l && ino != 0 then Hit else End
    decreases steps
  {
    if l != [] {
      ChainElements(next, cur, l, 0);
      if cur != ino {
        WalkList(next, next[cur], l[1..], ino, steps - 1);
      }
    }
  }

  /** Entering an inode, over arbitrary pointers. */
  function SetOp(next: seq<nat>, head: nat, ino: nat): (Errno, seq<nat>, nat)
    requires |next| > 0
  {
    if ino < 1 || ino >= |next| then (Einval, next, head)
    else
      match WalkTo(next, head, ino, |next| - 1)
      case Hit => (Ok, next, head)
      case Bad => (Eio, next, head)
      case End => (Ok, next[ino := head], ino)
  }

  /** An absent inode is put in front; one that is there already changes nothing. */
  lemma {:induction false} SetPrepends(next: seq<nat>, head: nat, l: seq<nat>, ino: nat)
    requires IsList(next, head, l) && 0 < ino < |next|
    ensures var (err, next', head') := SetOp(next, head, ino);
            && err == Ok
            && if ino in l then next' == next && head' == head else IsList(next', head', [ino] + l)
  {
    ChainElements(next, head, l, 0);
    ListBound(l, |next| - 1);
    WalkList(next, head, l, ino, |next| - 1);
    if ino !in l {
      ChainElsewhere(next, head, l, 0, ino, head);
      assert ([ino] + l)[1..] == l;
    }
  }

  // ----- clearing

  /** Taking an inode out, over arbitrary pointers: the walk keeps the inode it came from. */
  function ClearFrom(next: seq<nat>, head: nat, prev: nat, cur: nat, ino: nat, steps: nat): (Errno, seq<nat>, nat)
    requires prev < |next|
    decreases steps
  {
    if cur == 0 || steps == 0 then (Ok, next, head)
    else if cur >= |next| then (Eio, next, head)
    else if cur == ino then
      var after := next[cur];
      if prev == 0 then (Ok, next[cur := 0], after) else (Ok, next[cur := 0][prev := after], head)
    else ClearFrom(next, head, cur, next[cur], ino, steps - 1)
  }

  function ClearOp(next: seq<nat>, head: nat, ino: nat): (Errno, seq<nat>, nat)
    requires |next| > 0
  {
    if ino < 1 || ino >= |next| then (Einval, next, head) else ClearFrom(next, head, 0, head, ino, |next| - 1)
  }

  lemma {:induction false} ClearList(next: seq<nat>, head: nat, done: seq<nat>, cur: nat, l: seq<nat>, ino: nat,
                                     steps: nat)
    requires |next| > 0 && Chain(next, head, done, cur) && Chain(next, cur, l, 0) && Distinct(done + l)
    requires ino != 0 && ino !in done && |l| <= steps
    ensures var prev := if done == [] then 0 else done[|done| - 1];
            && prev < |next|
            && var (err, next', head') := ClearFrom(next, head, prev, cur, ino, steps);
               && err == Ok && |next'| == |next|
               && (ino !in l ==> next' == next && head' == head)
               && (ino in l ==> Chain(next', head', done + Without(l, ino), 0) && ino < |next| && next'[ino] == 0)
    decreases steps
  {
    ChainElements(next, head, done, cur);
    ChainElements(next, cur, l, 0);
    if done != [] {
      assert done[|done| - 1] in done;
    }
    if l != [] {
      if cur == ino {
        ClearHere(next, head, done, cur, l);
        assert [] + l[1..] == l[1..];
      } else {
        ClearNext(next, head, done, cur, l, ino);
        hide Chain, Distinct, Without;
        ClearList(next, head, done + [cur], next[cur], l[1..], ino, steps - 1);
      }
    }
  }

  lemma {:induction false} ClearNext(next: seq<nat>, head: nat, done: seq<nat>, cur: nat, l: seq<nat>, ino: nat)
    requires Chain(next, head, done, cur) && l != [] && Chain(next, cur, l, 0) && Distinct(done + l)
    requires ino !in done && cur != ino
    ensures 0 < cur < |next| && Chain(next, head, done + [cur], next[cur]) && Chain(next, next[cur], l[1..], 0)
    ensures Distinct(done + [cur] + l[1..]) && ino !in done + [cur] && (ino in l <==> ino in l[1..])
    ensures done + [cur] + Without(l[1..], ino) == done + Without(l, ino)
  {
    assert done + l == done + [cur] + l[1..];
    assert l == [cur] + l[1..];
    assert Chain(next, next[cur], [], next[cur]) && [cur][1..] == [];
    assert Chain(next, cur, [cur], next[cur]);
    ChainAppend(next, head, done, [cur], next[cur], cur);
    assert Without(l, ino) == [cur] + Without(l[1..], ino);
  }

  lemma {:induction false} ClearHere(next: seq<nat>, head: nat, done: seq<nat>, cur: nat, l: seq<nat>)
    requires Chain(next, head, done, cur) && l != [] && Chain(next, cur, l, 0) && Distinct(done + l)
    ensures 0 < cur < |next| && Without(l, cur) == l[1..]
    ensures done == [] ==> Chain(next[cur := 0], next[cur], l[1..], 0)
    ensures done != [] ==>
              var prev := done[|done| - 1];
              && 0 < prev < |next| && prev != cur
              && Chain(next[cur := 0][prev := next[cur]], head, done + l[1..], 0)
  {
    var rest := l[1..];
    var all := done + l;
    assert forall i :: 0 <= i < |done| ==> all[i] == done[i];
    assert forall i :: 0 <= i < |l| ==> all[|done| + i] == l[i];
    forall i | 0 <= i < |rest| ensures rest[i] != cur {
      assert rest[i] == all[|done| + 1 + i] && all[|done|] == cur;
    }
    forall i | 0 <= i < |done| ensures done[i] != cur {
      assert all[i] == done[i] && all[|done|] == cur;
    }
    ChainElsewhere(next, next[cur], rest, 0, cur, 0);
    if done != [] {
      var prev := done[|done| - 1];
      forall i | 0 <= i < |rest| ensures rest[i] != prev {
        assert rest[i] == all[|done| + 1 + i] && all[|done| - 1] == prev;
      }
      assert Distinct(done);
      ChainElsewhere(next, head, done, cur, cur, 0);
      ChainRedirect(next[cur := 0], head, done, cur, next[cur]);
      ChainElsewhere(next[cur := 0], next[cur], rest, 0, prev, next[cur]);
      ChainAppend(next[cur := 0][prev := next[cur]], head, done, rest, 0, next[cur]);
    }
  }

  lemma {:induction false} WithoutDistinct(l: seq<nat>, x: nat)
    requires Distinct(l)
    ensures Distinct(Without(l, x)) && x !in Without(l, x)
    ensures forall y :: y in Without(l, x) ==> y in l
  {
    if l != [] && l[0] != x {
      WithoutDistinct(l[1..], x);
      var w := Without(l[1..], x);
      forall i | 0 <= i < |w| ensures w[i] != l[0] {
        assert w[i] in l[1..];
        var j :| 0 <= j < |l[1..]| && l[1..][j] == w[i];
        assert l[j + 1] != l[0];
      }
    }
  }

  /** Clearing removes exactly the inode and keeps the order of the rest. */
  lemma {:induction false} ClearRemoves(next: seq<nat>, head: nat, l: seq<nat>, ino: nat)
    requires IsList(next, head, l) && 0 < ino < |next|
    ensures var (err, next', head') := ClearOp(next, head, ino);
            && err == Ok && IsList(next', head', Without(l, ino))
            && (ino !in l ==> next' == next && head' == head && Without(l, ino) == l)
  {
    ChainElements(next, head, l, 0);
    ListBound(l, |next| - 1);
    assert Chain(next, head, [], head) && [] + l == l;
    ClearList(next, head, [], head, l, ino, |next| - 1);
    assert [] + Without(l, ino) == Without(l, ino);
    WithoutDistinct(l, ino);
    if ino !in l {
      WithoutAbsent(l, ino);
    }
  }

  lemma {:induction false} WithoutAbsent(l: seq<nat>, x: nat)
    requires x !in l
    ensures Without(l, x) == l
  {
    if l != [] {
      WithoutAbsent(l[1..], x);
    }
  }

  /** Set and then clear of an absent inode restores the list. */
  lemma {:induction false} SetThenClear(next: seq<nat>, head: nat, l: seq<nat>, ino: nat)
    requires IsList(next, head, l) && 0 < ino < |next| && ino !in l
    ensures var (_, next1, head1) := SetOp(next, head, ino);
            |next1| > 0 && var (err, next2, head2) := ClearOp(next1, head1, ino);
            err == Ok && head2 == head && next2 == next[ino := 0] && IsList(next2, head2, l)
  {
    SetPrepends(next, head, l, ino);
    var (_, next1, head1) := SetOp(next, head, ino);
    ChainElements(next, head, l, 0);
    ListBound(l, |next| - 1);
    WalkList(next, head, l, ino, |next| - 1);
    ChainElsewhere(next, head, l, 0, ino, 0);
  }

  // ----- arbitrary pointers

  /** What the walk means on any pointers, cyclic ones included: it passes `l` and stops at `e`, which is the inode it looks
      for, the end, no inode, or the place where it gives up. */
  lemma {:induction false} WalkMeans(next: seq<nat>, cur: nat, ino: nat, steps: nat) returns (l: seq<nat>, e: nat)
    ensures Chain(next, cur, l, e) && ino !in l && |l| <= steps
    ensures match WalkTo(next, cur, ino, steps)
            case End => e == 0 || |l| == steps
            case Hit => e == ino && e != 0 && |l| < steps
            case Bad => e != ino && e >= |next| && e != 0 && |l| < steps
    decreases steps
  {
    l, e := [], cur;
    if cur != 0 && steps > 0 && cur != ino && cur < |next| {
      l, e := WalkMeans(next, next[cur], ino, steps - 1);
      assert ([cur] + l)[1..] == l;
      l := [cur] + l;
    }
  }

  /** Entering on any pointers: an inode the walk meets stays where it is, a pointer that leads nowhere is an error, and in
      all other cases the inode becomes the head. */
  lemma {:induction false} SetMeans(next: seq<nat>, head: nat, ino: nat) returns (l: seq<nat>, e: nat)
    requires |next| > 0
    ensures Chain(next, head, l, e) && ino !in l && |l| <= |next| - 1
    ensures var (err, next', head') := SetOp(next, head, ino);
            && (err == Einval <==> !(0 < ino < |next|))
            && (err == Eio <==> 0 < ino < |next| && e >= |next| && |l| < |next| - 1)
            && (err == Ok <==> 0 < ino < |next| && !(e >= |next| && |l| < |next| - 1))
            && (err != Ok ==> next' == next && head' == head)
            && (err == Ok && e == ino && |l| < |next| - 1 ==> next' == next && head' == head)
            && (err == Ok && (e != ino || |l| == |next| - 1) ==> next' == next[ino := head] && head' == ino)
  {
    l, e := WalkMeans(next, head, ino, |next| - 1);
  }

  /** Taking out on any pointers, from the inode `prev` on. */
  lemma {:induction false} ClearMeans(next: seq<nat>, head: nat, prev: nat, cur: nat, ino: nat, steps: nat)
    returns (l: seq<nat>, e: nat)
    requires prev < |next| && ino != 0
    ensures Chain(next, cur, l, e) && ino !in l && |l| <= steps
    ensures var (err, next', head') := ClearFrom(next, head, prev, cur, ino, steps);
            var from := if l == [] then prev else l[|l| - 1];
            && from < |next|
            && (err == Eio <==> e >= |next| && |l| < steps) && (err == Eio || err == Ok)
            && (e == ino < |next| && |l| < steps ==>
                  && next' == (if from == 0 then next[ino := 0] else next[ino := 0][from := next[ino]])
                  && head' == if from == 0 then next[ino] else head)
            && (!(e == ino < |next| && |l| < steps) ==> next' == next && head' == head)
    decreases steps
  {
    l, e := [], cur;
    if cur != 0 && steps > 0 && cur < |next| && cur != ino {
      l, e := ClearMeans(next, head, cur, next[cur], ino, steps - 1);
      assert ([cur] + l)[1..] == l;
      l := [cur] + l;
    }
  }

  // ----- the list on disk

  /** The place of the first member of a list that is in a set, or its length. */
  ghost function FirstOf(l: seq<nat>, bad: set<nat>): (k: nat)
    ensures k <= |l| && (k < |l| ==> l[k] in bad) && forall i :: 0 <= i < k ==> l[i] !in bad
  {
    if l == [] || l[0] in bad then 0 else 1 + FirstOf(l[1..], bad)
  }

  class Orphans {
    /** `next[i]` is the pointer of inode `i`; entry 0 is not an inode. */
    var next: array<nat>
    /** Head pointer in the superblock. */
    var head: nat
    /** Inodes released by clean-up, in order. */
    var released: seq<nat>

    constructor (next: array<nat>, head: nat)
      requires next.Length > 0
      ensures this.next == next && this.head == head && released == []
    {
      this.next, this.head, this.released := next, head, [];
    }

    /** Enter an inode. The guard ends the walk on arbitrary pointers. */
    method Set(ino: nat) returns (err: Errno)
      requires next.Length > 0
      modifies this`head, next
      ensures (err, next[..], head) == SetOp(old(next[..]), old(head), ino)
    {
      if ino < 1 || ino >= next.Length {
        return Einval;
      }
      var oldHead := head;
      var walk: nat, guard: nat := oldHead, 0;
      while walk != 0 && guard < next.Length - 1
        invariant guard <= next.Length - 1 && next[..] == old(next[..]) && head == oldHead
        invariant WalkTo(next[..], oldHead, ino, next.Length - 1) == WalkTo(next[..], walk, ino, next.Length - 1 - guard)
        decreases next.Length - 1 - guard
      {
        guard := guard + 1;
        if walk == ino {
          return Ok;
        }
        if walk >= next.Length {
          return Eio;
        }
        walk := next[walk];
      }
      next[ino] := oldHead;
      head := ino;
      err := Ok;
    }

    /** Take an inode out of the list. */
    method Clear(ino: nat) returns (err: Errno)
      requires next.Length > 0
      modifies this`head, next
      ensures (err, next[..], head) == ClearOp(old(next[..]), old(head), ino)
    {
      if ino < 1 || ino >= next.Length {
        return Einval;
      }
      var prev: nat, cur: nat, guard: nat := 0, head, 0;
      while cur != 0 && guard < next.Length - 1
        invariant guard <= next.Length - 1 && prev < next.Length && next[..] == old(next[..]) && head == old(head)
        invariant ClearOp(next[..], head, ino) == ClearFrom(next[..], head, prev, cur, ino, next.Length - 1 - guard)
        decreases next.Length - 1 - guard
      {
        guard := guard + 1;
        if cur >= next.Length {
          return Eio;
        }
        var after := next[cur];
        if cur == ino {
          next[cur] := 0;
          if prev == 0 {
            head := after;
          } else {
            next[prev] := after;
          }
          return Ok;
        }
        prev := cur;
        cur := after;
      }
      err := Ok;
    }

    /** Release every inode of the list, at mount; releasing one of `bad` fails. On arbitrary pointers the walk ends, and
        when it succeeds the list is empty. A proper list is released member by member, each once and in order, up to the
        first one that fails, and the rest of it stays the list. */
    method Cleanup(ghost l: seq<nat>, bad: set<nat>) returns (err: Errno)
      requires next.Length > 0
      modifies this, next
      ensures next == old(next)
      ensures err == Ok ==> head == 0
      ensures IsList(old(next[..]), old(head), l) ==>
                var k := FirstOf(l, bad);
                && (err == Ok <==> k == |l|) && released == old(released) + l[..k] && IsList(next[..], head, l[k..])
                && forall i :: 0 <= i < k ==> 0 < l[i] < next.Length && next[l[i]] == 0
    {
      hide *;
      var cur: nat, guard: nat := head, 0;
      ghost var proper := IsList(next[..], head, l);
      ghost var done: nat := 0;
      if proper {
        ListFacts(next[..], head, l);
      }
      assert l[0..] == l;
      while cur != 0 && guard < next.Length - 1
        invariant next == old(next) && guard <= next.Length - 1
        invariant proper ==>
                    && done == guard <= FirstOf(l, bad) && cur == head && IsList(next[..], head, l[done..])
                    && released == old(released) + l[..done]
                    && forall i :: 0 <= i < done ==> 0 < l[i] < next.Length && next[l[i]] == 0
        invariant proper ==> Distinct(l) && forall x :: x in l ==> 0 < x < next.Length
        decreases next.Length - 1 - guard
      {
        guard := guard + 1;
        ghost var before := next[..];
        if proper {
          CleanStep(before, head, l, done);
        }
        if cur >= next.Length {
          return Eio;
        }
        var after := next[cur];
        if cur in bad {
          return Eio;
        }
        released := released + [cur];
        err := Clear(cur);
        if err != Ok {
          return;
        }
        if proper {
          done := done + 1;
        }
        cur := after;
      }
      err := Ok;
      if proper {
        CleanEnd(next[..], head, l, done);
      }
      if head != 0 {
        head := 0;
      }
    }
  }

  lemma {:induction false} ListFacts(next: seq<nat>, head: nat, l: seq<nat>)
    requires IsList(next, head, l) && |next| > 0
    ensures Distinct(l) && (forall x :: x in l ==> 0 < x < |next|) && |l| <= |next| - 1
  {
    ChainElements(next, head, l, 0);
    ListBound(l, |next| - 1);
  }

  /** Releasing the head of what is left of a list. */
  lemma {:induction false} CleanStep(next: seq<nat>, head: nat, l: seq<nat>, done: nat)
    requires done <= |l| && IsList(next, head, l[done..]) && head != 0 && Distinct(l)
    requires forall i :: 0 <= i < done ==> 0 < l[i] < |next| && next[l[i]] == 0
    ensures done < |l| && head == l[done] && 0 < head < |next|
    ensures var (err, next', head') := ClearOp(next, head, head);
            && err == Ok && |next'| == |next| && head' == next[head] && IsList(next', head', l[done + 1..])
            && forall i :: 0 <= i < done + 1 ==> 0 < l[i] < |next| && next'[l[i]] == 0
  {
    assert done < |l| && l[done..][0] == l[done];
    assert l[done..][1..] == l[done + 1..];
    var rest := l[done + 1..];
    ChainElements(next, next[head], rest, 0);
    ListBound(l[done..], |next| - 1) by { ChainElements(next, head, l[done..], 0); }
    forall i | 0 <= i < |rest| ensures rest[i] != head {
      assert rest[i] == l[done + 1 + i];
    }
    ChainElsewhere(next, next[head], rest, 0, head, 0);
  }

  lemma {:induction false} CleanEnd(next: seq<nat>, head: nat, l: seq<nat>, done: nat)
    requires done <= |l| && IsList(next, head, l[done..]) && (head == 0 || done >= |next| - 1) && |l| <= |next| - 1
    ensures done == |l| && head == 0
  {
  }
}
