/** A block device as a sequence of blocks, synchronous block writes, and what a list of
    writes leaves behind. Every crash image of an operation is `Apply(d, ws[..k])`. */
module Device {
  datatype Option<+T> = None | Some(value: T)

  /** One synchronous write of a whole block. */
  datatype Write<T> = Write(block: nat, value: T)

  /** Store one block; a write past the end of the device fails and changes nothing. */
  function Store<T>(d: seq<T>, w: Write<T>): (r: seq<T>)
    ensures |r| == |d|
  {
    if w.block < |d| then d[w.block := w.value] else d
  }

  /** The device after all the writes, oldest first. */
  function Apply<T>(d: seq<T>, ws: seq<Write<T>>): (r: seq<T>)
    ensures |r| == |d|
  {
    if ws == [] then d
    else Store(Apply(d, ws[..|ws| - 1]), ws[|ws| - 1])
  }

  /** The value the youngest write to block `b` carries, if any. */
  function LastWrite<T>(ws: seq<Write<T>>, b: nat): Option<T> {
    if ws == [] then None
    else if ws[|ws| - 1].block == b then Some(ws[|ws| - 1].value)
    else LastWrite(ws[..|ws| - 1], b)
  }

  lemma {:induction false} ApplyAppend<T>(d: seq<T>, a: seq<Write<T>>, b: seq<Write<T>>)
    ensures Apply(d, a + b) == Apply(Apply(d, a), b)
  {
    if b == [] {
      assert a + b == a;
    } else {
      assert (a + b)[..|a + b| - 1] == a + b[..|b| - 1];
      ApplyAppend(d, a, b[..|b| - 1]);
    }
  }

  lemma {:induction false} ApplyOne<T>(d: seq<T>, w: Write<T>)
    ensures Apply(d, [w]) == Store(d, w)
  {
    assert [w][..0] == [];
  }

  /** A block holds its youngest write, or what it held before. */
  lemma {:induction false} ApplyAt<T>(d: seq<T>, ws: seq<Write<T>>, b: nat)
    requires b < |d|
    ensures Apply(d, ws)[b] == match LastWrite(ws, b) case None => d[b] case Some(v) => v
  {
    if ws != [] {
      ApplyAt(d, ws[..|ws| - 1], b);
    }
  }

  lemma {:induction false} LastWriteHit<T>(ws: seq<Write<T>>, b: nat)
    ensures LastWrite(ws, b).Some? <==> exists i :: 0 <= i < |ws| && ws[i].block == b
    ensures LastWrite(ws, b).Some? ==>
              exists i :: 0 <= i < |ws| && ws[i].block == b && ws[i].value == LastWrite(ws, b).value
  {
    if ws != [] {
      var init := ws[..|ws| - 1];
      LastWriteHit(init, b);
      if ws[|ws| - 1].block != b {
        assert forall i :: 0 <= i < |init| ==> init[i] == ws[i];
        if LastWrite(init, b).Some? {
          var i :| 0 <= i < |init| && init[i].block == b && init[i].value == LastWrite(init, b).value;
          assert ws[i].block == b && ws[i].value == LastWrite(ws, b).value;
        }
      }
    }
  }

  /** With pairwise different targets every write is the youngest one to its block. */
  lemma {:induction false} LastWriteDistinct<T>(ws: seq<Write<T>>, i: nat)
    requires i < |ws|
    requires forall j, k :: 0 <= j < k < |ws| ==> ws[j].block != ws[k].block
    ensures LastWrite(ws, ws[i].block) == Some(ws[i].value)
  {
    if i < |ws| - 1 {
      LastWriteDistinct(ws[..|ws| - 1], i);
    }
  }
}
