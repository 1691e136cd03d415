/** Little-endian numbers in byte buffers: a number of a fixed width is written and read back, and bytes put
    into a buffer leave the rest of it alone. */
module Bytes {
  type byte = x: int | 0 <= x < 256

  const BLOCK_SIZE := 4096

  type Block = b: seq<byte> | |b| == BLOCK_SIZE witness seq(BLOCK_SIZE, i => 0)

  function Pow256(n: nat): nat {
    if n == 0 then 1 else 256 * Pow256(n - 1)
  }

  /** The number a little-endian string of bytes stands for. */
  function Value(s: seq<byte>): nat {
    if s == [] then 0 else s[0] + 256 * Value(s[1..])
  }

  /** `v` in `n` little-endian bytes. */
  function Encode(v: nat, n: nat): (s: seq<byte>)
    ensures |s| == n
  {
    if n == 0 then [] else [v % 256] + Encode(v / 256, n - 1)
  }

  lemma {:induction false} ValueOfEncode(v: nat, n: nat)
    requires v < Pow256(n)
    ensures Value(Encode(v, n)) == v
  {
    if n > 0 {
      ValueOfEncode(v / 256, n - 1);
      assert Encode(v, n)[1..] == Encode(v / 256, n - 1);
    }
  }

  lemma {:induction false} Widths()
    ensures Pow256(1) == 256 && Pow256(2) == 0x1_0000 && Pow256(4) == 0x1_0000_0000
    ensures Pow256(8) == 0x1_0000_0000_0000_0000
  {
    assert Pow256(4) == 256 * Pow256(3) && Pow256(3) == 256 * Pow256(2);
    assert Pow256(8) == 256 * Pow256(7) && Pow256(7) == 256 * Pow256(6) && Pow256(6) == 256 * Pow256(5)
           && Pow256(5) == 256 * Pow256(4);
  }

  /** `b` with `bytes` stored from offset `o` on. */
  function Put(b: seq<byte>, o: nat, bytes: seq<byte>): (r: seq<byte>)
    requires o + |bytes| <= |b|
    ensures |r| == |b| && r[o..o + |bytes|] == bytes
    ensures forall i :: 0 <= i < |b| && !(o <= i < o + |bytes|) ==> r[i] == b[i]
  {
    b[..o] + bytes + b[o + |bytes|..]
  }

  lemma {:induction false} LowByte(low: byte, high: nat)
    ensures (low + 256 * high) % 256 == low && (low + 256 * high) / 256 == high
  {
  }

  lemma {:induction false} EncodeOfValue(s: seq<byte>)
    ensures Encode(Value(s), |s|) == s
  {
    if s != [] {
      EncodeOfValue(s[1..]);
      LowByte(s[0], Value(s[1..]));
      assert Encode(Value(s), |s|) == [s[0]] + Encode(Value(s[1..]), |s| - 1);
    }
  }

  lemma {:induction false} ValueBound(s: seq<byte>)
    ensures Value(s) < Pow256(|s|)
  {
    if s != [] {
      ValueBound(s[1..]);
    }
  }

  function Zeros(n: nat): (s: seq<byte>)
    ensures |s| == n
  {
    seq(n, i => 0)
  }

  /** A slice of a slice. */
  lemma {:induction false} SubSlice(b: seq<byte>, o: nat, n: nat, i: nat, j: nat)
    requires i <= j <= n && o + n <= |b|
    ensures b[o..o + n][i..j] == b[o + i..o + j]
  {
    var s := b[o..o + n];
    forall k | 0 <= k < j - i ensures s[i..j][k] == b[o + i..o + j][k] {
      assert s[i + k] == b[o + i + k];
    }
  }
}
