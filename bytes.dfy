/** Byte sequences and the big-endian integer encoding that Go's math/big uses
    (`(*big.Int).Bytes()`), which the key-pair code feeds into the address pipeline. */
module Bytes {

  /** Go's `byte` (uint8). */
  newtype byte = b: int | 0 <= b < 256

  /** `k` zero bytes. */
  function Zeros(k: nat): (z: seq<byte>)
    ensures |z| == k
    ensures forall i :: 0 <= i < k ==> z[i] == 0
  {
    seq(k, _ => 0)
  }

  /** 256^k: the number of distinct k-byte strings. */
  function Pow256(k: nat): (p: nat)
    ensures p >= 1
  {
    if k == 0 then 1 else 256 * Pow256(k - 1)
  }

  /** The unsigned integer that a big-endian byte string denotes (the empty string denotes 0). */
  function Value(s: seq<byte>): nat
  {
    if s == [] then 0 else Value(s[..|s| - 1]) * 256 + s[|s| - 1] as nat
  }

  /** The minimal big-endian encoding of `n`, as `(*big.Int).Bytes()` returns it: it
      denotes `n`, has no leading zero byte, and zero encodes as the empty string. */
  function MinimalBytes(n: nat): (b: seq<byte>)
    ensures Value(b) == n
    ensures b == [] <==> n == 0
    ensures b == [] || b[0] != 0
  {
    if n == 0 then []
    else
      var high := MinimalBytes(n / 256);
      var b := high + [(n % 256) as byte];
      assert b[..|b| - 1] == high;
      assert high != [] ==> b[0] == high[0];
      b
  }

  /** The minimal encoding fits in `k` bytes exactly when `n < 256^k`. */
  lemma {:induction false} MinimalBytesLength(n: nat, k: nat)
    ensures |MinimalBytes(n)| <= k <==> n < Pow256(k)
  {
    if n != 0 {
      if k == 0 {
        assert |MinimalBytes(n)| >= 1;
      } else {
        MinimalBytesLength(n / 256, k - 1);
        assert n / 256 < Pow256(k - 1) <==> n < 256 * Pow256(k - 1);
      }
    }
  }

  /** Left-padding with zeros does not change the denoted number. */
  lemma {:induction false} ZerosValue(k: nat, s: seq<byte>)
    ensures Value(Zeros(k) + s) == Value(s)
  {
    if s == [] {
      assert Zeros(k) + s == Zeros(k);
      if k != 0 {
        assert Zeros(k)[..k - 1] == Zeros(k - 1);
        ZerosValue(k - 1, []);
        assert Zeros(k - 1) + [] == Zeros(k - 1);
      }
    } else {
      var t := Zeros(k) + s;
      assert t[..|t| - 1] == Zeros(k) + s[..|s| - 1];
      ZerosValue(k, s[..|s| - 1]);
    }
  }
}
