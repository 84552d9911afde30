/** The byte layout of a key pair as `newKeyPair` and `NewKeyPairWithBytes` produce it
    (test/wallet.go). Key generation itself (a random scalar on P-256) is not modelled:
    the generated key arrives as a parameter. */
module KeyPair {
  import opened Bytes

  /** An ECDSA private key: the scalar `d` and the public point (`x`, `y`). */
  datatype PrivateKey = PrivateKey(d: nat, x: nat, y: nat)

  /** The public key bytes: `X.Bytes() ++ Y.Bytes()`, each coordinate in its minimal
      big-endian form, with no fixed-width padding. */
  function PublicKeyBytes(x: nat, y: nat): (pub: seq<byte>)
    ensures |pub| == |MinimalBytes(x)| + |MinimalBytes(y)|
    ensures Value(pub[..|MinimalBytes(x)|]) == x
    ensures Value(pub[|MinimalBytes(x)|..]) == y
  {
    var pub := MinimalBytes(x) + MinimalBytes(y);
    assert pub[..|MinimalBytes(x)|] == MinimalBytes(x);
    assert pub[|MinimalBytes(x)|..] == MinimalBytes(y);
    pub
  }

  /** For coordinates below 2^256 the public key is at most 64 bytes long, and exactly
      the sum of the two minimal lengths: it is shorter whenever a coordinate is small. */
  lemma PublicKeyBytesLength(x: nat, y: nat)
    requires x < Pow256(32) && y < Pow256(32)
    ensures |PublicKeyBytes(x, y)| == |MinimalBytes(x)| + |MinimalBytes(y)| <= 64
  {
    MinimalBytesLength(x, 32);
    MinimalBytesLength(y, 32);
  }

  /** The public key is not always 64 bytes: the point (1, 1) yields 2 bytes. */
  lemma PublicKeyBytesNotFixedWidth()
    ensures |PublicKeyBytes(1, 1)| == 2
  {
  }

  /** Without padding two different points can share their public key bytes:
      (0x0102, 0x03) and (0x01, 0x0203) both give [1, 2, 3]. */
  lemma PublicKeyBytesAmbiguous()
    ensures PublicKeyBytes(258, 3) == PublicKeyBytes(1, 515) == [1, 2, 3]
  {
  }

  /** What `paddedAppend(size, dst, src)` returns: `dst`, then as many zeros as `src`
      falls short of `size`, then `src`. */
  function LeftPadded(size: nat, dst: seq<byte>, src: seq<byte>): seq<byte>
  {
    dst + Zeros(if size > |src| then size - |src| else 0) + src
  }

  /** `paddedAppend`: append `size - len(src)` zeros to `dst` one at a time, then `src`. */
  method PaddedAppend(size: nat, dst: seq<byte>, src: seq<byte>) returns (r: seq<byte>)
    ensures r == LeftPadded(size, dst, src)
  {
    var bound := size as int - |src|;
    r := dst;
    var i := 0;
    while i < bound
      invariant 0 <= i && (i <= bound || i == 0)
      invariant r == dst + Zeros(i)
    {
      r := r + [0];
      i := i + 1;
    }
    r := r + src;
  }

  /** The padded result keeps `dst` in front, `src` at the end and only zeros between,
      and is `max(size, |src|)` bytes longer than `dst`. */
  lemma LeftPaddedLayout(size: nat, dst: seq<byte>, src: seq<byte>)
    ensures var r := LeftPadded(size, dst, src);
      && |r| == |dst| + (if size > |src| then size else |src|)
      && r[..|dst|] == dst
      && r[|r| - |src|..] == src
      && forall i :: |dst| <= i < |r| - |src| ==> r[i] == 0
  {
  }

  /** Into an empty buffer, anything no longer than `size` pads to exactly `size` bytes,
      ends with `src`, and denotes the same number as `src`. */
  lemma LeftPaddedFixedWidth(size: nat, src: seq<byte>)
    requires |src| <= size
    ensures |LeftPadded(size, [], src)| == size
    ensures LeftPadded(size, [], src)[size - |src|..] == src
    ensures Value(LeftPadded(size, [], src)) == Value(src)
  {
    LeftPaddedLayout(size, [], src);
    assert LeftPadded(size, [], src) == Zeros(size - |src|) + src;
    ZerosValue(size - |src|, src);
  }

  /** The private key bytes of a scalar below 2^256 are exactly 32 bytes and encode the
      scalar, so two different scalars never share their private key bytes. */
  lemma PaddedScalar(d: nat, d': nat)
    requires d < Pow256(32) && d' < Pow256(32)
    ensures |LeftPadded(32, [], MinimalBytes(d))| == 32
    ensures Value(LeftPadded(32, [], MinimalBytes(d))) == d
    ensures LeftPadded(32, [], MinimalBytes(d)) == LeftPadded(32, [], MinimalBytes(d')) <==> d == d'
  {
    MinimalBytesLength(d, 32);
    LeftPaddedFixedWidth(32, MinimalBytes(d));
    MinimalBytesLength(d', 32);
    LeftPaddedFixedWidth(32, MinimalBytes(d'));
  }

  /** `newKeyPair`: the generated key together with its public key bytes. */
  function NewKeyPair(k: PrivateKey): (r: (PrivateKey, seq<byte>))
    ensures r.0 == k
    ensures |r.1| == |MinimalBytes(k.x)| + |MinimalBytes(k.y)|
  {
    (k, PublicKeyBytes(k.x, k.y))
  }

  /** `NewKeyPairWithBytes`: the scalar left-padded to 32 bytes, and the public key bytes. */
  method NewKeyPairWithBytes(k: PrivateKey) returns (priKey: seq<byte>, pubKey: seq<byte>)
    ensures priKey == LeftPadded(32, [], MinimalBytes(k.d))
    ensures k.d < Pow256(32) ==> |priKey| == 32 && Value(priKey) == k.d
    ensures pubKey == PublicKeyBytes(k.x, k.y)
  {
    priKey := PaddedAppend(32, [], MinimalBytes(k.d));
    if k.d < Pow256(32) {
      PaddedScalar(k.d, k.d);
    }
    pubKey := PublicKeyBytes(k.x, k.y);
  }
}
