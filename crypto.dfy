/** The foreign collaborators of the address pipeline: the SHA-256 and RIPEMD-160 hash
    engines and the Base58 codec. Their internals are not modelled; an `Engines` value
    stands for one choice of them, and every operation of the wallet takes it as a parameter. */
module Crypto {
  import opened Bytes

  /** What `sha256.Sum256` returns: a fixed 32-byte array. */
  type Digest32 = s: seq<byte> | |s| == 32 witness Zeros(32)

  /** What a RIPEMD-160 hasher's `Sum(nil)` returns: 20 bytes. */
  type Digest20 = s: seq<byte> | |s| == 20 witness Zeros(20)

  /** The hash engines, with their output widths fixed by their result types, and the
      Base58 codec over byte strings (the address text is handled as its bytes). */
  datatype Engines = Engines(
    sha256: seq<byte> -> Digest32,
    ripemd160: seq<byte> -> Digest20,
    base58Encode: seq<byte> -> seq<byte>,
    base58Decode: seq<byte> -> seq<byte>)

  /** The codec's contract: decoding inverts encoding. */
  ghost predicate Base58RoundTrips(e: Engines)
  {
    forall x :: e.base58Decode(e.base58Encode(x)) == x
  }
}
