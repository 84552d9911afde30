/** Address derivation and validation (test/wallet.go): a public key is hashed to 20 bytes,
    prefixed with a version byte, suffixed with a 4-byte checksum and Base58-encoded;
    validation decodes an address and recomputes the checksum over everything before the
    trailing 4 bytes. */
module Wallet {
  import opened Bytes
  import opened Crypto
  import opened KeyPair

  /** The address version byte. */
  const Version: byte := 0x00

  /** The number of checksum bytes at the end of an address payload. */
  const AddressChecksumLen: nat := 4

  /** A wallet: the private key and the public key bytes it was created with. */
  datatype Wallet = Wallet(privateKey: PrivateKey, publicKey: seq<byte>)

  /** What a call can end in: a returned value, or a run-time panic (a slice out of range). */
  datatype Outcome<T> = Returned(value: T) | Panic

  /** `NewWallet`, for the key that generation produced. */
  function NewWallet(k: PrivateKey): (w: Wallet)
    ensures w.privateKey == k && w.publicKey == PublicKeyBytes(k.x, k.y)
  {
    var (private, public) := NewKeyPair(k);
    Wallet(private, public)
  }

  /** `checksum`: the first four bytes of the double SHA-256 of the payload. */
  function Checksum(e: Engines, payload: seq<byte>): (c: seq<byte>)
    ensures |c| == AddressChecksumLen
    ensures c <= e.sha256(e.sha256(payload))
  {
    var firstSHA := e.sha256(payload);
    var secondSHA := e.sha256(firstSHA);
    secondSHA[..AddressChecksumLen]
  }

  /** `HashPubKey`: RIPEMD-160 of the SHA-256 of the public key, 20 bytes. */
  function HashPubKey(e: Engines, pubKey: seq<byte>): (h: seq<byte>)
    ensures |h| == 20
  {
    var publicSHA256 := e.sha256(pubKey);
    e.ripemd160(publicSHA256)
  }

  /** The bytes `GetAddress` hands to the Base58 encoder: version, hash and the checksum
      of those two. */
  function FullPayload(e: Engines, pubKey: seq<byte>): (f: seq<byte>)
    ensures |f| == 1 + 20 + AddressChecksumLen == 25
    ensures f[0] == Version
    ensures f[1..21] == HashPubKey(e, pubKey)
    ensures f[21..] == Checksum(e, f[..21])
  {
    var versionedPayload := [Version] + HashPubKey(e, pubKey);
    assert versionedPayload == (versionedPayload + Checksum(e, versionedPayload))[..21];
    versionedPayload + Checksum(e, versionedPayload)
  }

  /** `GetAddress`: the Base58 encoding of the full payload. */
  function GetAddress(e: Engines, w: Wallet): (address: seq<byte>)
    ensures Base58RoundTrips(e) ==> e.base58Decode(address) == FullPayload(e, w.publicKey)
  {
    e.base58Encode(FullPayload(e, w.publicKey))
  }

  /** The checks `ValidateAddress` runs on the decoded payload, made total: a payload too
      short to hold a version byte and a checksum is rejected. The version byte is read back
      into the checksummed bytes but never compared with `Version`. */
  function ValidatePayload(e: Engines, pubKeyHash: seq<byte>): (ok: bool)
    ensures ok <==> |pubKeyHash| >= 1 + AddressChecksumLen
                    && pubKeyHash[|pubKeyHash| - AddressChecksumLen..]
                       == Checksum(e, pubKeyHash[..|pubKeyHash| - AddressChecksumLen])
  {
    if |pubKeyHash| < 1 + AddressChecksumLen then false
    else
      var actualChecksum := pubKeyHash[|pubKeyHash| - AddressChecksumLen..];
      var version := pubKeyHash[0];
      var body := pubKeyHash[1..|pubKeyHash| - AddressChecksumLen];
      VersionReconstruction(pubKeyHash);
      var targetChecksum := Checksum(e, [version] + body);
      actualChecksum == targetChecksum
  }

  /** The same checks as the source writes them: the slice for the trailing checksum panics
      below 4 bytes, and the slice for the body panics below 5. */
  function ValidatePayloadAsWritten(e: Engines, pubKeyHash: seq<byte>): (r: Outcome<bool>)
    ensures r.Panic? <==> |pubKeyHash| < 1 + AddressChecksumLen
    ensures r.Returned? ==> r.value == ValidatePayload(e, pubKeyHash)
  {
    if |pubKeyHash| < AddressChecksumLen then Panic
    else
      var actualChecksum := pubKeyHash[|pubKeyHash| - AddressChecksumLen..];
      var version := pubKeyHash[0];
      if 1 > |pubKeyHash| - AddressChecksumLen then Panic
      else
        var body := pubKeyHash[1..|pubKeyHash| - AddressChecksumLen];
        Returned(actualChecksum == Checksum(e, [version] + body))
  }

  /** `ValidateAddress`, rejecting addresses that decode to fewer than 5 bytes. */
  function ValidateAddress(e: Engines, address: seq<byte>): (ok: bool)
    ensures var d := e.base58Decode(address);
      ok <==> |d| >= 1 + AddressChecksumLen
              && d[|d| - AddressChecksumLen..] == Checksum(e, d[..|d| - AddressChecksumLen])
  {
    ValidatePayload(e, e.base58Decode(address))
  }

  /** `ValidateAddress` as written: it panics on an address that decodes to fewer than 5 bytes. */
  function ValidateAddressAsWritten(e: Engines, address: seq<byte>): (r: Outcome<bool>)
    ensures r.Panic? <==> |e.base58Decode(address)| < 1 + AddressChecksumLen
  {
    ValidatePayloadAsWritten(e, e.base58Decode(address))
  }

  /** Putting the version byte back in front of the body gives exactly the bytes before the
      checksum. */
  lemma VersionReconstruction(d: seq<byte>)
    requires |d| >= 1 + AddressChecksumLen
    ensures [d[0]] + d[1..|d| - AddressChecksumLen] == d[..|d| - AddressChecksumLen]
  {
  }

  /** A payload validates exactly when it is its first bytes followed by their checksum:
      the checksum alone decides, and a valid payload is fixed by the bytes before it. */
  lemma ValidPayloadCharacterized(e: Engines, d: seq<byte>)
    ensures ValidatePayload(e, d) <==>
      |d| >= 1 + AddressChecksumLen
      && d == d[..|d| - AddressChecksumLen] + Checksum(e, d[..|d| - AddressChecksumLen])
  {
  }

  /** Validation accepts any version byte, not only `Version` (0x01 as well as 0x00):
      every byte followed by any body and the checksum of the two validates. */
  lemma AcceptsAnyVersion(e: Engines, v: byte, body: seq<byte>)
    ensures ValidatePayload(e, [v] + body + Checksum(e, [v] + body))
  {
  }

  /** Changing only the trailing checksum of a valid payload makes it invalid. */
  lemma TamperedChecksumRejected(e: Engines, d: seq<byte>, d': seq<byte>)
    requires ValidatePayload(e, d)
    requires |d'| == |d| && d'[..|d| - AddressChecksumLen] == d[..|d| - AddressChecksumLen]
    requires d' != d
    ensures !ValidatePayload(e, d')
  {
  }

  /** The payload built by `GetAddress` passes validation. */
  lemma FullPayloadValidates(e: Engines, pubKey: seq<byte>)
    ensures ValidatePayload(e, FullPayload(e, pubKey))
    ensures ValidatePayloadAsWritten(e, FullPayload(e, pubKey)) == Returned(true)
  {
  }

  /** Round trip: when Base58 decoding inverts encoding, every wallet's address validates,
      both in the total model and as the source writes it. */
  lemma AddressRoundTrip(e: Engines, w: Wallet)
    requires Base58RoundTrips(e)
    ensures e.base58Decode(GetAddress(e, w)) == FullPayload(e, w.publicKey)
    ensures ValidateAddress(e, GetAddress(e, w))
    ensures ValidateAddressAsWritten(e, GetAddress(e, w)) == Returned(true)
  {
  }

  /** A freshly created wallet's address validates. */
  lemma NewWalletAddressValidates(e: Engines, k: PrivateKey)
    requires Base58RoundTrips(e)
    ensures ValidateAddress(e, GetAddress(e, NewWallet(k)))
  {
  }

  /** Any address that decodes to fewer than 5 bytes makes the source panic, where the
      total model rejects it. */
  lemma ShortAddressPanics(e: Engines, address: seq<byte>)
    requires |e.base58Decode(address)| < 1 + AddressChecksumLen
    ensures ValidateAddressAsWritten(e, address) == Panic
    ensures !ValidateAddress(e, address)
  {
  }

  /** On addresses of at least 5 decoded bytes the source and the total model agree. */
  lemma AsWrittenAgreesOnLongAddresses(e: Engines, address: seq<byte>)
    requires |e.base58Decode(address)| >= 1 + AddressChecksumLen
    ensures ValidateAddressAsWritten(e, address) == Returned(ValidateAddress(e, address))
  {
  }
}
