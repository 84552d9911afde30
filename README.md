# Wallet address derivation and validation

A Dafny model of the address pipeline of a small Bitcoin-style wallet (`test/wallet.go`).

- **Derivation.** `GetAddress` hashes the wallet's public key bytes with SHA-256 and then RIPEMD-160, giving 20 bytes. It puts the version byte `0x00` in front and appends a 4-byte checksum: the first four bytes of a double SHA-256 of those 21 bytes. The 25-byte result goes to the Base58 encoder.
- **Validation.** `ValidateAddress` decodes an address. It splits the result into version byte, body and the trailing 4 bytes. It accepts when those 4 bytes equal the checksum of the version byte followed by the body.
- **Key pairs.** The public key bytes are the X coordinate followed by the Y coordinate, each in minimal big-endian form (`big.Int.Bytes()`). `NewKeyPairWithBytes` calls `paddedAppend` to left-pad the private scalar to 32 bytes. test/wallet.go has no live definition of `paddedAppend`: its only text is the commented-out definition at test/wallet.go:111-116. The model takes that commented-out loop as the function the call at test/wallet.go:102 runs.

Modules:

- `Bytes` (bytes.dfy): the byte type, zero runs, big-endian values and the minimal big-endian encoding.
- `Crypto` (crypto.dfy): the foreign hash engines and the Base58 codec, bundled in an `Engines` value.
- `KeyPair` (keypair.dfy): the public and private key byte layout, and `paddedAppend`.
- `Wallet` (wallet.dfy): checksum, public-key hash, address derivation and validation.

The hash engines and the codec are not modelled internally. Every wallet operation takes an `Engines` value that holds them, so each property is proved for *every* choice of engines. The result types fix the widths: `sha256` returns a `Digest32` (32 bytes, as `sha256.Sum256` returns `[32]byte`) and `ripemd160` returns a `Digest20`. The Base58 codec's contract, that decode inverts encode, is the predicate `Crypto.Base58RoundTrips`. Only the round-trip lemmas require it.

Addresses are handled as byte strings. Go's `string(...)` and `[]byte(...)` conversions between `GetAddress`'s result and `ValidateAddress`'s argument do not change the bytes.

Two behaviours of the code are worth knowing:

- **Short input to `ValidateAddress`.** `ValidateAddress` slices the decoded payload without a length check, so it panics when the decoding has fewer than 5 bytes. A validator of untrusted text should answer instead. `Wallet.ValidateAddressAsWritten` models the code and returns `Panic` for those inputs. `Wallet.ValidateAddress` is a total variant that returns false. The round trip is proved for both (see Findings).
- **Public key width.** The public key is not fixed width: the code concatenates the two minimal coordinate encodings without padding. `KeyPair.PublicKeyBytesNotFixedWidth` and `KeyPair.PublicKeyBytesAmbiguous` show what that implies.

## Model

| member | source | states |
|---|---|---|
| `Wallet.Checksum` | test/wallet.go:70-75 | the checksum is exactly `addressChecksumLen` = 4 bytes and is a prefix of SHA-256(SHA-256(payload)) |
| `Wallet.HashPubKey` | test/wallet.go:45-56 | the public-key hash, RIPEMD-160 over the SHA-256 digest, is 20 bytes long |
| `Wallet.FullPayload` | test/wallet.go:32-38 | the payload that `GetAddress` encodes is 25 bytes: byte 0 is `version` (0x00), bytes 1..21 are `HashPubKey(pub)`, and the last 4 bytes are the checksum of the first 21 |
| `Wallet.GetAddress` | test/wallet.go:32-42 | when Base58 decoding inverts encoding, decoding the address gives back exactly the 25-byte payload of version, public-key hash and checksum |
| `Wallet.NewWallet` | test/wallet.go:24-29 | a new wallet holds the generated key and that key's public key bytes `X.Bytes() ++ Y.Bytes()` |
| `Wallet.ValidatePayload` | test/wallet.go:61-66 | a decoded payload is accepted exactly when it has at least 5 bytes and its last 4 bytes equal the checksum of all the bytes before them; `d[0]` is never compared with `version` |
| `Wallet.ValidatePayloadAsWritten` | test/wallet.go:61-66 | the source's slicing panics exactly when the decoded payload has fewer than 5 bytes, and otherwise returns the same verdict as the total validator |
| `Wallet.ValidateAddress` | test/wallet.go:59-67 | an address validates exactly when its Base58 decoding `d` has at least 5 bytes and its last 4 bytes equal the checksum of `d[..len(d)-4]` |
| `Wallet.ValidateAddressAsWritten` | test/wallet.go:59-67 | validating an address panics exactly when its Base58 decoding is shorter than 5 bytes |
| `Wallet.VersionReconstruction` | test/wallet.go:62-64 | for a payload of at least 5 bytes, the version byte followed by the body `d[1..n-4]` is exactly `d[..n-4]` |
| `Wallet.ValidPayloadCharacterized` | test/wallet.go:59-67 | a payload is valid if and only if it equals its leading bytes followed by their checksum, so the checksum alone decides |
| `Wallet.AcceptsAnyVersion` | test/wallet.go:62-66 | any version byte (0x01 as well as `version` = 0x00) followed by any body and their checksum validates, so the version byte plays no part in the verdict |
| `Wallet.TamperedChecksumRejected` | test/wallet.go:61-66 | changing only the trailing checksum bytes of a valid payload makes it invalid |
| `Wallet.FullPayloadValidates` | test/wallet.go:32-42 | the payload built by `GetAddress` passes both the total and the as-written validation |
| `Wallet.AddressRoundTrip` | test/wallet.go:32-42 | if Base58 decode inverts encode, decoding a wallet's address gives back its 25-byte payload, and the address validates under both validators |
| `Wallet.NewWalletAddressValidates` | test/wallet.go:24-42 | the address of a freshly created wallet validates |
| `Wallet.ShortAddressPanics` | test/wallet.go:60-63 | an address decoding to fewer than 5 bytes panics in the source and is rejected by the total validator |
| `Wallet.AsWrittenAgreesOnLongAddresses` | test/wallet.go:60-66 | on addresses decoding to at least 5 bytes, the source and the total validator agree |
| `KeyPair.NewKeyPair` | test/wallet.go:77-92 | `newKeyPair` returns the generated key unchanged, with public key bytes as long as the two minimal coordinate encodings together |
| `KeyPair.PublicKeyBytes` | test/wallet.go:89 | the public key bytes are as long as the two minimal coordinate encodings together; the first part denotes X and the rest denotes Y |
| `KeyPair.PublicKeyBytesLength` | test/wallet.go:89 | for coordinates below 2^256 the public key length is the sum of the two minimal lengths, at most 64 |
| `KeyPair.PublicKeyBytesNotFixedWidth` | test/wallet.go:89 | the public key is not fixed width: the point (1, 1) gives 2 bytes |
| `KeyPair.PublicKeyBytesAmbiguous` | test/wallet.go:103 | without padding, the points (0x0102, 0x03) and (0x01, 0x0203) give the same public key bytes |
| `KeyPair.PaddedAppend` | test/wallet.go:111-116 | the zero-appending loop returns `dst`, then `max(0, size - len(src))` zeros, then `src` |
| `KeyPair.LeftPaddedLayout` | test/wallet.go:111-116 | the padded result starts with `dst`, ends with `src`, has only zeros between them, and is `max(size, len(src))` bytes longer than `dst` |
| `KeyPair.LeftPaddedFixedWidth` | test/wallet.go:111-116 | padding an empty buffer with `src` no longer than `size` gives exactly `size` bytes, ending with `src` and with the same big-endian value |
| `KeyPair.PaddedScalar` | test/wallet.go:100-102 | a private scalar below 2^256 pads to exactly 32 bytes whose big-endian value is the scalar, and different scalars give different bytes |
| `KeyPair.NewKeyPairWithBytes` | test/wallet.go:94-106 | the private key bytes are the scalar padded to 32 bytes and encode the scalar; the public key bytes are `X.Bytes() ++ Y.Bytes()` |
| `Bytes.MinimalBytes` | test/wallet.go:100 | the minimal big-endian encoding that `big.Int.Bytes()` returns denotes the number, is empty exactly for zero, and never starts with a zero byte |
| `Bytes.MinimalBytesLength` | test/wallet.go:100-103 | the minimal encoding fits in `k` bytes exactly when the number is below 256^k |
| `Bytes.ZerosValue` | test/wallet.go:111-116 | leading zero bytes do not change a big-endian value |

## Findings

| source | as written | input that shows it | evidently intended | confidence | as-written member | corrected member |
|---|---|---|---|---|---|---|
| test/wallet.go:60-63 | the decoded payload is sliced as `[len-4:]` and `[1:len-4]` with no length check, so the process panics | any address whose Base58 decoding has fewer than 5 bytes, for example one that decodes to the empty byte string | reject such an address by returning false, because a validator of untrusted text is meant to answer, not crash | medium, not executed | `Wallet.ShortAddressPanics` (over `Wallet.ValidateAddressAsWritten`) | `Wallet.ValidateAddress`, with `Wallet.AddressRoundTrip` and `Wallet.AsWrittenAgreesOnLongAddresses` |

## Left out

- Key generation (test/wallet.go:77-82, 94-99): `ecdsa.GenerateKey` on P-256 with `crypto/rand` is randomness plus elliptic-curve arithmetic in a foreign library. The generated key is a parameter (`KeyPair.PrivateKey`). The model does not state the relation between the private scalar and the public point.
- SHA-256 and RIPEMD-160 internals (test/wallet.go:46-53, 71-72): these are foreign hash engines. Only their output widths are modelled, as the result types `Crypto.Digest32` and `Crypto.Digest20`.
- The Base58 codec: `Base58Encode` and `Base58Decode` are not part of this model. They are fields of `Crypto.Engines`, and the inverse property is the requirement `Crypto.Base58RoundTrips`. Whether decoding can fail is also not modelled.
- The `log.Panic` paths on a hasher or RNG failure (test/wallet.go:50-52, 80-82, 97-99): they abort the process on a broken runtime, and there is no logic in them.
- The commented-out `GenerateKey`, `PublicKey` and `PrivateKey` (test/wallet.go:118-141) and the WIF lines (test/wallet.go:83-88): dead code that calls foreign functions.
- Slice-capacity aliasing between the two `append` calls in `GetAddress` (test/wallet.go:35, 38): Dafny sequences are values, so only the resulting layout is modelled.
- Tamper detection for changes to the bytes before the checksum, and address uniqueness across keys: these depend on collision-resistance of SHA-256 and would be probabilistic claims. Only a change confined to the checksum bytes is proved to be rejected (`Wallet.TamperedChecksumRejected`).
- The fixed regression vector (an all-zero hash and its Base58 string) needs concrete hash and codec implementations, which the model does not have.
- `paddedAppend`'s live definition: test/wallet.go only has it commented out (test/wallet.go:111-116). `KeyPair.PaddedAppend` models that commented-out body, not a definition elsewhere in the package.
- `paddedAppend`'s Go `uint` size and `int` loop bound: the model uses unbounded naturals, because at the only call site the size is 32 and `len(src)` is at most 32.
