/**
 * Calls NostrEvent.swift makes to code that is not part of this model, in libraries
 * or in other files of the app: Foundation's JSONEncoder and UTF-8 conversion,
 * CommonCrypto's SHA-256, the app's proof-of-work counter, and secp256k1 signing.
 * Each is an uninterpreted function handed in as a field of `Platform`; only two
 * output sizes are built into the types: the 32-byte digest and the 64-byte
 * signature that secp256k1 (BIP-340) produces.
 */
module Externals {
  import opened Results
  import Hex

  /** Swift's `Int64` (also the width of `Int` on the 64-bit targets the app ships on). */
  newtype int64 = x: int | -0x8000_0000_0000_0000 <= x < 0x8000_0000_0000_0000

  /** `CC_SHA256_DIGEST_LENGTH` is 32: `sha256` always returns 32 bytes. */
  const DigestLength := 32

  type Digest = s: seq<Hex.byte> | |s| == DigestLength witness seq(DigestLength, _ => 0 as Hex.byte)

  /** A BIP-340 Schnorr signature's raw representation is 64 bytes. */
  const SignatureLength := 64

  type SchnorrSignature = s: seq<Hex.byte> | |s| == SignatureLength witness seq(SignatureLength, _ => 0 as Hex.byte)

  datatype Platform = Platform(
    /** `JSONEncoder().encode(String)` read back as UTF-8 text. */
    encodeString: string -> string,
    /** `JSONEncoder().encode([[String]])` read back as UTF-8 text. */
    encodeTags: seq<seq<string>> -> string,
    /** `String.data(using: .utf8)!`. */
    utf8: string -> seq<Hex.byte>,
    /** `sha256`, i.e. `CC_SHA256` into a 32-byte buffer. */
    sha256: seq<Hex.byte> -> Digest,
    /** `count_hash_leading_zero_bits`, applied to the hex identifier. */
    leadingZeroBits: string -> Option<int>,
    /**
     * The body of `sign_event` below the force-unwraps: key bytes from the private-key
     * text, the digest bytes from the identifier, the Schnorr signature with the given
     * auxiliary randomness; `None` where one of the `try!` calls would trap.
     */
    schnorrSign: (string, string, seq<Hex.byte>) -> Option<SchnorrSignature>
  )
}
