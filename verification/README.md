# Nostr event identity, modelled in Dafny

This project models the deterministic core of damus's `NostrEvent.swift`, which gives a Nostr event its identity:

- the lowercase hex codec (`hexchar`, `hex_encode`);
- the canonical commitment text `[0,"<pubkey>",<created_at>,<kind>,<tags>,<content>]` (`event_commitment`);
- the event identifier, which is the hex SHA-256 digest of that text (`calculate_event_id`);
- the record operations that write fields: `init`, `calculate_id`, `ensure_nonce_tag` and `sign`.

The model is functional. The `NostrEvent` class is the datatype `NostrEvent.Event`. Each mutating method is a function that returns the updated record. The exception is `ensure_nonce_tag`, which is also written as a method with the source's nested loop.

Several calls go to code that is not part of this model, in libraries or in other files of the app:

- `JSONEncoder` for the content and the tags;
- `String.data(using: .utf8)`;
- CommonCrypto's SHA-256;
- `count_hash_leading_zero_bits`, an app function defined outside `NostrEvent.swift`;
- the secp256k1 Schnorr signer.

Each one is a function-valued field of `Externals.Platform`, passed to the operations as a parameter. Two output sizes are built into the types. The digest is 32 bytes, which the source fixes with `CC_SHA256_DIGEST_LENGTH` (line 138). The raw signature is 64 bytes; this comes from the secp256k1 library (BIP-340 Schnorr signatures), not from this file, which hex-encodes whatever `rawRepresentation` it gets back (line 99). The 128-character length of the signature string rests on that library fact. Everything proved therefore holds for every behaviour of those calls with those output sizes.

Files:

- `results.dfy` holds `Option` and `Result`.
- `hex.dfy` holds the codec and a nibble decoder. Bytes are integers 0..255. The shift `c >> 4` is written as `c / 16` and the mask `c & 0xF` as `c % 16`; these agree on all unsigned bytes. The decoder is the encoder's inverse and accepts `[0-9a-fA-F]`. The source has no decoder; it is the decoder against which the encoder's round trips and injectivity are proved.
- `decimal.dfy` holds the decimal rendering that string interpolation performs, and its parser. The parser accepts only canonical text (no leading zeros, no `-0`), so parsing and rendering are inverse.
- `externals.dfy` holds `int64` and the foreign-call record.
- `commitment.dfy` holds the commitment template and a parser for its front part.
- `nostr_event.dfy` holds the event record and its operations.

Behaviour of the code worth knowing, which the model follows:

- **Nonce tags.** `ensure_nonce_tag` accepts any tag with exactly two strings that contains `"nonce"` in *either* position. NIP-13 places `"nonce"` first in the tag; the code does not check the position. `NostrEvent.NonceMatchedInAnyPosition` exhibits this.
- **Public key escaping.** The public key is spliced into the commitment verbatim, without JSON escaping. Reading the key back by searching for the closing quote (`Commitment.ParseCommitmentHeader`) therefore works only for keys without a `"` character; real keys are 64 hex digits. For any key, `Commitment.CommitmentFieldsAfterKey` reads the fields by the key's length instead.
- **Signing failures.** `sign_event` force-unwraps (`try!`) four calls and traps if any of them fails: parsing the private key text (line 88), building the secp256k1 key (line 89), parsing the identifier as hex (line 94) and the Schnorr signing call (line 97). The model returns one error value, `SignError.UnwrapFailed`, for all four, and leaves the event unchanged.
- **Out-of-range `hexchar` input.** `hexchar` on a value of 16 or more reaches `assertionFailure`. In a debug build that stops the program; in an optimised (`-O`) build execution continues and returns 0; under `-Ounchecked` reaching it is undefined. The model is total and returns 0, the optimised build's path. `hex_encode` never reaches it: the nibble helpers `Hex.High` and `Hex.Low` always yield values below 16.

## Model

| member | source | states |
|---|---|---|
| Hex.HexChar | damus/Nostr/NostrEvent.swift:145-154 | a nibble below 16 becomes the ASCII code of its lowercase hex digit (the digit at that index in "0123456789abcdef"); any larger value gives 0 |
| Hex.ByteHex | damus/Nostr/NostrEvent.swift:160-164 | one byte becomes two lowercase hex digits, first the high nibble (`c >> 4`) and then the low nibble (`c & 0xF`) |
| Hex.HexEncode | damus/Nostr/NostrEvent.swift:157-167 | the encoding has exactly two characters per byte, and every character is in `[0-9a-f]` |
| Hex.HexEncodeLoop | damus/Nostr/NostrEvent.swift:157-167 | the source's append loop produces the byte-by-byte encoding: 2·n lowercase hex characters |
| Hex.HexEncodeAt | damus/Nostr/NostrEvent.swift:159-165 | characters 2i and 2i+1 of the encoding are the `hexchar` of byte i's high nibble and low nibble |
| Hex.HexEncodeAppend | damus/Nostr/NostrEvent.swift:159-165 | encoding a concatenation gives the concatenation of the two encodings |
| Hex.DecodeEncode | damus/Nostr/NostrEvent.swift:157-167 | decoding an encoding gives back exactly the original bytes |
| Hex.EncodeDecode | damus/Nostr/NostrEvent.swift:157-167 | re-encoding any decodable hex string yields its lowercase form |
| Hex.HexEncodeInjective | damus/Nostr/NostrEvent.swift:157-167 | distinct byte sequences never share an encoding |
| Decimal.IntToDecimal | damus/Nostr/NostrEvent.swift:121 | interpolated integers have a leading '-' exactly when negative, followed by digits with no leading zero |
| Decimal.ParseIntToDecimal | damus/Nostr/NostrEvent.swift:121 | reading the rendered text back as a decimal number gives the original integer |
| Decimal.IntToDecimalInjective | damus/Nostr/NostrEvent.swift:121 | distinct timestamps or kinds render to distinct text |
| Decimal.ParseDecimal | damus/Nostr/NostrEvent.swift:121 | the parser accepts exactly canonical digits, or '-' followed by canonical digits not starting with 0; the sign of the result follows the '-' |
| Decimal.ParseDecimalSound | damus/Nostr/NostrEvent.swift:121 | every text the parser accepts is exactly the rendering of the value it reads |
| Decimal.ParseDecimalIffRendering | damus/Nostr/NostrEvent.swift:121 | a text parses to n if and only if it is the rendering of n |
| Decimal.NonCanonicalRejected | damus/Nostr/NostrEvent.swift:121 | zero-padded text ("007"), negative zero ("-0"), a bare '-' and the empty text are not accepted |
| Decimal.NatToDecimalOfDigits | damus/Nostr/NostrEvent.swift:121 | every digit string without a leading zero is the rendering of its own value, so each number has exactly one rendering |
| Commitment.EventCommitment | damus/Nostr/NostrEvent.swift:117-122 | the commitment starts with `[0,"`, then the key verbatim, then a closing quote, and ends with `]`; every other character comes from the key, the encoded tags, the encoded content, or brackets, commas, quotes, '-' and digits (so no whitespace is added) |
| Commitment.CommitmentFieldsAfterKey | damus/Nostr/NostrEvent.swift:117-122 | for every key, quotes included: right after the key come a quote and a comma, then the timestamp field and the kind field, which read back as the exact values, then `<tags>,<content>]` |
| Commitment.ParseCommitmentHeader | damus/Nostr/NostrEvent.swift:117-122 | for a key without quotes, the commitment reads back as the key, the exact timestamp and kind, and then `<tags>,<content>]` |
| Commitment.ParseHeaderSound | damus/Nostr/NostrEvent.swift:117-122 | conversely, any text the header parser accepts is the template filled with a quote-free key and the canonical renderings of the two numbers |
| Commitment.ParseFieldSound | damus/Nostr/NostrEvent.swift:121 | an accepted number field is exactly the rendering of its value followed by a comma |
| Commitment.CommitmentDeterminesHeader | damus/Nostr/NostrEvent.swift:117-122 | two equal commitments of quote-free keys have equal keys, timestamps and kinds, and equal `<tags>,<content>` text |
| Commitment.CommitmentExample | damus/Nostr/NostrEvent.swift:117-122 | key `abc`, time 1000000000, kind 1, no tags and content `hi` commit to exactly `[0,"abc",1000000000,1,[],"hi"]` |
| NostrEvent.CalculateEventId | damus/Nostr/NostrEvent.swift:124-134 | the identifier is 64 lowercase hex characters, because the digest has 32 bytes |
| NostrEvent.EventIdDecodesToDigest | damus/Nostr/NostrEvent.swift:124-134 | the identifier decodes to the 32-byte SHA-256 digest of the UTF-8 commitment |
| NostrEvent.EventIdIgnoresDerivedFields | damus/Nostr/NostrEvent.swift:124-134 | events that agree on pubkey, created_at, kind, tags and content get the same identifier, whatever their id, sig and pow |
| NostrEvent.SameIdSameDigest | damus/Nostr/NostrEvent.swift:124-134 | two events have equal identifiers exactly when their commitments have equal digests |
| NostrEvent.CalculateId | damus/Nostr/NostrEvent.swift:52-55 | afterwards id is the freshly computed identifier and pow is the leading-zero count of that id; sig and the five committed fields are unchanged |
| NostrEvent.CalculateIdIdempotent | damus/Nostr/NostrEvent.swift:52-55 | recomputing the identity of an already identified event changes nothing |
| NostrEvent.Init | damus/Nostr/NostrEvent.swift:39-50 | a new event has an empty sig and the given content, pubkey, kind (default 1), tags (default none) and timestamp, and is already identified |
| NostrEvent.FindNonceTag | damus/Nostr/NostrEvent.swift:70-76 | the search returns the least index holding a two-string tag that contains "nonce", and returns nothing exactly when no such tag exists |
| NostrEvent.EnsureNonceTag | damus/Nostr/NostrEvent.swift:69-80 | the returned index is valid and holds a nonce tag, and no earlier original tag is one; the old tags are a prefix of the result; tags stay unchanged exactly when a nonce tag existed; otherwise `["nonce","0"]` is appended and its index is returned |
| NostrEvent.EnsureNonceTagLoop | damus/Nostr/NostrEvent.swift:69-80 | the nested loop returns that same index and tag list, and changes no field except tags (id and pow go stale) |
| NostrEvent.EnsureNonceTagIdempotent | damus/Nostr/NostrEvent.swift:69-80 | a second call returns the same index and appends nothing |
| NostrEvent.NonceMatchedInAnyPosition | damus/Nostr/NostrEvent.swift:71-73 | the tag `["p","nonce"]` is accepted as the nonce tag |
| NostrEvent.SignEvent | damus/Nostr/NostrEvent.swift:87-100 | the signature is 128 lowercase hex characters that decode to the signer's 64 raw bytes; it fails exactly when the signer's force-unwrapped steps fail |
| NostrEvent.Sign | damus/Nostr/NostrEvent.swift:82-84 | a successful sign writes into sig exactly the string `sign_event` returns, and changes nothing else; that string is 128 lowercase hex characters; a failed sign reports the failure |
| NostrEvent.SignKeepsIdentity | damus/Nostr/NostrEvent.swift:82-84 | signing an identified event leaves it identified |

## Left out

- The SHA-256 computation (`CC_SHA256`, lines 137-143) is a parameter. The only thing known about it is that the digest is 32 bytes long.
- JSON encoding of the content and the tags (lines 118-120, 125-127) consists of uninterpreted parameters. No escaping rules are assumed.
- The UTF-8 conversion `target.data(using: .utf8)!` (line 130) is a parameter.
- `count_hash_leading_zero_bits` (line 54) is called but defined outside `NostrEvent.swift`, so it is an uninterpreted parameter. Its result is taken as an optional integer to match the field `pow: Int?`.
- NostrEvent.SignEvent: Schnorr signing, the private key's `byteArray()` (line 88), the `secp256k1` key construction (line 89) and the identifier's `byteArray()` (line 94) are one uninterpreted signer. Only the signature's length and hex form are stated, not its cryptographic validity.
- `random_bytes` / `SecRandomCopyBytes` (lines 171-177) is system randomness. Its 64 bytes are a parameter of `SignEvent` and `Sign`.
- `Date().timeIntervalSince1970` (line 47) is the clock. Its truncated reading is the `createdAt` parameter of `Init`.
- `decode_nostr_event` / `decode_data` (lines 102-115) wrap `JSONDecoder` and print on failure. This wrapper is not part of this model.
- The commented-out `mine_id` (lines 57-67) is dead code.
- `OtherEvent`, `KeyEvent` (lines 12-20) and the `Codable` coding keys (lines 35-37) are data and serialization plumbing with no behaviour.
- Swift `Int` (`kind`) is modelled as 64-bit `int64`, its width on the platforms the app targets. Arithmetic overflow cannot occur in the modelled code.
- The record is a value, not a shared reference: aliasing of a `NostrEvent` object between callers is not modelled.
