# Verified model of the VauxlNet authentication core

This project models the token and credential core of VauxlNet in Dafny.

- **PAE.** Pre-Authentication Encoding (`pae`, `le64`) builds the byte string that gets signed.
- **Token signer and verifier.** `sign_paseto` and `verify_paseto` implement a simplified PASETO v4.public token:
  `"v4.public." + base64url(m) + "." + base64url(sig)`, where `m` is the JSON encoding of the claims and `sig` is the Ed25519 signature of `PAE("v4.public.", m, "")`.
- **`auth.rs`.** The model covers the logic around its foreign calls:
  - the seed ‖ public-key layout of `generate_keypair`;
  - how `verify_password` maps the Argon2 outcome to `Ok(true)`, `Ok(false)` or `Err`;
  - how `sign_token` and `verify_token` delegate to the token layer.

The files follow the source's components:

| file | module | what it holds |
|---|---|---|
| `prelude.dfy` | `Prelude` | `byte`, `u64`, `Option`, `Result` |
| `hex.dfy` | `Hex` | `hex::encode` / `hex::decode` as spec functions, with round trips |
| `base64url.dfy` | `Base64Url` | unpadded URL-safe base64 (RFC 4648 section 5, padding of section 3.2 omitted), strict decoding, round trips both ways, no `.` in the alphabet |
| `text.dfy` | `Text` | `str::split` on one character, and separator counting |
| `pae.dfy` | `Pae` | `le64`, the PAE definition over any list of pieces, the imperative `pae`, layout, length and injectivity |
| `primitives.dfy` | `Primitives` | Ed25519 and `serde_json` as function-valued parameters with their assumed properties |
| `token.dfy` | `Token` | `HEADER`, the error enumeration, `sign_paseto`, `verify_paseto` and their properties |
| `auth.dfy` | `Auth` | `generate_keypair` (over arrays), `verify_password`, `sign_token`, `verify_token` |

The foreign operations are fields of datatypes that every operation takes as parameters:
- Ed25519 key derivation, signing, public-key parsing and verification;
- JSON encoding and decoding of claims;
- PHC-string parsing and Argon2 checking.

Every lemma that relies on an assumed property lists it in its `requires`:
- `Primitives.Correct`: a derived key parses, and a signature made with a seed verifies under the key derived from it. Signatures are 64 bytes by their type.
- `Primitives.RoundTrips`: JSON decoding of an encoding gives back the claims.

Rust's `String` errors become the tagged `Token.TokenError` and `Auth.PasswordHashError` enumerations. There is one variant per distinct error message of the token layer, except that the two `serde_json` failures share one variant (see below), and one per `password_hash` error kind.

The model follows the code in each of these points, several of which depart from the PASETO standard:
- **Two segments.** The token carries the message and the signature as two dot-separated segments (`src/crypto/token.rs:53-61`, `:76-82`). The standard puts `base64url(m || sig)` in one segment.
- **Empty segments accepted.** The verifier checks only the number of parts (`src/crypto/token.rs:77`). An empty payload segment decodes to the empty message and goes on to the signature check (`Token.EmptyPayloadReachesSignatureCheck`). It is not rejected as malformed.
- **PAE length.** `pae` writes four LE64 fields, 32 bytes of framing: the count and three lengths. For three pieces the encoding is therefore `32 + len(h) + len(m) + len(f)` bytes. For `("v4.public.", "hello", "")` it is 47 bytes (`Pae.PaeLength`, `Token.HelloVector`).
- **LE64 top bit.** `le64` is `u64::to_le_bytes`. It does not clear the top bit as the PASETO standard's LE64 does. The two agree on every length below 2^63.
- **JSON errors.** Failures of JSON encoding and of JSON decoding both surface as `serde_json` messages. The model uses one variant, `JsonError`, for both.

## Model

| member | source | states |
|---|---|---|
| `Hex.Encode` | src/crypto/auth.rs:69-70 | `hex::encode` writes exactly two hexadecimal digits per byte |
| `Hex.Decode` | src/crypto/token.rs:14 | an odd-length input is rejected with `OddLength`, and only such an input; a decoded string is twice as long as its bytes |
| `Hex.DecodePairs` | src/crypto/token.rs:99 | an even-length string made only of hex digits (either case) always decodes, to half as many bytes; otherwise the error is `InvalidHexCharacter` carrying the first character that is not a hex digit and its position |
| `Hex.DecodeEncode` | src/crypto/auth.rs:69-70 | decoding what `hex::encode` wrote gives back the bytes |
| `Hex.DecodePairsSound` | src/crypto/token.rs:99 | every string the decoder accepts is made of hex digits and is the encoding of its result up to letter case |
| `Base64Url.Decode` | src/crypto/token.rs:85-90 | strict unpadded decoding: a final lone symbol (length 1 modulo 4) is rejected; anything accepted is made only of alphabet symbols (so `=` padding is rejected) and yields `3n/4` bytes for `n` symbols |
| `Base64Url.AcceptsExactlyEncodings` | src/crypto/token.rs:85-90 | the decoder accepts a string exactly when it is the encoding of some bytes, so non-zero trailing bits are rejected |
| `Base64Url.Encode` | src/crypto/token.rs:53-54 | unpadded base64url output is `ceil(4n/3)` symbols long |
| `Base64Url.DecodeEncode` | src/crypto/token.rs:85-90 | decoding an encoding gives back the bytes |
| `Base64Url.EncodeDecode` | src/crypto/token.rs:85-90 | the decoder is canonical: whatever it accepts is exactly the encoding of what it returns |
| `Base64Url.EncodeInAlphabet` | src/crypto/token.rs:53-54 | every symbol written is in the URL-safe alphabet |
| `Base64Url.NoDotInEncoding` | src/crypto/token.rs:53-61 | no encoding contains `.`, the token's separator |
| `Text.Count` | src/crypto/token.rs:76 | the count of a character is zero exactly when it does not occur |
| `Text.Split` | src/crypto/token.rs:76 | `split('.')` yields one more part than there are dots, and no part contains a dot |
| `Text.SplitTwoJoin` | src/crypto/token.rs:76-82 | a two-part split joined with the separator is the original string |
| `Text.SplitJoinTwo` | src/crypto/token.rs:76-82 | two dot-free strings joined by a dot split back into exactly those two |
| `Text.CountJoinTwo` | src/crypto/token.rs:77 | two dot-free strings joined by a dot contain exactly one dot |
| `Pae.LeBytesValue` | src/crypto/token.rs:136-138 | little-endian bytes of a number below 256^k read back as that number |
| `Pae.Le64` | src/crypto/token.rs:136-138 | `le64(n)` is 8 bytes whose little-endian value is `n` |
| `Pae.Le64Injective` | src/crypto/token.rs:136-138 | distinct numbers have distinct LE64 encodings |
| `Pae.LenU64` | src/crypto/token.rs:124 | the `as u64` cast of a length below 2^64 is the length itself |
| `Pae.Pae` | src/crypto/token.rs:119-134 | the seven appends build exactly PAE of the three pieces, `32 + len(h) + len(m) + len(f)` bytes long |
| `Pae.PaeLayout` | src/crypto/token.rs:122-131 | PAE of three pieces is `LE64(3) ‖ LE64(len h) ‖ h ‖ LE64(len m) ‖ m ‖ LE64(len f) ‖ f` |
| `Pae.PaeLength` | src/crypto/token.rs:119-134 | PAE of three pieces is `32 + len(h) + len(m) + len(f)` bytes long |
| `Pae.FrameInjective` | src/crypto/token.rs:124-125 | a length-prefixed piece determines where it ends |
| `Pae.FramesInjective` | src/crypto/token.rs:124-131 | equal framings of equally many pieces frame the same pieces |
| `Pae.PaeInjective` | src/crypto/token.rs:119-134 | two piece lists with the same PAE are the same list |
| `Pae.PaeInjective3` | src/crypto/token.rs:122-131 | equal PAE of three pieces means equal header, message and footer |
| `Token.HeaderStrIsHeader` | src/crypto/token.rs:10 | the header string is the text of the header bytes |
| `Token.AssembleParts` | src/crypto/token.rs:56-61 | an assembled token starts with the header, and its remainder has exactly one dot and splits into the two encoded segments |
| `Token.SignPaseto` | src/crypto/token.rs:12-62 | a hex error comes exactly from a key that is not hex; a length error comes exactly from fewer than 32 key bytes; a JSON error comes exactly from unencodable claims with a usable key; there is no other error; a token starts with the header and has exactly one more dot |
| `Token.SignedTokenLayout` | src/crypto/token.rs:40-61 | a signed token is exactly header ‖ b64(m) ‖ "." ‖ b64(sig), where `m` is the JSON of the claims and `sig` is the signature over PAE(header, m, "") made with the first 32 key bytes; the verifier's split recovers both segments |
| `Token.SignUsesFirst32Bytes` | src/crypto/token.rs:19-25 | keys whose decoded bytes agree on the first 32 produce the same result |
| `Token.VerifyPaseto` | src/crypto/token.rs:68-79 | a header error comes exactly from a token not starting with "v4.public."; a format error comes exactly from a remainder without exactly one dot |
| `Token.VerifySegmentGates` | src/crypto/token.rs:81-90 | after the format gate, a bad payload segment is reported before a bad signature segment, whatever the key; two good segments mean the token is their assembly |
| `Token.CheckSigned` | src/crypto/token.rs:92-115 | claims are returned only when the signature is 64 bytes, the key is a 32-byte curve point, the signature verifies over PAE(header, m, "") and `m` decodes to the claims |
| `Token.VerifyKeyAndSignatureGates` | src/crypto/token.rs:92-115 | the later gates apply in order: signature length, key hex, key length, curve point, signature check; JSON decoding comes last |
| `Token.VerifyAssembled` | src/crypto/token.rs:68-90 | an assembled token passes the header, format and base64 gates with exactly its message and signature |
| `Token.SegmentsAssemble` | src/crypto/token.rs:74-90 | a token that passes the format and base64 gates is the assembly of what its segments decode to |
| `Token.VerifiedTokenIsAuthentic` | src/crypto/token.rs:68-116 | if verification returns claims, the token is an assembly of a message and a signature; the signature verifies under the key over PAE(header, message, ""), and the message decodes to those claims |
| `Token.SignVerifyRoundTrip` | src/crypto/token.rs:12-116 | verifying a signed token under the public key derived from the signing seed returns the original claims |
| `Token.EmptyPayloadReachesSignatureCheck` | src/crypto/token.rs:76-90 | an empty payload segment is not rejected by the format or base64 gates; the outcome is decided by the signature over the empty message |
| `Token.HelloVector` | src/crypto/token.rs:40 | PAE("v4.public.", "hello", "") is 47 bytes: LE64(3), LE64(10), the header, LE64(5), "hello", LE64(0) |
| `Auth.VerifyPassword` | src/crypto/auth.rs:34-43 | a parse failure is returned as is; `Ok(true)` exactly on a successful check; `Ok(false)` exactly on the `Password` mismatch; every other check error is passed on and is never `Password` |
| `Auth.ParseFailureSkipsCheck` | src/crypto/auth.rs:35-36 | when the stored hash does not parse, the result is that error whatever the Argon2 check (`Argon2Verifier.check`) returns |
| `Auth.SignToken` | src/crypto/auth.rs:45-47 | `sign_token` returns what `sign_paseto` returns |
| `Auth.VerifyToken` | src/crypto/auth.rs:49-54 | `verify_token` returns what `verify_paseto` returns |
| `Auth.CopyFromSlice` | src/crypto/auth.rs:66-67 | `copy_from_slice` overwrites exactly the target range and keeps the rest |
| `Auth.GenerateKeypair` | src/crypto/auth.rs:58-73 | the private key hex (128 characters) decodes to seed ‖ derived public key; the public key hex (64 characters) decodes to the derived public key |
| `Auth.ExpandedKeySignsWithSeed` | src/crypto/auth.rs:64-67 | a seed ‖ public-key private key signs exactly as the bare seed does |
| `Auth.GeneratedKeypairRoundTrip` | src/crypto/auth.rs:45-73 | for a keypair laid out as `generate_keypair` writes it (private key = seed ‖ derived key, public key = derived key), `verify_token` of what `sign_token` produced returns the claims |

## Left out

- **Ed25519** (`ed25519_dalek`): the curve arithmetic of key derivation, signing, point decoding and verification is foreign. It is a parameter, and only `Primitives.Correct` is assumed of it. Unforgeability is not assumed, so tamper sensitivity and cross-key rejection are not stated.
- **`serde_json`**: JSON encoding and decoding of claims are a parameter, and only `Primitives.RoundTrips` is assumed. The text of its error messages is not modelled.
- **`hash_password`**: Argon2id hashing and random salt generation (`OsRng`) are foreign and random. Only its cost parameters are recorded (`Auth.M_COST_KIB`, `Auth.T_COST`, `Auth.P_COST`). The password round trip and salt uniqueness therefore are not stated.
- **`verify_password`**: PHC-string parsing and the Argon2 recomputation are a parameter (`Auth.Argon2Verifier`). Only the outcome mapping is modelled.
- **Randomness**: the 32 bytes `OsRng.fill_bytes` draws in `generate_keypair` are the `randomBytes` parameter.
- **Side channels**: constant-time comparison and timing indistinguishability cannot be expressed in a functional model.
- **Error text**: each error is a tagged variant. The text of `e.to_string()` is not modelled.
- `src/crypto/token.rs:22-24`: the "Invalid key length" branch cannot be taken, because a 32-byte slice always converts to `[u8; 32]`. The model has no such branch.
- `Hex.Decode`: it reads characters, while the crate reads UTF-8 bytes. For non-ASCII input both reject, but the reported fault can differ: odd length versus an invalid character, and the index.
- `Pae.PaeInjective`: it assumes every piece is shorter than 2^64 bytes, which every Rust slice is. Beyond that, the `as u64` cast (`Pae.LenU64`) would wrap.
- `src/lib.rs` (bridge initialisation) and `src/models/mod.rs` (a plain data holder) are not part of this model.
