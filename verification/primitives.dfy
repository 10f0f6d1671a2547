/**
 * The foreign capabilities the token layer calls, as values the model is
 * parameterised by: Ed25519 (RFC 8032 section 5.1, the `ed25519_dalek`
 * crate) and the JSON encoding of claims (`serde_json`). Only the
 * properties below are assumed of them; each lemma that needs one says so
 * in its `requires`.
 */
module Primitives {
  import opened Prelude

  /** The 32-byte secret an Ed25519 signing key is made from. */
  type Seed = s: seq<byte> | |s| == 32 witness seq(32, _ => 0)

  /** An encoded Ed25519 public key. */
  type PublicKey = s: seq<byte> | |s| == 32 witness seq(32, _ => 0)

  /** An Ed25519 signature: always 64 bytes. */
  type Signature = s: seq<byte> | |s| == 64 witness seq(64, _ => 0)

  /**
   * The four Ed25519 operations the source uses:
   * `SigningKey::from_bytes(seed).verifying_key()`, `SigningKey::sign`,
   * whether `VerifyingKey::from_bytes` accepts 32 bytes as a curve point,
   * and `VerifyingKey::verify`.
   */
  datatype Ed25519 = Ed25519(
    derive: Seed -> PublicKey,
    sign: (Seed, seq<byte>) -> Signature,
    isPoint: PublicKey -> bool,
    verify: (PublicKey, seq<byte>, Signature) -> bool)

  /** Signature correctness: a derived key parses, and a signature made with the seed verifies under it. */
  ghost predicate Correct(ed: Ed25519)
  {
    && (forall seed: Seed :: ed.isPoint(ed.derive(seed)))
    && (forall seed: Seed, msg: seq<byte> :: ed.verify(ed.derive(seed), msg, ed.sign(seed, msg)))
  }

  /** `serde_json::to_string` (as bytes) and `serde_json::from_slice` for a claims type. */
  datatype JsonCodec<!T> = JsonCodec(encode: T -> Option<seq<byte>>, decode: seq<byte> -> Option<T>)

  /** Decoding what was encoded gives back the claims. */
  ghost predicate RoundTrips<T(!new)>(json: JsonCodec<T>)
  {
    forall c: T :: json.encode(c).Some? ==> json.decode(json.encode(c).value) == Some(c)
  }
}
