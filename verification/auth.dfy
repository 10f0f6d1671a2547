/**
 * The logic of `src/crypto/auth.rs` around its foreign calls: the 64-byte
 * private key layout of `generate_keypair` (seed then public key), the
 * three-way outcome of `verify_password`, and the delegation of
 * `sign_token` and `verify_token` to the token layer.
 */
module Auth {
  import opened Prelude
  import Hex
  import opened Primitives
  import opened Token

  /** The Argon2id cost parameters `hash_password` uses: 64 MiB of memory, 3 passes, 4 lanes. */
  const M_COST_KIB: nat := 65536
  const T_COST: nat := 3
  const P_COST: nat := 4

  /** `password_hash::Error`: the errors PHC-string parsing and Argon2 verification report. */
  datatype PasswordHashError =
    | Algorithm | B64Encoding | Crypto | OutputSize | ParamNameDuplicated | ParamNameInvalid
    | ParamValueInvalid | ParamsMaxExceeded | Password | PhcStringField | PhcStringTrailingData
    | SaltInvalid | Version

  /**
   * The two foreign steps of `verify_password`: `PasswordHash::new`, which
   * parses a stored PHC string into some parsed form `H`, and Argon2's
   * `verify_password`, which recomputes and compares the hash.
   */
  datatype Argon2Verifier<!H> = Argon2Verifier(
    parse: string -> Result<H, PasswordHashError>,
    check: (string, H) -> Result<(), PasswordHashError>)

  /**
   * `verify_password`: a stored hash that does not parse is an error; a
   * parsed one gives true on a match, false on exactly the `Password`
   * mismatch error, and passes every other error on.
   */
  function VerifyPassword<H>(argon: Argon2Verifier<H>, hash: string, password: string)
    : (r: Result<bool, PasswordHashError>)
    ensures argon.parse(hash).Err? ==> r == Err(argon.parse(hash).error)
    ensures r == Ok(true)
        <==> argon.parse(hash).Ok? && argon.check(password, argon.parse(hash).value).Ok?
    ensures r == Ok(false)
        <==> argon.parse(hash).Ok? && argon.check(password, argon.parse(hash).value) == Err(Password)
    ensures r.Err? && argon.parse(hash).Ok?
        ==> r.error != Password && argon.check(password, argon.parse(hash).value) == Err(r.error)
  {
    match argon.parse(hash)
    case Err(e) => Err(e)
    case Ok(parsedHash) =>
      match argon.check(password, parsedHash)
      case Ok(_) => Ok(true)
      case Err(Password) => Ok(false)
      case Err(e) => Err(e)
  }

  /** A stored hash that does not parse is reported before any verification: the check is never consulted. */
  lemma ParseFailureSkipsCheck<H>(parse: string -> Result<H, PasswordHashError>,
                                  check1: (string, H) -> Result<(), PasswordHashError>,
                                  check2: (string, H) -> Result<(), PasswordHashError>,
                                  hash: string, password: string)
    requires parse(hash).Err?
    ensures VerifyPassword(Argon2Verifier(parse, check1), hash, password)
         == VerifyPassword(Argon2Verifier(parse, check2), hash, password)
         == Err(parse(hash).error)
  {
  }

  /** `sign_token`: exactly `sign_paseto`. */
  function SignToken<T>(ed: Ed25519, json: JsonCodec<T>, claims: T, privateKeyHex: string)
    : (r: Result<string, TokenError>)
    ensures r == SignPaseto(ed, json, claims, privateKeyHex)
  {
    SignPaseto(ed, json, claims, privateKeyHex)
  }

  /** `verify_token`: exactly `verify_paseto`. */
  function VerifyToken<T>(ed: Ed25519, json: JsonCodec<T>, token: string, publicKeyHex: string)
    : (r: Result<T, TokenError>)
    ensures r == VerifyPaseto(ed, json, token, publicKeyHex)
  {
    VerifyPaseto(ed, json, token, publicKeyHex)
  }

  /** `copy_from_slice` into `dst[at..at + |src|]`; the rest of `dst` keeps its contents. */
  method CopyFromSlice(dst: array<byte>, at: nat, src: seq<byte>)
    requires at + |src| <= dst.Length
    modifies dst
    ensures dst[..] == old(dst[..at]) + src + old(dst[at + |src|..])
  {
    var i := 0;
    while i < |src|
      invariant 0 <= i <= |src|
      invariant dst[..at] == old(dst[..at])
      invariant dst[at..at + i] == src[..i]
      invariant dst[at + i..] == old(dst[at + i..])
    {
      dst[at + i] := src[i];
      i := i + 1;
    }
    assert dst[..] == dst[..at] + dst[at..at + |src|] + dst[at + |src|..];
  }

  /**
   * `generate_keypair`, with the 32 bytes drawn from the OS random source
   * passed in as `randomBytes`: the public key is derived from them, and the
   * private key is the 64 bytes seed ‖ public key. Both are returned as
   * lower-case hex.
   */
  method GenerateKeypair(ed: Ed25519, randomBytes: Seed) returns (publicKeyHex: string, privateKeyHex: string)
    ensures Hex.Decode(publicKeyHex) == Ok(ed.derive(randomBytes))
    ensures Hex.Decode(privateKeyHex) == Ok(randomBytes + ed.derive(randomBytes))
    ensures publicKeyHex == Hex.Encode(ed.derive(randomBytes))
    ensures privateKeyHex == Hex.Encode(randomBytes + ed.derive(randomBytes))
    ensures |publicKeyHex| == 64 && |privateKeyHex| == 128
  {
    var secretBytes := new byte[32](_ => 0);
    CopyFromSlice(secretBytes, 0, randomBytes);
    var signingKey: Seed := secretBytes[..];
    assert signingKey == randomBytes;
    var verifyingKey := ed.derive(signingKey);

    var privateKeyBytes := new byte[64](_ => 0);
    CopyFromSlice(privateKeyBytes, 0, signingKey);
    CopyFromSlice(privateKeyBytes, 32, verifyingKey);
    assert privateKeyBytes[..] == randomBytes + verifyingKey;

    publicKeyHex := Hex.Encode(verifyingKey);
    privateKeyHex := Hex.Encode(privateKeyBytes[..]);
    Hex.DecodeEncode(verifyingKey);
    Hex.DecodeEncode(privateKeyBytes[..]);
  }

  /**
   * A private key laid out as `generate_keypair` lays it out signs exactly
   * as its bare 32-byte seed does: the embedded public key is not used.
   */
  lemma ExpandedKeySignsWithSeed<T>(ed: Ed25519, json: JsonCodec<T>, claims: T, seed: Seed, privateKeyHex: string)
    requires Hex.Decode(privateKeyHex) == Ok(seed + ed.derive(seed))
    ensures SignToken(ed, json, claims, privateKeyHex) == SignToken(ed, json, claims, Hex.Encode(seed))
  {
    Hex.DecodeEncode(seed);
    assert (seed + ed.derive(seed))[..32] == seed;
    SignUsesFirst32Bytes(ed, json, claims, privateKeyHex, Hex.Encode(seed));
  }

  /**
   * Round trip through the public surface: with a keypair as
   * `generate_keypair` returns it, `verify_token` of what `sign_token`
   * produced gives back the claims.
   */
  lemma GeneratedKeypairRoundTrip<T(!new)>(ed: Ed25519, json: JsonCodec<T>, claims: T, seed: Seed,
                                           publicKeyHex: string, privateKeyHex: string)
    requires Correct(ed) && RoundTrips(json) && json.encode(claims).Some?
    requires Hex.Decode(publicKeyHex) == Ok(ed.derive(seed))
    requires Hex.Decode(privateKeyHex) == Ok(seed + ed.derive(seed))
    ensures SignToken(ed, json, claims, privateKeyHex).Ok?
    ensures VerifyToken(ed, json, SignToken(ed, json, claims, privateKeyHex).value, publicKeyHex) == Ok(claims)
  {
    assert (seed + ed.derive(seed))[..32] == seed;
    SignVerifyRoundTrip(ed, json, claims, privateKeyHex, publicKeyHex);
  }
}
