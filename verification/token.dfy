/**
 * The simplified PASETO v4.public token of `src/crypto/token.rs`:
 *
 *   token = "v4.public." + base64url(m) + "." + base64url(sig)
 *   sig   = Ed25519-Sign(seed, PAE("v4.public.", m, ""))
 *
 * where `m` is the JSON encoding of the claims. Unlike the PASETO
 * standard, which puts base64url(m || sig) in a single segment, this code
 * writes the message and the signature as two dot-separated segments.
 */
module Token {
  import opened Prelude
  import Hex
  import B64 = Base64Url
  import opened Text
  import opened Pae
  import opened Primitives

  /** `HEADER`: the bytes of "v4.public.". */
  const HEADER: seq<byte> := [0x76, 0x34, 0x2E, 0x70, 0x75, 0x62, 0x6C, 0x69, 0x63, 0x2E]

  /** `std::str::from_utf8(HEADER).unwrap()`. */
  const HEADER_STR: string := "v4.public."

  /** The text of ASCII bytes. */
  function AsciiText(b: seq<byte>): (s: string)
    ensures |s| == |b| && forall i :: 0 <= i < |b| ==> s[i] as int == b[i]
  {
    seq(|b|, i requires 0 <= i < |b| => b[i] as char)
  }

  /** The header string is the UTF-8 reading of the header bytes. */
  lemma HeaderStrIsHeader()
    ensures AsciiText(HEADER) == HEADER_STR
  {
  }

  /** The distinct errors of `sign_paseto` and `verify_paseto`, one per message. */
  datatype TokenError =
    | InvalidHeader            // "Invalid token header"
    | InvalidFormat            // "Invalid token format"
    | InvalidPayloadBase64     // "Invalid base64 payload"
    | InvalidSignatureBase64   // "Invalid base64 signature"
    | InvalidSignatureLength   // "Invalid signature length"
    | InvalidPublicKeyLength   // "Invalid public key length"
    | InvalidPrivateKeyLength  // "Invalid private key length"
    | HexError(fault: Hex.HexFault)  // a key that is not hex
    | KeyParseError            // the public key bytes are not a curve point
    | SignatureMismatch        // the signature does not verify
    | JsonError                // claims fail to encode, or an authentic payload fails to decode

  /** What gets signed: PAE over the header, the message and an empty footer. */
  function SigningInput(m: seq<byte>): seq<byte>
  {
    PaeOf([HEADER, m, []])
  }

  /** The token text for a message and its signature. */
  function Assemble(m: seq<byte>, sig: seq<byte>): string
  {
    HEADER_STR + B64.Encode(m) + "." + B64.Encode(sig)
  }

  /**
   * An assembled token starts with the header, and the remainder has exactly
   * one `.`, so it splits into the two encoded segments.
   */
  lemma AssembleParts(m: seq<byte>, sig: seq<byte>)
    ensures HEADER_STR <= Assemble(m, sig)
    ensures Assemble(m, sig)[|HEADER_STR|..] == B64.Encode(m) + "." + B64.Encode(sig)
    ensures Count(Assemble(m, sig)[|HEADER_STR|..], '.') == 1
    ensures Split(Assemble(m, sig)[|HEADER_STR|..], '.') == [B64.Encode(m), B64.Encode(sig)]
  {
    var e1, e2 := B64.Encode(m), B64.Encode(sig);
    var rest := e1 + "." + e2;
    assert Assemble(m, sig) == HEADER_STR + rest;
    B64.NoDotInEncoding(m);
    B64.NoDotInEncoding(sig);
    CountJoinTwo(e1, e2, '.');
    SplitJoinTwo(e1, e2, '.');
  }

  /**
   * `sign_paseto`: decode the private key, keep its first 32 bytes as the
   * seed, JSON-encode the claims, sign PAE(header, m, "") and assemble.
   */
  function SignPaseto<T>(ed: Ed25519, json: JsonCodec<T>, claims: T, privateKeyHex: string)
    : (r: Result<string, TokenError>)
    ensures r.Err? && r.error.HexError? <==> Hex.Decode(privateKeyHex).Err?
    ensures Hex.Decode(privateKeyHex).Err? ==> r == Err(HexError(Hex.Decode(privateKeyHex).error))
    ensures r == Err(InvalidPrivateKeyLength)
        <==> Hex.Decode(privateKeyHex).Ok? && |Hex.Decode(privateKeyHex).value| < 32
    ensures r == Err(JsonError)
        <==> Hex.Decode(privateKeyHex).Ok? && |Hex.Decode(privateKeyHex).value| >= 32
             && json.encode(claims).None?
    ensures r.Err? ==> r.error.HexError? || r.error == InvalidPrivateKeyLength || r.error == JsonError
    ensures r.Ok? ==> HEADER_STR <= r.value && Count(r.value[|HEADER_STR|..], '.') == 1
  {
    match Hex.Decode(privateKeyHex)
    case Err(fault) => Err(HexError(fault))
    case Ok(keyBytes) =>
      if |keyBytes| < 32 then Err(InvalidPrivateKeyLength)
      else
        var secret: Seed := keyBytes[..32];
        match json.encode(claims)
        case None => Err(JsonError)
        case Some(m) =>
          var signature := ed.sign(secret, SigningInput(m));
          AssembleParts(m, signature);
          Ok(Assemble(m, signature))
  }

  /**
   * `verify_paseto`: a fixed sequence of gates, the first failing one
   * deciding the error; the payload is JSON-decoded only after the
   * signature over PAE(header, m, "") has verified.
   */
  function VerifyPaseto<T>(ed: Ed25519, json: JsonCodec<T>, token: string, publicKeyHex: string)
    : (r: Result<T, TokenError>)
    ensures r == Err(InvalidHeader) <==> !(HEADER_STR <= token)
    ensures r == Err(InvalidFormat)
        <==> HEADER_STR <= token && Count(token[|HEADER_STR|..], '.') != 1
  {
    if !(HEADER_STR <= token) then Err(InvalidHeader)
    else
      var parts := Split(token[|HEADER_STR|..], '.');
      if |parts| != 2 then Err(InvalidFormat)
      else
        match B64.Decode(parts[0])
        case None => Err(InvalidPayloadBase64)
        case Some(m) =>
          match B64.Decode(parts[1])
          case None => Err(InvalidSignatureBase64)
          case Some(sigBytes) => CheckSigned(ed, json, m, sigBytes, publicKeyHex)
  }

  /**
   * The gates of `verify_paseto` after base64 decoding, in order: signature
   * length, public key hex, public key length, curve point, signature over
   * PAE(header, m, ""); only then is `m` JSON-decoded.
   */
  function CheckSigned<T>(ed: Ed25519, json: JsonCodec<T>, m: seq<byte>, sigBytes: seq<byte>, publicKeyHex: string)
    : (r: Result<T, TokenError>)
    ensures r.Ok? ==> |sigBytes| == 64 && Hex.Decode(publicKeyHex).Ok? && |Hex.Decode(publicKeyHex).value| == 32
    ensures r.Ok? ==> ed.isPoint(Hex.Decode(publicKeyHex).value)
    ensures r.Ok? ==> ed.verify(Hex.Decode(publicKeyHex).value, SigningInput(m), sigBytes)
    ensures r.Ok? ==> json.decode(m) == Some(r.value)
  {
    if |sigBytes| != 64 then Err(InvalidSignatureLength)
    else
      match Hex.Decode(publicKeyHex)
      case Err(fault) => Err(HexError(fault))
      case Ok(pkBytes) =>
        if |pkBytes| != 32 then Err(InvalidPublicKeyLength)
        else if !ed.isPoint(pkBytes) then Err(KeyParseError)
        else if !ed.verify(pkBytes, SigningInput(m), sigBytes) then Err(SignatureMismatch)
        else
          match json.decode(m)
          case None => Err(JsonError)
          case Some(claims) => Ok(claims)
  }

  /**
   * Between the format gate and the signature gates come the two base64
   * gates: on a token "v4.public." + p + "." + q with no further dots, a bad
   * payload segment is reported before a bad signature segment, and either
   * is reported whatever the public key.
   */
  lemma VerifySegmentGates<T>(ed: Ed25519, json: JsonCodec<T>, p: string, q: string, publicKeyHex: string)
    requires '.' !in p && '.' !in q
    ensures B64.Decode(p).None?
        ==> VerifyPaseto(ed, json, HEADER_STR + p + "." + q, publicKeyHex) == Err(InvalidPayloadBase64)
    ensures B64.Decode(p).Some? && B64.Decode(q).None?
        ==> VerifyPaseto(ed, json, HEADER_STR + p + "." + q, publicKeyHex) == Err(InvalidSignatureBase64)
    ensures B64.Decode(p).Some? && B64.Decode(q).Some?
        ==> HEADER_STR + p + "." + q == Assemble(B64.Decode(p).value, B64.Decode(q).value)
  {
    var t := HEADER_STR + p + "." + q;
    assert t[|HEADER_STR|..] == p + "." + q;
    SplitJoinTwo(p, q, '.');
    if B64.Decode(p).Some? && B64.Decode(q).Some? {
      B64.EncodeDecode(p);
      B64.EncodeDecode(q);
    }
  }

  /**
   * The remaining gates, in order, on a token whose segments decode to `m`
   * and `sig`: signature length, public key hex, public key length, curve
   * point, signature check; only then is the payload JSON-decoded.
   */
  lemma VerifyKeyAndSignatureGates<T>(ed: Ed25519, json: JsonCodec<T>, m: seq<byte>, sig: seq<byte>, publicKeyHex: string)
    ensures |sig| != 64
        ==> VerifyPaseto(ed, json, Assemble(m, sig), publicKeyHex) == Err(InvalidSignatureLength)
    ensures |sig| == 64 && Hex.Decode(publicKeyHex).Err?
        ==> VerifyPaseto(ed, json, Assemble(m, sig), publicKeyHex)
            == Err(HexError(Hex.Decode(publicKeyHex).error))
    ensures |sig| == 64 && Hex.Decode(publicKeyHex).Ok? && |Hex.Decode(publicKeyHex).value| != 32
        ==> VerifyPaseto(ed, json, Assemble(m, sig), publicKeyHex) == Err(InvalidPublicKeyLength)
    ensures |sig| == 64 && Hex.Decode(publicKeyHex).Ok? && |Hex.Decode(publicKeyHex).value| == 32
        ==> var pk := Hex.Decode(publicKeyHex).value;
            VerifyPaseto(ed, json, Assemble(m, sig), publicKeyHex)
            == if !ed.isPoint(pk) then Err(KeyParseError)
               else if !ed.verify(pk, SigningInput(m), sig) then Err(SignatureMismatch)
               else if json.decode(m).None? then Err(JsonError)
               else Ok(json.decode(m).value)
  {
    VerifyAssembled(ed, json, m, sig, publicKeyHex);
  }

  /** An assembled token reaches the post-decoding gates with exactly its message and signature. */
  lemma VerifyAssembled<T>(ed: Ed25519, json: JsonCodec<T>, m: seq<byte>, sig: seq<byte>, publicKeyHex: string)
    ensures VerifyPaseto(ed, json, Assemble(m, sig), publicKeyHex) == CheckSigned(ed, json, m, sig, publicKeyHex)
  {
    AssembleParts(m, sig);
    B64.DecodeEncode(m);
    B64.DecodeEncode(sig);
  }

  /**
   * Claims are returned only for an authentic token: one assembled from a
   * message and a 64-byte signature that verifies, under the given public
   * key, over PAE(header, message, ""), and whose message decodes to them.
   */
  lemma VerifiedTokenIsAuthentic<T>(ed: Ed25519, json: JsonCodec<T>, token: string, publicKeyHex: string, claims: T)
    requires VerifyPaseto(ed, json, token, publicKeyHex) == Ok(claims)
    ensures Hex.Decode(publicKeyHex).Ok? && |Hex.Decode(publicKeyHex).value| == 32
    ensures ed.isPoint(Hex.Decode(publicKeyHex).value)
    ensures exists m: seq<byte>, sig: Signature ::
              && token == Assemble(m, sig)
              && ed.verify(Hex.Decode(publicKeyHex).value, SigningInput(m), sig)
              && json.decode(m) == Some(claims)
  {
    var p0, p1, m, sig := AcceptedSegments(ed, json, token, publicKeyHex, claims);
    SegmentsAssemble(token, p0, p1, m, sig);
    var s: Signature := sig;
    assert token == Assemble(m, s);
  }

  /** The segments of a token that verification accepted, and what they decode to. */
  lemma AcceptedSegments<T>(ed: Ed25519, json: JsonCodec<T>, token: string, publicKeyHex: string, claims: T)
    returns (p0: string, p1: string, m: seq<byte>, sig: seq<byte>)
    requires VerifyPaseto(ed, json, token, publicKeyHex) == Ok(claims)
    ensures HEADER_STR <= token && Split(token[|HEADER_STR|..], '.') == [p0, p1]
    ensures B64.Decode(p0) == Some(m) && B64.Decode(p1) == Some(sig)
    ensures CheckSigned(ed, json, m, sig, publicKeyHex) == Ok(claims)
  {
    assert HEADER_STR <= token;
    var parts := Split(token[|HEADER_STR|..], '.');
    assert |parts| == 2;
    p0, p1 := parts[0], parts[1];
    assert B64.Decode(p0).Some?;
    m := B64.Decode(p0).value;
    assert B64.Decode(p1).Some?;
    sig := B64.Decode(p1).value;
    assert VerifyPaseto(ed, json, token, publicKeyHex) == CheckSigned(ed, json, m, sig, publicKeyHex);
  }

  /** A token the format and base64 gates pass is the assembly of what its segments decode to. */
  lemma SegmentsAssemble(token: string, p0: string, p1: string, m: seq<byte>, sig: seq<byte>)
    requires HEADER_STR <= token && Split(token[|HEADER_STR|..], '.') == [p0, p1]
    requires B64.Decode(p0) == Some(m) && B64.Decode(p1) == Some(sig)
    ensures token == Assemble(m, sig)
  {
    var rest := token[|HEADER_STR|..];
    SplitJoined(rest, p0, p1);
    HeaderThenRest(token);
    DecodedAssemble(p0, p1, m, sig);
  }

  lemma SplitJoined(rest: string, p0: string, p1: string)
    requires Split(rest, '.') == [p0, p1]
    ensures rest == p0 + "." + p1
  {
    SplitTwoJoin(rest, '.');
  }

  lemma HeaderThenRest(token: string)
    requires HEADER_STR <= token
    ensures token == HEADER_STR + token[|HEADER_STR|..]
  {
  }

  lemma DecodedAssemble(p0: string, p1: string, m: seq<byte>, sig: seq<byte>)
    requires B64.Decode(p0) == Some(m) && B64.Decode(p1) == Some(sig)
    ensures Assemble(m, sig) == HEADER_STR + (p0 + "." + p1)
  {
    B64.EncodeDecode(p0);
    B64.EncodeDecode(p1);
    assert B64.Encode(m) == p0 && B64.Encode(sig) == p1;
    JoinRegroup(HEADER_STR, p0, ".", p1);
  }

  /** Concatenation regrouped, for a header followed by two dot-joined segments. */
  lemma JoinRegroup(h: string, a: string, d: string, b: string)
    ensures h + a + d + b == h + (a + d + b)
  {
  }

  /**
   * A successful `sign_paseto` writes the wire format exactly:
   * the header, base64url of the JSON message, a dot, base64url of the
   * 64-byte signature over PAE(header, message, "") made with the first 32
   * key bytes; and the verifier's split recovers the two segments.
   */
  lemma SignedTokenLayout<T>(ed: Ed25519, json: JsonCodec<T>, claims: T, privateKeyHex: string)
    requires SignPaseto(ed, json, claims, privateKeyHex).Ok?
    ensures Hex.Decode(privateKeyHex).Ok? && |Hex.Decode(privateKeyHex).value| >= 32
    ensures json.encode(claims).Some?
    ensures var m := json.encode(claims).value;
            var sig := ed.sign(Hex.Decode(privateKeyHex).value[..32], SigningInput(m));
            && SignPaseto(ed, json, claims, privateKeyHex).value == Assemble(m, sig)
            && Split(Assemble(m, sig)[|HEADER_STR|..], '.') == [B64.Encode(m), B64.Encode(sig)]
  {
    var key := Hex.Decode(privateKeyHex).value;
    var m := json.encode(claims).value;
    var sig := ed.sign(key[..32], SigningInput(m));
    assert SignPaseto(ed, json, claims, privateKeyHex) == Ok(Assemble(m, sig));
    AssembleParts(m, sig);
  }

  /** Only the first 32 bytes of the private key matter: keys agreeing on them sign identically. */
  lemma SignUsesFirst32Bytes<T>(ed: Ed25519, json: JsonCodec<T>, claims: T, keyHexA: string, keyHexB: string)
    requires Hex.Decode(keyHexA).Ok? && Hex.Decode(keyHexB).Ok?
    requires |Hex.Decode(keyHexA).value| >= 32 && |Hex.Decode(keyHexB).value| >= 32
    requires Hex.Decode(keyHexA).value[..32] == Hex.Decode(keyHexB).value[..32]
    ensures SignPaseto(ed, json, claims, keyHexA) == SignPaseto(ed, json, claims, keyHexB)
  {
  }

  /**
   * Round trip: claims signed with a private key whose first 32 bytes are a
   * seed verify, under the public key derived from that seed, back to the
   * same claims.
   */
  lemma SignVerifyRoundTrip<T(!new)>(ed: Ed25519, json: JsonCodec<T>, claims: T, privateKeyHex: string, publicKeyHex: string)
    requires Correct(ed) && RoundTrips(json)
    requires Hex.Decode(privateKeyHex).Ok? && |Hex.Decode(privateKeyHex).value| >= 32
    requires Hex.Decode(publicKeyHex) == Ok(ed.derive(Hex.Decode(privateKeyHex).value[..32]))
    requires json.encode(claims).Some?
    ensures SignPaseto(ed, json, claims, privateKeyHex).Ok?
    ensures VerifyPaseto(ed, json, SignPaseto(ed, json, claims, privateKeyHex).value, publicKeyHex) == Ok(claims)
  {
    var seed: Seed := Hex.Decode(privateKeyHex).value[..32];
    var m := json.encode(claims).value;
    var sig := ed.sign(seed, SigningInput(m));
    assert SignPaseto(ed, json, claims, privateKeyHex) == Ok(Assemble(m, sig));
    VerifyKeyAndSignatureGates(ed, json, m, sig, publicKeyHex);
  }

  /**
   * The verifier does not reject an empty payload segment: "v4.public." +
   * "." + base64url(sig) passes the format and base64 gates with the empty
   * message and goes on to the signature check.
   */
  lemma EmptyPayloadReachesSignatureCheck<T>(ed: Ed25519, json: JsonCodec<T>, sig: Signature, publicKeyHex: string)
    requires Hex.Decode(publicKeyHex).Ok? && |Hex.Decode(publicKeyHex).value| == 32
    requires ed.isPoint(Hex.Decode(publicKeyHex).value)
    ensures var r := VerifyPaseto(ed, json, HEADER_STR + "." + B64.Encode(sig), publicKeyHex);
            r == if ed.verify(Hex.Decode(publicKeyHex).value, SigningInput([]), sig)
                 then (if json.decode([]).None? then Err(JsonError) else Ok(json.decode([]).value))
                 else Err(SignatureMismatch)
  {
    assert Assemble([], sig) == HEADER_STR + "." + B64.Encode(sig);
    VerifyKeyAndSignatureGates(ed, json, [], sig, publicKeyHex);
  }

  /** PAE("v4.public.", "hello", ""): 47 bytes, laid out field by field. */
  lemma HelloVector()
    ensures var hello: seq<byte> := [0x68, 0x65, 0x6C, 0x6C, 0x6F];
            var p := PaeOf([HEADER, hello, []]);
            && |p| == 47
            && p == [3, 0, 0, 0, 0, 0, 0, 0] + [10, 0, 0, 0, 0, 0, 0, 0] + HEADER
                    + [5, 0, 0, 0, 0, 0, 0, 0] + hello + [0, 0, 0, 0, 0, 0, 0, 0]
  {
    var hello: seq<byte> := [0x68, 0x65, 0x6C, 0x6C, 0x6F];
    assert Le64(3) == [3, 0, 0, 0, 0, 0, 0, 0];
    assert Le64(10) == [10, 0, 0, 0, 0, 0, 0, 0];
    assert Le64(5) == [5, 0, 0, 0, 0, 0, 0, 0];
    assert Le64(0) == [0, 0, 0, 0, 0, 0, 0, 0];
    assert LenU64(HEADER) == 10 && LenU64(hello) == 5 && LenU64([]) == 0;
    PaeLayout(HEADER, hello, []);
    PaeLength(HEADER, hello, []);
  }
}
