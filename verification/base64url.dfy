/**
 * Unpadded URL-safe base64 (RFC 4648 section 5, with the padding of
 * section 3.2 omitted), as the `base64` crate's URL_SAFE_NO_PAD engine
 * encodes and decodes it. The decoder is strict: a symbol outside the
 * alphabet (including `=`), a final group of one symbol, or non-zero
 * unused bits in the last symbol are all rejected.
 */
module Base64Url {
  import opened Prelude

  /** The symbol for a sextet: A-Z, a-z, 0-9, then `-` and `_`. */
  function Symbol(v: nat): (c: char)
    requires v < 64
  {
    if v < 26 then ('A' as int + v) as char
    else if v < 52 then ('a' as int + v - 26) as char
    else if v < 62 then ('0' as int + v - 52) as char
    else if v == 62 then '-'
    else '_'
  }

  /** The sextet a symbol stands for; None outside the alphabet. */
  function SymbolValue(c: char): (r: Option<nat>)
    ensures r.Some? ==> r.value < 64
  {
    if 'A' <= c <= 'Z' then Some(c as int - 'A' as int)
    else if 'a' <= c <= 'z' then Some(c as int - 'a' as int + 26)
    else if '0' <= c <= '9' then Some(c as int - '0' as int + 52)
    else if c == '-' then Some(62)
    else if c == '_' then Some(63)
    else None
  }

  lemma SymbolRoundTrip(v: nat)
    requires v < 64
    ensures SymbolValue(Symbol(v)) == Some(v)
  {
  }

  lemma ValueRoundTrip(c: char)
    requires SymbolValue(c).Some?
    ensures Symbol(SymbolValue(c).value) == c
  {
  }

  /** The symbols for one group of one to three bytes: 2, 3 or 4 symbols, unused low bits zero. */
  function EncodeGroup(g: seq<byte>): (q: string)
    requires 1 <= |g| <= 3
    ensures |q| == |g| + 1
  {
    if |g| == 1 then
      [Symbol(g[0] / 4), Symbol(g[0] % 4 * 16)]
    else if |g| == 2 then
      [Symbol(g[0] / 4), Symbol(g[0] % 4 * 16 + g[1] / 16), Symbol(g[1] % 16 * 4)]
    else
      [Symbol(g[0] / 4), Symbol(g[0] % 4 * 16 + g[1] / 16),
       Symbol(g[1] % 16 * 4 + g[2] / 64), Symbol(g[2] % 64)]
  }

  /**
   * The bytes of one group of two to four symbols; None when a symbol is
   * outside the alphabet or the unused low bits of the last symbol are set.
   */
  function DecodeGroup(q: string): (r: Option<seq<byte>>)
    requires 2 <= |q| <= 4
    ensures r.Some? ==> |r.value| == |q| - 1
    ensures r.Some? ==> forall i :: 0 <= i < |q| ==> SymbolValue(q[i]).Some?
  {
    if exists i | 0 <= i < |q| :: SymbolValue(q[i]).None? then None
    else
      var v0, v1 := SymbolValue(q[0]).value, SymbolValue(q[1]).value;
      if |q| == 2 then
        if v1 % 16 != 0 then None else Some([v0 * 4 + v1 / 16])
      else
        var v2 := SymbolValue(q[2]).value;
        if |q| == 3 then
          if v2 % 4 != 0 then None else Some([v0 * 4 + v1 / 16, v1 % 16 * 16 + v2 / 4])
        else
          var v3 := SymbolValue(q[3]).value;
          Some([v0 * 4 + v1 / 16, v1 % 16 * 16 + v2 / 4, v2 % 4 * 64 + v3])
  }

  /** Encodes three bytes at a time; a final one or two bytes give two or three symbols. */
  function Encode(b: seq<byte>): (s: string)
    ensures |s| == (4 * |b| + 2) / 3
    decreases |b|
  {
    if b == [] then []
    else
      var n := if |b| < 3 then |b| else 3;
      EncodeGroup(b[..n]) + Encode(b[n..])
  }

  /** Decodes four symbols at a time; a final group of one symbol is rejected. */
  function Decode(s: string): (r: Option<seq<byte>>)
    ensures |s| % 4 == 1 ==> r.None?
    ensures r.Some? ==> forall i :: 0 <= i < |s| ==> SymbolValue(s[i]).Some?
    ensures r.Some? ==> |r.value| == 3 * |s| / 4
    decreases |s|
  {
    if s == [] then Some([])
    else if |s| == 1 then None
    else
      var n := if |s| < 4 then |s| else 4;
      GroupCount(|s|, n);
      match DecodeGroup(s[..n])
      case None => None
      case Some(g) =>
        match Decode(s[n..])
        case None => None
        case Some(rest) =>
          InAlphabetConcat(s, n);
          Some(g + rest)
  }

  /** Taking a group of `n` symbols off the front keeps the count modulo 4 and the byte count. */
  lemma GroupCount(k: nat, n: nat)
    requires 2 <= k && n == if k < 4 then k else 4
    ensures k % 4 == 1 ==> k >= 4 && (k - n) % 4 == 1
    ensures 3 * k / 4 == n - 1 + 3 * (k - n) / 4
  {
  }

  /** Both halves in the alphabet means the whole string is. */
  lemma InAlphabetConcat(s: string, n: nat)
    requires n <= |s|
    requires forall i :: 0 <= i < n ==> SymbolValue(s[..n][i]).Some?
    requires forall i :: 0 <= i < |s| - n ==> SymbolValue(s[n..][i]).Some?
    ensures forall i :: 0 <= i < |s| ==> SymbolValue(s[i]).Some?
  {
    forall i | 0 <= i < |s| ensures SymbolValue(s[i]).Some? {
      if i < n { assert s[i] == s[..n][i]; } else { assert s[i] == s[n..][i - n]; }
    }
  }

  /** Regrouping three bytes into four sextets loses nothing (the arithmetic behind DecodeEncode). */
  lemma BytesToSextets(b0: byte, b1: byte, b2: byte)
    ensures (b0 % 4 * 16) % 16 == 0 && b0 / 4 * 4 + (b0 % 4 * 16) / 16 == b0
    ensures (b0 % 4 * 16 + b1 / 16) / 16 == b0 % 4 && (b0 % 4 * 16 + b1 / 16) % 16 == b1 / 16
    ensures (b1 % 16 * 4) % 4 == 0 && (b1 % 16 * 4) / 4 == b1 % 16
    ensures (b1 % 16 * 4 + b2 / 64) / 4 == b1 % 16 && (b1 % 16 * 4 + b2 / 64) % 4 == b2 / 64
  {
  }

  /** Regrouping four sextets into three bytes loses nothing (the arithmetic behind EncodeDecode). */
  lemma SextetsToBytes(v0: nat, v1: nat, v2: nat, v3: nat)
    requires v0 < 64 && v1 < 64 && v2 < 64 && v3 < 64
    ensures (v0 * 4 + v1 / 16) / 4 == v0 && (v0 * 4 + v1 / 16) % 4 == v1 / 16
    ensures (v1 % 16 * 16 + v2 / 4) / 16 == v1 % 16 && (v1 % 16 * 16 + v2 / 4) % 16 == v2 / 4
    ensures (v2 % 4 * 64 + v3) / 64 == v2 % 4 && (v2 % 4 * 64 + v3) % 64 == v3
  {
  }

  lemma GroupInAlphabet(g: seq<byte>)
    requires 1 <= |g| <= 3
    ensures forall i :: 0 <= i < |EncodeGroup(g)| ==> SymbolValue(EncodeGroup(g)[i]).Some?
  {
    var b1 := if |g| >= 2 then g[1] else 0;
    var b2 := if |g| >= 3 then g[2] else 0;
    BytesToSextets(g[0], b1, b2);
    SymbolRoundTrip(g[0] / 4);
    SymbolRoundTrip(g[0] % 4 * 16 + b1 / 16);
    SymbolRoundTrip(b1 % 16 * 4 + b2 / 64);
    SymbolRoundTrip(b2 % 64);
  }

  lemma DecodeEncodeGroup(g: seq<byte>)
    requires 1 <= |g| <= 3
    ensures DecodeGroup(EncodeGroup(g)) == Some(g)
  {
    var b1 := if |g| >= 2 then g[1] else 0;
    var b2 := if |g| >= 3 then g[2] else 0;
    BytesToSextets(g[0], b1, b2);
    GroupInAlphabet(g);
    SymbolRoundTrip(g[0] / 4);
    SymbolRoundTrip(g[0] % 4 * 16 + b1 / 16);
    SymbolRoundTrip(b1 % 16 * 4 + b2 / 64);
    SymbolRoundTrip(b2 % 64);
    if |g| == 1 {
      assert g == [g[0]];
    } else if |g| == 2 {
      assert g == [g[0], g[1]];
    } else {
      assert g == [g[0], g[1], g[2]];
    }
  }

  lemma EncodeDecodeGroup(q: string)
    requires 2 <= |q| <= 4 && DecodeGroup(q).Some?
    ensures EncodeGroup(DecodeGroup(q).value) == q
  {
    assert SymbolValue(q[0]).Some? && SymbolValue(q[1]).Some?;
    ValueRoundTrip(q[0]);
    ValueRoundTrip(q[1]);
    if |q| == 2 {
      EncodeDecodeTwo(q);
    } else {
      assert SymbolValue(q[2]).Some?;
      ValueRoundTrip(q[2]);
      if |q| == 3 {
        EncodeDecodeThree(q);
      } else {
        assert SymbolValue(q[3]).Some?;
        ValueRoundTrip(q[3]);
        EncodeDecodeFour(q);
      }
    }
  }

  /** A sextet is its high part and its low part put back together. */
  lemma Recombine(v: nat)
    requires v < 64
    ensures v / 16 * 16 + v % 16 == v && v / 4 * 4 + v % 4 == v
  {
  }

  lemma EncodeDecodeTwo(q: string)
    requires |q| == 2 && DecodeGroup(q).Some?
    requires forall i :: 0 <= i < 2 ==> SymbolValue(q[i]).Some? && Symbol(SymbolValue(q[i]).value) == q[i]
    ensures EncodeGroup(DecodeGroup(q).value) == q
  {
    var v0, v1 := SymbolValue(q[0]).value, SymbolValue(q[1]).value;
    var b0 := v0 * 4 + v1 / 16;
    SextetsToBytes(v0, v1, 0, 0);
    Recombine(v1);
    assert v1 % 16 == 0;
    assert b0 % 4 * 16 == v1;
    assert DecodeGroup(q) == Some([b0]);
    assert EncodeGroup([b0]) == [Symbol(v0), Symbol(v1)];
  }

  lemma EncodeDecodeThree(q: string)
    requires |q| == 3 && DecodeGroup(q).Some?
    requires forall i :: 0 <= i < 3 ==> SymbolValue(q[i]).Some? && Symbol(SymbolValue(q[i]).value) == q[i]
    ensures EncodeGroup(DecodeGroup(q).value) == q
  {
    var v0, v1, v2 := SymbolValue(q[0]).value, SymbolValue(q[1]).value, SymbolValue(q[2]).value;
    var b0, b1 := v0 * 4 + v1 / 16, v1 % 16 * 16 + v2 / 4;
    SextetsToBytes(v0, v1, v2, 0);
    Recombine(v1);
    Recombine(v2);
    assert v2 % 4 == 0;
    assert b0 % 4 * 16 + b1 / 16 == v1;
    assert b1 % 16 * 4 == v2;
    assert DecodeGroup(q) == Some([b0, b1]);
    assert EncodeGroup([b0, b1]) == [Symbol(v0), Symbol(v1), Symbol(v2)];
  }

  lemma EncodeDecodeFour(q: string)
    requires |q| == 4 && DecodeGroup(q).Some?
    requires forall i :: 0 <= i < 4 ==> SymbolValue(q[i]).Some? && Symbol(SymbolValue(q[i]).value) == q[i]
    ensures EncodeGroup(DecodeGroup(q).value) == q
  {
    var v0, v1, v2, v3 := SymbolValue(q[0]).value, SymbolValue(q[1]).value, SymbolValue(q[2]).value, SymbolValue(q[3]).value;
    var b0, b1, b2 := v0 * 4 + v1 / 16, v1 % 16 * 16 + v2 / 4, v2 % 4 * 64 + v3;
    SextetsToBytes(v0, v1, v2, v3);
    Recombine(v1);
    Recombine(v2);
    assert b0 % 4 * 16 + b1 / 16 == v1;
    assert b1 % 16 * 4 + b2 / 64 == v2;
    assert DecodeGroup(q) == Some([b0, b1, b2]);
    assert EncodeGroup([b0, b1, b2]) == [Symbol(v0), Symbol(v1), Symbol(v2), Symbol(v3)];
  }

  /** Decoding an encoding gives back the bytes. */
  lemma {:induction false} DecodeEncode(b: seq<byte>)
    ensures Decode(Encode(b)) == Some(b)
    decreases |b|
  {
    if b != [] {
      var n := if |b| < 3 then |b| else 3;
      var s := Encode(b);
      assert s[..n + 1] == EncodeGroup(b[..n]) && s[n + 1..] == Encode(b[n..]);
      DecodeEncodeGroup(b[..n]);
      DecodeEncode(b[n..]);
      assert b == b[..n] + b[n..];
    }
  }

  /** The decoder is canonical: whatever it accepts is the encoding of its result. */
  lemma {:induction false} EncodeDecode(s: string)
    requires Decode(s).Some?
    ensures Encode(Decode(s).value) == s
    decreases |s|
  {
    if s != [] {
      var n := if |s| < 4 then |s| else 4;
      var g := DecodeGroup(s[..n]).value;
      var rest := Decode(s[n..]).value;
      EncodeDecodeGroup(s[..n]);
      EncodeDecode(s[n..]);
      var b := g + rest;
      assert b[..n - 1] == g && b[n - 1..] == rest;
      assert s == s[..n] + s[n..];
    }
  }

  /** The decoder accepts exactly the strings the encoder can write. */
  lemma AcceptsExactlyEncodings(s: string)
    ensures Decode(s).Some? <==> exists b :: Encode(b) == s
  {
    if Decode(s).Some? {
      EncodeDecode(s);
    }
    forall b | Encode(b) == s
      ensures Decode(s).Some?
    {
      DecodeEncode(b);
    }
  }

  /** Every symbol the encoder writes is in the alphabet. */
  lemma {:induction false} EncodeInAlphabet(b: seq<byte>)
    ensures forall i :: 0 <= i < |Encode(b)| ==> SymbolValue(Encode(b)[i]).Some?
    decreases |b|
  {
    if b != [] {
      var n := if |b| < 3 then |b| else 3;
      var s := Encode(b);
      GroupInAlphabet(b[..n]);
      EncodeInAlphabet(b[n..]);
      assert s == EncodeGroup(b[..n]) + Encode(b[n..]);
      forall i | 0 <= i < |s| ensures SymbolValue(s[i]).Some? {
        if i < n + 1 {
          assert s[i] == EncodeGroup(b[..n])[i];
        } else {
          assert s[i] == Encode(b[n..])[i - (n + 1)];
        }
      }
    }
  }

  /** The alphabet has no `.`, so an encoding never contains the token's separator. */
  lemma NoDotInEncoding(b: seq<byte>)
    ensures '.' !in Encode(b)
  {
    EncodeInAlphabet(b);
    assert SymbolValue('.').None?;
  }
}
