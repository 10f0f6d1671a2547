/**
 * The `hex` crate as the token layer uses it: `hex::encode` writes two
 * lower-case digits per byte; `hex::decode` rejects an odd length first and
 * then reports the first character that is not a hexadecimal digit (either
 * case is accepted), with its position.
 */
module Hex {
  import opened Prelude

  /** `hex::FromHexError`, as far as `decode` can raise it. */
  datatype HexFault = OddLength | InvalidHexCharacter(c: char, index: nat)

  /** The lower-case digit for a nibble. */
  function Digit(n: nat): (c: char)
    requires n < 16
  {
    if n < 10 then ('0' as int + n) as char else ('a' as int + n - 10) as char
  }

  /** The nibble a digit stands for, in either case; None for any other character. */
  function DigitValue(c: char): (r: Option<nat>)
    ensures r.Some? ==> r.value < 16
  {
    if '0' <= c <= '9' then Some(c as int - '0' as int)
    else if 'a' <= c <= 'f' then Some(c as int - 'a' as int + 10)
    else if 'A' <= c <= 'F' then Some(c as int - 'A' as int + 10)
    else None
  }

  lemma DigitRoundTrip(n: nat)
    requires n < 16
    ensures DigitValue(Digit(n)) == Some(n)
  {
  }

  /** `hex::encode`: two lower-case digits per byte, high nibble first. */
  function Encode(b: seq<byte>): (s: string)
    ensures |s| == 2 * |b|
    ensures forall i :: 0 <= i < |s| ==> DigitValue(s[i]).Some?
  {
    if b == [] then []
    else
      DigitRoundTrip(b[0] / 16);
      DigitRoundTrip(b[0] % 16);
      [Digit(b[0] / 16), Digit(b[0] % 16)] + Encode(b[1..])
  }

  /** `hex::decode`: odd length first, then the first bad digit, left to right. */
  function Decode(s: string): (r: Result<seq<byte>, HexFault>)
    ensures r.Ok? ==> 2 * |r.value| == |s|
    ensures r == Err(OddLength) <==> |s| % 2 != 0
  {
    if |s| % 2 != 0 then Err(OddLength) else DecodePairs(s, 0)
  }

  /** Decodes digit pairs; `at` is the position of `s[0]` in the whole input. */
  function DecodePairs(s: string, at: nat): (r: Result<seq<byte>, HexFault>)
    requires |s| % 2 == 0
    ensures r.Ok? ==> 2 * |r.value| == |s|
    ensures r.Err? ==> r.error.InvalidHexCharacter? && at <= r.error.index < at + |s|
    ensures r.Err? ==> var k := r.error.index - at;
              && r.error.c == s[k] && DigitValue(s[k]).None?
              && forall j :: 0 <= j < k ==> DigitValue(s[j]).Some?
    ensures (forall i :: 0 <= i < |s| ==> DigitValue(s[i]).Some?) ==> r.Ok?
    decreases |s|
  {
    if s == [] then Ok([])
    else
      match (DigitValue(s[0]), DigitValue(s[1]))
      case (None, _) => Err(InvalidHexCharacter(s[0], at))
      case (Some(_), None) => Err(InvalidHexCharacter(s[1], at + 1))
      case (Some(hi), Some(lo)) =>
        match DecodePairs(s[2..], at + 2)
        case Err(e) => Err(e)
        case Ok(rest) => Ok([hi * 16 + lo] + rest)
  }

  lemma {:induction false} DecodePairsEncode(b: seq<byte>, at: nat)
    ensures DecodePairs(Encode(b), at) == Ok(b)
    decreases |b|
  {
    if b != [] {
      var s := Encode(b);
      assert s[2..] == Encode(b[1..]);
      DigitRoundTrip(b[0] / 16);
      DigitRoundTrip(b[0] % 16);
      DecodePairsEncode(b[1..], at + 2);
      assert [b[0]] + b[1..] == b;
    }
  }

  /** Decoding what `hex::encode` wrote gives back the bytes. */
  lemma DecodeEncode(b: seq<byte>)
    ensures Decode(Encode(b)) == Ok(b)
  {
    var s := Encode(b);
    assert |s| % 2 == 0;
    DecodePairsEncode(b, 0);
    assert Decode(s) == DecodePairs(s, 0);
  }

  /** One step of the decoder on an accepted string: two digits make the first byte. */
  lemma DecodePairsStep(s: string, at: nat)
    requires |s| % 2 == 0 && s != [] && DecodePairs(s, at).Ok?
    ensures DigitValue(s[0]).Some? && DigitValue(s[1]).Some? && DecodePairs(s[2..], at + 2).Ok?
    ensures DecodePairs(s, at).value
            == [DigitValue(s[0]).value * 16 + DigitValue(s[1]).value] + DecodePairs(s[2..], at + 2).value
  {
  }

  /** The digits of a byte value split back into the two nibbles it was made of. */
  lemma NibbleSplit(hi: nat, lo: nat)
    requires hi < 16 && lo < 16
    ensures (hi * 16 + lo) / 16 == hi && (hi * 16 + lo) % 16 == lo
  {
  }

  /** A string the decoder accepts is the encoding of its result up to letter case. */
  lemma {:induction false} DecodePairsSound(s: string, at: nat)
    requires |s| % 2 == 0 && DecodePairs(s, at).Ok?
    ensures forall i :: 0 <= i < |s| ==> DigitValue(s[i]).Some?
    ensures forall i :: 0 <= i < |s| ==> DigitValue(s[i]) == DigitValue(Encode(DecodePairs(s, at).value)[i])
    decreases |s|
  {
    if s != [] {
      DecodePairsStep(s, at);
      var b := DecodePairs(s, at).value;
      var rest := DecodePairs(s[2..], at + 2).value;
      DecodePairsSound(s[2..], at + 2);
      var hi, lo := DigitValue(s[0]).value, DigitValue(s[1]).value;
      NibbleSplit(hi, lo);
      DigitRoundTrip(hi);
      DigitRoundTrip(lo);
      assert b[0] == hi * 16 + lo && b[1..] == rest;
      var e := Encode(b);
      assert e == [Digit(hi), Digit(lo)] + Encode(rest);
      forall i | 0 <= i < |s|
        ensures DigitValue(s[i]).Some? && DigitValue(s[i]) == DigitValue(e[i])
      {
        if i >= 2 {
          assert s[i] == s[2..][i - 2] && e[i] == Encode(rest)[i - 2];
        }
      }
    }
  }
}
