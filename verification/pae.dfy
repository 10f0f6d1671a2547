/**
 * Pre-Authentication Encoding, the byte string the token layer signs:
 * LE64(number of pieces), then for every piece LE64(its length) and its
 * bytes. `le64` is Rust's `u64::to_le_bytes`; lengths reach it through an
 * `as u64` cast, written out below as `% TWO_64`.
 */
module Pae {
  import opened Prelude

  function Pow256(k: nat): (p: nat)
    ensures p > 0
  {
    if k == 0 then 1 else 256 * Pow256(k - 1)
  }

  /** The low `k` bytes of `n`, least significant first. */
  function LeBytes(n: nat, k: nat): (r: seq<byte>)
    ensures |r| == k
  {
    if k == 0 then [] else [n % 256] + LeBytes(n / 256, k - 1)
  }

  /** The number that a little-endian byte string denotes. */
  function LeValue(s: seq<byte>): nat
  {
    if s == [] then 0 else s[0] + 256 * LeValue(s[1..])
  }

  /** Writing a number below 256^k into k little-endian bytes and reading it back gives the number. */
  lemma {:induction false} LeBytesValue(n: nat, k: nat)
    requires n < Pow256(k)
    ensures LeValue(LeBytes(n, k)) == n
  {
    if k > 0 {
      LeBytesValue(n / 256, k - 1);
      assert LeBytes(n, k)[1..] == LeBytes(n / 256, k - 1);
    }
  }

  lemma Pow256Of8()
    ensures Pow256(8) == TWO_64
  {
  }

  /** `le64(n)`: eight bytes, little-endian, that read back as `n`. */
  function Le64(n: u64): (r: seq<byte>)
    ensures |r| == 8 && LeValue(r) == n
  {
    Pow256Of8();
    LeBytesValue(n, 8);
    LeBytes(n, 8)
  }

  /** A number below 2^64 survives reduction modulo 2^64. */
  lemma BelowModulus(k: nat)
    requires k < TWO_64
    ensures k % TWO_64 == k
  {
  }

  /** The `as u64` cast that a slice length goes through before `le64`. */
  function LenU64(s: seq<byte>): (n: u64)
    ensures |s| < TWO_64 ==> n == |s|
  {
    |s| % TWO_64
  }

  /** One piece in the encoding: LE64 of its length, then its bytes. */
  function Frame(p: seq<byte>): (r: seq<byte>)
    ensures |r| == 8 + |p|
  {
    Le64(LenU64(p)) + p
  }

  /** The frames of all pieces, in order. */
  function Frames(pieces: seq<seq<byte>>): seq<byte>
    decreases |pieces|
  {
    if pieces == [] then [] else Frame(pieces[0]) + Frames(pieces[1..])
  }

  /** PAE over a list of pieces: the count, then each piece framed. */
  function PaeOf(pieces: seq<seq<byte>>): seq<byte>
  {
    Le64(|pieces| % TWO_64) + Frames(pieces)
  }

  /** Every piece is short enough for its length to survive the `as u64` cast. */
  ghost predicate Addressable(pieces: seq<seq<byte>>)
  {
    forall i :: 0 <= i < |pieces| ==> |pieces[i]| < TWO_64
  }

  /**
   * `pae(header, m, footer)`: seven successive appends to an initially empty
   * vector, which build exactly the encoding of the three pieces.
   */
  method Pae(header: seq<byte>, m: seq<byte>, footer: seq<byte>) returns (output: seq<byte>)
    ensures output == PaeOf([header, m, footer])
    ensures |output| == 32 + |header| + |m| + |footer|
  {
    var count, lh, lm, lf := Le64(3), Le64(LenU64(header)), Le64(LenU64(m)), Le64(LenU64(footer));
    output := [];
    output := output + count;
    output := output + lh;
    output := output + header;
    output := output + lm;
    output := output + m;
    output := output + lf;
    output := output + footer;
    assert output == count + lh + header + lm + m + lf + footer;
    PaeLayout(header, m, footer);
    PaeLength(header, m, footer);
  }

  /** For three pieces the encoding is LE64(3), then each length and piece in turn. */
  lemma PaeLayout(h: seq<byte>, m: seq<byte>, f: seq<byte>)
    ensures PaeOf([h, m, f])
         == Le64(3) + Le64(LenU64(h)) + h + Le64(LenU64(m)) + m + Le64(LenU64(f)) + f
  {
    FramesOfThree(h, m, f);
    var ps: seq<seq<byte>> := [h, m, f];
    assert |ps| % TWO_64 == 3;
    Regroup(Le64(3), Le64(LenU64(h)), h, Le64(LenU64(m)), m, Le64(LenU64(f)), f);
  }

  /** The frames of three pieces, one after the other. */
  lemma FramesOfThree(h: seq<byte>, m: seq<byte>, f: seq<byte>)
    ensures Frames([h, m, f]) == Frame(h) + (Frame(m) + Frame(f))
  {
    var ps: seq<seq<byte>> := [h, m, f];
    var tail: seq<seq<byte>> := [m, f];
    var last: seq<seq<byte>> := [f];
    assert ps[1..] == tail && tail[1..] == last && last[1..] == [];
    assert Frames(last) == Frame(f);
  }

  /** Concatenation regrouped: the nested form of PAE is the flat one. */
  lemma Regroup(c: seq<byte>, lh: seq<byte>, h: seq<byte>, lm: seq<byte>, m: seq<byte>, lf: seq<byte>, f: seq<byte>)
    ensures c + ((lh + h) + ((lm + m) + (lf + f))) == c + lh + h + lm + m + lf + f
  {
  }

  /** Three pieces always take 32 bytes of framing: four LE64 fields. */
  lemma PaeLength(h: seq<byte>, m: seq<byte>, f: seq<byte>)
    ensures |PaeOf([h, m, f])| == 32 + |h| + |m| + |f|
  {
    PaeLayout(h, m, f);
  }

  lemma Le64Injective(a: u64, b: u64)
    requires Le64(a) == Le64(b)
    ensures a == b
  {
  }

  /** A frame determines where its piece ends, so a frame and what follows can be told apart. */
  lemma FrameInjective(x: seq<byte>, rx: seq<byte>, y: seq<byte>, ry: seq<byte>)
    requires |x| < TWO_64 && |y| < TWO_64
    requires Frame(x) + rx == Frame(y) + ry
    ensures x == y && rx == ry
  {
    var s := Frame(x) + rx;
    assert s[..8] == Le64(LenU64(x));
    assert s[..8] == Le64(LenU64(y));
    Le64Injective(LenU64(x), LenU64(y));
    assert x == s[8..8 + |x|] == y;
    assert rx == s[8 + |x|..] == ry;
  }

  /** Equal framings of equally many addressable pieces are framings of the same pieces. */
  lemma {:induction false} FramesInjective(ps: seq<seq<byte>>, qs: seq<seq<byte>>)
    requires |ps| == |qs| && Addressable(ps) && Addressable(qs)
    requires Frames(ps) == Frames(qs)
    ensures ps == qs
    decreases |ps|
  {
    if ps != [] {
      FrameInjective(ps[0], Frames(ps[1..]), qs[0], Frames(qs[1..]));
      assert Addressable(ps[1..]) by {
        forall i | 0 <= i < |ps[1..]| ensures |ps[1..][i]| < TWO_64 {
          assert ps[1..][i] == ps[i + 1];
        }
      }
      assert Addressable(qs[1..]) by {
        forall i | 0 <= i < |qs[1..]| ensures |qs[1..][i]| < TWO_64 {
          assert qs[1..][i] == qs[i + 1];
        }
      }
      FramesInjective(ps[1..], qs[1..]);
      assert ps == [ps[0]] + ps[1..];
      assert qs == [qs[0]] + qs[1..];
    }
  }

  lemma PaeParts(ps: seq<seq<byte>>)
    ensures PaeOf(ps)[..8] == Le64(|ps| % TWO_64) && PaeOf(ps)[8..] == Frames(ps)
  {
  }

  /**
   * PAE is injective: two lists of addressable pieces with the same encoding
   * are the same list, so no other split of the bytes into pieces collides.
   */
  lemma PaeInjective(ps: seq<seq<byte>>, qs: seq<seq<byte>>)
    requires |ps| < TWO_64 && |qs| < TWO_64 && Addressable(ps) && Addressable(qs)
    requires PaeOf(ps) == PaeOf(qs)
    ensures ps == qs
  {
    SameCountSameFrames(ps, qs);
    FramesInjective(ps, qs);
  }

  /** Equal encodings have equal piece counts and equal framings. */
  lemma SameCountSameFrames(ps: seq<seq<byte>>, qs: seq<seq<byte>>)
    requires |ps| < TWO_64 && |qs| < TWO_64
    requires PaeOf(ps) == PaeOf(qs)
    ensures |ps| == |qs| && Frames(ps) == Frames(qs)
  {
    PaeParts(ps);
    PaeParts(qs);
    var np, nq := |ps| % TWO_64, |qs| % TWO_64;
    assert Le64(np) == PaeOf(ps)[..8] == PaeOf(qs)[..8] == Le64(nq);
    Le64Injective(np, nq);
    BelowModulus(|ps|);
    BelowModulus(|qs|);
    assert Frames(ps) == PaeOf(ps)[8..] == PaeOf(qs)[8..] == Frames(qs);
  }

  /** The three-piece case used for tokens: equal encodings mean equal header, message and footer. */
  lemma PaeInjective3(h: seq<byte>, m: seq<byte>, f: seq<byte>, h': seq<byte>, m': seq<byte>, f': seq<byte>)
    requires |h| < TWO_64 && |m| < TWO_64 && |f| < TWO_64
    requires |h'| < TWO_64 && |m'| < TWO_64 && |f'| < TWO_64
    requires PaeOf([h, m, f]) == PaeOf([h', m', f'])
    ensures h == h' && m == m' && f == f'
  {
    PaeInjective([h, m, f], [h', m', f']);
    assert [h, m, f][1] == [h', m', f'][1];
  }
}
