/**
 * The two `str` operations the token verifier relies on: `starts_with`
 * (the sequence prefix `<=`) and `split` on a single character, which
 * yields one more part than there are separators, empty parts included.
 */
module Text {

  /** The number of occurrences of `d` in `s`. */
  function Count(s: string, d: char): (n: nat)
    ensures n <= |s|
    ensures n == 0 <==> d !in s
  {
    if s == [] then 0 else (if s[0] == d then 1 else 0) + Count(s[1..], d)
  }

  lemma {:induction false} CountConcat(a: string, b: string, d: char)
    ensures Count(a + b, d) == Count(a, d) + Count(b, d)
    decreases |a|
  {
    if a == [] {
      assert a + b == b;
    } else {
      assert (a + b)[1..] == a[1..] + b;
      CountConcat(a[1..], b, d);
    }
  }

  /** `s.split(d)`: the maximal separator-free pieces of `s`, in order. */
  function Split(s: string, d: char): (parts: seq<string>)
    ensures |parts| == Count(s, d) + 1
    ensures forall i :: 0 <= i < |parts| ==> d !in parts[i]
    decreases |s|
  {
    if s == [] then [""]
    else
      var rest := Split(s[1..], d);
      if s[0] == d then [""] + rest
      else [[s[0]] + rest[0]] + rest[1..]
  }

  /** Joining the parts of a two-part split with the separator gives back the input. */
  lemma {:induction false} SplitTwoJoin(s: string, d: char)
    requires |Split(s, d)| == 2
    ensures s == Split(s, d)[0] + [d] + Split(s, d)[1]
    decreases |s|
  {
    var rest := Split(s[1..], d);
    if s[0] == d {
      assert Count(s[1..], d) == 0;
      SplitNone(s[1..], d);
    } else {
      SplitTwoJoin(s[1..], d);
    }
  }

  /** A string without the separator splits into itself alone. */
  lemma {:induction false} SplitNone(s: string, d: char)
    requires d !in s
    ensures Split(s, d) == [s]
    decreases |s|
  {
    if s != [] {
      SplitNone(s[1..], d);
      assert [s[0]] + s[1..] == s;
    }
  }

  /** Two separator-free strings joined by the separator split back into exactly those two. */
  lemma {:induction false} SplitJoinTwo(a: string, b: string, d: char)
    requires d !in a && d !in b
    ensures Split(a + [d] + b, d) == [a, b]
    decreases |a|
  {
    var s := a + [d] + b;
    if a == [] {
      assert s[1..] == b;
      SplitNone(b, d);
    } else {
      assert s[1..] == a[1..] + [d] + b;
      SplitJoinTwo(a[1..], b, d);
      assert [a[0]] + a[1..] == a;
    }
  }

  /** Two separator-free strings joined by the separator contain it exactly once. */
  lemma CountJoinTwo(a: string, b: string, d: char)
    requires d !in a && d !in b
    ensures Count(a + [d] + b, d) == 1
  {
    CountConcat(a + [d], b, d);
    CountConcat(a, [d], d);
  }
}
