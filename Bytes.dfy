/** Byte strings as the key-value store sees them: keys and values are
    sequences of bytes, ordered the way the store's range scan orders them
    (unsigned lexicographic comparison, as Go's bytes.Compare). */
module Bytes {

  type byte = x: int | 0 <= x < 256
  type Bytes = seq<byte>

  /** Go's int64. */
  type int64 = x: int | -0x8000_0000_0000_0000 <= x < 0x8000_0000_0000_0000

  predicate HasPrefix(s: Bytes, p: Bytes) {
    |p| <= |s| && s[..|p|] == p
  }

  /** bytes.Index(s, []byte{x}): the position of the first x in s, or -1. */
  function IndexOf(s: Bytes, x: byte): (r: int)
    ensures -1 <= r < |s|
    ensures r == -1 <==> x !in s
    ensures 0 <= r ==> s[r] == x && x !in s[..r]
  {
    if |s| == 0 then -1
    else if s[0] == x then 0
    else
      var r := IndexOf(s[1..], x);
      if r == -1 then -1
      else
        assert s[..r + 1] == [s[0]] + s[1..][..r];
        r + 1
  }

  /** The first x in p + [x] + rest is right after p when p holds no x. */
  lemma {:induction false} IndexOfAfter(p: Bytes, x: byte, rest: Bytes)
    requires x !in p
    ensures IndexOf(p + [x] + rest, x) == |p|
  {
    if |p| > 0 {
      assert (p + [x] + rest)[1..] == p[1..] + [x] + rest;
      IndexOfAfter(p[1..], x, rest);
    }
  }

  /** Strict lexicographic order on unsigned bytes: the order of keys in a
      range scan. A proper prefix comes first. */
  predicate LexLess(a: Bytes, b: Bytes) {
    if |a| == 0 then |b| > 0
    else |b| > 0 && (a[0] < b[0] || (a[0] == b[0] && LexLess(a[1..], b[1..])))
  }

  lemma {:induction false} LexLessAsymmetric(a: Bytes, b: Bytes)
    requires LexLess(a, b)
    ensures !LexLess(b, a)
  {
    if |a| > 0 && a[0] == b[0] {
      LexLessAsymmetric(a[1..], b[1..]);
    }
  }

  lemma {:induction false} LexLessIrreflexive(a: Bytes)
    ensures !LexLess(a, a)
  {
    if |a| > 0 {
      LexLessIrreflexive(a[1..]);
    }
  }

  /** A common prefix does not change the order. */
  lemma {:induction false} LexLessPrepend(p: Bytes, a: Bytes, b: Bytes)
    requires LexLess(a, b)
    ensures LexLess(p + a, p + b)
  {
    if |p| > 0 {
      assert (p + a)[1..] == p[1..] + a;
      assert (p + b)[1..] == p[1..] + b;
      LexLessPrepend(p[1..], a, b);
    } else {
      assert p + a == a && p + b == b;
    }
  }

  /** Once two strings of equal length are ordered, whatever follows them
      does not change the order. */
  lemma {:induction false} LexLessAppend(a: Bytes, b: Bytes, x: Bytes, y: Bytes)
    requires |a| == |b| && LexLess(a, b)
    ensures LexLess(a + x, b + y)
  {
    if a[0] == b[0] {
      assert (a + x)[1..] == a[1..] + x;
      assert (b + y)[1..] == b[1..] + y;
      LexLessAppend(a[1..], b[1..], x, y);
    }
  }
}
