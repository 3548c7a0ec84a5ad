/** The fixed-width timestamp encoding used inside expiration index keys.
    EncodeInt64 and DecodeInt64 are defined outside db/expire.go; they
    are modelled as the 8-byte big-endian two's-complement form of an int64
    (as encoding/binary writes it). What the index relies on is proved
    below: the encoding is 8 bytes wide, DecodeInt64 inverts it (both ways),
    and on non-negative timestamps byte order is numeric order. */
module Codec {
  import opened Bytes

  /** sizeof(int64) */
  const TimestampWidth: nat := 8

  const Two63: int := 0x8000_0000_0000_0000
  const Two64: int := 0x1_0000_0000_0000_0000

  function Pow256(n: nat): (p: nat)
    ensures p > 0
  {
    if n == 0 then 1 else 256 * Pow256(n - 1)
  }

  lemma Pow256Width()
    ensures Pow256(TimestampWidth) == Two64
  {
    assert Pow256(4) == 0x1_0000_0000;
  }

  /** The n low-order base-256 digits of u, most significant first. */
  function BigEndian(u: nat, n: nat): (b: Bytes)
    ensures |b| == n
  {
    if n == 0 then [] else BigEndian(u / 256, n - 1) + [u % 256]
  }

  /** The number whose big-endian digits are b. */
  function FromBigEndian(b: Bytes): (u: nat)
    ensures u < Pow256(|b|)
  {
    if |b| == 0 then 0
    else
      var hi := FromBigEndian(b[..|b| - 1]);
      assert hi * 256 + b[|b| - 1] < Pow256(|b| - 1) * 256 by {
        assert hi <= Pow256(|b| - 1) - 1;
      }
      hi * 256 + b[|b| - 1]
  }

  lemma {:induction false} FromBigEndianInverts(u: nat, n: nat)
    requires u < Pow256(n)
    ensures FromBigEndian(BigEndian(u, n)) == u
  {
    if n > 0 {
      var b := BigEndian(u, n);
      assert b[..n - 1] == BigEndian(u / 256, n - 1);
      assert u / 256 < Pow256(n - 1);
      FromBigEndianInverts(u / 256, n - 1);
      assert u == (u / 256) * 256 + u % 256;
    }
  }

  lemma {:induction false} BigEndianInverts(b: Bytes)
    ensures BigEndian(FromBigEndian(b), |b|) == b
  {
    if |b| > 0 {
      var init := b[..|b| - 1];
      var u := FromBigEndian(b);
      assert u / 256 == FromBigEndian(init) && u % 256 == b[|b| - 1];
      BigEndianInverts(init);
      assert b == init + [b[|b| - 1]];
    }
  }

  /** Below 256^n, numeric order is byte order. */
  lemma {:induction false} BigEndianOrdered(u1: nat, u2: nat, n: nat)
    requires u1 < u2 < Pow256(n)
    ensures LexLess(BigEndian(u1, n), BigEndian(u2, n))
  {
    var q1, q2 := u1 / 256, u2 / 256;
    assert q2 < Pow256(n - 1);
    if q1 < q2 {
      BigEndianOrdered(q1, q2, n - 1);
      LexLessAppend(BigEndian(q1, n - 1), BigEndian(q2, n - 1), [u1 % 256], [u2 % 256]);
    } else {
      assert u1 % 256 < u2 % 256;
      LexLessPrepend(BigEndian(q1, n - 1), [u1 % 256], [u2 % 256]);
    }
  }

  function EncodeInt64(v: int64): (b: Bytes)
    ensures |b| == TimestampWidth
  {
    Pow256Width();
    BigEndian(if v < 0 then v + Two64 else v, TimestampWidth)
  }

  function DecodeInt64(b: Bytes): (v: int64)
    requires |b| == TimestampWidth
  {
    Pow256Width();
    var u := FromBigEndian(b);
    if u >= Two63 then u - Two64 else u
  }

  lemma DecodeEncode(v: int64)
    ensures DecodeInt64(EncodeInt64(v)) == v
  {
    Pow256Width();
    FromBigEndianInverts(if v < 0 then v + Two64 else v, TimestampWidth);
  }

  lemma EncodeDecode(b: Bytes)
    requires |b| == TimestampWidth
    ensures EncodeInt64(DecodeInt64(b)) == b
  {
    BigEndianInverts(b);
  }

  lemma EncodeInjective(v1: int64, v2: int64)
    requires EncodeInt64(v1) == EncodeInt64(v2)
    ensures v1 == v2
  {
    DecodeEncode(v1);
    DecodeEncode(v2);
  }

  /** The order-preserving property that the sweep's early exit relies on,
      for the non-negative timestamps the index holds. */
  lemma EncodeOrdered(v1: int64, v2: int64)
    requires 0 <= v1 < v2
    ensures LexLess(EncodeInt64(v1), EncodeInt64(v2))
  {
    Pow256Width();
    BigEndianOrdered(v1, v2, TimestampWidth);
  }
}
