/** The persisted key layouts of the expiration core:
    - index key:  "$sys:0:at:" ‖ enc8(ts) ‖ ":" ‖ metaKey
    - meta key:   namespace ":" dbid ":M:" rawKey   (consumed here)
    - data key:   namespace ":" dbid ":D:" objectID (produced here)
    The offsets of the timestamp and of the meta key inside an index key are
    derived from the lengths of the prefix, the encoding and the separator. */
module Keys {
  import opened Bytes
  import opened Codec

  const Colon: byte := 58   // ':'
  const LetterM: byte := 77 // 'M'
  const LetterD: byte := 68 // 'D'

  /** "$sys:0:at:" */
  const ExpireKeyPrefix: Bytes := [36, 115, 121, 115, 58, 48, 58, 97, 116, 58]

  const ExpireTimestampOffset: nat := |ExpireKeyPrefix|
  const ExpireMetakeyOffset: nat := ExpireTimestampOffset + TimestampWidth + |[Colon]|

  /** A database id as its 3-byte persisted form (DBID.Bytes()). */
  type DBID = b: Bytes | |b| == 3 witness [48, 48, 48]

  function ToDBID(b: Bytes): (id: DBID)
    requires |b| == 3
  {
    b
  }

  /** expireKey: the index key recording that metaKey expires at ts. */
  function ExpireKey(key: Bytes, ts: int64): (r: Bytes)
    ensures |r| == |ExpireKeyPrefix| + TimestampWidth + 1 + |key|
    ensures HasPrefix(r, ExpireKeyPrefix)
    ensures r[ExpireTimestampOffset..ExpireTimestampOffset + TimestampWidth] == EncodeInt64(ts)
    ensures r[ExpireMetakeyOffset - 1] == Colon
    ensures r[ExpireMetakeyOffset..] == key
  {
    ExpireKeyPrefix + EncodeInt64(ts) + [Colon] + key
  }

  /** Long enough for the sweep's slices: room for the prefix, the 8
      timestamp bytes and the separator (a shorter key makes them panic). */
  predicate Sliceable(k: Bytes) {
    |k| >= ExpireMetakeyOffset
  }

  /** An index key as the range scan returns it. */
  predicate ValidIndexKey(k: Bytes) {
    HasPrefix(k, ExpireKeyPrefix) && Sliceable(k)
  }

  /** DecodeInt64(rawKey[expireTimestampOffset : expireTimestampOffset+8]) */
  function TimestampOf(k: Bytes): (ts: int64)
    requires Sliceable(k)
  {
    DecodeInt64(k[ExpireTimestampOffset..ExpireTimestampOffset + TimestampWidth])
  }

  /** The timestamp an index key carries is the one value whose encoding is
      the 8 bytes at the timestamp offset. */
  lemma TimestampOfDecodes(k: Bytes, ts: int64)
    requires Sliceable(k)
    ensures EncodeInt64(TimestampOf(k)) == k[ExpireTimestampOffset..ExpireTimestampOffset + TimestampWidth]
    ensures EncodeInt64(ts) == k[ExpireTimestampOffset..ExpireTimestampOffset + TimestampWidth] ==> ts == TimestampOf(k)
  {
    EncodeDecode(k[ExpireTimestampOffset..ExpireTimestampOffset + TimestampWidth]);
    if EncodeInt64(ts) == k[ExpireTimestampOffset..ExpireTimestampOffset + TimestampWidth] {
      EncodeInjective(ts, TimestampOf(k));
    }
  }

  /** The meta key an index key was written for: everything after the
      separator, so that the key is its 19-byte head followed by it. */
  function MetaKeyOf(k: Bytes): (mkey: Bytes)
    requires Sliceable(k)
    ensures |mkey| == |k| - ExpireMetakeyOffset
    ensures k == k[..ExpireMetakeyOffset] + mkey
  {
    k[ExpireMetakeyOffset..]
  }

  /** The offsets recover exactly what expireKey put in. */
  lemma ExpireKeyRoundTrip(key: Bytes, ts: int64)
    ensures ValidIndexKey(ExpireKey(key, ts))
    ensures TimestampOf(ExpireKey(key, ts)) == ts
    ensures MetaKeyOf(ExpireKey(key, ts)) == key
  {
    DecodeEncode(ts);
  }

  /** The other direction: a valid index key whose separator byte is ':' is
      the expireKey of its own meta key and timestamp. */
  lemma IndexKeyRebuilt(k: Bytes)
    requires ValidIndexKey(k) && k[ExpireMetakeyOffset - 1] == Colon
    ensures ExpireKey(MetaKeyOf(k), TimestampOf(k)) == k
  {
    var ts := k[ExpireTimestampOffset..ExpireTimestampOffset + TimestampWidth];
    EncodeDecode(ts);
    assert k == k[..ExpireTimestampOffset] + ts + [k[ExpireMetakeyOffset - 1]] + k[ExpireMetakeyOffset..];
  }

  lemma ExpireKeyInjective(k1: Bytes, t1: int64, k2: Bytes, t2: int64)
    requires ExpireKey(k1, t1) == ExpireKey(k2, t2)
    ensures k1 == k2 && t1 == t2
  {
    ExpireKeyRoundTrip(k1, t1);
    ExpireKeyRoundTrip(k2, t2);
  }

  /** Scan order of index keys is timestamp order: for index keys holding
      non-negative timestamps, a key that sorts first never carries the
      later timestamp. */
  lemma IndexKeyOrderIsTimeOrder(a: Bytes, b: Bytes)
    requires ValidIndexKey(a) && ValidIndexKey(b)
    requires TimestampOf(a) >= 0 && TimestampOf(b) >= 0
    requires LexLess(a, b)
    ensures TimestampOf(a) <= TimestampOf(b)
  {
    if TimestampOf(a) > TimestampOf(b) {
      var ea, eb := EncodeInt64(TimestampOf(a)), EncodeInt64(TimestampOf(b));
      var hi := ExpireTimestampOffset + TimestampWidth;
      IndexKeyLayout(a);
      IndexKeyLayout(b);
      EncodeOrdered(TimestampOf(b), TimestampOf(a));
      LexLessAppend(eb, ea, b[hi..], a[hi..]);
      LexLessPrepend(ExpireKeyPrefix, eb + b[hi..], ea + a[hi..]);
      LexLessAsymmetric(b, a);
    }
  }

  /** An index key is the prefix, the encoding of its timestamp, and the
      rest. */
  lemma IndexKeyLayout(k: Bytes)
    requires ValidIndexKey(k)
    ensures k == ExpireKeyPrefix + (EncodeInt64(TimestampOf(k)) + k[ExpireTimestampOffset + TimestampWidth..])
  {
    var lo, hi := ExpireTimestampOffset, ExpireTimestampOffset + TimestampWidth;
    EncodeDecode(k[lo..hi]);
    assert k == k[..lo] + (k[lo..hi] + k[hi..]);
  }

  /** The layout splitMetaKey reads: a ':' and, after it, room for the
      database id and the ":M" marker (otherwise the slices in db/expire.go panic). */
  predicate SplittableMetaKey(key: Bytes) {
    Colon in key && |key| >= IndexOf(key, Colon) + 6
  }

  /** The meta key layout namespace ":" dbid ":M:" rawKey. */
  function MetaKey(ns: Bytes, id: DBID, raw: Bytes): (mkey: Bytes) {
    ns + [Colon] + id + [Colon, LetterM, Colon] + raw
  }

  /** splitMetaKey as written: the raw key is taken from idx+6, where the
      layout has the third ':', so it keeps that separator. */
  function SplitMetaKeyAsWritten(key: Bytes): (r: (Bytes, DBID, Bytes))
    requires SplittableMetaKey(key)
    ensures Colon !in r.0 && |r.0| + 6 <= |key|
    ensures key[..|r.0|] == r.0 && key[|r.0|] == Colon && key[|r.0| + 1..|r.0| + 4] == r.1
    ensures |r.0| + 6 + |r.2| == |key| && key[|r.0| + 6..] == r.2
  {
    var idx := IndexOf(key, Colon);
    (key[..idx], ToDBID(key[idx + 1..idx + 4]), key[idx + 6..])
  }

  lemma SplitMetaKeyAsWrittenKeepsColon(ns: Bytes, id: DBID, raw: Bytes)
    requires Colon !in ns
    ensures SplittableMetaKey(MetaKey(ns, id, raw))
    ensures SplitMetaKeyAsWritten(MetaKey(ns, id, raw)).2 == [Colon] + raw
    ensures SplitMetaKeyAsWritten(MetaKey(ns, id, raw)).2 != raw
  {
    var k := MetaKey(ns, id, raw);
    assert k == ns + [Colon] + (id + [Colon, LetterM, Colon] + raw);
    IndexOfAfter(ns, Colon, id + [Colon, LetterM, Colon] + raw);
    assert k[|ns| + 6..] == [Colon] + raw;
  }

  /** splitMetaKey with the raw key starting after the third ':'. The
      namespace and the database id are those of splitMetaKey as written in db/expire.go. */
  function SplitMetaKey(key: Bytes): (r: (Bytes, DBID, Bytes))
    requires SplittableMetaKey(key)
    ensures Colon !in r.0
    ensures |r.0| + 6 <= |key|
    ensures key[..|r.0|] == r.0 && key[|r.0|] == Colon && key[|r.0| + 1..|r.0| + 4] == r.1
    ensures r.0 == SplitMetaKeyAsWritten(key).0 && r.1 == SplitMetaKeyAsWritten(key).1
  {
    var idx := IndexOf(key, Colon);
    (key[..idx], ToDBID(key[idx + 1..idx + 4]), if |key| == idx + 6 then [] else key[idx + 7..])
  }

  /** The documented meta key layout: after the namespace and the 3-byte
      database id come ':', 'M' and ':'. */
  predicate IsMetaKey(key: Bytes) {
    SplittableMetaKey(key)
    && var idx := IndexOf(key, Colon);
       |key| >= idx + 7 && key[idx + 4] == Colon && key[idx + 5] == LetterM && key[idx + 6] == Colon
  }

  lemma MetaKeyLayout(ns: Bytes, id: DBID, raw: Bytes)
    requires Colon !in ns
    ensures IsMetaKey(MetaKey(ns, id, raw))
  {
    var k := MetaKey(ns, id, raw);
    assert k == ns + [Colon] + (id + [Colon, LetterM, Colon] + raw);
    IndexOfAfter(ns, Colon, id + [Colon, LetterM, Colon] + raw);
  }

  /** A meta key is never an index key: its first ':' would have to be the
      one at byte 4 of "$sys:0:at:", which puts the ':' that follows the
      database id at byte 8, where the prefix has 't'. */
  lemma MetaKeyIsNotIndexKey(key: Bytes)
    requires IsMetaKey(key)
    ensures !HasPrefix(key, ExpireKeyPrefix)
  {
    var idx := IndexOf(key, Colon);
    if |key| >= |ExpireKeyPrefix| {
      var head := key[..|ExpireKeyPrefix|];
      if idx < 4 {
        assert head[idx] != ExpireKeyPrefix[idx];
      } else if idx == 4 {
        assert head[8] != ExpireKeyPrefix[8];
      } else {
        assert key[..idx][4] != Colon;
        assert head[4] != ExpireKeyPrefix[4];
      }
    }
  }

  lemma SplitMetaKeyRoundTrip(ns: Bytes, id: DBID, raw: Bytes)
    requires Colon !in ns
    ensures SplittableMetaKey(MetaKey(ns, id, raw))
    ensures SplitMetaKey(MetaKey(ns, id, raw)) == (ns, id, raw)
  {
    var k := MetaKey(ns, id, raw);
    assert k == ns + [Colon] + (id + [Colon, LetterM, Colon] + raw);
    IndexOfAfter(ns, Colon, id + [Colon, LetterM, Colon] + raw);
    assert k[..|ns|] == ns;
    assert k[|ns| + 1..|ns| + 4] == id;
    assert k[|ns| + 7..] == raw;
  }

  /** toTiKVDataKey: where the out-of-line data of object `key` lives. */
  function ToTiKVDataKey(ns: Bytes, id: DBID, key: Bytes): (r: Bytes)
    ensures |r| == |ns| + 7 + |key|
    ensures r[..|ns|] == ns && r[|ns|] == Colon && r[|ns| + 1..|ns| + 4] == id
    ensures r[|ns| + 4..|ns| + 7] == [Colon, LetterD, Colon] && r[|ns| + 7..] == key
  {
    ns + [Colon] + id + [Colon, LetterD, Colon] + key
  }

  /** A data key belongs to one (namespace, database, object id) only. */
  lemma DataKeyInjective(ns1: Bytes, id1: DBID, o1: Bytes, ns2: Bytes, id2: DBID, o2: Bytes)
    requires Colon !in ns1 && Colon !in ns2
    requires ToTiKVDataKey(ns1, id1, o1) == ToTiKVDataKey(ns2, id2, o2)
    ensures ns1 == ns2 && id1 == id2 && o1 == o2
  {
    var k := ToTiKVDataKey(ns1, id1, o1);
    assert k == ns1 + [Colon] + (id1 + [Colon, LetterD, Colon] + o1);
    assert k == ns2 + [Colon] + (id2 + [Colon, LetterD, Colon] + o2);
    IndexOfAfter(ns1, Colon, id1 + [Colon, LetterD, Colon] + o1);
    IndexOfAfter(ns2, Colon, id2 + [Colon, LetterD, Colon] + o2);
    assert ns1 == k[..|ns1|] == ns2;
    assert id1 == k[|ns1| + 1..|ns1| + 4] == id2;
    assert o1 == k[|ns1| + 7..] == o2;
  }

  /** The data key of an object sits beside its meta key: same namespace
      and database id, marker D instead of M. */
  lemma DataKeyOfMetaKey(ns: Bytes, id: DBID, raw: Bytes, obj: Bytes)
    requires Colon !in ns
    ensures SplittableMetaKey(MetaKey(ns, id, raw))
    ensures var (ns', id', _) := SplitMetaKey(MetaKey(ns, id, raw));
            ToTiKVDataKey(ns', id', obj) == ns + [Colon] + id + [Colon, LetterD, Colon] + obj
  {
    SplitMetaKeyRoundTrip(ns, id, raw);
  }
}
