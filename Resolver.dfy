/** The per-entry resolver (doExpire) and the reclamation request it issues
    (gcDataKey). Resolve states what doExpire does to a transaction; the
    lemmas below state each of its three mutually exclusive branches. */
module Resolver {
  import opened Bytes
  import opened Keys
  import opened Txn

  /** The indexed id compared against the live one: cut to the live id's
      length when longer, kept as it is otherwise. */
  function TruncateId(id: Bytes, liveLen: nat): (r: Bytes)
    ensures |r| <= liveLen && |r| <= |id| && id[..|r|] == r
    ensures |id| <= liveLen ==> r == id
    ensures |id| > liveLen ==> r == id[..liveLen]
  {
    if |id| > liveLen then id[..liveLen] else id
  }

  /** gcDataKey: ask for reclamation of the data of object id. */
  function GcData(s: TxnState, ns: Bytes, dbid: DBID, id: Bytes, env: Env): (r: (Option<Error>, TxnState))
    ensures r.1.view == s.view
    ensures r.0.None? <==> ToTiKVDataKey(ns, dbid, id) !in env.faults.gc
    ensures r.0.Some? ==> r.0 == Some(ErrStore)
    ensures r.1.gcLog == s.gcLog + (if r.0.None? then [ToTiKVDataKey(ns, dbid, id)] else [])
  {
    var dkey := ToTiKVDataKey(ns, dbid, id);
    if dkey in env.faults.gc then (Some(ErrStore), s)
    else (None, s.(gcLog := s.gcLog + [dkey]))
  }

  /** gcDataKey asks for the data of its own object only: no other object,
      of this database or any other, has its data key logged. */
  lemma GcDataReclaimsOnlyItsObject(s: TxnState, ns: Bytes, dbid: DBID, id: Bytes, env: Env,
                                    ns': Bytes, dbid': DBID, other: Bytes)
    requires Colon !in ns && Colon !in ns'
    requires (ns', dbid', other) != (ns, dbid, id)
    ensures ToTiKVDataKey(ns', dbid', other) !in GcData(s, ns, dbid, id, env).1.gcLog[|s.gcLog|..]
  {
    if ToTiKVDataKey(ns', dbid', other) == ToTiKVDataKey(ns, dbid, id) {
      DataKeyInjective(ns', dbid', other, ns, dbid, id);
    }
  }

  /** doExpire on the index entry (mkey, id). */
  function Resolve(s: TxnState, mkey: Bytes, id: Bytes, env: Env): (r: (Option<Error>, TxnState))
    requires SplittableMetaKey(mkey)
    ensures r.1.view == s.view || r.1.view == s.view - {mkey}
    ensures r.1.gcLog == s.gcLog ||
            exists n :: 0 <= n <= |id| && r.1.gcLog == s.gcLog + [DataKeyFor(mkey, id[..n])]
  {
    var (ns, dbid, _) := SplitMetaKey(mkey);
    match GetObject(s.view, mkey, env)
    case Err(ErrKeyNotFound) =>
      assert id[..|id|] == id;
      GcData(s, ns, dbid, id, env)
    case Err(e) => (Some(e), s)
    case Ok(obj) =>
      var indexed := TruncateId(id, |obj.id|);
      if obj.id != indexed then GcData(s, ns, dbid, indexed, env)
      else if mkey in env.faults.delete then (Some(ErrStore), s)
      else
        var deleted := s.(view := s.view - {mkey});
        if obj.objType == ObjectString then (None, deleted)
        else GcData(deleted, ns, dbid, indexed, env)
  }

  /** The data key Resolve reclaims for object id of mkey's database. */
  function DataKeyFor(mkey: Bytes, id: Bytes): (dkey: Bytes)
    requires SplittableMetaKey(mkey)
  {
    var (ns, dbid, _) := SplitMetaKey(mkey);
    ToTiKVDataKey(ns, dbid, id)
  }

  /** Metadata already gone (deleted or flushed): reclaim the data of the
      indexed id, delete nothing. */
  lemma ResolveDeleted(s: TxnState, mkey: Bytes, id: Bytes, env: Env)
    requires SplittableMetaKey(mkey)
    requires mkey !in s.view && mkey !in env.faults.get
    ensures var (err, s') := Resolve(s, mkey, id, env);
            && s'.view == s.view
            && (err.None? <==> DataKeyFor(mkey, id) !in env.faults.gc)
            && s'.gcLog == s.gcLog + (if err.None? then [DataKeyFor(mkey, id)] else [])
  {
  }

  /** Metadata of a newer incarnation: reclaim the data of the indexed
      (old) id, and neither the new object's metadata nor its data is
      touched. */
  lemma ResolveOverwritten(s: TxnState, mkey: Bytes, id: Bytes, env: Env, obj: Object)
    requires SplittableMetaKey(mkey)
    requires GetObject(s.view, mkey, env) == Ok(obj)
    requires TruncateId(id, |obj.id|) != obj.id
    ensures var (err, s') := Resolve(s, mkey, id, env);
            var stale := DataKeyFor(mkey, TruncateId(id, |obj.id|));
            && s'.view == s.view
            && (err.None? <==> stale !in env.faults.gc)
            && s'.gcLog == s.gcLog + (if err.None? then [stale] else [])
            && DataKeyFor(mkey, obj.id) !in s'.gcLog[|s.gcLog|..]
  {
    var (ns, dbid, _) := SplitMetaKey(mkey);
    var stale := TruncateId(id, |obj.id|);
    if ToTiKVDataKey(ns, dbid, obj.id) == ToTiKVDataKey(ns, dbid, stale) {
      DataKeyInjective(ns, dbid, obj.id, ns, dbid, stale);
    }
  }

  /** The live object is the indexed one: its metadata is deleted, and its
      data is reclaimed unless it is a string (stored inline). */
  lemma ResolveCurrent(s: TxnState, mkey: Bytes, id: Bytes, env: Env, obj: Object)
    requires SplittableMetaKey(mkey)
    requires GetObject(s.view, mkey, env) == Ok(obj)
    requires TruncateId(id, |obj.id|) == obj.id
    ensures var (err, s') := Resolve(s, mkey, id, env);
            && (mkey in env.faults.delete ==> err == Some(ErrStore) && s' == s)
            && (mkey !in env.faults.delete ==> s'.view == s.view - {mkey})
            && (mkey !in env.faults.delete && obj.objType == ObjectString ==> err.None? && s'.gcLog == s.gcLog)
            && (mkey !in env.faults.delete && obj.objType != ObjectString ==>
                  (err.None? <==> DataKeyFor(mkey, obj.id) !in env.faults.gc) &&
                  s'.gcLog == s.gcLog + (if err.None? then [DataKeyFor(mkey, obj.id)] else []))
  {
  }

  /** Any other lookup failure is returned with the transaction untouched. */
  lemma ResolveLookupFails(s: TxnState, mkey: Bytes, id: Bytes, env: Env)
    requires SplittableMetaKey(mkey)
    requires GetObject(s.view, mkey, env).Err?
    requires GetObject(s.view, mkey, env).error != ErrKeyNotFound
    ensures Resolve(s, mkey, id, env) == (Some(GetObject(s.view, mkey, env).error), s)
  {
  }

  /** gcDataKey; key is the raw user key, which db/expire.go only logs. */
  method GcDataKey(txn: Transaction, ns: Bytes, dbid: DBID, key: Bytes, id: Bytes) returns (err: Option<Error>)
    modifies txn
    ensures (err, txn.State()) == GcData(old(txn.State()), ns, dbid, id, txn.env)
  {
    var dkey := ToTiKVDataKey(ns, dbid, id);
    err := txn.Gc(dkey);
  }

  /** doExpire */
  method DoExpire(txn: Transaction, mkey: Bytes, id: Bytes) returns (err: Option<Error>)
    requires SplittableMetaKey(mkey)
    modifies txn
    ensures (err, txn.State()) == Resolve(old(txn.State()), mkey, id, txn.env)
  {
    var (ns, dbid, key) := SplitMetaKeyAsWritten(mkey);
    var got := txn.Get(mkey);
    if got == Err(ErrKeyNotFound) {
      err := GcDataKey(txn, ns, dbid, key, id);
      return;
    }
    if got.Err? {
      return Some(got.error);
    }
    var obj := got.value;
    var indexed := id;
    if |indexed| > |obj.id| {
      indexed := indexed[..|obj.id|];
    }
    if obj.id != indexed {
      err := GcDataKey(txn, ns, dbid, key, indexed);
      return;
    }
    err := txn.Delete(mkey);
    if err.Some? {
      return;
    }
    if obj.objType == ObjectString {
      return None;
    }
    err := GcDataKey(txn, ns, dbid, key, indexed);
  }
}
