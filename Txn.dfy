/** The transactional store as the expiration core uses it: a transaction
    is its view of the store (the snapshot plus its own buffered writes) and
    the reclamation requests it has issued; committing applies both,
    rolling back drops both. Which store calls fail is fixed in advance by
    a Faults record, so that every error path can be stated. */
module Txn {
  import opened Bytes

  datatype Option<T> = None | Some(value: T)

  datatype Error = ErrKeyNotFound | ErrStore | ErrDecode

  datatype Result<T> = Ok(value: T) | Err(error: Error)

  datatype ObjectType = ObjectString | ObjectList | ObjectHash | ObjectSet | ObjectZSet

  /** The metadata fields of a stored object that expiration reads. An
      ExpireAt of 0 means the object never expires. */
  datatype Object = Object(id: Bytes, objType: ObjectType, expireAt: int64)

  /** The store calls that fail: Get, Set, Delete and gc on the keys listed,
      iterator Next right after the listed index keys, and Begin, Iter and
      Commit when their flag is set. */
  datatype Faults = Faults(
    begin: bool, iter: bool, commit: bool,
    get: set<Bytes>, put: set<Bytes>, delete: set<Bytes>, gc: set<Bytes>, next: set<Bytes>)

  /** The environment of one pass: its faults, and how stored metadata
      bytes decode into an object (None when they do not decode). */
  datatype Env = Env(faults: Faults, decode: Bytes -> Option<Object>)

  datatype TxnState = TxnState(view: map<Bytes, Bytes>, gcLog: seq<Bytes>)

  /** getObject: the metadata at mkey, ErrKeyNotFound when there is none. */
  function GetObject(view: map<Bytes, Bytes>, mkey: Bytes, env: Env): (r: Result<Object>)
    ensures r == Err(ErrKeyNotFound) <==> mkey !in env.faults.get && mkey !in view
    ensures r.Ok? <==> mkey !in env.faults.get && mkey in view && env.decode(view[mkey]).Some?
    ensures r.Ok? ==> env.decode(view[mkey]) == Some(r.value)
  {
    if mkey in env.faults.get then Err(ErrStore)
    else if mkey !in view then Err(ErrKeyNotFound)
    else match env.decode(view[mkey])
      case None => Err(ErrDecode)
      case Some(obj) => Ok(obj)
  }

  class Transaction {
    var view: map<Bytes, Bytes>
    var gcLog: seq<Bytes>
    const env: Env

    /** db.Begin(): a transaction over a snapshot of the store. */
    constructor (snapshot: map<Bytes, Bytes>, env: Env)
      ensures view == snapshot && gcLog == [] && this.env == env
    {
      view := snapshot;
      gcLog := [];
      this.env := env;
    }

    function State(): TxnState
      reads this
    {
      TxnState(view, gcLog)
    }

    method Set(k: Bytes, v: Bytes) returns (err: Option<Error>)
      modifies this
      ensures err == (if k in env.faults.put then Some(ErrStore) else None)
      ensures view == (if err.None? then old(view)[k := v] else old(view))
      ensures gcLog == old(gcLog)
    {
      if k in env.faults.put {
        return Some(ErrStore);
      }
      view := view[k := v];
      return None;
    }

    method Delete(k: Bytes) returns (err: Option<Error>)
      modifies this
      ensures err == (if k in env.faults.delete then Some(ErrStore) else None)
      ensures view == (if err.None? then old(view) - {k} else old(view))
      ensures gcLog == old(gcLog)
    {
      if k in env.faults.delete {
        return Some(ErrStore);
      }
      view := view - {k};
      return None;
    }

    method Get(mkey: Bytes) returns (r: Result<Object>)
      ensures r == GetObject(view, mkey, env)
    {
      r := GetObject(view, mkey, env);
    }

    /** gc: ask for the data at dkey to be reclaimed when this commits. */
    method Gc(dkey: Bytes) returns (err: Option<Error>)
      modifies this
      ensures err == (if dkey in env.faults.gc then Some(ErrStore) else None)
      ensures gcLog == (if err.None? then old(gcLog) + [dkey] else old(gcLog))
      ensures view == old(view)
    {
      if dkey in env.faults.gc {
        return Some(ErrStore);
      }
      gcLog := gcLog + [dkey];
      return None;
    }
  }

  /** The committed state: the key-value data and the reclamation requests
      that committed transactions have issued. */
  class Store {
    var data: map<Bytes, Bytes>
    var gcRequests: seq<Bytes>

    constructor (data: map<Bytes, Bytes>)
      ensures this.data == data && gcRequests == []
    {
      this.data := data;
      gcRequests := [];
    }
  }
}
