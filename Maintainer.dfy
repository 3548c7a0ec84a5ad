/** The index maintainer: IsExpired, and the two operations that keep the
    expiration index in step with an object's ExpireAt inside the caller's
    transaction (expireAt, unExpireAt). The metric db/expire.go increments
    is returned as the action label instead. */
module Maintainer {
  import opened Bytes
  import opened Keys
  import opened Txn

  /** IsExpired: an ExpireAt of 0 never expires; otherwise the object is
      expired once now has reached ExpireAt. */
  predicate IsExpired(obj: Object, now: int64): (r: bool)
    ensures !r <==> obj.expireAt == 0 || obj.expireAt > now
    ensures r ==> obj.expireAt <= now
  {
    !(obj.expireAt == 0 || obj.expireAt > now)
  }

  /** Expiry is permanent: once expired, an object stays expired as time
      advances, and one with ExpireAt 0 is never expired. */
  lemma IsExpiredStable(obj: Object, now: int64, later: int64)
    requires now <= later
    ensures IsExpired(obj, now) ==> IsExpired(obj, later)
    ensures obj.expireAt == 0 ==> !IsExpired(obj, later)
  {
  }

  /** The counter label of the ExpireKeysTotal metric. */
  datatype Action = Added | Removed | Updated

  function ExpireAction(oldAt: int64, newAt: int64): (action: Option<Action>) {
    if oldAt > 0 && newAt > 0 then Some(Updated)
    else if oldAt > 0 then Some(Removed)
    else if newAt > 0 then Some(Added)
    else None
  }

  /** The view after expireAt's delete of the old entry and set of the new
      one, in that order. */
  function IndexUpdate(view: map<Bytes, Bytes>, mkey: Bytes, objID: Bytes, oldAt: int64, newAt: int64): (r: map<Bytes, Bytes>)
    ensures r.Keys <= view.Keys + {ExpireKey(mkey, newAt)}
    ensures newAt > 0 ==> ExpireKey(mkey, newAt) in r && r[ExpireKey(mkey, newAt)] == objID
    ensures newAt <= 0 ==> r.Keys <= view.Keys
  {
    var afterDelete := if oldAt > 0 then view - {ExpireKey(mkey, oldAt)} else view;
    if newAt > 0 then afterDelete[ExpireKey(mkey, newAt) := objID] else afterDelete
  }

  /** expireAt touches only the new index key and, when oldAt is positive,
      the old one: the old entry is gone unless it is also the new one, the
      new entry maps to the object id, and with both timestamps 0 nothing
      changes. */
  lemma IndexUpdateEffect(view: map<Bytes, Bytes>, mkey: Bytes, objID: Bytes, oldAt: int64, newAt: int64)
    ensures var r := IndexUpdate(view, mkey, objID, oldAt, newAt);
            var oldKey, newKey := ExpireKey(mkey, oldAt), ExpireKey(mkey, newAt);
            && (forall k :: k != newKey && (oldAt <= 0 || k != oldKey) ==> (k in r <==> k in view))
            && (forall k :: k != newKey && (oldAt <= 0 || k != oldKey) && k in view ==> r[k] == view[k])
            && (oldAt > 0 && oldAt != newAt ==> oldKey !in r)
            && (newAt > 0 ==> newKey in r && r[newKey] == objID)
            && (oldAt <= 0 && newAt <= 0 ==> r == view)
  {
    if oldAt > 0 && oldAt != newAt {
      if ExpireKey(mkey, oldAt) == ExpireKey(mkey, newAt) {
        ExpireKeyInjective(mkey, oldAt, mkey, newAt);
      }
    }
  }

  /** The label is emitted exactly when expireAt can change the index:
      without a label every view is left as it was, and with one some view
      is changed. */
  lemma ExpireActionMeansChange(mkey: Bytes, objID: Bytes, oldAt: int64, newAt: int64)
    ensures ExpireAction(oldAt, newAt).Some? <==>
            exists view :: IndexUpdate(view, mkey, objID, oldAt, newAt) != view
    ensures ExpireAction(oldAt, newAt) == Some(Updated) <==> oldAt > 0 && newAt > 0
    ensures ExpireAction(oldAt, newAt) == Some(Removed) <==> oldAt > 0 && newAt <= 0
    ensures ExpireAction(oldAt, newAt) == Some(Added) <==> oldAt <= 0 && newAt > 0
  {
    var oldKey, newKey := ExpireKey(mkey, oldAt), ExpireKey(mkey, newAt);
    if newAt > 0 {
      var empty: map<Bytes, Bytes> := map[];
      assert newKey in IndexUpdate(empty, mkey, objID, oldAt, newAt);
    } else if oldAt > 0 {
      var one := map[oldKey := objID];
      assert oldKey !in IndexUpdate(one, mkey, objID, oldAt, newAt);
    } else {
      forall view ensures IndexUpdate(view, mkey, objID, oldAt, newAt) == view {
      }
    }
  }

  /** expireAt: move the object's index entry from oldAt to newAt. A failed
      Delete leaves the view as it was; a failed Set leaves the old entry
      already deleted. */
  method ExpireAt(txn: Transaction, mkey: Bytes, objID: Bytes, objType: ObjectType, oldAt: int64, newAt: int64)
    returns (err: Option<Error>, action: Option<Action>)
    modifies txn
    ensures txn.gcLog == old(txn.gcLog)
    ensures var deleteFails := oldAt > 0 && ExpireKey(mkey, oldAt) in txn.env.faults.delete;
            var setFails := newAt > 0 && ExpireKey(mkey, newAt) in txn.env.faults.put;
            && (err.Some? <==> deleteFails || setFails)
            && (err.None? ==> txn.view == IndexUpdate(old(txn.view), mkey, objID, oldAt, newAt))
            && (err.None? ==> action == ExpireAction(oldAt, newAt))
            && (err.Some? ==> action == None)
            && (deleteFails ==> txn.view == old(txn.view))
            && (!deleteFails && setFails ==> txn.view == IndexUpdate(old(txn.view), mkey, objID, oldAt, 0))
  {
    var oldKey := ExpireKey(mkey, oldAt);
    var newKey := ExpireKey(mkey, newAt);
    action := None;
    if oldAt > 0 {
      err := txn.Delete(oldKey);
      if err.Some? {
        return;
      }
    }
    if newAt > 0 {
      err := txn.Set(newKey, objID);
      if err.Some? {
        return;
      }
    }
    err := None;
    if oldAt > 0 && newAt > 0 {
      action := Some(Updated);
    } else if oldAt > 0 {
      action := Some(Removed);
    } else if newAt > 0 {
      action := Some(Added);
    }
  }

  /** The view after unExpireAt: the entry for expireAt is gone, unless
      expireAt is 0 (a negative value is not skipped). */
  function IndexRemove(view: map<Bytes, Bytes>, mkey: Bytes, expireAt: int64): (r: map<Bytes, Bytes>)
    ensures expireAt != 0 ==> ExpireKey(mkey, expireAt) !in r
    ensures forall k :: k in r <==> k in view && (expireAt == 0 || k != ExpireKey(mkey, expireAt))
    ensures forall k :: k in r ==> r[k] == view[k]
  {
    if expireAt == 0 then view else view - {ExpireKey(mkey, expireAt)}
  }

  /** unExpireAt undoes the entry expireAt added: on a view without that
      entry, adding it and removing it again gives back the view. */
  lemma UnExpireAtUndoesExpireAt(view: map<Bytes, Bytes>, mkey: Bytes, objID: Bytes, newAt: int64)
    requires newAt > 0 && ExpireKey(mkey, newAt) !in view
    ensures IndexRemove(IndexUpdate(view, mkey, objID, 0, newAt), mkey, newAt) == view
  {
    var k := ExpireKey(mkey, newAt);
    assert view[k := objID] - {k} == view;
  }

  /** unExpireAt: drop the object's index entry when it is deleted outright. */
  method UnExpireAt(txn: Transaction, mkey: Bytes, expireAt: int64)
    returns (err: Option<Error>, action: Option<Action>)
    modifies txn
    ensures txn.gcLog == old(txn.gcLog)
    ensures err.Some? <==> expireAt != 0 && ExpireKey(mkey, expireAt) in txn.env.faults.delete
    ensures txn.view == (if err.None? then IndexRemove(old(txn.view), mkey, expireAt) else old(txn.view))
    ensures action == (if err.None? && expireAt != 0 then Some(Removed) else None)
  {
    action := None;
    if expireAt == 0 {
      return None, None;
    }
    var oldKey := ExpireKey(mkey, expireAt);
    err := txn.Delete(oldKey);
    if err.Some? {
      return;
    }
    action := Some(Removed);
  }
}
