# Expiration (TTL) core of titan, in Dafny

titan is a Redis-protocol server that stores its objects in TiKV. An object
with a time to live has an `ExpireAt` timestamp in its metadata and an entry
in an expiration index. That index is a range of system keys:

    "$sys:0:at:" ‖ enc8(ExpireAt) ‖ ":" ‖ metaKey   ↦   object id

Because the timestamp is encoded as 8 big-endian bytes, the index sorts by
time. The code in `db/expire.go` does four things with it:

- it keeps the index in step with an object's `ExpireAt` inside the caller's
  transaction (`expireAt`, `unExpireAt`);
- it decides whether an object is expired (`IsExpired`);
- it sweeps the index (`runExpire`). One transaction walks the index in key
  order. It stops at the first entry not yet due or after `batchLimit`
  entries. It resolves each due entry (`doExpire`), deletes the entry, and
  commits everything or nothing;
- it resolves one entry (`doExpire`). If the object's metadata is gone, it
  asks for reclamation of the indexed object's data. If the metadata belongs
  to a newer incarnation of the key, it reclaims the old incarnation's data
  and leaves the new object alone. Otherwise it deletes the metadata and,
  except for strings, reclaims the data (`gcDataKey`).

The modules follow those pieces:

- `Bytes`: byte strings, `bytes.Index` and the unsigned lexicographic order
  of keys.
- `Codec`: the 8-byte timestamp encoding.
- `Keys`: the index key, meta key and data key layouts.
- `Txn`: a transaction, as a `Transaction` class. Its fields are the view of
  the store (snapshot plus buffered writes, a `map`) and the reclamation
  requests it has issued (a `seq`). It also has a `Store` class that a
  commit updates. Store calls fail as a `Faults` record says, so every error
  path can be stated.
- `Maintainer`: `IsExpired`, `expireAt`, `unExpireAt`.
- `Resolver`: `doExpire` and `gcDataKey`. The function `Resolve` specifies
  what `doExpire` does to a transaction, and one lemma per branch states the
  three mutually exclusive outcomes.
- `Sweeper`: `runExpire`. `Pass` is the loop over a per-entry step, and its
  lemmas use only what a successful step keeps. `Process` is the step
  `runExpire` takes: `doExpire`, then the `Delete` of the entry, then
  `Next`. `Sweep` is the pass those steps make. The methods `ExpireLoop` and
  `RunExpire` are the imperative loop and its transaction handling. They are
  proved to end in the state `Sweep` gives: applied on commit, dropped on any
  failure.

The clock is a parameter (`now`). The index range the iterator returns is a
parameter too: `entries`, the sorted `(key, value)` pairs that carry the
index prefix.

## Model

| member | source | states |
|---|---|---|
| `Bytes.IndexOf` | db/expire.go:126 | the position of the first ':' (or -1 when there is none): the byte there is ':' and none comes before it |
| `Codec.EncodeInt64` | db/expire.go:21 | the timestamp encoding is 8 bytes wide, the width the offsets assume |
| `Codec.DecodeEncode` | db/expire.go:165 | decoding the 8 timestamp bytes gives back the timestamp that was encoded |
| `Codec.EncodeDecode` | db/expire.go:165 | every 8-byte string is the encoding of what it decodes to |
| `Codec.EncodeInjective` | db/expire.go:32-43 | distinct timestamps have distinct encodings |
| `Codec.EncodeOrdered` | db/expire.go:166-170 | on non-negative timestamps, byte order of the encodings is numeric order (what the early break relies on) |
| `Keys.TimestampOfDecodes` | db/expire.go:165 | the timestamp read from an index key is the one value whose encoding is the 8 bytes at the timestamp offset |
| `Keys.MetaKeyOf` | db/expire.go:172 | the meta key is all of the index key after its 19-byte head (prefix, timestamp, ':'), so the key is that head followed by it |
| `Keys.ExpireKey` | db/expire.go:32-43 | the index key is `len(prefix)+8+1+len(key)` bytes: the prefix, the encoded timestamp at the timestamp offset, ':' before the meta key offset, and the meta key as suffix |
| `Keys.ExpireKeyRoundTrip` | db/expire.go:15-22 | the two offsets recover exactly the timestamp and the meta key that expireKey put in |
| `Keys.IndexKeyRebuilt` | db/expire.go:19-21 | conversely, an index key with ':' at the separator is the expireKey of its own meta key and timestamp |
| `Keys.ExpireKeyInjective` | db/expire.go:32-43 | an index key belongs to one (meta key, timestamp) pair only |
| `Keys.IndexKeyOrderIsTimeOrder` | db/expire.go:163-170 | for index keys with non-negative timestamps, scan order is timestamp order |
| `Keys.SplitMetaKeyAsWritten` | db/expire.go:124-131 | as written: the namespace is the bytes before the first ':' and holds none, the database id is the 3 bytes after it, and the raw key is everything from 6 bytes past that ':' |
| `Keys.SplitMetaKey` | db/expire.go:124-131 | the namespace is the bytes before the first ':' (so holds no ':'), and the database id is the 3 bytes after it |
| `Keys.SplitMetaKeyRoundTrip` | db/expire.go:124-131 | on the documented layout `ns:iii:M:key` (ns without ':'), the corrected split returns exactly ns, iii and key |
| `Keys.SplitMetaKeyAsWrittenKeepsColon` | db/expire.go:129 | as written, the raw key of `ns:iii:M:key` is `":" + key`, never `key` |
| `Keys.MetaKeyLayout` | db/expire.go:124 | every key of the documented layout `ns:iii:M:key` (ns without ':') has the meta key shape `IsMetaKey` describes |
| `Keys.MetaKeyIsNotIndexKey` | db/expire.go:16-20 | a key of the meta key shape never starts with "$sys:0:at:", so no meta key is also an index key |
| `Keys.ToTiKVDataKey` | db/expire.go:133-141 | the data key is ns, ':', the 3-byte id, ":D:", then the object id, each at its fixed position |
| `Keys.DataKeyInjective` | db/expire.go:133-141 | a data key belongs to one (namespace, database, object id) only |
| `Keys.DataKeyOfMetaKey` | db/expire.go:238 | the data key doExpire reclaims sits beside the meta key: same namespace and id, "D" for "M" |
| `Txn.GetObject` | db/expire.go:239-246 | the lookup fails with not-found exactly when the meta key is absent and the read does not fail, and yields the decoded object exactly when it is present and decodes |
| `Maintainer.IsExpired` | db/expire.go:25-30 | an object is not expired exactly when its ExpireAt is 0 or still after now |
| `Maintainer.IsExpiredStable` | db/expire.go:25-30 | once expired an object stays expired as time advances, and an ExpireAt of 0 never expires |
| `Maintainer.IndexUpdate` | db/expire.go:56-66 | after expireAt's delete and set, a positive new timestamp's index key maps to the object id, and no key is added besides it |
| `Maintainer.IndexUpdateEffect` | db/expire.go:56-66 | expireAt touches only the new index key and, when oldAt > 0, the old one: old entry gone unless it is the new one, new entry maps to the object id, every other key (including the old key when oldAt <= 0) keeps its value, both 0 changes nothing |
| `Maintainer.ExpireActionMeansChange` | db/expire.go:67-77 | the label is updated/removed/added exactly as the signs of the two timestamps say, and there is a label exactly when some index can change |
| `Maintainer.ExpireAt` | db/expire.go:45-79 | on success the view is the index update and the label is returned; a failed Delete leaves the view, a failed Set leaves the old entry deleted; the log is untouched |
| `Maintainer.IndexRemove` | db/expire.go:81-91 | unExpireAt's delete: for an ExpireAt other than 0 its index key is absent afterwards, and every other key and its value is kept |
| `Maintainer.UnExpireAtUndoesExpireAt` | db/expire.go:81-96 | removing the entry expireAt added gives back the view it started from |
| `Maintainer.UnExpireAt` | db/expire.go:81-96 | a no-op for ExpireAt 0; otherwise it removes exactly that object's index entry, or fails leaving the view |
| `Resolver.TruncateId` | db/expire.go:247-250 | when longer than the live id, the indexed id is cut to exactly its first len(live id) bytes; otherwise it is kept whole |
| `Resolver.GcData` | db/expire.go:221-236 | gcDataKey leaves the view alone; it fails with a store error exactly when gc fails on the data key, and otherwise appends exactly that data key to the log |
| `Resolver.GcDataReclaimsOnlyItsObject` | db/expire.go:221-222 | the data key gcDataKey logs belongs to no other (namespace, database, object id) |
| `Resolver.Resolve` | db/expire.go:237-270 | doExpire deletes at most the meta key and appends at most one data key, for a prefix of the indexed id |
| `Resolver.ResolveDeleted` | db/expire.go:240-243 | metadata missing: the indexed id's data key is reclaimed and no metadata is deleted |
| `Resolver.ResolveLookupFails` | db/expire.go:244-246 | any other lookup error is returned and the transaction is untouched |
| `Resolver.ResolveOverwritten` | db/expire.go:247-253 | stored id differs: the truncated indexed id's data is reclaimed, the view is untouched, and the live object's data key is never reclaimed |
| `Resolver.ResolveCurrent` | db/expire.go:255-269 | ids match: the meta key is deleted, and the data is reclaimed only for a non-string type; a failed Delete changes nothing |
| `Resolver.GcDataKey` | db/expire.go:221-236 | gcDataKey appends the data key of the object id to the log, or fails leaving it |
| `Resolver.DoExpire` | db/expire.go:237-270 | the method ends with the error and the state Resolve gives |
| `Sweeper.DueCount` | db/expire.go:163-171 | a pass processes at most max(batchLimit, 0) entries, all due, and stops before the first entry not yet due |
| `Sweeper.Process` | db/expire.go:172-203 | one step of the loop resolves the entry first (doExpire on its meta key and object id): a resolution error is the step's error and state; on success the state is the resolved one minus the index entry. It never adds a key, and a Delete or Next fault fails it |
| `Sweeper.ProcessKeeps` | db/expire.go:172-203 | a successful step deletes the index entry, deletes at most its meta key besides, and only appends to the log, and only data keys of a prefix of the entry's object id in its meta key's database |
| `Sweeper.ProcessEntry` | db/expire.go:172-203 | the loop body ends with the error and state of Process (doExpire, Delete, Next) |
| `Sweeper.Pass` | db/expire.go:163-205 | the loop fails only after it has stepped on a first entry that is due and within the batch limit |
| `Sweeper.Sweep` | db/expire.go:163-205 | a pass with nothing due changes nothing, and a pass that fails has processed at least one due entry |
| `Sweeper.PassDeletesProcessed` | db/expire.go:180-189 | a successful pass removes every index entry it processes and adds no key |
| `Sweeper.PassFrame` | db/expire.go:163-205 | a successful pass changes no key other than the processed index entries and their meta keys |
| `Sweeper.PassLogGrows` | db/expire.go:163-205 | a successful pass only appends reclamation requests |
| `Sweeper.PassReclaimsOnlyProcessed` | db/expire.go:163-205 | every request a successful pass appends is one the resolution of one of its processed entries may issue |
| `Sweeper.SweepEffect` | db/expire.go:163-205 | the three facts above for runExpire's own step |
| `Sweeper.SweepReclaimsOnlyProcessed` | db/expire.go:172-178 | every reclamation request a successful runExpire pass appends is the data key of a prefix of the object id of an entry it processed, in the database of that entry's meta key |
| `Sweeper.SweepOneDue` | db/expire.go:163-205 | a successful pass that processes one entry ends in the state doExpire leaves on it (metadata deleted and data reclaimed, stale data reclaimed, per the Resolve lemmas), with that index entry deleted |
| `Sweeper.SweepStopsAtFirstNotDue` | db/expire.go:163-171 | on a sorted index of non-negative timestamps, a pass that stops before its limit leaves no due entry behind |
| `Sweeper.SweepLeavesRestUntouched` | db/expire.go:166-170 | the entries a successful pass does not reach are left as they were |
| `Sweeper.DueIffExpired` | db/expire.go:165-166 | an index entry is due exactly when IsExpired holds of the object it was written for |
| `Sweeper.ExpireLoop` | db/expire.go:160-205 | the loop ends with the error and the transaction state Sweep gives |
| `Sweeper.RunExpire` | db/expire.go:143-219 | a failed Begin, Iter, step or Commit leaves the store as it was; otherwise the store holds the pass's view and gains its reclamation requests |

## Left out

- `StartExpire` and `isLeader` (db/expire.go:99-122): a wall-clock ticker and a distributed leader lease. Concurrency is their point. A tick that is disabled or not the leader calls nothing.
- Logging and metrics (zap, `ExpireKeysTotal`): they are a side channel. `ExpireAt` and `UnExpireAt` return the counter label instead of incrementing it. The "expired" counter is added `batchLimit - limit` even after a failed commit (db/expire.go:207-218); it is not modelled.
- `store.SetOption` priority and `kv.Key.PrefixNext`: TiKV/TiDB calls. The iterator's range is the `entries` parameter: exactly the sorted index entries carrying the prefix, fixed when the pass starts.
- `time.Now()`: the clock is the parameter `now`.
- `EncodeInt64` and `DecodeInt64` are defined outside db/expire.go and not modelled here as code. They are modelled as the 8-byte big-endian two's-complement form, and `EncodeInt64` never fails, so the error returns of `expireKey`, `expireAt` and `unExpireAt` on encoding are not modelled.
- `getObject` is defined outside db/expire.go and not modelled here as code. It is modelled by the presence of the meta key, a failure set for reads, and a `decode` function that may refuse the bytes.
- `gc` is defined outside db/expire.go and not modelled here as code. It is modelled as appending the data key to the transaction's reclamation log, or failing on listed keys.
- `toDBID`, `DBID.Bytes` and `UUID` are defined outside db/expire.go and not modelled here. A database id is modelled by its 3-byte form: the model assumes that `DBID.Bytes()` returns exactly the 3 bytes `toDBID` parsed. `Keys.DataKeyOfMetaKey` relies on this assumption.
- The store's transaction package is defined outside db/expire.go and not modelled here as code. Commit applies the view and the log to `Store`; rollback drops them. Replicas, conflicts and rollback errors (only logged) are not modelled.
- Malformed keys, on which the Go slices panic, are excluded by preconditions: `Keys.Sliceable` for index keys and `Keys.SplittableMetaKey` for meta keys.
- Sweeper.ExpireLoop: requires every entry of the index range to be well formed, whether or not the loop reaches it. runExpire only slices the entries it reaches, so an unreached malformed entry would not panic in Go; the model does not cover a range holding such an entry.
- Sweeper.RunExpire: requires every entry of the index range to be well formed, reached or not, for the same reason as ExpireLoop; a range holding an unreached malformed entry is not covered.
- Sweeper.Sweep: requires every entry to be well formed, reached or not, since each step is defined only on well-formed entries; Go needs this only of the entries the pass reaches.
- Resolver.DoExpire: it splits the meta key as written (db/expire.go:238), but the specification `Resolver.Resolve` uses the corrected `Keys.SplitMetaKey`. The two splits agree on the namespace and the database id, and the raw key only reaches gcDataKey's logging, so no state differs.
- fake.go: an unrelated, non-compiling stub with no expiration logic.
- Keys.IndexKeyOrderIsTimeOrder: holds only for non-negative timestamps, since two's-complement bytes sort negative values last; `expireAt` only writes index entries with a timestamp above 0.
- Sweeper.SweepStopsAtFirstNotDue: assumes non-negative timestamps, for the same reason.
- Sweeper.SweepLeavesRestUntouched: assumes every meta key has the documented layout (`Keys.IsMetaKey`). Such a key never carries the index prefix (`Keys.MetaKeyIsNotIndexKey`). A meta key that did could let resolving one entry delete a later index entry.

## Findings

| source | as written | input that shows it | evidently intended | confidence | as-written member | corrected member |
|---|---|---|---|---|---|---|
| db/expire.go:129 | `rawkey := key[idx+6:]` starts at the third ':' of `{namespace}:{id}:M:{key}` | meta key `ns:000:M:k` gives raw key `:k` | `key[idx+7:]`, giving `k` (the raw key is only logged) | not executed | `Keys.SplitMetaKeyAsWrittenKeepsColon` | `Keys.SplitMetaKeyRoundTrip` |
