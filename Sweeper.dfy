/** The sweep executor (runExpire): one transaction walks the index in key
    order, resolves each due entry, deletes it, and commits everything or
    nothing. Pass is the loop over any per-entry step, and its lemmas use
    only what a successful step keeps; Process is the step runExpire takes
    and Sweep the pass it makes. ExpireLoop and RunExpire are the method,
    proved to end in the state Sweep gives. */
module Sweeper {
  import opened Bytes
  import opened Codec
  import opened Keys
  import opened Txn
  import opened Maintainer
  import opened Resolver

  /** One (key, value) pair of the index range: the value is the object id
      recorded when the entry was written. */
  datatype Entry = Entry(key: Bytes, value: Bytes)

  /** An index entry the sweep can slice and split without panicking. */
  predicate EntryWellFormed(e: Entry) {
    Sliceable(e.key) && SplittableMetaKey(MetaKeyOf(e.key))
  }

  predicate WellFormed(entries: seq<Entry>) {
    forall i :: 0 <= i < |entries| ==> EntryWellFormed(entries[i])
  }

  predicate AllSliceable(entries: seq<Entry>) {
    forall i :: 0 <= i < |entries| ==> Sliceable(entries[i].key)
  }

  /** Keys strictly ascending, as the range scan returns them. */
  predicate SortedByKey(entries: seq<Entry>) {
    forall i, j :: 0 <= i < j < |entries| ==> LexLess(entries[i].key, entries[j].key)
  }

  /** entries is exactly the index range of data, in scan order. */
  predicate IndexRange(data: map<Bytes, Bytes>, entries: seq<Entry>) {
    && SortedByKey(entries)
    && (forall i :: 0 <= i < |entries| ==>
          HasPrefix(entries[i].key, ExpireKeyPrefix) &&
          entries[i].key in data && data[entries[i].key] == entries[i].value)
    && (forall k :: k in data && HasPrefix(k, ExpireKeyPrefix) ==>
          exists i :: 0 <= i < |entries| && entries[i].key == k)
  }

  /** How many entries a pass processes when nothing fails: the longest
      prefix of due entries, cut at the batch limit. */
  function DueCount(entries: seq<Entry>, limit: int, now: int64): (n: nat)
    requires AllSliceable(entries)
    ensures n <= |entries| && (n == 0 || n <= limit)
    ensures forall j :: 0 <= j < n ==> TimestampOf(entries[j].key) <= now
    ensures n < |entries| && n < limit ==> TimestampOf(entries[n].key) > now
  {
    if |entries| == 0 || limit <= 0 || TimestampOf(entries[0].key) > now then 0
    else
      var rest := DueCount(entries[1..], limit - 1, now);
      assert forall j :: 1 <= j < 1 + rest ==> entries[j] == entries[1..][j - 1];
      1 + rest
  }

  /** The work the loop does on one due entry: doExpire, the Delete of the
      index entry, and the iterator's Next. */
  function Process(s: TxnState, e: Entry, env: Env): (r: (Option<Error>, TxnState))
    requires EntryWellFormed(e)
    ensures var (rerr, rs) := Resolve(s, MetaKeyOf(e.key), e.value, env);
            && (rerr.Some? ==> r == (rerr, rs))
            && (r.0.None? ==> r.1 == rs.(view := rs.view - {e.key}))
    ensures r.1.view.Keys <= s.view.Keys
    ensures r.0.None? ==> e.key !in r.1.view
    ensures e.key in env.faults.delete || e.key in env.faults.next ==> r.0.Some?
  {
    var (err, resolved) := Resolve(s, MetaKeyOf(e.key), e.value, env);
    if err.Some? then (err, resolved)
    else if e.key in env.faults.delete then (Some(ErrStore), resolved)
    else
      var removed := resolved.(view := resolved.view - {e.key});
      if e.key in env.faults.next then (Some(ErrStore), removed)
      else (None, removed)
  }

  /** dkey is a data key doExpire may reclaim for e: that of a prefix of
      e's object id, in the database of e's meta key. */
  ghost predicate Reclaims(e: Entry, dkey: Bytes)
    requires Sliceable(e.key)
  {
    && SplittableMetaKey(MetaKeyOf(e.key))
    && exists n :: 0 <= n <= |e.value| && dkey == DataKeyFor(MetaKeyOf(e.key), e.value[..n])
  }

  /** dkey is a data key the resolution of one of the first n entries may
      reclaim. */
  ghost predicate ReclaimedBy(entries: seq<Entry>, n: nat, dkey: Bytes)
    requires AllSliceable(entries) && n <= |entries|
  {
    exists j :: 0 <= j < n && Reclaims(entries[j], dkey)
  }

  /** What a successful step on e does at most: it removes e, may remove
      e's meta key, changes nothing else in the view, and only appends to
      the log data keys that e's resolution may reclaim. */
  ghost predicate Keeps(s: TxnState, e: Entry, s': TxnState)
    requires Sliceable(e.key)
  {
    && s'.view.Keys <= s.view.Keys && e.key !in s'.view
    && (forall k :: k in s.view && k != e.key && k != MetaKeyOf(e.key) ==>
          k in s'.view && s'.view[k] == s.view[k])
    && |s.gcLog| <= |s'.gcLog| && s'.gcLog[..|s.gcLog|] == s.gcLog
    && (forall m :: |s.gcLog| <= m < |s'.gcLog| ==> Reclaims(e, s'.gcLog[m]))
  }

  lemma ProcessKeeps(s: TxnState, e: Entry, env: Env)
    requires EntryWellFormed(e)
    requires Process(s, e, env).0.None?
    ensures Keeps(s, e, Process(s, e, env).1)
  {
    var mkey := MetaKeyOf(e.key);
    var rs := Resolve(s, mkey, e.value, env).1;
    if rs.gcLog != s.gcLog {
      var n :| 0 <= n <= |e.value| && rs.gcLog == s.gcLog + [DataKeyFor(mkey, e.value[..n])];
      assert Reclaims(e, rs.gcLog[|s.gcLog|]);
    }
  }

  /** A per-entry step of a pass. */
  type Step = (TxnState, Entry) --> (Option<Error>, TxnState)

  function StepOf(env: Env): (step: Step) {
    (t: TxnState, e: Entry) requires EntryWellFormed(e) => Process(t, e, env)
  }

  /** step can be taken on every entry of entries, from any state. */
  ghost predicate Defined(step: Step, entries: seq<Entry>) {
    forall t, i :: 0 <= i < |entries| ==> step.requires(t, entries[i])
  }

  /** Every successful step on an entry of entries keeps what Keeps says. */
  ghost predicate StepKeeps(step: Step, entries: seq<Entry>)
    requires AllSliceable(entries) && Defined(step, entries)
  {
    forall t, i {:trigger Keeps(t, entries[i], step(t, entries[i]).1)} ::
      0 <= i < |entries| && step(t, entries[i]).0.None? ==> Keeps(t, entries[i], step(t, entries[i]).1)
  }

  lemma ProcessStepKeeps(env: Env, entries: seq<Entry>)
    requires WellFormed(entries)
    ensures AllSliceable(entries) && Defined(StepOf(env), entries) && StepKeeps(StepOf(env), entries)
  {
    forall t, i | 0 <= i < |entries| && StepOf(env)(t, entries[i]).0.None?
      ensures Keeps(t, entries[i], StepOf(env)(t, entries[i]).1)
    {
      ProcessKeeps(t, entries[i], env);
    }
  }

  /** The loop of runExpire from state s: stop at the end of the range, at
      the batch limit or at the first entry not yet due; otherwise step on
      the entry, stop at its error, and go on. */
  function Pass(s: TxnState, entries: seq<Entry>, limit: int, now: int64, step: Step): (r: (Option<Error>, TxnState))
    requires AllSliceable(entries) && Defined(step, entries)
    ensures r.0.Some? ==> |entries| > 0 && limit > 0 && TimestampOf(entries[0].key) <= now
    decreases |entries|
  {
    if |entries| == 0 || limit <= 0 || TimestampOf(entries[0].key) > now then (None, s)
    else
      var (err, next) := step(s, entries[0]);
      if err.Some? then (err, next)
      else Pass(next, entries[1..], limit - 1, now, step)
  }

  /** One pass of runExpire over the transaction state s. */
  function Sweep(s: TxnState, entries: seq<Entry>, limit: int, now: int64, env: Env): (r: (Option<Error>, TxnState))
    requires WellFormed(entries)
    ensures DueCount(entries, limit, now) == 0 ==> r == (None, s)
    ensures r.0.Some? ==> DueCount(entries, limit, now) > 0
  {
    ProcessStepKeeps(env, entries);
    PassUnfold(s, entries, limit, now, StepOf(env));
    Pass(s, entries, limit, now, StepOf(env))
  }

  /** Pass taken one entry at a time. */
  lemma PassUnfold(s: TxnState, entries: seq<Entry>, limit: int, now: int64, step: Step)
    requires AllSliceable(entries) && Defined(step, entries)
    ensures |entries| == 0 || limit <= 0 || TimestampOf(entries[0].key) > now ==>
              Pass(s, entries, limit, now, step) == (None, s)
    ensures |entries| > 0 && limit > 0 && TimestampOf(entries[0].key) <= now ==>
              AllSliceable(entries[1..]) && Defined(step, entries[1..]) &&
              Pass(s, entries, limit, now, step) ==
                if step(s, entries[0]).0.Some? then step(s, entries[0])
                else Pass(step(s, entries[0]).1, entries[1..], limit - 1, now, step)
  {
  }

  /** k is neither one of the first n index keys of entries nor a meta key
      inside one of them: nothing a pass over them deletes. */
  predicate Untouched(k: Bytes, entries: seq<Entry>, n: nat)
    requires AllSliceable(entries) && n <= |entries|
  {
    forall j :: 0 <= j < n ==> k != entries[j].key && k != MetaKeyOf(entries[j].key)
  }

  /** One successful step of a pass: the state the rest of the pass starts
      from, and what the step kept. */
  lemma PassStep(s: TxnState, entries: seq<Entry>, limit: int, now: int64, step: Step)
    returns (next: TxnState)
    requires AllSliceable(entries) && Defined(step, entries) && StepKeeps(step, entries)
    requires Pass(s, entries, limit, now, step).0.None?
    requires DueCount(entries, limit, now) > 0
    ensures AllSliceable(entries[1..]) && Defined(step, entries[1..]) && StepKeeps(step, entries[1..])
    ensures Pass(s, entries, limit, now, step) == Pass(next, entries[1..], limit - 1, now, step)
    ensures DueCount(entries, limit, now) == DueCount(entries[1..], limit - 1, now) + 1
    ensures Pass(next, entries[1..], limit - 1, now, step).0.None?
    ensures Keeps(s, entries[0], next)
  {
    next := step(s, entries[0]).1;
    forall t, i | 0 <= i < |entries| - 1 && step(t, entries[1..][i]).0.None?
      ensures Keeps(t, entries[1..][i], step(t, entries[1..][i]).1)
    {
      assert entries[1..][i] == entries[i + 1];
    }
  }

  /** A successful pass deletes every index entry it processes. */
  lemma {:induction false} PassDeletesProcessed(s: TxnState, entries: seq<Entry>, limit: int, now: int64, step: Step)
    requires AllSliceable(entries) && Defined(step, entries) && StepKeeps(step, entries)
    requires Pass(s, entries, limit, now, step).0.None?
    ensures var s' := Pass(s, entries, limit, now, step).1;
            s'.view.Keys <= s.view.Keys &&
            forall j :: 0 <= j < DueCount(entries, limit, now) ==> entries[j].key !in s'.view
    decreases |entries|
  {
    var n := DueCount(entries, limit, now);
    if n > 0 {
      var next := PassStep(s, entries, limit, now, step);
      PassDeletesProcessed(next, entries[1..], limit - 1, now, step);
      forall j | 1 <= j < n
        ensures entries[j].key == entries[1..][j - 1].key
      {
      }
    }
  }

  /** A successful pass changes no key other than the index keys it
      processes and the meta keys inside them. */
  lemma {:induction false} PassFrame(s: TxnState, entries: seq<Entry>, limit: int, now: int64, step: Step, k: Bytes)
    requires AllSliceable(entries) && Defined(step, entries) && StepKeeps(step, entries)
    requires Pass(s, entries, limit, now, step).0.None?
    requires k in s.view && Untouched(k, entries, DueCount(entries, limit, now))
    ensures var s' := Pass(s, entries, limit, now, step).1;
            k in s'.view && s'.view[k] == s.view[k]
    decreases |entries|
  {
    var n := DueCount(entries, limit, now);
    if n > 0 {
      var next := PassStep(s, entries, limit, now, step);
      assert k in next.view && next.view[k] == s.view[k] by {
        assert k != entries[0].key && k != MetaKeyOf(entries[0].key);
      }
      assert Untouched(k, entries[1..], n - 1) by {
        forall j | 0 <= j < n - 1
          ensures k != entries[1..][j].key && k != MetaKeyOf(entries[1..][j].key)
        {
          assert entries[1..][j] == entries[j + 1];
        }
      }
      PassFrame(next, entries[1..], limit - 1, now, step, k);
    }
  }

  /** A successful pass only appends reclamation requests to the log. */
  lemma {:induction false} PassLogGrows(s: TxnState, entries: seq<Entry>, limit: int, now: int64, step: Step)
    requires AllSliceable(entries) && Defined(step, entries) && StepKeeps(step, entries)
    requires Pass(s, entries, limit, now, step).0.None?
    ensures var s' := Pass(s, entries, limit, now, step).1;
            |s.gcLog| <= |s'.gcLog| && s'.gcLog[..|s.gcLog|] == s.gcLog
    decreases |entries|
  {
    if DueCount(entries, limit, now) > 0 {
      var next := PassStep(s, entries, limit, now, step);
      PassLogGrows(next, entries[1..], limit - 1, now, step);
    }
  }

  /** A successful pass appends only data keys that the resolution of one
      of its processed entries may reclaim. */
  lemma {:induction false} PassReclaimsOnlyProcessed(s: TxnState, entries: seq<Entry>, limit: int, now: int64, step: Step)
    requires AllSliceable(entries) && Defined(step, entries) && StepKeeps(step, entries)
    requires Pass(s, entries, limit, now, step).0.None?
    ensures var s' := Pass(s, entries, limit, now, step).1;
            forall m :: |s.gcLog| <= m < |s'.gcLog| ==> ReclaimedBy(entries, DueCount(entries, limit, now), s'.gcLog[m])
    decreases |entries|
  {
    var n := DueCount(entries, limit, now);
    if n > 0 {
      var next := PassStep(s, entries, limit, now, step);
      PassReclaimsOnlyProcessed(next, entries[1..], limit - 1, now, step);
      PassLogGrows(next, entries[1..], limit - 1, now, step);
      ReclaimsShift(entries, n, s.gcLog, next.gcLog, Pass(next, entries[1..], limit - 1, now, step).1.gcLog);
    }
  }

  /** The log of a pass whose first step appended requests for entries[0]
      and whose rest appended requests for entries[1..n]. */
  lemma ReclaimsShift(entries: seq<Entry>, n: nat, log0: seq<Bytes>, log1: seq<Bytes>, log2: seq<Bytes>)
    requires AllSliceable(entries) && 0 < n <= |entries|
    requires |log0| <= |log1| <= |log2| && log2[..|log1|] == log1
    requires forall m :: |log0| <= m < |log1| ==> Reclaims(entries[0], log1[m])
    requires forall m :: |log1| <= m < |log2| ==> ReclaimedBy(entries[1..], n - 1, log2[m])
    ensures forall m :: |log0| <= m < |log2| ==> ReclaimedBy(entries, n, log2[m])
  {
    forall m | |log0| <= m < |log2|
      ensures ReclaimedBy(entries, n, log2[m])
    {
      if m < |log1| {
        assert log2[m] == log2[..|log1|][m];
        assert Reclaims(entries[0], log2[m]);
      } else {
        var j :| 0 <= j < n - 1 && Reclaims(entries[1..][j], log2[m]);
        assert entries[1..][j] == entries[j + 1];
      }
    }
  }

  /** Due-entry exactness: on a sorted index of non-negative timestamps, a
      pass that stops before its batch limit leaves no due entry behind;
      every entry it does not reach is not yet due. */
  lemma SweepStopsAtFirstNotDue(entries: seq<Entry>, limit: int, now: int64)
    requires forall i :: 0 <= i < |entries| ==> ValidIndexKey(entries[i].key)
    requires AllSliceable(entries) && SortedByKey(entries)
    requires forall i :: 0 <= i < |entries| ==> TimestampOf(entries[i].key) >= 0
    ensures var n := DueCount(entries, limit, now);
            n < limit ==> forall j :: n <= j < |entries| ==> TimestampOf(entries[j].key) > now
  {
    var n := DueCount(entries, limit, now);
    if n < limit {
      forall j | n <= j < |entries|
        ensures TimestampOf(entries[j].key) > now
      {
        if j > n {
          IndexKeyOrderIsTimeOrder(entries[n].key, entries[j].key);
        }
      }
    }
  }

  /** What a successful pass of runExpire does to its transaction: it
      deletes every index entry it processes, changes no key other than
      those entries and their meta keys, and only appends to the log. */
  lemma SweepEffect(s: TxnState, entries: seq<Entry>, limit: int, now: int64, env: Env)
    requires WellFormed(entries)
    requires Sweep(s, entries, limit, now, env).0.None?
    ensures var s' := Sweep(s, entries, limit, now, env).1;
            var n := DueCount(entries, limit, now);
            && s'.view.Keys <= s.view.Keys
            && (forall j :: 0 <= j < n ==> entries[j].key !in s'.view)
            && (forall k :: k in s.view && Untouched(k, entries, n) ==> k in s'.view && s'.view[k] == s.view[k])
            && |s.gcLog| <= |s'.gcLog| && s'.gcLog[..|s.gcLog|] == s.gcLog
  {
    var step := StepOf(env);
    ProcessStepKeeps(env, entries);
    PassDeletesProcessed(s, entries, limit, now, step);
    PassLogGrows(s, entries, limit, now, step);
    forall k | k in s.view && Untouched(k, entries, DueCount(entries, limit, now))
      ensures var s' := Sweep(s, entries, limit, now, env).1;
              k in s'.view && s'.view[k] == s.view[k]
    {
      PassFrame(s, entries, limit, now, step, k);
    }
  }

  /** The entries a successful pass does not reach are left as they were,
      for meta keys in the documented layout (which never carry the index
      prefix). */
  lemma SweepLeavesRestUntouched(s: TxnState, entries: seq<Entry>, limit: int, now: int64, env: Env)
    requires WellFormed(entries) && SortedByKey(entries)
    requires forall i :: 0 <= i < |entries| ==> HasPrefix(entries[i].key, ExpireKeyPrefix)
    requires forall i :: 0 <= i < |entries| ==> IsMetaKey(MetaKeyOf(entries[i].key))
    requires Sweep(s, entries, limit, now, env).0.None?
    ensures var s' := Sweep(s, entries, limit, now, env).1;
            forall j :: DueCount(entries, limit, now) <= j < |entries| && entries[j].key in s.view ==>
              entries[j].key in s'.view && s'.view[entries[j].key] == s.view[entries[j].key]
  {
    var n := DueCount(entries, limit, now);
    var step := StepOf(env);
    ProcessStepKeeps(env, entries);
    forall j | n <= j < |entries| && entries[j].key in s.view
      ensures var s' := Sweep(s, entries, limit, now, env).1;
              entries[j].key in s'.view && s'.view[entries[j].key] == s.view[entries[j].key]
    {
      forall i | 0 <= i < n
        ensures entries[j].key != entries[i].key && entries[j].key != MetaKeyOf(entries[i].key)
      {
        assert LexLess(entries[i].key, entries[j].key);
        MetaKeyIsNotIndexKey(MetaKeyOf(entries[i].key));
        if entries[j].key == entries[i].key {
          LexLessIrreflexive(entries[i].key);
        }
      }
      PassFrame(s, entries, limit, now, step, entries[j].key);
    }
  }

  /** What a successful pass of runExpire reclaims: every request it
      appends is the data key of a prefix of the object id of one of the
      entries it processed, in the database of that entry's meta key. */
  lemma SweepReclaimsOnlyProcessed(s: TxnState, entries: seq<Entry>, limit: int, now: int64, env: Env)
    requires WellFormed(entries)
    requires Sweep(s, entries, limit, now, env).0.None?
    ensures var s' := Sweep(s, entries, limit, now, env).1;
            && |s.gcLog| <= |s'.gcLog|
            && forall d :: d in s'.gcLog[|s.gcLog|..] ==>
              exists j, k :: 0 <= j < DueCount(entries, limit, now) && 0 <= k <= |entries[j].value| &&
                d == DataKeyFor(MetaKeyOf(entries[j].key), entries[j].value[..k])
  {
    ProcessStepKeeps(env, entries);
    PassLogGrows(s, entries, limit, now, StepOf(env));
    PassReclaimsOnlyProcessed(s, entries, limit, now, StepOf(env));
    ReclaimsWitnessed(entries, DueCount(entries, limit, now), Sweep(s, entries, limit, now, env).1.gcLog, |s.gcLog|);
  }

  /** Reclaims spelled out: the entry and the prefix length of its object
      id. */
  lemma ReclaimsWitnessed(entries: seq<Entry>, n: nat, log: seq<Bytes>, from: nat)
    requires WellFormed(entries) && n <= |entries| && from <= |log|
    requires forall m :: from <= m < |log| ==> ReclaimedBy(entries, n, log[m])
    ensures forall d :: d in log[from..] ==>
              exists j, k :: 0 <= j < n && 0 <= k <= |entries[j].value| &&
                d == DataKeyFor(MetaKeyOf(entries[j].key), entries[j].value[..k])
  {
    forall d | d in log[from..]
      ensures exists j, k :: 0 <= j < n && 0 <= k <= |entries[j].value| &&
                d == DataKeyFor(MetaKeyOf(entries[j].key), entries[j].value[..k])
    {
      var i :| 0 <= i < |log[from..]| && log[from..][i] == d;
      assert log[from + i] == d;
      var j :| 0 <= j < n && Reclaims(entries[j], d);
      var k :| 0 <= k <= |entries[j].value| && d == DataKeyFor(MetaKeyOf(entries[j].key), entries[j].value[..k]);
    }
  }

  /** A successful pass that processes a single entry ends in the state
      doExpire leaves on that entry, with the index entry deleted. */
  lemma SweepOneDue(s: TxnState, entries: seq<Entry>, limit: int, now: int64, env: Env)
    requires WellFormed(entries)
    requires DueCount(entries, limit, now) == 1
    requires Sweep(s, entries, limit, now, env).0.None?
    ensures var (rerr, rs) := Resolve(s, MetaKeyOf(entries[0].key), entries[0].value, env);
            rerr.None? && Sweep(s, entries, limit, now, env).1 == rs.(view := rs.view - {entries[0].key})
  {
    assert entries[0..] == entries;
    LoopStep(s, entries, 0, limit, now, env);
    assert DueCount(entries[1..], limit - 1, now) == 0;
  }

  /** An index entry written for obj is due exactly when obj is expired. */
  lemma DueIffExpired(mkey: Bytes, obj: Object, now: int64)
    requires obj.expireAt > 0
    ensures ValidIndexKey(ExpireKey(mkey, obj.expireAt))
    ensures TimestampOf(ExpireKey(mkey, obj.expireAt)) <= now <==> IsExpired(obj, now)
  {
    ExpireKeyRoundTrip(mkey, obj.expireAt);
  }

  /** The body of runExpire's loop on a due entry e: doExpire on its meta
      key and object id, the Delete of e, and the iterator's Next. */
  method ProcessEntry(txn: Transaction, e: Entry) returns (err: Option<Error>)
    requires EntryWellFormed(e)
    modifies txn
    ensures (err, txn.State()) == Process(old(txn.State()), e, txn.env)
  {
    var rawKey := e.key;
    var mkey := rawKey[ExpireMetakeyOffset..];
    err := DoExpire(txn, mkey, e.value);
    if err.Some? {
      return;
    }
    err := txn.Delete(rawKey);
    if err.Some? {
      return;
    }
    if rawKey in txn.env.faults.next {
      return Some(ErrStore); // iter.Next() failed
    }
  }

  /** One iteration of runExpire's loop on the due entry entries[i]: the
      pass from there is the step's error, or the pass over the rest from
      the step's state. */
  lemma LoopStep(s: TxnState, entries: seq<Entry>, i: nat, limit: int, now: int64, env: Env)
    requires WellFormed(entries) && i < |entries| && limit > 0
    requires TimestampOf(entries[i].key) <= now
    ensures WellFormed(entries[i + 1..])
    ensures var (err, next) := Process(s, entries[i], env);
            Sweep(s, entries[i..], limit, now, env) ==
              if err.Some? then (err, next) else Sweep(next, entries[i + 1..], limit - 1, now, env)
  {
    var rest := entries[i..];
    assert rest[0] == entries[i] && rest[1..] == entries[i + 1..];
    ProcessStepKeeps(env, rest);
    PassUnfold(s, rest, limit, now, StepOf(env));
  }

  /** Where runExpire's loop stops without an error: the pass from there
      changes nothing. */
  lemma LoopExit(s: TxnState, entries: seq<Entry>, i: nat, limit: int, now: int64, env: Env)
    requires WellFormed(entries) && i <= |entries|
    requires i == |entries| || limit <= 0 || TimestampOf(entries[i].key) > now
    ensures WellFormed(entries[i..])
    ensures Sweep(s, entries[i..], limit, now, env) == (None, s)
  {
    var rest := entries[i..];
    assert i < |entries| ==> rest[0] == entries[i];
    ProcessStepKeeps(env, rest);
    PassUnfold(s, rest, limit, now, StepOf(env));
  }

  /** The loop of runExpire over the transaction: it ends in the state
      Sweep gives, with Sweep's error. */
  method ExpireLoop(txn: Transaction, entries: seq<Entry>, batchLimit: int, now: int64) returns (err: Option<Error>)
    requires WellFormed(entries)
    requires forall i :: 0 <= i < |entries| ==> HasPrefix(entries[i].key, ExpireKeyPrefix)
    modifies txn
    ensures (err, txn.State()) == Sweep(old(txn.State()), entries, batchLimit, now, txn.env)
  {
    ghost var pass := Sweep(txn.State(), entries, batchLimit, now, txn.env);
    var limit := batchLimit;
    var i := 0;
    assert entries[0..] == entries;
    while i < |entries| && HasPrefix(entries[i].key, ExpireKeyPrefix) && limit > 0
      invariant 0 <= i <= |entries| && limit == batchLimit - i
      invariant WellFormed(entries[i..])
      invariant Sweep(txn.State(), entries[i..], limit, now, txn.env) == pass
    {
      var rawKey := entries[i].key;
      var ts := DecodeInt64(rawKey[ExpireTimestampOffset..ExpireTimestampOffset + TimestampWidth]);
      if ts > now {
        break;
      }
      LoopStep(txn.State(), entries, i, limit, now, txn.env);
      err := ProcessEntry(txn, entries[i]);
      if err.Some? {
        return;
      }
      limit := limit - 1;
      i := i + 1;
    }
    LoopExit(txn.State(), entries, i, limit, now, txn.env);
    err := None;
  }

  /** runExpire. The index range is given as entries (the iterator's
      snapshot), the clock as now, and failing store calls by env. Any
      failure rolls the whole pass back; otherwise its commit applies the
      state Sweep gives. */
  method RunExpire(db: Store, entries: seq<Entry>, batchLimit: int, now: int64, env: Env)
    requires IndexRange(db.data, entries) && WellFormed(entries)
    modifies db
    ensures var (err, s) := Sweep(TxnState(old(db.data), []), entries, batchLimit, now, env);
            if env.faults.begin || env.faults.iter || err.Some? || env.faults.commit
            then db.data == old(db.data) && db.gcRequests == old(db.gcRequests)
            else db.data == s.view && db.gcRequests == old(db.gcRequests) + s.gcLog
  {
    if env.faults.begin {
      return;
    }
    var txn := new Transaction(db.data, env);
    if env.faults.iter {
      return; // rollback
    }
    var err := ExpireLoop(txn, entries, batchLimit, now);
    if err.Some? || env.faults.commit {
      return; // rollback
    }
    db.data := txn.view;
    db.gcRequests := db.gcRequests + txn.gcLog;
  }
}
