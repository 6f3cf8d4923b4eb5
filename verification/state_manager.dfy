/** Run bookkeeping: one `SyncState` row per run and an append-only log of
    `SyncEntry` rows, one per record a run reports as written. The database is
    a plain value threaded through every operation, and `now` is a parameter. */
module StateManager {
  import opened Wrappers
  import opened Php

  datatype Status = Running | Completed | Failed

  /** The `sync_mode` column's default: the first of the available modes. */
  const DefaultMode: string := "append"

  /** A `sync_states` row. `createdAt` is Eloquent's creation timestamp. */
  datatype SyncState = SyncState(
    id: nat,
    modelClass: string,
    syncType: string,
    syncMode: string,
    status: Status,
    startedAt: int,
    createdAt: int,
    completedAt: Option<int>,
    totalProcessed: int,
    lastProcessedId: Option<int>,
    errorMessage: Option<string>)

  /** A `sync_entries` row; the engine only ever writes successful ones. */
  datatype SyncEntry = SyncEntry(
    syncStateId: nat,
    modelClass: string,
    recordId: int,
    syncedAt: int,
    syncType: string,
    succeeded: bool)

  /** The two tables. */
  datatype Store = Store(states: seq<SyncState>, entries: seq<SyncEntry>)

  /** Auto-increment ids: the state at position `k` has id `k + 1`. */
  predicate WellFormed(store: Store) {
    forall k :: 0 <= k < |store.states| ==> store.states[k].id == k + 1
  }

  /** Whether `s` is a row of `store`. */
  predicate Persisted(store: Store, s: SyncState) {
    1 <= s.id <= |store.states|
  }

  /** `$syncState->update(...)`: writes the state back to its row. */
  function Save(store: Store, s: SyncState): (r: Store)
    ensures r.entries == store.entries
    ensures |r.states| == |store.states|
    ensures forall k :: 0 <= k < |store.states| ==>
              r.states[k] == if Persisted(store, s) && k == s.id - 1 then s else store.states[k]
  {
    if Persisted(store, s) then store.(states := store.states[s.id - 1 := s]) else store
  }

  /** `initializeSync`. The mode argument is not a fillable attribute, so the
      row keeps the column default. */
  function InitializeSync(store: Store, modelClass: string, syncType: string, syncMode: string, now: int)
    : (r: (Store, SyncState))
    ensures var (after, s) := r;
            && s.modelClass == modelClass && s.syncType == syncType && s.syncMode == DefaultMode
            && s.status == Running && s.startedAt == now && s.createdAt == now
            && s.completedAt.None? && s.totalProcessed == 0 && s.lastProcessedId.None? && s.errorMessage.None?
            && after.states == store.states + [s] && after.entries == store.entries
            && (WellFormed(store) ==> WellFormed(after) && Persisted(after, s))
  {
    var s := SyncState(|store.states| + 1, modelClass, syncType, DefaultMode, Running, now, now,
                       None, 0, None, None);
    (Store(store.states + [s], store.entries), s)
  }

  /** The entries `recordBatchSync` inserts, one per id, in order. */
  function EntriesFor(s: SyncState, ids: seq<int>, now: int): (es: seq<SyncEntry>)
    ensures |es| == |ids|
    ensures forall k :: 0 <= k < |ids| ==>
              es[k] == SyncEntry(s.id, s.modelClass, ids[k], now, s.syncType, true)
  {
    seq(|ids|, k requires 0 <= k < |ids| => SyncEntry(s.id, s.modelClass, ids[k], now, s.syncType, true))
  }

  /** `recordBatchSync`: logs every id, adds their count to the total and
      sets the last id to this batch's largest id, whatever it was before.
      An empty batch inserts nothing and then fails in `max()`. */
  function RecordBatchSync(store: Store, s: SyncState, ids: seq<int>, now: int)
    : (r: Result<(Store, SyncState), Throwable>)
    ensures r.Err? <==> |ids| == 0
    ensures r.Err? ==> r.error.Error? && r.error.rclass == ValueError
    ensures r.Ok? ==>
              var (after, t) := r.value;
              && after.entries == store.entries + EntriesFor(s, ids, now)
              && t == s.(totalProcessed := s.totalProcessed + |ids|, lastProcessedId := Some(Max(ids)))
              && after == Save(store.(entries := after.entries), t)
  {
    if |ids| == 0 then Err(Error(ValueError, MaxOfEmptyArray))
    else
      var t := s.(totalProcessed := s.totalProcessed + |ids|, lastProcessedId := Some(Max(ids)));
      Ok((Save(Store(store.states, store.entries + EntriesFor(s, ids, now)), t), t))
  }

  /** `completeSync`: the run is completed now, and its counters are the
      run's result, overwriting what the batches recorded. */
  function CompleteSync(store: Store, s: SyncState, total: int, last: Option<int>, now: int)
    : (r: (Store, SyncState))
    ensures r.1.status == Completed && r.1.completedAt == Some(now)
    ensures r.1.totalProcessed == total && r.1.lastProcessedId == last
    ensures r.1.errorMessage == s.errorMessage && r.1.id == s.id && r.1.modelClass == s.modelClass
    ensures r.0 == Save(store, r.1)
  {
    var t := s.(status := Completed, completedAt := Some(now), totalProcessed := total, lastProcessedId := last);
    (Save(store, t), t)
  }

  /** `failSync`: the run failed now with `message`; the counters stay. */
  function FailSync(store: Store, s: SyncState, message: string, now: int): (r: (Store, SyncState))
    ensures r.1.status == Failed && r.1.completedAt == Some(now) && r.1.errorMessage == Some(message)
    ensures r.1.totalProcessed == s.totalProcessed && r.1.lastProcessedId == s.lastProcessedId
    ensures r.1.id == s.id && r.1.modelClass == s.modelClass && r.1.createdAt == s.createdAt
    ensures r.0 == Save(store, r.1)
  {
    var t := s.(status := Failed, completedAt := Some(now), errorMessage := Some(message));
    (Save(store, t), t)
  }

  // ---------------------------------------------------------------------------
  // Last successful run

  /** A completed run of `modelClass`. */
  predicate CompletedRun(s: SyncState, modelClass: string) {
    s.modelClass == modelClass && s.status == Completed
  }

  /** `a` sorts no later than `b` under `latest('completed_at')`: a descending
      order in which a null completion time comes last. */
  predicate NotBefore(a: Option<int>, b: Option<int>) {
    b.None? || (a.Some? && a.value >= b.value)
  }

  /** `getLastSuccessfulSync`: among the completed runs of the class, one with
      the latest completion time, the earliest such row on ties. */
  function GetLastSuccessfulSync(states: seq<SyncState>, modelClass: string): (r: Option<SyncState>)
    ensures r.None? <==> forall k :: 0 <= k < |states| ==> !CompletedRun(states[k], modelClass)
    ensures r.Some? ==> r.value in states && CompletedRun(r.value, modelClass)
    ensures r.Some? ==> forall k :: 0 <= k < |states| && CompletedRun(states[k], modelClass) ==>
                          NotBefore(r.value.completedAt, states[k].completedAt)
    decreases |states|
  {
    if |states| == 0 then None
    else
      var prefix := states[..|states| - 1];
      var last := states[|states| - 1];
      var best := GetLastSuccessfulSync(prefix, modelClass);
      assert forall k :: 0 <= k < |prefix| ==> prefix[k] == states[k];
      if CompletedRun(last, modelClass) && (best.None? || !NotBefore(best.value.completedAt, last.completedAt))
      then Some(last)
      else best
  }

  // ---------------------------------------------------------------------------
  // Properties across operations

  /** No operation removes or rewrites a logged entry: the log only grows. */
  lemma EntriesAppendOnly(store: Store, s: SyncState, ids: seq<int>, now: int, message: string,
                          total: int, last: Option<int>)
    ensures var r := RecordBatchSync(store, s, ids, now);
            r.Ok? ==> store.entries <= r.value.0.entries
    ensures CompleteSync(store, s, total, last, now).0.entries == store.entries
    ensures FailSync(store, s, message, now).0.entries == store.entries
  {
  }

  /** Every operation keeps the auto-increment ids intact. */
  lemma OperationsKeepWellFormed(store: Store, s: SyncState, ids: seq<int>, now: int, message: string,
                                 total: int, last: Option<int>)
    requires WellFormed(store)
    requires Persisted(store, s) ==> store.states[s.id - 1].id == s.id
    ensures var r := RecordBatchSync(store, s, ids, now);
            r.Ok? ==> WellFormed(r.value.0)
    ensures WellFormed(CompleteSync(store, s, total, last, now).0)
    ensures WellFormed(FailSync(store, s, message, now).0)
  {
  }

  /** Neither completion checks the current status: a failed run can still be
      completed, and a completed one failed, each overwriting the other. */
  lemma CompletionIgnoresStatus(store: Store, s: SyncState, message: string, total: int,
                                last: Option<int>, t1: int, t2: int)
    ensures var (st1, failed) := FailSync(store, s, message, t1);
            var (_, done) := CompleteSync(st1, failed, total, last, t2);
            done.status == Completed && done.completedAt == Some(t2) && done.errorMessage == Some(message)
    ensures var (st1, done) := CompleteSync(store, s, total, last, t1);
            var (_, failed) := FailSync(st1, done, message, t2);
            failed.status == Failed && failed.totalProcessed == total && failed.lastProcessedId == last
  {
  }

  /** The last id follows the latest batch, not the largest id so far: a
      batch of smaller ids moves it backwards. */
  lemma LastIdCanDecrease(store: Store, s: SyncState, now: int)
    requires s.lastProcessedId == Some(10)
    ensures var r := RecordBatchSync(store, s, [3], now);
            r.Ok? && r.value.1.lastProcessedId == Some(3)
  {
    assert Max([3]) == 3;
  }

  /** Two successive batches log both id lists in order and add up their
      sizes. */
  lemma {:induction false} TwoBatches(store: Store, s: SyncState, a: seq<int>, b: seq<int>, t1: int, t2: int)
    requires |a| > 0 && |b| > 0
    ensures var r1 := RecordBatchSync(store, s, a, t1);
            var r2 := RecordBatchSync(r1.value.0, r1.value.1, b, t2);
            && r2.Ok?
            && r2.value.0.entries == store.entries + EntriesFor(s, a, t1) + EntriesFor(r1.value.1, b, t2)
            && r2.value.1.totalProcessed == s.totalProcessed + |a| + |b|
            && r2.value.1.lastProcessedId == Some(Max(b))
  {
    var r1 := RecordBatchSync(store, s, a, t1);
    assert r1.Ok?;
  }

  /** A just-completed run of the class is the last successful one, unless
      some other completed run finished at least as late. */
  lemma CompletedRunIsFound(store: Store, s: SyncState, total: int, last: Option<int>, now: int)
    requires WellFormed(store) && Persisted(store, s) && store.states[s.id - 1].id == s.id
    requires forall k :: 0 <= k < |store.states| && CompletedRun(store.states[k], s.modelClass) ==>
               NotBefore(Some(now - 1), store.states[k].completedAt)
    ensures var (after, done) := CompleteSync(store, s, total, last, now);
            GetLastSuccessfulSync(after.states, s.modelClass) == Some(done)
  {
    var (after, done) := CompleteSync(store, s, total, last, now);
    var r := GetLastSuccessfulSync(after.states, s.modelClass);
    assert after.states[s.id - 1] == done;
    assert r.Some?;
    var k :| 0 <= k < |after.states| && after.states[k] == r.value;
    assert NotBefore(r.value.completedAt, done.completedAt);
  }
}
