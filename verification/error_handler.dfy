/** The retry decision after a failed run: count the class's recent failed
    runs, then either queue a partial re-sync after an exponential backoff or
    give up and report the final failure. The queue and the notifier are
    modelled by what is handed to them. */
module ErrorHandler {
  import opened Wrappers
  import opened Php
  import opened StateManager

  /** The constructor's default retry budget. */
  const MaxRetries: nat := 3

  /** Failed runs count towards the budget for one hour after creation. */
  const RetryWindow: int := 3600

  /** A `PartialSyncJob` queued to run at `availableAt`. */
  datatype Job = PartialSyncJob(modelClass: string, recordIds: seq<int>, availableAt: int)

  /** What the notification manager is asked to report. */
  datatype Notice =
    | RetryNotice(stateId: nat, failedRecords: seq<int>, retryCount: nat)
    | FinalFailureNotice(stateId: nat, exception: Throwable)

  /** Everything `handleError` hands on: the jobs queued, the notices sent. */
  datatype Handling = Handling(jobs: seq<Job>, notices: seq<Notice>)

  /** A state `getCurrentRetries` counts. */
  predicate RecentFailure(s: SyncState, modelClass: string, now: int) {
    s.modelClass == modelClass && s.status == Failed && s.createdAt > now - RetryWindow
  }

  /** `getCurrentRetries`: how many runs of the class failed and were created
      within the last hour. */
  function CurrentRetries(states: seq<SyncState>, modelClass: string, now: int): (n: nat)
    ensures n <= |states|
    decreases |states|
  {
    if |states| == 0 then 0
    else
      CurrentRetries(states[..|states| - 1], modelClass, now)
      + (if RecentFailure(states[|states| - 1], modelClass, now) then 1 else 0)
  }

  /** No retry is counted exactly when no run of the class failed within the
      last hour. */
  lemma {:induction false} NoRetriesIffNoRecentFailure(states: seq<SyncState>, modelClass: string, now: int)
    ensures CurrentRetries(states, modelClass, now) == 0 <==>
              forall k :: 0 <= k < |states| ==> !RecentFailure(states[k], modelClass, now)
    decreases |states|
  {
    if |states| > 0 {
      var init := states[..|states| - 1];
      NoRetriesIffNoRecentFailure(init, modelClass, now);
      assert forall k :: 0 <= k < |init| ==> init[k] == states[k];
    }
  }

  /** The positions of the counted runs; the reference `CurrentRetries` is
      checked against. */
  function RecentFailures(states: seq<SyncState>, modelClass: string, now: int): set<nat> {
    set k: nat | k < |states| && RecentFailure(states[k], modelClass, now)
  }

  lemma {:induction false} CurrentRetriesCountsRecentFailures(states: seq<SyncState>, modelClass: string, now: int)
    ensures CurrentRetries(states, modelClass, now) == |RecentFailures(states, modelClass, now)|
    decreases |states|
  {
    if |states| > 0 {
      var prefix := states[..|states| - 1];
      CurrentRetriesCountsRecentFailures(prefix, modelClass, now);
      var before := RecentFailures(prefix, modelClass, now);
      var all := RecentFailures(states, modelClass, now);
      var n := |prefix|;
      assert n !in before;
      if RecentFailure(states[n], modelClass, now) {
        assert all == before + {n};
      } else {
        assert all == before;
      }
    }
  }

  function Pow2(n: nat): (p: nat)
    ensures p >= 1
  {
    if n == 0 then 1 else 2 * Pow2(n - 1)
  }

  /** `schedulePartialSync`'s backoff: one minute, doubled for every earlier
      retry. */
  function Delay(retryCount: nat): (d: nat)
    requires retryCount >= 1
    ensures d >= 60
  {
    Pow2(retryCount - 1) * 60
  }

  /** `handleError`: retry while fewer than `MaxRetries` recent failures are
      on record, otherwise report the final failure. */
  function HandleError(states: seq<SyncState>, s: SyncState, e: Throwable, failedRecords: seq<int>, now: int)
    : (h: Handling)
    requires e.Exception?
    ensures |h.notices| == 1
    ensures CurrentRetries(states, s.modelClass, now) < MaxRetries <==> |h.jobs| == 1
    ensures CurrentRetries(states, s.modelClass, now) >= MaxRetries <==> |h.jobs| == 0
    ensures |h.jobs| == 1 ==>
              var count := CurrentRetries(states, s.modelClass, now) + 1;
              && 1 <= count <= MaxRetries
              && h.jobs[0] == PartialSyncJob(s.modelClass, failedRecords, now + Delay(count))
              && h.notices[0] == RetryNotice(s.id, failedRecords, count)
    ensures |h.jobs| == 0 ==> h.notices[0] == FinalFailureNotice(s.id, e)
  {
    var current := CurrentRetries(states, s.modelClass, now);
    if current < MaxRetries then
      var count := current + 1;
      Handling([PartialSyncJob(s.modelClass, failedRecords, now + Delay(count))],
               [RetryNotice(s.id, failedRecords, count)])
    else
      Handling([], [FinalFailureNotice(s.id, e)])
  }

  /** The backoff doubles with every retry and runs 60, 120, 240 seconds over
      the default budget. */
  lemma BackoffSchedule(retryCount: nat)
    requires retryCount >= 1
    ensures Delay(retryCount + 1) == 2 * Delay(retryCount)
    ensures Delay(1) == 60 && Delay(2) == 120 && Delay(3) == 240
  {
  }

  /** Failing a run that is still counted as not failed, and was created within
      the hour, adds exactly one to the class's retry count. */
  lemma FailSyncAddsOneRetry(store: Store, s: SyncState, message: string, failedAt: int, now: int)
    requires Persisted(store, s) && store.states[s.id - 1] == s
    requires s.status != Failed && s.createdAt > now - RetryWindow
    ensures CurrentRetries(FailSync(store, s, message, failedAt).0.states, s.modelClass, now)
            == CurrentRetries(store.states, s.modelClass, now) + 1
  {
    var failed := FailSync(store, s, message, failedAt).1;
    assert FailSync(store, s, message, failedAt).0.states == store.states[s.id - 1 := failed];
    CountUpdate(store.states, s.id - 1, failed, s.modelClass, now);
  }

  /** Replacing one state changes the count by that state's contribution. */
  lemma {:induction false} CountUpdate(states: seq<SyncState>, i: nat, x: SyncState, modelClass: string, now: int)
    requires i < |states|
    ensures CurrentRetries(states[i := x], modelClass, now)
            == CurrentRetries(states, modelClass, now)
               - (if RecentFailure(states[i], modelClass, now) then 1 else 0)
               + (if RecentFailure(x, modelClass, now) then 1 else 0)
    decreases |states|
  {
    var updated := states[i := x];
    var n := |states| - 1;
    if i == n {
      assert updated[..n] == states[..n];
    } else {
      assert updated[..n] == states[..n][i := x];
      CountUpdate(states[..n], i, x, modelClass, now);
    }
  }

  /** Once the budget is used up, failures queue nothing more until older
      failures leave the one-hour window. */
  lemma ExhaustedBudgetQueuesNothing(states: seq<SyncState>, s: SyncState, e: Throwable, failedRecords: seq<int>, now: int)
    requires e.Exception?
    requires |RecentFailures(states, s.modelClass, now)| >= MaxRetries
    ensures HandleError(states, s, e, failedRecords, now).jobs == []
  {
    CurrentRetriesCountsRecentFailures(states, s.modelClass, now);
  }
}
