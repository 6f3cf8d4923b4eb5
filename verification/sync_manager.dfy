/** The run lifecycle: resolve the sync mode, open a run, process it, and
    close it as completed, or hand the failure to the retry logic (full runs)
    or mark the run failed (partial runs). Only `Exception`s are caught; a
    PHP `Error` leaves the run open and propagates. */
module SyncManager {
  import opened Wrappers
  import opened Php
  import opened Models
  import opened StateManager
  import opened ErrorHandler
  import opened BatchProcessor

  /** The modes the mode column accepts; resolution does not check them. */
  const AvailableModes: seq<string> := ["append", "replace"]

  /** `defaults.sync_mode` as configured. */
  const DefaultSyncMode: string := "append"

  /** The start and completion notices the lifecycle sends itself. */
  datatype Event = Started(stateId: nat) | Finished(stateId: nat)

  /** What a call leaves behind: the world, the notices sent, what the retry
      logic decided if it ran, and the state returned or what was thrown. */
  datatype Lifecycle = Lifecycle(world: World, events: seq<Event>, handling: Option<Handling>,
                                 result: Result<SyncState, Throwable>)

  /** `determineSyncMode`: a non-empty `sync_mode` option as given; else the
      model's truthy preferred mode; else the configured default. Only the
      first step avoids instantiating the class. */
  function DetermineSyncMode(cls: ModelClass, option: Option<string>): (r: Result<string, Throwable>)
    ensures option.Some? && !EmptyString(option.value) ==> r == Ok(option.value)
    ensures (option.None? || EmptyString(option.value)) && !cls.classExists ==> r == Err(ClassNotFound(cls))
    ensures (option.None? || EmptyString(option.value)) && cls.classExists ==>
              r == Ok(if cls.preferredMode.Some? && Truthy(Str(cls.preferredMode.value))
                      then cls.preferredMode.value else DefaultSyncMode)
    ensures r.Ok? ==> !EmptyString(r.value)
  {
    if option.Some? && !EmptyString(option.value) then Ok(option.value)
    else if !cls.classExists then Err(ClassNotFound(cls))
    else if cls.preferredMode.Some? && Truthy(Str(cls.preferredMode.value)) then Ok(cls.preferredMode.value)
    else Ok(DefaultSyncMode)
  }

  /** The option decides whenever it is non-empty, for every class, even one
      that does not exist; an empty option counts as no option. */
  lemma ModePriority(cls: ModelClass, mode: string)
    ensures !EmptyString(mode) ==> DetermineSyncMode(cls, Some(mode)) == Ok(mode)
    ensures EmptyString(mode) ==> DetermineSyncMode(cls, Some(mode)) == DetermineSyncMode(cls, None)
  {
  }

  /** Any non-empty mode given as an option is taken, listed or not. */
  lemma UnlistedModeAccepted(cls: ModelClass)
    ensures DetermineSyncMode(cls, Some("mirror")) == Ok("mirror")
    ensures "mirror" !in AvailableModes
  {
  }

  /** `validateModel`: the class must exist, be an Eloquent model and
      implement the sync contract. */
  function ValidateModel(cls: ModelClass): (r: Option<Throwable>)
    ensures r.None? <==> cls.classExists && cls.isModel && cls.isSyncable
    ensures r.Some? ==> r.value.Exception? && r.value.eclass == SyncException
  {
    if !cls.classExists then Some(Exception(SyncException, "Model class " + cls.name + " does not exist", None))
    else if !cls.isModel || !cls.isSyncable then
      Some(Exception(SyncException, "Model class " + cls.name + " must implement SheetSyncable interface", None))
    else None
  }

  /** The state row as stored. */
  function Stored(w: World, s: SyncState): SyncState
    requires Persisted(w.store, s)
  {
    w.store.states[s.id - 1]
  }

  /** The common tail of `fullSync`: complete on success; on an `Exception`
      hand it to `handleError` and rethrow; let an `Error` through. */
  function CloseFull(p: Progress, events: seq<Event>): (l: Lifecycle)
    ensures p.failure.None? ==>
              && l.result.Ok? && l.result.value.status == Completed && l.result.value.id == p.state.id
              && l.result.value.totalProcessed == p.total && l.result.value.lastProcessedId == p.last
              && l.world.store == Save(p.world.store, l.result.value)
              && l.events == events + [Finished(p.state.id)] && l.handling.None?
    ensures p.failure.Some? ==> l.result == Err(p.failure.value) && l.world == p.world && l.events == events
    ensures l.handling.Some? <==> p.failure.Some? && p.failure.value.Exception?
    ensures l.handling.Some? ==>
              l.handling.value == HandleError(p.world.store.states, p.state, p.failure.value, [], p.world.clock)
  {
    match p.failure
    case None =>
      var (store, done) := CompleteSync(p.world.store, p.state, p.total, p.last, p.world.clock);
      Lifecycle(p.world.(store := store), events + [Finished(done.id)], None, Ok(done))
    case Some(e) =>
      if e.Exception? then
        Lifecycle(p.world, events, Some(HandleError(p.world.store.states, p.state, e, [], p.world.clock)), Err(e))
      else Lifecycle(p.world, events, None, Err(e))
  }

  /** `fullSync` as written: no validation, then open a full run and process
      it with `process`. */
  function FullSync(cls: ModelClass, table: seq<Record>, option: Option<string>, w: World): Lifecycle {
    match DetermineSyncMode(cls, option)
    case Err(e) => Lifecycle(w, [], None, Err(e))
    case Ok(mode) =>
      var (store, s) := InitializeSync(w.store, cls.name, "full", mode, w.clock);
      CloseFull(Process(cls, table, w.(store := store), s), [Started(s.id)])
  }

  /** `fullSync` running the corrected `process`. */
  function FullSyncIntended(rt: Runtime, cls: ModelClass, table: seq<Record>, option: Option<string>, w: World)
    : Lifecycle
    requires BatchSize(cls) >= 1
  {
    match DetermineSyncMode(cls, option)
    case Err(e) => Lifecycle(w, [], None, Err(e))
    case Ok(mode) =>
      var (store, s) := InitializeSync(w.store, cls.name, "full", mode, w.clock);
      CloseFull(ProcessIntended(rt, cls, table, w.(store := store), s), [Started(s.id)])
  }

  /** `partialSync`: validate before anything is stored, open a partial run,
      process the ids; on success complete the run and return the reloaded
      row, on an `Exception` mark the run failed and rethrow. */
  function PartialSync(rt: Runtime, cls: ModelClass, table: seq<Record>, ids: seq<int>, option: Option<string>,
                       w: World): (l: Lifecycle)
    ensures ValidateModel(cls).Some? ==> l == Lifecycle(w, [], None, Err(ValidateModel(cls).value))
    ensures l.handling.None? && l.events == []
  {
    if ValidateModel(cls).Some? then Lifecycle(w, [], None, Err(ValidateModel(cls).value))
    else
      match DetermineSyncMode(cls, option)
      case Err(e) => Lifecycle(w, [], None, Err(e))
      case Ok(mode) =>
        var (store, s) := InitializeSync(w.store, cls.name, "partial", mode, w.clock);
        var p := ProcessPartial(rt, cls, table, ids, w.(store := store), s);
        match p.failure
        case None =>
          var (closed, done) := CompleteSync(p.world.store, p.state, p.total, p.last, p.world.clock);
          var reloaded := if Persisted(closed, done) then closed.states[done.id - 1] else done;
          Lifecycle(p.world.(store := closed), [], None, Ok(reloaded))
        case Some(e) =>
          if e.Exception? then
            var (closed, _) := FailSync(p.world.store, p.state, e.message, p.world.clock);
            Lifecycle(p.world.(store := closed), [], None, Err(e))
          else Lifecycle(p.world, [], None, Err(e))
  }

  // ---------------------------------------------------------------------------
  // Properties of the lifecycle

  /** As written, a full run that succeeds is completed with nothing counted
      and no last id; a handled failure is always an `Exception`; and once
      the mode resolves, the first event announces the newly opened run. */
  lemma FullSyncOutcome(cls: ModelClass, table: seq<Record>, option: Option<string>, w: World)
    ensures var l := FullSync(cls, table, option, w);
            && (l.result.Ok? ==>
                  && l.result.value.status == Completed
                  && l.result.value.totalProcessed == 0 && l.result.value.lastProcessedId.None?)
            && (l.handling.Some? ==> l.result.Err? && l.result.error.Exception?)
            && (DetermineSyncMode(cls, option).Ok? ==> |l.events| > 0 && l.events[0] == Started(|w.store.states| + 1))
  {
  }

  /** With the corrected `process`, a full run that succeeds is completed and
      announces exactly its start and its finish; once the mode resolves, the
      failure is handed to `handleError` exactly when it is an `Exception`. */
  lemma FullSyncIntendedOutcome(rt: Runtime, cls: ModelClass, table: seq<Record>, option: Option<string>, w: World)
    requires BatchSize(cls) >= 1
    ensures var l := FullSyncIntended(rt, cls, table, option, w);
            && (l.result.Ok? ==>
                  && l.result.value.status == Completed
                  && l.events == [Started(l.result.value.id), Finished(l.result.value.id)])
            && (l.handling.Some? ==> l.result.Err? && l.result.error.Exception?)
            && (DetermineSyncMode(cls, option).Ok? ==>
                  (l.handling.Some? <==> l.result.Err? && l.result.error.Exception?))
  {
    if DetermineSyncMode(cls, option).Ok? {
      var (store, s) := InitializeSync(w.store, cls.name, "full", DetermineSyncMode(cls, option).value, w.clock);
      ProcessIntendedFrame(rt, cls, table, w.(store := store), s);
    }
  }

  /** A full run is opened even for a class that exists but is neither a model
      nor synchronisable: `fullSync` does not validate. */
  lemma FullSyncSkipsValidation(cls: ModelClass, table: seq<Record>, w: World)
    requires cls.classExists && ValidateModel(cls).Some?
    ensures var l := FullSync(cls, table, None, w);
            && |l.world.store.states| == |w.store.states| + 1
            && |l.events| > 0 && l.events[0] == Started(|w.store.states| + 1)
  {
  }

  /** As written, a full run that finds any eligible record ends in a PHP
      `Error`: no retry is considered, and the run stays open. */
  lemma FullSyncCrashLeavesRunOpen(cls: ModelClass, table: seq<Record>, option: Option<string>, w: World)
    requires cls.classExists && w.client.remote.failure.None? && WellFormed(w.store)
    requires DetermineSyncMode(cls, option).Ok? && |table| > 0 && BatchSize(cls) != 0
    requires !SelfMatchingEntry(w.store.entries, cls.name, EnsureHeaders(w.client, w.clock, cls).clock)
    ensures var l := FullSync(cls, table, option, w);
            var id := |w.store.states| + 1;
            && l.result == Err(MapOnArray) && l.handling.None?
            && |l.world.store.states| == id && l.world.store.states[id - 1].status == Running
  {
    var hs := EnsureHeaders(w.client, w.clock, cls);
    var mode := DetermineSyncMode(cls, option).value;
    var (store, s) := InitializeSync(w.store, cls.name, "full", mode, w.clock);
    assert s.lastProcessedId.None? && store.entries == w.store.entries;
    assert table[0] in EligibleAsWritten(table, w.store.entries, cls.name, None, hs.clock);
    var p := Process(cls, table, w.(store := store), s);
    assert p.failure == Some(MapOnArray);
    assert p.world.store == store;
    assert store.states[s.id - 1] == s;
  }

  /** With a batch size of 0, `chunk()` never calls back, so the `map()` call
      is never reached and the full run completes with nothing processed. */
  lemma ZeroBatchSizeCompletes(cls: ModelClass, table: seq<Record>, option: Option<string>, w: World)
    requires cls.classExists && w.client.remote.failure.None? && WellFormed(w.store)
    requires DetermineSyncMode(cls, option).Ok? && BatchSize(cls) == 0
    ensures var l := FullSync(cls, table, option, w);
            && l.result.Ok? && l.result.value.status == Completed
            && l.result.value.totalProcessed == 0 && l.result.value.lastProcessedId.None?
            && l.handling.None?
  {
  }

  /** A full run never writes a failed row: each step of the corrected loop
      rewrites only the run's own row, which stays running, so the number of
      recent failures is what it was. */
  lemma {:induction false} RunChunksKeepsRetries(rt: Runtime, cls: ModelClass, width: nat, p: Progress,
                                                 chunks: seq<seq<Record>>, c: string, now: int)
    requires p.failure.None? && p.state.status == Running
    requires forall k :: 0 <= k < |chunks| ==> |chunks[k]| > 0
    requires Persisted(p.world.store, p.state) ==> !RecentFailure(p.world.store.states[p.state.id - 1], c, now)
    ensures CurrentRetries(RunChunks(rt, cls, width, p, chunks).world.store.states, c, now)
            == CurrentRetries(p.world.store.states, c, now)
    decreases |chunks|
  {
    if |chunks| > 0 {
      var p1 := ProcessChunk(rt, cls, width, p, chunks[0]);
      ChunkKeepsRetries(rt, cls, width, p, chunks[0], c, now);
      var q := RunChunks(rt, cls, width, p1, chunks[1..]);
      assert RunChunks(rt, cls, width, p, chunks) == q;
      if p1.failure.None? {
        RunChunksKeepsRetries(rt, cls, width, p1, chunks[1..], c, now);
      } else {
        assert q == p1;
      }
    }
  }

  /** One step of the chunk loop keeps the count, and keeps the run's own row
      running. */
  lemma ChunkKeepsRetries(rt: Runtime, cls: ModelClass, width: nat, p: Progress, records: seq<Record>,
                          c: string, now: int)
    requires p.failure.None? && |records| > 0 && p.state.status == Running
    requires Persisted(p.world.store, p.state) ==> !RecentFailure(p.world.store.states[p.state.id - 1], c, now)
    ensures var q := ProcessChunk(rt, cls, width, p, records);
            && CurrentRetries(q.world.store.states, c, now) == CurrentRetries(p.world.store.states, c, now)
            && q.state.status == Running
            && (Persisted(q.world.store, q.state) ==> !RecentFailure(q.world.store.states[q.state.id - 1], c, now))
  {
    var q := ProcessChunk(rt, cls, width, p, records);
    if q.world.store.states != p.world.store.states {
      SaveRunningKeepsRetries(p.world.store, q.state, c, now);
    }
  }

  /** Writing back a running state over a row that was not a recent failure
      keeps the count. */
  lemma SaveRunningKeepsRetries(store: Store, s: SyncState, c: string, now: int)
    requires s.status == Running
    requires Persisted(store, s) ==> !RecentFailure(store.states[s.id - 1], c, now)
    ensures CurrentRetries(Save(store, s).states, c, now) == CurrentRetries(store.states, c, now)
  {
    if Persisted(store, s) {
      assert Save(store, s).states == store.states[s.id - 1 := s];
      CountUpdate(store.states, s.id - 1, s, c, now);
    } else {
      assert Save(store, s) == store;
    }
  }

  /** The corrected `process` leaves the number of recent failures alone. */
  lemma ProcessIntendedKeepsRetries(rt: Runtime, cls: ModelClass, table: seq<Record>, w: World, s: SyncState,
                                    now: int)
    requires BatchSize(cls) >= 1 && s.status == Running
    requires Persisted(w.store, s) ==> !RecentFailure(w.store.states[s.id - 1], cls.name, now)
    ensures CurrentRetries(ProcessIntended(rt, cls, table, w, s).world.store.states, cls.name, now)
            == CurrentRetries(w.store.states, cls.name, now)
  {
    if cls.classExists {
      var hs := EnsureHeaders(w.client, w.clock, cls);
      var w1 := w.(client := hs.client, clock := hs.clock);
      if hs.result.Ok? {
        var eligible := Eligible(table, w.store.entries, cls.name, s.lastProcessedId, w1.clock);
        RunChunksKeepsRetries(rt, cls, |cls.sampleRow|, Progress(w1, s, 0, None, None),
                              Chunk(eligible, BatchSize(cls)), cls.name, now);
      }
    }
  }

  /** A failed full run hands its `Exception` to the retry logic but is never
      marked failed, so it is not among the failures the retry budget counts:
      the count after the run equals the count before it. */
  lemma FullSyncFailureNotCounted(rt: Runtime, cls: ModelClass, table: seq<Record>, option: Option<string>, w: World,
                                  now: int)
    requires BatchSize(cls) >= 1 && WellFormed(w.store)
    requires FullSyncIntended(rt, cls, table, option, w).result.Err?
    ensures var l := FullSyncIntended(rt, cls, table, option, w);
            && CurrentRetries(l.world.store.states, cls.name, now) == CurrentRetries(w.store.states, cls.name, now)
            && (l.result.error.Exception? <==> l.handling.Some?)
  {
    var mode := DetermineSyncMode(cls, option);
    if mode.Ok? {
      var (store, s) := InitializeSync(w.store, cls.name, "full", mode.value, w.clock);
      assert store.states[..|store.states| - 1] == w.store.states;
      assert store.states[s.id - 1] == s;
      ProcessIntendedKeepsRetries(rt, cls, table, w.(store := store), s, now);
    }
  }

  /** A successful corrected full run stores a completed run whose counters
      cover exactly the eligible records. */
  lemma FullSyncIntendedCompletes(rt: Runtime, cls: ModelClass, table: seq<Record>, option: Option<string>, w: World)
    requires BatchSize(cls) >= 1 && cls.classExists && w.client.remote.failure.None? && WellFormed(w.store)
    requires FullSyncIntended(rt, cls, table, option, w).result.Ok?
    ensures var l := FullSyncIntended(rt, cls, table, option, w);
            var s := InitializeSync(w.store, cls.name, "full", DetermineSyncMode(cls, option).value, w.clock).1;
            var hs := EnsureHeaders(w.client, w.clock, cls);
            var eligible := Eligible(table, w.store.entries, cls.name, None, hs.clock);
            && l.result.value.status == Completed
            && l.result.value.totalProcessed == |eligible|
            && l.events == [Started(s.id), Finished(s.id)]
  {
    var mode := DetermineSyncMode(cls, option).value;
    var (store, s) := InitializeSync(w.store, cls.name, "full", mode, w.clock);
    var w0 := w.(store := store);
    var p := ProcessIntended(rt, cls, table, w0, s);
    assert p.failure.None?;
    ProcessIntendedTotals(rt, cls, table, w0, s);
    var hs := EnsureHeaders(w.client, w.clock, cls);
    var w1 := w0.(client := hs.client, clock := hs.clock);
    var eligible := Eligible(table, w.store.entries, cls.name, None, hs.clock);
    RunChunksCounts(rt, cls, |cls.sampleRow|, Progress(w1, s, 0, None, None), Chunk(eligible, BatchSize(cls)));
  }

  /** `partialSync` rejects an invalid class before any run is stored. */
  lemma PartialSyncValidatesFirst(rt: Runtime, cls: ModelClass, table: seq<Record>, ids: seq<int>,
                                  option: Option<string>, w: World)
    requires !cls.classExists || !cls.isModel || !cls.isSyncable
    ensures var l := PartialSync(rt, cls, table, ids, option, w);
            l.world == w && l.result.Err? && l.result.error.Exception? && l.result.error.eclass == SyncException
  {
  }

  /** The job the retry logic queues carries no ids, and a partial run of no
      ids fails in `max()`: a PHP `Error`, which leaves the new run open
      instead of marking it failed. */
  lemma RetryWithoutIdsLeavesRunOpen(rt: Runtime, cls: ModelClass, table: seq<Record>, w: World)
    requires cls.classExists && cls.isModel && cls.isSyncable && BatchSize(cls) >= 1 && WellFormed(w.store)
    ensures var l := PartialSync(rt, cls, table, [], None, w);
            var id := |w.store.states| + 1;
            && l.result == Err(MaxOfEmpty)
            && |l.world.store.states| == id && l.world.store.states[id - 1].status == Running
  {
    var mode := DetermineSyncMode(cls, None).value;
    var (store, s) := InitializeSync(w.store, cls.name, "partial", mode, w.clock);
    PartialWithoutIdsFails(rt, cls, table, w.(store := store), s);
  }

  /** A partial run whose batches succeed is completed with the counters
      `processPartial` reports, and the row returned is the run as stored,
      reloaded after completion. */
  lemma PartialSyncCompletes(rt: Runtime, cls: ModelClass, table: seq<Record>, ids: seq<int>,
                             option: Option<string>, w: World)
    requires WellFormed(w.store) && ValidateModel(cls).None?
    ensures var id := |w.store.states| + 1;
            var (store, s) := InitializeSync(w.store, cls.name, "partial", DetermineSyncMode(cls, option).value, w.clock);
            var p := ProcessPartial(rt, cls, table, ids, w.(store := store), s);
            var l := PartialSync(rt, cls, table, ids, option, w);
            p.failure.None? ==>
              && l.result.Ok?
              && |l.world.store.states| == id
              && l.result.value == l.world.store.states[id - 1]
              && l.result.value.id == id
              && l.result.value.status == Completed
              && l.result.value.completedAt == Some(p.world.clock)
              && l.result.value.totalProcessed == p.total
              && l.result.value.lastProcessedId == p.last
  {
  }

  /** A partial run that fails with an `Exception` is stored as failed with
      that exception's message. */
  lemma PartialSyncFailureMarksFailed(rt: Runtime, cls: ModelClass, table: seq<Record>, ids: seq<int>,
                                      option: Option<string>, w: World)
    requires WellFormed(w.store) && ValidateModel(cls).None?
    ensures var l := PartialSync(rt, cls, table, ids, option, w);
            var id := |w.store.states| + 1;
            l.result.Err? && l.result.error.Exception? ==>
              && |l.world.store.states| == id
              && l.world.store.states[id - 1].status == Failed
              && l.world.store.states[id - 1].errorMessage == Some(l.result.error.message)
  {
  }
}
