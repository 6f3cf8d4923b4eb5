/** Batch orchestration: which records a full run picks up, how they are cut
    into chunks and pushed to the sheet, and how each chunk is logged. The
    database table is a fixed snapshot of records in ascending id order. */
module BatchProcessor {
  import opened Wrappers
  import opened Php
  import opened Models
  import opened DataTransformer
  import opened GoogleClient
  import opened StateManager

  /** `defaults.batch_size` as configured. */
  const DefaultBatchSize: int := 100

  /** Entries younger than seven days exclude their record from a full run. */
  const RecentSeconds: int := 604800

  /** The batch size: `getBatchSize()` unless it returns null. */
  function BatchSize(cls: ModelClass): int {
    cls.batchSize.GetOr(DefaultBatchSize)
  }

  // ---------------------------------------------------------------------------
  // Chunking

  /** The concatenation of the chunks. */
  function Flatten<T>(chunks: seq<seq<T>>): seq<T>
    decreases |chunks|
  {
    if |chunks| == 0 then [] else chunks[0] + Flatten(chunks[1..])
  }

  /** Consecutive pieces of `size` elements, the last possibly shorter. */
  function Chunk<T>(xs: seq<T>, size: int): (cs: seq<seq<T>>)
    requires size >= 1
    ensures Flatten(cs) == xs
    ensures forall k :: 0 <= k < |cs| ==> 1 <= |cs[k]| <= size
    ensures forall k :: 0 <= k < |cs| - 1 ==> |cs[k]| == size
    ensures |xs| > 0 ==> |cs| > 0 && cs[0] == xs[..if |xs| <= size then |xs| else size]
    decreases |xs|
  {
    if |xs| == 0 then []
    else if |xs| <= size then
      assert Flatten([xs]) == xs + Flatten<T>([]);
      [xs]
    else
      var rest := Chunk(xs[size..], size);
      var cs := [xs[..size]] + rest;
      assert cs[1..] == rest;
      assert xs[..size] + xs[size..] == xs;
      cs
  }

  /** `array_chunk`: a length below 1 is a `ValueError`. */
  function ArrayChunk<T>(xs: seq<T>, size: int): (r: Result<seq<seq<T>>, Throwable>)
    ensures r.Err? <==> size < 1
    ensures r.Err? ==> r.error.Error? && r.error.rclass == ValueError
    ensures r.Ok? ==> Flatten(r.value) == xs && forall k :: 0 <= k < |r.value| ==> 1 <= |r.value[k]| <= size
  {
    if size < 1 then Err(Error(ValueError, ChunkLengthBelowOne))
    else Ok(Chunk(xs, size))
  }

  /** Every element of a chunk comes from the chunked list. */
  lemma {:induction false} ChunkMembers<T>(xs: seq<T>, size: int, k: nat, x: T)
    requires size >= 1 && k < |Chunk(xs, size)| && x in Chunk(xs, size)[k]
    ensures x in xs
    ensures k > 0 ==> |xs| > size && x in xs[size..]
    decreases |xs|
  {
    if |xs| > size && k > 0 {
      assert Chunk(xs, size)[k] == Chunk(xs[size..], size)[k - 1];
      ChunkMembers(xs[size..], size, k - 1, x);
    }
  }

  // ---------------------------------------------------------------------------
  // Query results

  /** A query's result over the snapshot: the rows satisfying `p`, in order. */
  function Select(table: seq<Record>, p: Record -> bool): (r: seq<Record>)
    ensures |r| <= |table|
    ensures forall x :: x in r <==> x in table && p(x)
    decreases |table|
  {
    if |table| == 0 then []
    else
      var rest := Select(table[1..], p);
      assert forall x :: x in table <==> x == table[0] || x in table[1..];
      if p(table[0]) then [table[0]] + rest else rest
  }

  /** A query over a table in id order returns its rows in id order. */
  lemma {:induction false} SelectKeepsOrder(table: seq<Record>, p: Record -> bool)
    requires WellFormedTable(table)
    ensures WellFormedTable(Select(table, p))
    decreases |table|
  {
    if |table| > 0 {
      var rest := Select(table[1..], p);
      SelectKeepsOrder(table[1..], p);
      if p(table[0]) {
        forall k | 0 <= k < |rest|
          ensures table[0].id < rest[k].id
        {
          assert rest[k] in table[1..];
          var j :| 0 <= j < |table[1..]| && table[1..][j] == rest[k];
          assert table[j + 1] == rest[k];
        }
      }
    }
  }

  /** The resume filter, applied only when the last processed id is truthy. */
  predicate AfterResumePoint(id: int, last: Option<int>) {
    last.None? || last.value == 0 || id > last.value
  }

  /** An entry of the class synced within the seven days before `now`. */
  predicate RecentEntry(e: SyncEntry, modelClass: string, now: int) {
    e.modelClass == modelClass && e.syncedAt > now - RecentSeconds
  }

  /** The recency exclusion the query is meant to express: a recent entry of
      the class logs this record. */
  predicate RecentlySynced(entries: seq<SyncEntry>, modelClass: string, id: int, now: int) {
    exists k :: 0 <= k < |entries| && RecentEntry(entries[k], modelClass, now) && entries[k].recordId == id
  }

  /** The exclusion the subquery states: its unqualified `id` resolves to the
      `id` column of `sync_entries` itself (the entry at position `k` has id
      `k + 1`), so it asks for a recent entry whose record id equals its own
      id, whatever record is being tested. */
  predicate SelfMatchingEntry(entries: seq<SyncEntry>, modelClass: string, now: int) {
    exists k :: 0 <= k < |entries| && RecentEntry(entries[k], modelClass, now) && entries[k].recordId == k + 1
  }

  /** `buildFullSyncQuery` as written: the resume filter, and either every
      record or none, depending on whether any entry matches itself. */
  function EligibleAsWritten(table: seq<Record>, entries: seq<SyncEntry>, modelClass: string,
                             last: Option<int>, now: int): (r: seq<Record>)
    ensures SelfMatchingEntry(entries, modelClass, now) ==> r == []
    ensures !SelfMatchingEntry(entries, modelClass, now) ==>
              forall x :: x in r <==> x in table && AfterResumePoint(x.id, last)
  {
    if SelfMatchingEntry(entries, modelClass, now) then []
    else Select(table, (x: Record) => AfterResumePoint(x.id, last))
  }

  /** The eligibility the query is meant to express: past the resume point
      and not logged for the class in the last seven days, ascending by id. */
  function Eligible(table: seq<Record>, entries: seq<SyncEntry>, modelClass: string,
                    last: Option<int>, now: int): (r: seq<Record>)
    ensures forall x :: x in r <==>
              x in table && AfterResumePoint(x.id, last) && !RecentlySynced(entries, modelClass, x.id, now)
  {
    Select(table, (x: Record) => AfterResumePoint(x.id, last) && !RecentlySynced(entries, modelClass, x.id, now))
  }

  /** The subquery as written does not exclude a record synced yesterday when
      no entry happens to match its own id, and it excludes every record once
      one does. */
  lemma EligibilityDiscrepancy(r: Record, cls: string, now: int)
    requires r.id == 5
    ensures var logged := [SyncEntry(1, cls, 7, now, "full", true), SyncEntry(1, cls, 5, now, "full", true)];
            && EligibleAsWritten([r], logged, cls, None, now) == [r]
            && Eligible([r], logged, cls, None, now) == []
    ensures var logged := [SyncEntry(1, cls, 1, now, "full", true)];
            && EligibleAsWritten([r], logged, cls, None, now) == []
            && Eligible([r], logged, cls, None, now) == [r]
  {
    var logged := [SyncEntry(1, cls, 7, now, "full", true), SyncEntry(1, cls, 5, now, "full", true)];
    assert RecentlySynced(logged, cls, 5, now) by { assert logged[1].recordId == 5; }
    var single := [SyncEntry(1, cls, 1, now, "full", true)];
    assert SelfMatchingEntry(single, cls, now) by { assert single[0].recordId == 0 + 1; }
    var rs := Eligible([r], single, cls, None, now);
    assert r in rs;
    assert |rs| <= 1;
  }

  // ---------------------------------------------------------------------------
  // Headers

  /** The keys of a fresh instance's `toSheetRow()`, as PHP stores them. */
  function SampleKeys(cls: ModelClass): (ks: seq<Key>)
    ensures |ks| == |cls.sampleRow|
    ensures forall k :: 0 <= k < |ks| ==> KeyText(ks[k]) == cls.sampleRow[k].0
  {
    seq(|cls.sampleRow|, k requires 0 <= k < |cls.sampleRow| => NormalizeKey(cls.sampleRow[k].0))
  }

  /** `$currentHeaders !== $expectedHeaders` for a header row read back as
      strings: identical means the same length and every expected key a
      string key equal to the cell. */
  predicate HeadersIdentical(current: seq<string>, expected: seq<Key>) {
    |current| == |expected| && forall k :: 0 <= k < |current| ==> expected[k] == StrKey(current[k])
  }

  /** Whether `ensureHeaders` rewrites the header row. */
  predicate NeedsHeaders(current: seq<string>, expected: seq<Key>) {
    |current| == 0 || !HeadersIdentical(current, expected)
  }

  /** `ensureHeaders`: reads the header row and writes the sample row's keys
      over it exactly when it is empty or not identical to them; either way
      the sample row's keys are what it returns. */
  function EnsureHeaders(c: Client, clock: int, cls: ModelClass): (o: Outcome<seq<Key>>)
    ensures o.result.Ok? ==> o.result.value == SampleKeys(cls)
    ensures o.result.Ok? <==> c.remote.failure.None?
    ensures var get := GetHeaders(c, clock, cls.sheet);
            && (get.result.Err? ==> o == Outcome(get.client, get.clock, Err(get.result.error)))
            && (get.result.Ok? && !NeedsHeaders(get.result.value, SampleKeys(cls)) ==>
                  o == Outcome(get.client, get.clock, Ok(SampleKeys(cls))))
            && (get.result.Ok? && NeedsHeaders(get.result.value, SampleKeys(cls)) ==>
                  var put := SetHeaders(get.client, get.clock, cls.sheet, Keys(cls.sampleRow));
                  o.client == put.client && o.clock == put.clock)
  {
    var get := GetHeaders(c, clock, cls.sheet);
    if get.result.Err? then Outcome(get.client, get.clock, Err(get.result.error))
    else
      var expected := SampleKeys(cls);
      if NeedsHeaders(get.result.value, expected) then
        // The service answered the read, so it answers the write too.
        var put := SetHeaders(get.client, get.clock, cls.sheet, Keys(cls.sampleRow));
        Outcome(put.client, put.clock, Ok(expected))
      else Outcome(get.client, get.clock, Ok(expected))
  }

  /** After header set-up the header row reads back as the sample row's
      column names, followed by the cells of a longer old header row that the
      write did not reach; it is exactly those names when the old header row
      was no longer. */
  lemma EnsureHeadersThenGet(c: Client, clock: int, cls: ModelClass)
    requires c.remote.failure.None?
    ensures var o := EnsureHeaders(c, clock, cls);
            var s := SheetAt(c.remote, cls.sheet);
            var get := GetHeaders(o.client, o.clock, cls.sheet);
            && get.result.Ok?
            && Keys(cls.sampleRow) <= get.result.value
            && (get.result.value == Keys(cls.sampleRow) <==> |s| == 0 || |s[0]| <= |cls.sampleRow|)
  {
    var get := GetHeaders(c, clock, cls.sheet);
    var current := get.result.value;
    var expected := SampleKeys(cls);
    if !NeedsHeaders(current, expected) {
      assert forall k :: 0 <= k < |current| ==> current[k] == KeyText(expected[k]);
      assert current == Keys(cls.sampleRow);
    } else {
      SetThenGetHeaders(get.client, get.clock, cls.sheet, Keys(cls.sampleRow));
    }
  }

  /** A header row longer than the sample row's names outlives set-up in its
      trailing cells, so every later run finds it differing again and
      rewrites it. */
  lemma LongerHeaderRewrittenEveryRun(c: Client, clock: int, cls: ModelClass)
    requires c.remote.failure.None?
    requires |SheetAt(c.remote, cls.sheet)| > 0 && |SheetAt(c.remote, cls.sheet)[0]| > |cls.sampleRow|
    ensures NeedsHeaders(SheetAt(c.remote, cls.sheet)[0], SampleKeys(cls))
    ensures var o := EnsureHeaders(c, clock, cls);
            var get := GetHeaders(o.client, o.clock, cls.sheet);
            get.result.Ok? && NeedsHeaders(get.result.value, SampleKeys(cls))
  {
    EnsureHeadersThenGet(c, clock, cls);
  }

  /** A column name that is the decimal form of an integer becomes an integer
      key, which never equals a cell read back as a string: such headers are
      rewritten on every run. */
  lemma NumericHeaderAlwaysRewritten(current: seq<string>, cls: ModelClass, k: nat, i: int)
    requires k < |cls.sampleRow| && cls.sampleRow[k].0 == IntToString(i)
    ensures NeedsHeaders(current, SampleKeys(cls))
  {
    NormalizeIntString(i);
    assert SampleKeys(cls)[k] == IntKey(i);
  }

  // ---------------------------------------------------------------------------
  // Full run

  /** The state a run acts on: the adapter, the clock and the database. */
  datatype World = World(client: Client, clock: int, store: Store)

  /** A run's progress: the world, the state object as updated so far, the
      running counters, and what stopped the run, if anything. */
  datatype Progress = Progress(world: World, state: SyncState, total: int, last: Option<int>,
                               failure: Option<Throwable>)

  /** The error `->map()` on the array `transformBatch` returns raises. */
  const MapOnArray: Throwable := Error(GenericError, MethodOnArray("map"))

  /** `new $modelClass` for a class that does not exist. */
  function ClassNotFound(cls: ModelClass): Throwable {
    Error(GenericError, UndefinedClass(cls.name))
  }

  /** `process` as written: after setting up headers, the first chunk with
      records fails calling `->map()` on a plain array, before anything is
      written or logged. A run with no eligible record completes with nothing
      processed, and so does a batch size of 0, for which `chunk()` never
      calls back. */
  function Process(cls: ModelClass, table: seq<Record>, w: World, s: SyncState): (p: Progress)
    ensures p.state == s && p.world.store == w.store && p.total == 0 && p.last.None?
    ensures p.failure.None? <==>
              && cls.classExists && w.client.remote.failure.None?
              && (BatchSize(cls) == 0 ||
                  EligibleAsWritten(table, w.store.entries, cls.name, s.lastProcessedId, p.world.clock) == [])
    ensures cls.classExists && w.client.remote.failure.None? && BatchSize(cls) != 0 &&
            EligibleAsWritten(table, w.store.entries, cls.name, s.lastProcessedId, p.world.clock) != [] ==>
              p.failure == Some(MapOnArray)
  {
    if !cls.classExists then Progress(w, s, 0, None, Some(ClassNotFound(cls)))
    else
      var hs := EnsureHeaders(w.client, w.clock, cls);
      var w1 := w.(client := hs.client, clock := hs.clock);
      if hs.result.Err? then Progress(w1, s, 0, None, Some(hs.result.error))
      else if BatchSize(cls) == 0 then Progress(w1, s, 0, None, None)
      else if EligibleAsWritten(table, w.store.entries, cls.name, s.lastProcessedId, w1.clock) == [] then
        Progress(w1, s, 0, None, None)
      else Progress(w1, s, 0, None, Some(MapOnArray))
  }

  // ---------------------------------------------------------------------------
  // Full run, corrected

  /** The error `array_combine` raises when a row's width differs from the
      header's. */
  const CombineMismatch: Throwable :=
    Error(ValueError, CombineCountMismatch)

  /** Every record's sheet row has one value per header. */
  predicate Combinable(records: seq<Record>, width: nat) {
    forall k :: 0 <= k < |records| ==> |records[k].sheetRow| == width
  }

  /** One chunk of the corrected loop: pair each row with the headers, append
      the rows, log the chunk's ids, and advance the counters. */
  function ProcessChunk(rt: Runtime, cls: ModelClass, width: nat, p: Progress, records: seq<Record>): (q: Progress)
    requires p.failure.None? && |records| > 0
    ensures q.state.id == p.state.id && q.state.modelClass == p.state.modelClass
    ensures q.state.syncType == p.state.syncType && q.state.status == p.state.status
    ensures q.world.store.states == p.world.store.states || q.world.store.states == Save(p.world.store, q.state).states
    ensures !Combinable(records, width) ==> q == p.(failure := Some(CombineMismatch))
    ensures p.world.store.entries <= q.world.store.entries
    ensures q.failure.None? <==> Combinable(records, width) && p.world.client.remote.failure.None?
    ensures q.failure.None? ==>
              && q.total == p.total + |records| && q.last == Some(records[|records| - 1].id)
              && q.state.totalProcessed == p.state.totalProcessed + |records|
              && q.world.store.entries == p.world.store.entries + EntriesFor(p.state, Ids(records), q.world.clock)
              && SheetAt(q.world.client.remote, cls.sheet)
                 == SheetAt(p.world.client.remote, cls.sheet) + RowsTexts(TransformBatch(rt, records))
    ensures q.world.client.remote.failure == p.world.client.remote.failure
  {
    if !Combinable(records, width) then p.(failure := Some(CombineMismatch))
    else
      var rows := TransformBatch(rt, records);
      var o := AppendWithHeaders(p.world.client, p.world.clock, cls.sheet, RowsTexts(rows));
      var w := p.world.(client := o.client, clock := o.clock);
      if o.result.Err? then p.(world := w, failure := Some(o.result.error))
      else
        var logged := RecordBatchSync(w.store, p.state, Ids(records), w.clock).value;
        Progress(w.(store := logged.0), logged.1, p.total + |records|, Some(records[|records| - 1].id), None)
  }

  /** The chunk loop; a failure ends it with the effects made so far. */
  function RunChunks(rt: Runtime, cls: ModelClass, width: nat, p: Progress, chunks: seq<seq<Record>>): (q: Progress)
    requires forall k :: 0 <= k < |chunks| ==> |chunks[k]| > 0
    ensures p.world.store.entries <= q.world.store.entries
    ensures q.world.client.remote.failure == p.world.client.remote.failure
    decreases |chunks|
  {
    if |chunks| == 0 || p.failure.Some? then p
    else RunChunks(rt, cls, width, ProcessChunk(rt, cls, width, p, chunks[0]), chunks[1..])
  }

  /** `process` with the chunk rows collected before `->map()` is called and
      the recency exclusion matching each record's own id. */
  function ProcessIntended(rt: Runtime, cls: ModelClass, table: seq<Record>, w: World, s: SyncState): (p: Progress)
    requires BatchSize(cls) >= 1
  {
    if !cls.classExists then Progress(w, s, 0, None, Some(ClassNotFound(cls)))
    else
      var hs := EnsureHeaders(w.client, w.clock, cls);
      var w1 := w.(client := hs.client, clock := hs.clock);
      if hs.result.Err? then Progress(w1, s, 0, None, Some(hs.result.error))
      else
        var eligible := Eligible(table, w.store.entries, cls.name, s.lastProcessedId, w1.clock);
        RunChunks(rt, cls, |cls.sampleRow|, Progress(w1, s, 0, None, None), Chunk(eligible, BatchSize(cls)))
  }

  /** The chunk loop stays on its run and stops at the first failure: a
      failure it starts with is returned untouched, and getting through any
      chunk means the service was up. */
  lemma {:induction false} RunChunksKeepsRun(rt: Runtime, cls: ModelClass, width: nat, p: Progress,
                                             chunks: seq<seq<Record>>)
    requires forall k :: 0 <= k < |chunks| ==> |chunks[k]| > 0
    ensures var q := RunChunks(rt, cls, width, p, chunks);
            && q.state.id == p.state.id
            && (p.failure.Some? ==> q == p)
            && (|chunks| > 0 && q.failure.None? ==> p.world.client.remote.failure.None?)
    decreases |chunks|
  {
    if |chunks| > 0 && p.failure.None? {
      var p1 := ProcessChunk(rt, cls, width, p, chunks[0]);
      RunChunksKeepsRun(rt, cls, width, p1, chunks[1..]);
    }
  }

  /** The corrected `process` stays on its run and only adds to the log; a
      missing class fails with its class-not-found error, and a service that
      is down always fails the run. */
  lemma ProcessIntendedFrame(rt: Runtime, cls: ModelClass, table: seq<Record>, w: World, s: SyncState)
    requires BatchSize(cls) >= 1
    ensures var p := ProcessIntended(rt, cls, table, w, s);
            && p.state.id == s.id
            && w.store.entries <= p.world.store.entries
            && (!cls.classExists ==> p.failure == Some(ClassNotFound(cls)))
            && (w.client.remote.failure.Some? ==> p.failure.Some?)
  {
    if cls.classExists {
      var hs := EnsureHeaders(w.client, w.clock, cls);
      if hs.result.Ok? {
        var w1 := w.(client := hs.client, clock := hs.clock);
        var eligible := Eligible(table, w.store.entries, cls.name, s.lastProcessedId, w1.clock);
        RunChunksKeepsRun(rt, cls, |cls.sampleRow|, Progress(w1, s, 0, None, None), Chunk(eligible, BatchSize(cls)));
      }
    }
  }

  /** The ids the log gained, in order. */
  function LoggedIds(entries: seq<SyncEntry>): (ids: seq<int>)
    ensures |ids| == |entries|
    ensures forall k :: 0 <= k < |entries| ==> ids[k] == entries[k].recordId
  {
    seq(|entries|, k requires 0 <= k < |entries| => entries[k].recordId)
  }

  /** Once the loop ends without failure, the counters cover every chunked
      record: the total grew by their number, the last id is the final
      record's, and the state's own total grew alike. */
  lemma {:induction false} RunChunksCounts(rt: Runtime, cls: ModelClass, width: nat, p: Progress, chunks: seq<seq<Record>>)
    requires p.failure.None?
    requires forall k :: 0 <= k < |chunks| ==> |chunks[k]| > 0
    ensures var q := RunChunks(rt, cls, width, p, chunks);
            var all := Flatten(chunks);
            q.failure.None? ==>
              && q.total == p.total + |all|
              && q.state.totalProcessed == p.state.totalProcessed + |all|
              && q.last == (if |all| == 0 then p.last else Some(all[|all| - 1].id))
              && q.state.id == p.state.id
  {
    RunChunksTotals(rt, cls, width, p, chunks);
    RunChunksLast(rt, cls, width, p, chunks);
    FlattenLast(chunks);
  }

  lemma {:induction false} RunChunksTotals(rt: Runtime, cls: ModelClass, width: nat, p: Progress, chunks: seq<seq<Record>>)
    requires p.failure.None?
    requires forall k :: 0 <= k < |chunks| ==> |chunks[k]| > 0
    ensures var q := RunChunks(rt, cls, width, p, chunks);
            q.failure.None? ==>
              && q.total == p.total + |Flatten(chunks)|
              && q.state.totalProcessed == p.state.totalProcessed + |Flatten(chunks)|
              && q.state.id == p.state.id
    decreases |chunks|
  {
    if |chunks| > 0 {
      var p1 := ProcessChunk(rt, cls, width, p, chunks[0]);
      assert RunChunks(rt, cls, width, p, chunks) == RunChunks(rt, cls, width, p1, chunks[1..]);
      if p1.failure.None? {
        RunChunksTotals(rt, cls, width, p1, chunks[1..]);
      }
    }
  }

  lemma {:induction false} RunChunksLast(rt: Runtime, cls: ModelClass, width: nat, p: Progress, chunks: seq<seq<Record>>)
    requires p.failure.None?
    requires forall k :: 0 <= k < |chunks| ==> |chunks[k]| > 0
    ensures var q := RunChunks(rt, cls, width, p, chunks);
            q.failure.None? ==>
              q.last == (if |chunks| == 0 then p.last else Some(LastOf(chunks[|chunks| - 1]).id))
    decreases |chunks|
  {
    if |chunks| > 0 {
      var p1 := ProcessChunk(rt, cls, width, p, chunks[0]);
      if p1.failure.None? {
        RunChunksLast(rt, cls, width, p1, chunks[1..]);
        var q := RunChunks(rt, cls, width, p1, chunks[1..]);
        assert RunChunks(rt, cls, width, p, chunks) == q;
        if q.failure.None? {
          LastStep(p1.last, q.last, chunks);
        }
      }
    }
  }

  /** The index algebra of one step of `RunChunksLast`. */
  lemma LastStep(l1: Option<int>, l2: Option<int>, chunks: seq<seq<Record>>)
    requires |chunks| > 0
    requires forall k :: 0 <= k < |chunks| ==> |chunks[k]| > 0
    requires l1 == Some(LastOf(chunks[0]).id)
    requires l2 == (if |chunks[1..]| == 0 then l1 else Some(LastOf(chunks[1..][|chunks[1..]| - 1]).id))
    ensures l2 == Some(LastOf(chunks[|chunks| - 1]).id)
  {
    if |chunks| > 1 {
      assert chunks[1..][|chunks| - 2] == chunks[|chunks| - 1];
    }
  }

  function LastOf<T>(xs: seq<T>): T
    requires |xs| > 0
  {
    xs[|xs| - 1]
  }

  /** The last element of the concatenation is the last of the last chunk. */
  lemma {:induction false} FlattenLast<T>(chunks: seq<seq<T>>)
    requires forall k :: 0 <= k < |chunks| ==> |chunks[k]| > 0
    ensures |Flatten(chunks)| == 0 <==> |chunks| == 0
    ensures |chunks| > 0 ==> LastOf(Flatten(chunks)) == LastOf(chunks[|chunks| - 1])
    decreases |chunks|
  {
    if |chunks| > 0 {
      FlattenLast(chunks[1..]);
      LastOfConcat(chunks[0], Flatten(chunks[1..]));
      if |chunks| > 1 {
        assert chunks[1..][|chunks| - 2] == chunks[|chunks| - 1];
      }
    }
  }

  lemma LastOfConcat<T>(a: seq<T>, b: seq<T>)
    requires |a| > 0
    ensures (a + b)[|a + b| - 1] == if |b| == 0 then a[|a| - 1] else b[|b| - 1]
  {
  }

  /** Once the loop ends without failure, the sheet gained every chunked
      record's row, in order. */
  lemma {:induction false} RunChunksAppends(rt: Runtime, cls: ModelClass, width: nat, p: Progress, chunks: seq<seq<Record>>)
    requires p.failure.None?
    requires forall k :: 0 <= k < |chunks| ==> |chunks[k]| > 0
    ensures var q := RunChunks(rt, cls, width, p, chunks);
            q.failure.None? ==>
              SheetAt(q.world.client.remote, cls.sheet)
              == SheetAt(p.world.client.remote, cls.sheet) + RowsTexts(TransformBatch(rt, Flatten(chunks)))
    decreases |chunks|
  {
    if |chunks| > 0 {
      var p1 := ProcessChunk(rt, cls, width, p, chunks[0]);
      if p1.failure.None? {
        RunChunksAppends(rt, cls, width, p1, chunks[1..]);
        var q := RunChunks(rt, cls, width, p1, chunks[1..]);
        assert RunChunks(rt, cls, width, p, chunks) == q;
        if q.failure.None? {
          AppendsStep(rt, SheetAt(p.world.client.remote, cls.sheet), SheetAt(p1.world.client.remote, cls.sheet),
                      SheetAt(q.world.client.remote, cls.sheet), chunks);
        }
      }
    }
  }

  /** The sheet algebra of one step of `RunChunksAppends`. */
  lemma AppendsStep(rt: Runtime, s0: Sheet, s1: Sheet, s2: Sheet, chunks: seq<seq<Record>>)
    requires |chunks| > 0
    requires s1 == s0 + RowsTexts(TransformBatch(rt, chunks[0]))
    requires s2 == s1 + RowsTexts(TransformBatch(rt, Flatten(chunks[1..])))
    ensures s2 == s0 + RowsTexts(TransformBatch(rt, Flatten(chunks)))
  {
    var x1 := RowsTexts(TransformBatch(rt, chunks[0]));
    var x2 := RowsTexts(TransformBatch(rt, Flatten(chunks[1..])));
    assert Flatten(chunks) == chunks[0] + Flatten(chunks[1..]);
    TransformBatchAppend(rt, chunks[0], Flatten(chunks[1..]));
    RowsTextsAppend(TransformBatch(rt, chunks[0]), TransformBatch(rt, Flatten(chunks[1..])));
    ConcatAssoc(s0, x1, x2);
  }

  lemma ConcatAssoc<T>(a: seq<T>, b: seq<T>, c: seq<T>)
    ensures (a + b) + c == a + (b + c)
  {
  }

  /** Once the loop ends without failure, the log gained every chunked
      record's id, in order. */
  lemma {:induction false} RunChunksLogs(rt: Runtime, cls: ModelClass, width: nat, p: Progress, chunks: seq<seq<Record>>)
    requires p.failure.None?
    requires forall k :: 0 <= k < |chunks| ==> |chunks[k]| > 0
    ensures var q := RunChunks(rt, cls, width, p, chunks);
            q.failure.None? ==> LoggedIds(q.world.store.entries[|p.world.store.entries|..]) == Ids(Flatten(chunks))
    decreases |chunks|
  {
    if |chunks| > 0 {
      var p1 := ProcessChunk(rt, cls, width, p, chunks[0]);
      if p1.failure.None? {
        RunChunksLogs(rt, cls, width, p1, chunks[1..]);
        var q := RunChunks(rt, cls, width, p1, chunks[1..]);
        assert RunChunks(rt, cls, width, p, chunks) == q;
        if q.failure.None? {
          LogsStep(p.world.store.entries, p1.world.store.entries, q.world.store.entries,
                   p.state, p1.world.clock, chunks);
        }
      }
    }
  }

  /** The log algebra of one step of `RunChunksLogs`. */
  lemma LogsStep(e0: seq<SyncEntry>, e1: seq<SyncEntry>, e2: seq<SyncEntry>, s: SyncState, now: int,
                 chunks: seq<seq<Record>>)
    requires |chunks| > 0
    requires e1 == e0 + EntriesFor(s, Ids(chunks[0]), now) && e1 <= e2
    requires LoggedIds(e2[|e1|..]) == Ids(Flatten(chunks[1..]))
    ensures LoggedIds(e2[|e0|..]) == Ids(Flatten(chunks))
  {
    var first := EntriesFor(s, Ids(chunks[0]), now);
    PrefixSplit(e0, first, e2);
    LoggedIdsAppend(first, e2[|e1|..]);
    IdsAppend(chunks[0], Flatten(chunks[1..]));
    assert LoggedIds(first) == Ids(chunks[0]);
  }

  /** Every entry names run `id` and records a success. */
  predicate OwnedBy(es: seq<SyncEntry>, id: nat) {
    forall k :: 0 <= k < |es| ==> es[k].syncStateId == id && es[k].succeeded
  }

  lemma OwnedByAppend(a: seq<SyncEntry>, b: seq<SyncEntry>, id: nat)
    requires OwnedBy(a, id) && OwnedBy(b, id)
    ensures OwnedBy(a + b, id)
  {
  }

  /** Every entry the loop logs names the run and records a success. */
  lemma {:induction false} RunChunksLogsOwner(rt: Runtime, cls: ModelClass, width: nat, p: Progress, chunks: seq<seq<Record>>)
    requires p.failure.None?
    requires forall k :: 0 <= k < |chunks| ==> |chunks[k]| > 0
    ensures var q := RunChunks(rt, cls, width, p, chunks);
            OwnedBy(q.world.store.entries[|p.world.store.entries|..], p.state.id)
    decreases |chunks|
  {
    if |chunks| == 0 {
    } else {
      var p1 := ProcessChunk(rt, cls, width, p, chunks[0]);
      if p1.failure.None? {
        RunChunksLogsOwner(rt, cls, width, p1, chunks[1..]);
        var q := RunChunks(rt, cls, width, p1, chunks[1..]);
        assert RunChunks(rt, cls, width, p, chunks) == q;
        OwnerStep(p.world.store.entries, p1.world.store.entries, q.world.store.entries,
                  p.state, p1.world.clock, Ids(chunks[0]));
      }
    }
  }

  /** The log algebra of one step of `RunChunksLogsOwner`. */
  lemma OwnerStep(e0: seq<SyncEntry>, e1: seq<SyncEntry>, e2: seq<SyncEntry>, s: SyncState, now: int,
                  ids: seq<int>)
    requires e1 == e0 + EntriesFor(s, ids, now) && e1 <= e2
    requires OwnedBy(e2[|e1|..], s.id)
    ensures OwnedBy(e2[|e0|..], s.id)
  {
    var first := EntriesFor(s, ids, now);
    PrefixSplit(e0, first, e2);
    OwnedByAppend(first, e2[|e1|..], s.id);
  }

  lemma PrefixSplit<T>(before: seq<T>, first: seq<T>, after: seq<T>)
    requires before + first <= after
    ensures after[|before|..] == first + after[|before + first|..]
  {
    assert after[|before|..] == after[|before|..|before + first|] + after[|before + first|..];
  }

  lemma LoggedIdsAppend(a: seq<SyncEntry>, b: seq<SyncEntry>)
    ensures LoggedIds(a + b) == LoggedIds(a) + LoggedIds(b)
  {
    assert LoggedIds(a + b) == LoggedIds(a) + LoggedIds(b);
  }

  lemma IdsAppend(a: seq<Record>, b: seq<Record>)
    ensures Ids(a + b) == Ids(a) + Ids(b)
  {
    assert Ids(a + b) == Ids(a) + Ids(b);
  }

  lemma CombinableSplit(a: seq<Record>, b: seq<Record>, width: nat)
    requires Combinable(a + b, width)
    ensures Combinable(a, width) && Combinable(b, width)
  {
    assert forall k :: 0 <= k < |a| ==> a[k] == (a + b)[k];
    assert forall k :: 0 <= k < |b| ==> b[k] == (a + b)[|a| + k];
  }

  /** The loop fails only on a too-narrow or too-wide row or an outage. */
  lemma {:induction false} RunChunksSucceeds(rt: Runtime, cls: ModelClass, width: nat, p: Progress, chunks: seq<seq<Record>>)
    requires p.failure.None? && p.world.client.remote.failure.None?
    requires forall k :: 0 <= k < |chunks| ==> |chunks[k]| > 0
    requires Combinable(Flatten(chunks), width)
    ensures RunChunks(rt, cls, width, p, chunks).failure.None?
    decreases |chunks|
  {
    if |chunks| > 0 {
      assert Flatten(chunks) == chunks[0] + Flatten(chunks[1..]);
      CombinableSplit(chunks[0], Flatten(chunks[1..]), width);
      RunChunksSucceeds(rt, cls, width, ProcessChunk(rt, cls, width, p, chunks[0]), chunks[1..]);
    }
  }

  /** The corrected `process` returns the number of eligible records and the
      last one's id, or 0 and null when none is eligible. */
  lemma ProcessIntendedTotals(rt: Runtime, cls: ModelClass, table: seq<Record>, w: World, s: SyncState)
    requires BatchSize(cls) >= 1 && cls.classExists && w.client.remote.failure.None?
    ensures var hs := EnsureHeaders(w.client, w.clock, cls);
            var eligible := Eligible(table, w.store.entries, cls.name, s.lastProcessedId, hs.clock);
            var p := ProcessIntended(rt, cls, table, w, s);
            p.failure.None? ==>
              && p.total == |eligible|
              && p.last == (if |eligible| == 0 then None else Some(eligible[|eligible| - 1].id))
              && p.state.totalProcessed == s.totalProcessed + |eligible|
  {
    var hs := EnsureHeaders(w.client, w.clock, cls);
    var w1 := w.(client := hs.client, clock := hs.clock);
    var eligible := Eligible(table, w.store.entries, cls.name, s.lastProcessedId, w1.clock);
    var chunks := Chunk(eligible, BatchSize(cls));
    assert ProcessIntended(rt, cls, table, w, s) == RunChunks(rt, cls, |cls.sampleRow|, Progress(w1, s, 0, None, None), chunks);
    RunChunksCounts(rt, cls, |cls.sampleRow|, Progress(w1, s, 0, None, None), chunks);
  }

  /** The corrected `process` appends the eligible records' rows below the
      headers in id order, and logs each of them once, in order, under the
      run. */
  lemma ProcessIntendedWrites(rt: Runtime, cls: ModelClass, table: seq<Record>, w: World, s: SyncState)
    requires BatchSize(cls) >= 1 && cls.classExists && w.client.remote.failure.None?
    ensures var hs := EnsureHeaders(w.client, w.clock, cls);
            var eligible := Eligible(table, w.store.entries, cls.name, s.lastProcessedId, hs.clock);
            var p := ProcessIntended(rt, cls, table, w, s);
            var added := p.world.store.entries[|w.store.entries|..];
            p.failure.None? ==>
              && SheetAt(p.world.client.remote, cls.sheet)
                 == SheetAt(hs.client.remote, cls.sheet) + RowsTexts(TransformBatch(rt, eligible))
              && LoggedIds(added) == Ids(eligible)
              && OwnedBy(added, s.id)
  {
    var hs := EnsureHeaders(w.client, w.clock, cls);
    var w1 := w.(client := hs.client, clock := hs.clock);
    var eligible := Eligible(table, w.store.entries, cls.name, s.lastProcessedId, w1.clock);
    var p0 := Progress(w1, s, 0, None, None);
    var chunks := Chunk(eligible, BatchSize(cls));
    RunChunksAppends(rt, cls, |cls.sampleRow|, p0, chunks);
    RunChunksLogs(rt, cls, |cls.sampleRow|, p0, chunks);
    RunChunksLogsOwner(rt, cls, |cls.sampleRow|, p0, chunks);
  }

  /** With the service up and every record's row as wide as the sample row,
      the corrected `process` cannot fail. */
  lemma ProcessIntendedSucceeds(rt: Runtime, cls: ModelClass, table: seq<Record>, w: World, s: SyncState)
    requires BatchSize(cls) >= 1 && cls.classExists && w.client.remote.failure.None?
    requires Combinable(table, |cls.sampleRow|)
    ensures ProcessIntended(rt, cls, table, w, s).failure.None?
  {
    var hs := EnsureHeaders(w.client, w.clock, cls);
    var w1 := w.(client := hs.client, clock := hs.clock);
    var eligible := Eligible(table, w.store.entries, cls.name, s.lastProcessedId, w1.clock);
    assert Combinable(eligible, |cls.sampleRow|) by {
      forall k | 0 <= k < |eligible| ensures |eligible[k].sheetRow| == |cls.sampleRow| {
        assert eligible[k] in table;
      }
    }
    RunChunksSucceeds(rt, cls, |cls.sampleRow|, Progress(w1, s, 0, None, None), Chunk(eligible, BatchSize(cls)));
  }

  /** Where the code as written fails, the corrected run succeeds and syncs
      every eligible record. */
  lemma ProcessCrashesWhereIntendedSyncs(rt: Runtime, cls: ModelClass, table: seq<Record>, w: World, s: SyncState)
    requires BatchSize(cls) >= 1 && cls.classExists && w.client.remote.failure.None?
    requires Combinable(table, |cls.sampleRow|)
    requires !SelfMatchingEntry(w.store.entries, cls.name, EnsureHeaders(w.client, w.clock, cls).clock)
    requires exists x :: x in table && AfterResumePoint(x.id, s.lastProcessedId)
                         && !RecentlySynced(w.store.entries, cls.name, x.id, EnsureHeaders(w.client, w.clock, cls).clock)
    ensures Process(cls, table, w, s).failure == Some(MapOnArray)
    ensures var p := ProcessIntended(rt, cls, table, w, s);
            p.failure.None? && p.total > 0
  {
    var hs := EnsureHeaders(w.client, w.clock, cls);
    var x :| x in table && AfterResumePoint(x.id, s.lastProcessedId)
             && !RecentlySynced(w.store.entries, cls.name, x.id, hs.clock);
    assert x in EligibleAsWritten(table, w.store.entries, cls.name, s.lastProcessedId, hs.clock);
    assert x in Eligible(table, w.store.entries, cls.name, s.lastProcessedId, hs.clock);
    ProcessIntendedSucceeds(rt, cls, table, w, s);
    ProcessIntendedTotals(rt, cls, table, w, s);
  }

  // ---------------------------------------------------------------------------
  // Partial run

  /** The error `max()` raises on an empty list. */
  const MaxOfEmpty: Throwable := Error(ValueError, MaxOfEmptyArray)

  /** Whether `id` is in every batch. */
  predicate InAll(id: int, batches: seq<seq<int>>) {
    forall k :: 0 <= k < |batches| ==> id in batches[k]
  }

  /** What `whereIn('id', $batchIds)->get()` returns: the builder is reused,
      so it still carries the requested ids and every earlier batch. */
  function Found(table: seq<Record>, ids: seq<int>, batches: seq<seq<int>>): (r: seq<Record>)
    ensures forall x :: x in r <==> x in table && x.id in ids && InAll(x.id, batches)
  {
    Select(table, (x: Record) => x.id in ids && InAll(x.id, batches))
  }

  /** One batch of `processPartial`: `batches` are the batches so far, the
      last being the current one. A batch that finds nothing is skipped;
      otherwise its rows are written and the whole batch of ids is logged,
      while only the records found are counted. */
  function PartialChunk(rt: Runtime, cls: ModelClass, table: seq<Record>, ids: seq<int>, p: Progress,
                        batches: seq<seq<int>>): (q: Progress)
    requires p.failure.None? && |batches| > 0 && |batches[|batches| - 1]| > 0
    ensures q.state.id == p.state.id && q.last == p.last
    ensures p.world.store.entries <= q.world.store.entries
    ensures |q.world.store.states| == |p.world.store.states|
    ensures Found(table, ids, batches) == [] ==> q == p
    ensures q.failure.None? && Found(table, ids, batches) != [] ==>
              && q.total == p.total + |Found(table, ids, batches)|
              && LoggedIds(q.world.store.entries[|p.world.store.entries|..]) == batches[|batches| - 1]
  {
    var records := Found(table, ids, batches);
    if |records| == 0 then p
    else
      var o := WriteBatch(p.world.client, p.world.clock, cls.sheet, TransformBatch(rt, records), None);
      var w := p.world.(client := o.client, clock := o.clock);
      if o.result.Err? then p.(world := w, failure := Some(o.result.error))
      else
        var batch := batches[|batches| - 1];
        var logged := RecordBatchSync(w.store, p.state, batch, w.clock).value;
        assert logged.0.entries[|w.store.entries|..] == EntriesFor(p.state, batch, w.clock);
        Progress(w.(store := logged.0), logged.1, p.total + |records|, p.last, None)
  }

  /** The batch loop from batch `done` on. */
  function RunPartial(rt: Runtime, cls: ModelClass, table: seq<Record>, ids: seq<int>, p: Progress,
                      chunks: seq<seq<int>>, done: nat): (q: Progress)
    requires done <= |chunks|
    requires forall k :: 0 <= k < |chunks| ==> |chunks[k]| > 0
    ensures p.world.store.entries <= q.world.store.entries
    ensures |q.world.store.states| == |p.world.store.states| && q.state.id == p.state.id
    ensures q.last == p.last
    decreases |chunks| - done
  {
    if done == |chunks| || p.failure.Some? then p
    else RunPartial(rt, cls, table, ids, PartialChunk(rt, cls, table, ids, p, chunks[..done + 1]), chunks, done + 1)
  }

  /** A failure the batch loop starts with is returned untouched. */
  lemma RunPartialStopsOnFailure(rt: Runtime, cls: ModelClass, table: seq<Record>, ids: seq<int>,
                                 p: Progress, chunks: seq<seq<int>>, done: nat)
    requires done <= |chunks|
    requires forall k :: 0 <= k < |chunks| ==> |chunks[k]| > 0
    ensures p.failure.Some? ==> RunPartial(rt, cls, table, ids, p, chunks, done) == p
  {
  }

  /** `processPartial`: cut the ids into batches, process each, and report
      the count of records found and the largest requested id. A batch size
      below 1 fails in `array_chunk`, and an empty id list fails in `max()`,
      both before anything is written or logged. */
  function ProcessPartial(rt: Runtime, cls: ModelClass, table: seq<Record>, ids: seq<int>, w: World, s: SyncState)
    : (p: Progress)
    ensures cls.classExists && BatchSize(cls) < 1 ==> p == Progress(w, s, 0, None, Some(ArrayChunk(ids, BatchSize(cls)).error))
    ensures cls.classExists && |ids| == 0 ==> p.failure.Some? && p.failure.value.Error? && p.failure.value.rclass == ValueError
    ensures |ids| == 0 ==> p.world == w
    ensures p.failure.None? ==> |ids| > 0 && p.last == Some(Max(ids))
    ensures |p.world.store.states| == |w.store.states| && p.state.id == s.id
  {
    if !cls.classExists then Progress(w, s, 0, None, Some(ClassNotFound(cls)))
    else
      var chunked := ArrayChunk(ids, BatchSize(cls));
      if chunked.Err? then Progress(w, s, 0, None, Some(chunked.error))
      else
        var q := RunPartial(rt, cls, table, ids, Progress(w, s, 0, None, None), chunked.value, 0);
        if q.failure.Some? then q
        else if |ids| == 0 then q.(failure := Some(MaxOfEmpty))
        else q.(last := Some(Max(ids)))
  }

  /** No two requested ids are equal. */
  predicate Distinct(ids: seq<int>) {
    forall i, j :: 0 <= i < j < |ids| ==> ids[i] != ids[j]
  }

  /** With distinct ids, every batch after the first finds nothing: a record
      would have to be both in the first batch and in a later one. */
  lemma LaterBatchesFindNothing(table: seq<Record>, ids: seq<int>, size: int, d: nat)
    requires size >= 1 && Distinct(ids) && 1 <= d < |Chunk(ids, size)|
    ensures Found(table, ids, Chunk(ids, size)[..d + 1]) == []
  {
    var chunks := Chunk(ids, size);
    var r := Found(table, ids, chunks[..d + 1]);
    if |r| > 0 {
      var x := r[0];
      assert InAll(x.id, chunks[..d + 1]);
      assert x.id in chunks[..d + 1][0] && x.id in chunks[..d + 1][d];
      ChunkMembers(ids, size, d, x.id);
    }
  }

  /** With distinct ids, the loop does nothing after the first batch. */
  lemma RunPartialIdle(rt: Runtime, cls: ModelClass, table: seq<Record>, ids: seq<int>,
                       p: Progress, size: int)
    requires size >= 1 && Distinct(ids) && 1 <= |Chunk(ids, size)|
    ensures RunPartial(rt, cls, table, ids, p, Chunk(ids, size), 1) == p
  {
    LaterBatchesIdle(table, ids, size, 1);
    SkipEmptyBatches(rt, cls, table, ids, p, Chunk(ids, size), 1);
  }

  /** Batch `d`, with the builder still carrying every earlier batch, finds
      no record. */
  predicate BatchFindsNothing(table: seq<Record>, ids: seq<int>, chunks: seq<seq<int>>, d: nat)
    requires d < |chunks|
  {
    Found(table, ids, chunks[..d + 1]) == []
  }

  /** Every batch from `d` on finds nothing. */
  predicate IdleFrom(table: seq<Record>, ids: seq<int>, chunks: seq<seq<int>>, d: nat)
    requires d <= |chunks|
    decreases |chunks| - d
  {
    d == |chunks| || (BatchFindsNothing(table, ids, chunks, d) && IdleFrom(table, ids, chunks, d + 1))
  }

  lemma {:induction false} LaterBatchesIdle(table: seq<Record>, ids: seq<int>, size: int, d: nat)
    requires size >= 1 && Distinct(ids) && 1 <= d <= |Chunk(ids, size)|
    ensures IdleFrom(table, ids, Chunk(ids, size), d)
    decreases |Chunk(ids, size)| - d
  {
    if d < |Chunk(ids, size)| {
      LaterBatchesFindNothing(table, ids, size, d);
      LaterBatchesIdle(table, ids, size, d + 1);
    }
  }

  /** A run of batches that find nothing leaves the progress as it was. */
  lemma {:induction false} SkipEmptyBatches(rt: Runtime, cls: ModelClass, table: seq<Record>, ids: seq<int>,
                                            p: Progress, chunks: seq<seq<int>>, done: nat)
    requires done <= |chunks|
    requires forall k :: 0 <= k < |chunks| ==> |chunks[k]| > 0
    requires IdleFrom(table, ids, chunks, done)
    ensures RunPartial(rt, cls, table, ids, p, chunks, done) == p
    decreases |chunks| - done
  {
    if done < |chunks| && p.failure.None? {
      assert BatchFindsNothing(table, ids, chunks, done) && IdleFrom(table, ids, chunks, done + 1);
      SkipEmptyBatch(rt, cls, table, ids, p, chunks, done);
      SkipEmptyBatches(rt, cls, table, ids, p, chunks, done + 1);
    } else if p.failure.Some? {
      RunPartialStopsOnFailure(rt, cls, table, ids, p, chunks, done);
    }
  }

  /** A batch that finds nothing leaves the loop's progress as it was. */
  lemma SkipEmptyBatch(rt: Runtime, cls: ModelClass, table: seq<Record>, ids: seq<int>, p: Progress,
                       chunks: seq<seq<int>>, done: nat)
    requires done < |chunks| && p.failure.None?
    requires forall k :: 0 <= k < |chunks| ==> |chunks[k]| > 0
    requires BatchFindsNothing(table, ids, chunks, done)
    ensures RunPartial(rt, cls, table, ids, p, chunks, done) == RunPartial(rt, cls, table, ids, p, chunks, done + 1)
  {
    assert PartialChunk(rt, cls, table, ids, p, chunks[..done + 1]) == p;
  }

  /** With distinct ids only the first batch can write or log anything: the
      run counts the records found among the first batch's ids, and logs that
      batch's ids (all of them, found or not) or nothing. Ids past the first
      batch are never synced. */
  lemma PartialOnlyFirstBatch(rt: Runtime, cls: ModelClass, table: seq<Record>, ids: seq<int>, w: World, s: SyncState)
    requires cls.classExists && BatchSize(cls) >= 1 && Distinct(ids) && |ids| > 0
    ensures var first := Chunk(ids, BatchSize(cls))[0];
            var found := Found(table, ids, [first]);
            var p := ProcessPartial(rt, cls, table, ids, w, s);
            p.failure.None? ==>
              && p.total == |found|
              && LoggedIds(p.world.store.entries[|w.store.entries|..]) == (if |found| == 0 then [] else first)
  {
    var chunks := Chunk(ids, BatchSize(cls));
    var p0 := Progress(w, s, 0, None, None);
    assert chunks[..1] == [chunks[0]];
    var p1 := PartialChunk(rt, cls, table, ids, p0, chunks[..1]);
    assert RunPartial(rt, cls, table, ids, p0, chunks, 0) == RunPartial(rt, cls, table, ids, p1, chunks, 1);
    RunPartialIdle(rt, cls, table, ids, p1, BatchSize(cls));
    assert w.store.entries[|w.store.entries|..] == [];
  }

  /** An empty id list fails in `max()` with nothing written or logged. */
  lemma PartialWithoutIdsFails(rt: Runtime, cls: ModelClass, table: seq<Record>, w: World, s: SyncState)
    requires cls.classExists && BatchSize(cls) >= 1
    ensures ProcessPartial(rt, cls, table, [], w, s) == Progress(w, s, 0, None, Some(MaxOfEmpty))
  {
    assert Chunk<int>([], BatchSize(cls)) == [];
  }
}
