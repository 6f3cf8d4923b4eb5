/** The sheet adapter. The remote spreadsheet service is abstract state: each
    sheet is a list of rows of cell texts, and `failure` stands for the
    service rejecting calls. Every public operation first passes the rate
    limiter, then either applies its effect and records one timestamp, or
    fails, records nothing, and raises a `GoogleSheetsException` wrapping the
    service's error. */
module GoogleClient {
  import opened Wrappers
  import opened Php
  import opened Models
  import opened RateLimiter
  import opened ColumnNames
  import opened DataTransformer

  /** A sheet's contents, row by row. */
  type Sheet = seq<seq<string>>

  /** The remote service: every sheet's contents (an address never written is
      empty), and the error message every call fails with while it is down. */
  datatype Remote = Remote(sheets: map<SheetAddress, Sheet>, failure: Option<string>)

  function SheetAt(remote: Remote, addr: SheetAddress): Sheet {
    if addr in remote.sheets then remote.sheets[addr] else []
  }

  /** The adapter's state: the remote it talks to and its rate-limit window. */
  datatype Client = Client(remote: Remote, window: seq<int>)

  /** What a call leaves behind: the client, the clock after any sleep, and
      the value returned or the exception raised. */
  datatype Outcome<T> = Outcome(client: Client, clock: int, result: Result<T, Throwable>)

  /** The shape shared by every public operation: `checkRateLimit`, then the
      remote effect and `updateRateLimit`, or the rethrow as a
      `GoogleSheetsException` whose message starts with `prefix`. */
  function Perform<T>(c: Client, clock: int, addr: SheetAddress, prefix: string, effect: Sheet -> (Sheet, T))
    : (o: Outcome<T>)
    ensures o.clock == clock + CheckRateLimit(c.window, clock).sleep
    ensures o.result.Ok? <==> c.remote.failure.None?
    ensures o.client.remote.failure == c.remote.failure
    ensures o.result.Ok? ==>
              && o.client.window == Retain(c.window, clock) + [o.clock]
              && SheetAt(o.client.remote, addr) == effect(SheetAt(c.remote, addr)).0
              && (forall a :: a != addr ==> SheetAt(o.client.remote, a) == SheetAt(c.remote, a))
              && o.result.value == effect(SheetAt(c.remote, addr)).1
    ensures o.result.Err? ==>
              && o.client == Client(c.remote, Retain(c.window, clock))
              && o.result.error == Exception(GoogleSheetsException, prefix + c.remote.failure.value, c.remote.failure)
  {
    var admission := CheckRateLimit(c.window, clock);
    var now := clock + admission.sleep;
    match c.remote.failure
    case Some(message) =>
      Outcome(Client(c.remote, admission.window), now,
              Err(Exception(GoogleSheetsException, prefix + message, Some(message))))
    case None =>
      var (sheet, value) := effect(SheetAt(c.remote, addr));
      var remote := c.remote.(sheets := c.remote.sheets[addr := sheet]);
      Outcome(Client(remote, admission.window + [now]), now, Ok(value))
  }

  // ---------------------------------------------------------------------------
  // Header derivation

  /** The keys PHP gives a transformed row's column names. */
  function RowKeys(row: Cells): (ks: seq<Key>)
    ensures |ks| == |row|
    ensures forall k :: 0 <= k < |row| ==> ks[k] == NormalizeKey(row[k].0)
  {
    seq(|row|, k requires 0 <= k < |row| => NormalizeKey(row[k].0))
  }

  /** `isSequentialArray`: the keys are exactly `range(0, count - 1)`. */
  predicate IsSequential(keys: seq<Key>) {
    var expected := PhpRange(0, |keys| - 1);
    |keys| == |expected| && forall k :: 0 <= k < |keys| ==> keys[k] == IntKey(expected[k])
  }

  /** A list is sequential exactly when it is non-empty with keys 0, 1, …:
      `range(0, -1)` is `[0, -1]`, so an empty array is not sequential. */
  lemma SequentialIff(keys: seq<Key>)
    ensures IsSequential(keys) <==> |keys| > 0 && forall k :: 0 <= k < |keys| ==> keys[k] == IntKey(k)
  {
    if |keys| == 0 {
      assert |PhpRange(0, -1)| == 2;
    }
  }

  /** The name of column `i`, or the empty string for a negative `i` (the
      loop body never runs). */
  function ColumnNameInt(i: int): string {
    if i < 0 then "" else ColumnName(i)
  }

  /** The spreadsheet-letter fallback over `range(0, count - 1)`. */
  function FallbackNames(count: int): seq<string> {
    var r := PhpRange(0, count - 1);
    seq(|r|, k requires 0 <= k < |r| => ColumnNameInt(r[k]))
  }

  /** `generateHeaders`: the model's `defaultSheetHeaders()` when it has them;
      else the column names of an associative first row; else spreadsheet
      letters, one per cell of the first row, or `A`..`Z` without data. */
  function GenerateHeaders(defaultHeaders: Option<seq<string>>, data: seq<Cells>): (h: seq<string>)
    ensures defaultHeaders.Some? ==> h == defaultHeaders.value
    ensures defaultHeaders.None? && |data| > 0 && !IsSequential(RowKeys(data[0])) ==> h == Keys(data[0])
    ensures defaultHeaders.None? && |data| == 0 ==> h == ColumnNames.ColumnNames(26)
    ensures defaultHeaders.None? && |data| > 0 && IsSequential(RowKeys(data[0])) ==> h == ColumnNames.ColumnNames(|data[0]|)
  {
    if defaultHeaders.Some? then defaultHeaders.value
    else if |data| > 0 && !IsSequential(RowKeys(data[0])) then
      var keys := RowKeys(data[0]);
      seq(|keys|, k requires 0 <= k < |keys| => KeyText(keys[k]))
    else
      var count := if |data| == 0 then 26 else |data[0]|;
      SequentialIff(if |data| == 0 then [] else RowKeys(data[0]));
      FallbackNames(count)
  }

  // ---------------------------------------------------------------------------
  // Operations

  /** The Sheets `update` of one row: the given cells overwrite the row from
      its first column on, and cells past the last given one keep their old
      text. */
  function Overwrite(row: seq<string>, cells: seq<string>): (r: seq<string>)
    ensures |r| == if |row| <= |cells| then |cells| else |row|
    ensures forall k :: 0 <= k < |cells| ==> r[k] == cells[k]
    ensures forall k :: |cells| <= k < |row| ==> r[k] == row[k]
  {
    if |row| <= |cells| then cells else cells + row[|cells|..]
  }

  /** `update([$headers])`: the header cells overwrite the first row, which a
      longer old header outlives in its trailing cells. */
  function UpdateFirstRow(sheet: Sheet, headers: seq<string>): (s: Sheet)
    ensures |s| == if |sheet| == 0 then 1 else |sheet|
    ensures |sheet| == 0 ==> s[0] == headers
    ensures |sheet| > 0 ==> s[0] == Overwrite(sheet[0], headers)
    ensures forall k :: 1 <= k < |sheet| ==> s[k] == sheet[k]
  {
    if |sheet| == 0 then [headers] else [Overwrite(sheet[0], headers)] + sheet[1..]
  }

  /** The header row a write leaves is the written headers exactly when the
      old first row was no longer than them; otherwise the headers are a
      proper prefix of it. */
  lemma UpdateFirstRowReadBack(sheet: Sheet, headers: seq<string>)
    ensures var h := UpdateFirstRow(sheet, headers)[0];
            && headers <= h
            && (h == headers <==> |sheet| == 0 || |sheet[0]| <= |headers|)
  {
    var h := UpdateFirstRow(sheet, headers)[0];
    if |sheet| > 0 {
      assert h[..|headers|] == headers;
      if |sheet[0]| > |headers| {
        assert |h| > |headers|;
      }
    }
  }

  /** The cell texts of transformed rows, each row in column order. */
  function RowsTexts(rows: seq<Cells>): (texts: Sheet)
    ensures |texts| == |rows|
    ensures forall k :: 0 <= k < |rows| ==> texts[k] == Values(rows[k])
  {
    seq(|rows|, k requires 0 <= k < |rows| => Values(rows[k]))
  }

  /** The texts of two lists of rows are the texts of each, one after the
      other. */
  lemma RowsTextsAppend(a: seq<Cells>, b: seq<Cells>)
    ensures RowsTexts(a + b) == RowsTexts(a) + RowsTexts(b)
  {
    assert forall k :: 0 <= k < |b| ==> (a + b)[|a| + k] == b[k];
  }

  /** `readSheet`: every row of the sheet, unchanged. */
  function ReadSheet(c: Client, clock: int, addr: SheetAddress): Outcome<Sheet> {
    Perform(c, clock, addr, "Failed to read from Google Sheets: ", (s: Sheet) => (s, s))
  }

  /** `getHeaders`: the first row, or no headers for an empty sheet. */
  function GetHeaders(c: Client, clock: int, addr: SheetAddress): Outcome<seq<string>> {
    Perform(c, clock, addr, "Failed to get headers: ",
            (s: Sheet) => (s, if |s| > 0 then s[0] else []))
  }

  /** `setHeaders`: writes the header row. */
  function SetHeaders(c: Client, clock: int, addr: SheetAddress, headers: seq<string>): Outcome<()> {
    Perform(c, clock, addr, "Failed to set headers: ", (s: Sheet) => (UpdateFirstRow(s, headers), ()))
  }

  /** `appendWithHeaders`: appends the rows below the existing ones. */
  function AppendWithHeaders(c: Client, clock: int, addr: SheetAddress, rows: Sheet): Outcome<()>
  {
    Perform(c, clock, addr, "Failed to write to Google Sheets: ", (s: Sheet) => (s + rows, ()))
  }

  /** `clearSheet`: empties the sheet. */
  function ClearSheet(c: Client, clock: int, addr: SheetAddress): Outcome<()> {
    Perform(c, clock, addr, "Failed to clear sheet: ", (s: Sheet) => ([], ()))
  }

  /** `writeBatch`: on an empty sheet writes generated headers first, then
      appends the rows. */
  function WriteBatch(c: Client, clock: int, addr: SheetAddress, rows: seq<Cells>,
                      defaultHeaders: Option<seq<string>>): Outcome<()> {
    Perform(c, clock, addr, "Failed to write to Google Sheets: ",
            (s: Sheet) => ((if |s| == 0 then [GenerateHeaders(defaultHeaders, rows)] else s) + RowsTexts(rows), ()))
  }

  // ---------------------------------------------------------------------------
  // Properties of the operations

  /** What every public operation promises about the call itself: it succeeds
      exactly while the service is up; a success records the call in the
      rate-limit window and ends at the recorded time; a failure leaves the
      remote alone and raises a `GoogleSheetsException` whose message is
      `prefix` followed by the service's error, with that error as cause. */
  predicate CallRecorded<T>(c: Client, clock: int, prefix: string, o: Outcome<T>) {
    && (o.result.Ok? <==> c.remote.failure.None?)
    && (o.result.Ok? ==>
          && o.client.window == RateLimiter.Record(c.window, clock)
          && o.clock == o.client.window[|o.client.window| - 1])
    && (o.result.Err? ==>
          && c.remote.failure.Some?
          && o.client.remote == c.remote
          && o.result.error == Exception(GoogleSheetsException, prefix + c.remote.failure.value, c.remote.failure))
  }

  /** `readSheet` returns the addressed sheet's rows and changes no sheet. */
  lemma ReadSheetReturnsRows(c: Client, clock: int, addr: SheetAddress)
    ensures var o := ReadSheet(c, clock, addr);
            && CallRecorded(c, clock, "Failed to read from Google Sheets: ", o)
            && (o.result.Ok? ==> o.result.value == SheetAt(c.remote, addr))
            && forall a :: SheetAt(o.client.remote, a) == SheetAt(c.remote, a)
  {
  }

  /** `getHeaders` returns the first row, or no headers for an empty sheet,
      and changes no sheet. */
  lemma GetHeadersOutcome(c: Client, clock: int, addr: SheetAddress)
    ensures var o := GetHeaders(c, clock, addr);
            var s := SheetAt(c.remote, addr);
            && CallRecorded(c, clock, "Failed to get headers: ", o)
            && (o.result.Ok? ==> o.result.value == if |s| > 0 then s[0] else [])
            && forall a :: SheetAt(o.client.remote, a) == SheetAt(c.remote, a)
  {
  }

  /** `setHeaders` makes the headers the start of the first row (creating the
      row on an empty sheet), keeps every later row, and touches no other
      sheet. */
  lemma SetHeadersWritesPrefix(c: Client, clock: int, addr: SheetAddress, headers: seq<string>)
    ensures var o := SetHeaders(c, clock, addr, headers);
            var before := SheetAt(c.remote, addr);
            var after := SheetAt(o.client.remote, addr);
            && CallRecorded(c, clock, "Failed to set headers: ", o)
            && (o.result.Ok? ==>
                  && |after| == (if |before| == 0 then 1 else |before|)
                  && headers <= after[0]
                  && (forall k :: 1 <= k < |before| ==> after[k] == before[k])
                  && forall a :: a != addr ==> SheetAt(o.client.remote, a) == SheetAt(c.remote, a))
  {
    UpdateFirstRowReadBack(SheetAt(c.remote, addr), headers);
  }

  /** `clearSheet` empties the addressed sheet and no other. */
  lemma ClearSheetEmpties(c: Client, clock: int, addr: SheetAddress)
    ensures var o := ClearSheet(c, clock, addr);
            && CallRecorded(c, clock, "Failed to clear sheet: ", o)
            && (o.result.Ok? ==>
                  && SheetAt(o.client.remote, addr) == []
                  && forall a :: a != addr ==> SheetAt(o.client.remote, a) == SheetAt(c.remote, a))
  {
  }

  /** `writeBatch` adds one row per given row below the existing ones, each
      the row's cell texts, after a generated header row when the sheet was
      empty; it touches no other sheet. */
  lemma WriteBatchAppends(c: Client, clock: int, addr: SheetAddress, rows: seq<Cells>,
                          defaultHeaders: Option<seq<string>>)
    ensures var o := WriteBatch(c, clock, addr, rows, defaultHeaders);
            var before := SheetAt(c.remote, addr);
            var after := SheetAt(o.client.remote, addr);
            var top := if |before| == 0 then 1 else |before|;
            && CallRecorded(c, clock, "Failed to write to Google Sheets: ", o)
            && (o.result.Ok? ==>
                  && |after| == top + |rows|
                  && (|before| > 0 ==> before <= after)
                  && (|before| == 0 ==> after[0] == GenerateHeaders(defaultHeaders, rows))
                  && (forall k :: 0 <= k < |rows| ==> after[top + k] == Values(rows[k]))
                  && forall a :: a != addr ==> SheetAt(o.client.remote, a) == SheetAt(c.remote, a))
  {
  }

  /** `getHeaders` returns the first row, or nothing for an empty sheet, and
      changes no sheet. */
  lemma GetHeadersReturnsFirstRow(c: Client, clock: int, addr: SheetAddress)
    requires c.remote.failure.None?
    ensures var o := GetHeaders(c, clock, addr);
            var s := SheetAt(c.remote, addr);
            && o.result == Ok(if |s| > 0 then s[0] else [])
            && forall a :: SheetAt(o.client.remote, a) == SheetAt(c.remote, a)
  {
  }

  /** Headers that were set are read back next, followed by whatever cells
      of a longer old header row the write did not reach; they read back
      unchanged exactly when the old header row was no longer. */
  lemma SetThenGetHeaders(c: Client, clock: int, addr: SheetAddress, headers: seq<string>)
    requires c.remote.failure.None?
    ensures var written := SetHeaders(c, clock, addr, headers);
            var s := SheetAt(c.remote, addr);
            var get := GetHeaders(written.client, written.clock, addr);
            && get.result.Ok?
            && headers <= get.result.value
            && (get.result.value == headers <==> |s| == 0 || |s[0]| <= |headers|)
            && (|s| > 0 ==> get.result.value == Overwrite(s[0], headers))
  {
    UpdateFirstRowReadBack(SheetAt(c.remote, addr), headers);
  }

  /** After clearing, reading returns an empty sheet. */
  lemma ClearThenRead(c: Client, clock: int, addr: SheetAddress)
    requires c.remote.failure.None?
    ensures var cleared := ClearSheet(c, clock, addr);
            ReadSheet(cleared.client, cleared.clock, addr).result == Ok([])
  {
  }

  /** `writeBatch` writes a header row exactly when the sheet was empty: the
      sheet becomes the headers and the rows, or the old rows and the rows. */
  lemma WriteBatchHeadersOnlyWhenEmpty(c: Client, clock: int, addr: SheetAddress, rows: seq<Cells>,
                                       defaultHeaders: Option<seq<string>>)
    requires c.remote.failure.None?
    ensures var o := WriteBatch(c, clock, addr, rows, defaultHeaders);
            var s := SheetAt(c.remote, addr);
            && (|s| == 0 ==> SheetAt(o.client.remote, addr) == [GenerateHeaders(defaultHeaders, rows)] + RowsTexts(rows))
            && (|s| > 0 ==> SheetAt(o.client.remote, addr) == s + RowsTexts(rows))
            && |SheetAt(o.client.remote, addr)| == |s| + |rows| + (if |s| == 0 then 1 else 0)
  {
  }

  /** `appendWithHeaders` adds the rows below the existing ones and touches
      no other sheet; a failure leaves the remote alone and wraps the
      service's error. Either way the rate-limit window is kept, and a
      success records the call. */
  lemma AppendBelowExisting(c: Client, clock: int, addr: SheetAddress, rows: Sheet)
    ensures var o := AppendWithHeaders(c, clock, addr, rows);
            var before := SheetAt(c.remote, addr);
            var after := SheetAt(o.client.remote, addr);
            && CallRecorded(c, clock, "Failed to write to Google Sheets: ", o)
            && (o.result.Ok? ==>
                  && before <= after && after[|before|..] == rows
                  && forall a :: a != addr ==> SheetAt(o.client.remote, a) == SheetAt(c.remote, a))
  {
  }

  /** A failing call changes no sheet, records no timestamp, and raises a
      `GoogleSheetsException` whose cause is the service's error. */
  lemma FailedCallRecordsNothing(c: Client, clock: int, addr: SheetAddress, rows: Sheet)
    requires c.remote.failure.Some?
    ensures var o := AppendWithHeaders(c, clock, addr, rows);
            && o.client.remote == c.remote
            && |o.client.window| <= |c.window|
            && o.result.Err? && o.result.error.Exception?
            && o.result.error.eclass == GoogleSheetsException
            && o.result.error.cause == c.remote.failure
  {
  }
}
