# syncro-sheet sync engine in Dafny

This project models the decision logic of syncro-sheet, a Laravel package that
copies Eloquent model rows into Google Sheets. Its contracts are proved, not
tested. The remote spreadsheet, the database tables and the clock are plain
values. Every service becomes a pure function from its inputs to its results
and its effects.

- **Row reconciliation** (`SheetRowMapper`). Each record gets an identity
  tuple and a hash of that tuple. The records are then classified against a
  sheet snapshot: an in-place update of the row holding the same hash, or a
  new row. A `_record_hash` column is added when the sheet lacks one.
- **Identifying-field heuristic** (`FuzzyRecordIdentifier`). Each field gets
  a schema score, a name bonus and a value score. Fields are selected by a
  threshold and a cap, topped up to a minimum, and `created_at` is forced in
  for models with timestamps.
- **Sheet adapter** (`GoogleClient`, `ColumnNames`, `RateLimiter`). It covers
  header derivation, the bijective base-26 column letters, and the
  sliding-window rate limiter, whose sleep advances the clock. It also gives
  the effect of each remote call on the addressed sheet (a `seq<seq<string>>`)
  and the `GoogleSheetsException` a failed call is rethrown as.
- **Cell formatting** (`DataTransformer`).
- **Batch orchestration** (`BatchProcessor`). It covers the full-run
  eligibility query, header set-up, the chunk loop of a full run, and the
  batch loop of a partial run.
- **Run bookkeeping** (`StateManager`). A `sync_states` table of runs and an
  append-only `sync_entries` log.
- **Retry decision and back-off** (`ErrorHandler`).
- **Mode resolution and the run lifecycle** (`SyncManager`).
- **Access-token expiry** (`TokenManager`).

PHP's own behaviour is in `Php`:

- truthiness;
- integer keys cast from decimal strings;
- `range(0, -1) == [0, -1]`;
- `max`;
- the split of `Throwable` into `Exception`, which `catch (\Exception)`
  handles, and `Error`, which escapes it.

Library routines whose internals are not modelled are fields of the `Runtime`
datatype: total, deterministic functions about which nothing else is assumed.
These are the JSON test, `json_encode`, Carbon formatting, the creation-date
probe and `hash('xxh3', serialize(...))`.

The configuration is taken as constants:

- batch size 100;
- default mode `append`;
- 100 requests per 60 seconds;
- 3 retries.

## Where the code departs from its evident intent

The model follows the code in each case.

- `process` calls `->map()` on the plain array that `transformBatch` returns
  (`src/Services/BatchProcessor.php:55`). A full run with any eligible record
  and a non-zero batch size therefore ends in a PHP `Error`, which the
  `catch (\Exception)` in `fullSync` does not handle. The run stays `running`
  and no retry is considered.
- The comment at `src/Services/BatchProcessor.php:129` describes a per-record
  recency exclusion. As written it is all or nothing: the unqualified `id`
  inside the subquery at line 134 resolves to `sync_entries.id`.
- `sync_mode` is not in `SyncState::$fillable`
  (`src/Models/SyncState.php:25-34`). Every stored run therefore carries the
  column default `append`, whatever mode was resolved. `process` ignores the
  mode, and `clearSheet` is never called, so replace mode does nothing
  different.
- The contract declares `getSheetIdentifierFields`
  (`src/Contracts/SheetSyncable.php:46`), but the mapper asks the model for
  `getSheetUniqueAttributes` (`src/Services/SheetRowMapper.php:50`).
  `ModelClass.uniqueAttributes` is that probe.
- `MIN_IDENTIFYING_FIELDS` and `MAX_IDENTIFYING_FIELDS` are 2 and 5
  (`src/Services/FuzzyRecordIdentifier.php:29-30`), yet the heuristic selects
  between 0 and 6 fields. It selects fewer than 2 only when the row has fewer
  columns. It selects 6 when `created_at` is appended to a full selection.
- The limiter sleeps until the last retained request, `end($this->rateLimits)`
  (`src/Services/GoogleClient.php:327`), is 60 seconds old, plus one second.
  It then proceeds without looking at the window again.
- A retry job carries the failed ids `fullSync` passes, which are always
  none. A partial run of no ids fails in `max()` with a `ValueError`. That is
  an `Error`, so the retried run is left `running`, not marked failed.
- `partialSync` reuses one query builder for every batch
  (`src/Services/BatchProcessor.php:89-93`), so `whereIn` constraints
  accumulate. With distinct ids, only the first batch can find records.
- `setHeaders` overwrites only the cells it is given. A header row that
  shrank keeps its old trailing cells, so `ensureHeaders` finds it differing
  and rewrites it on every run.
- `isLikelyCreationDate` hands a date to `Str::contains`
  (`src/Services/FuzzyRecordIdentifier.php:302`). A plain `\DateTime` has no
  `__toString`, so the heuristic raises a `TypeError` on a row holding one.
- `isLikelyCreationDate` searches the date's own text for field-name patterns
  such as `created_at` (`src/Services/FuzzyRecordIdentifier.php:291-307`).
  Carbon's default `Y-m-d H:i:s` text contains none of them, so with the
  default string form a date field never gets the 0.8 score.
- The client bootstrap calls `getToken()` on the token manager
  (`src/Services/GoogleClient.php:46` and `:132`), which defines no such
  method. On either path the call raises an `Error`, which no
  `catch (\Exception)` in the engine catches, so every remote operation fails
  there.

## Model

| member | source | states |
|---|---|---|
| Php.IntToStringRoundTrip | src/Services/GoogleClient.php:313 | An integer cast to a string parses back to the same integer, so the key comparisons that depend on the cast lose nothing. |
| Php.NormalizeKey | src/Services/GoogleClient.php:313 | A string key becomes an integer key exactly when it is the canonical decimal form of an integer, and it always prints back as the original string. |
| Php.PhpRange | src/Services/GoogleClient.php:305 | `range(lo, hi)` counts up from lo when lo <= hi, and otherwise counts down from lo to hi; `range(0, -1)` has two elements. |
| Php.Max | src/Services/BatchProcessor.php:117 | `max` of a non-empty list is one of its elements and no element exceeds it. |
| Wrappers.MapAll | src/Services/DataTransformer.php:35-49 | Mapping a throwing function over a list either yields one result per element in order, or the error of the first element that throws. |
| DataTransformer.FormatValue | src/Services/DataTransformer.php:55-74 | An `Illuminate\Support\Carbon` date becomes its `Y-m-d H:i:s` text, before the object case is tried. A boolean becomes `Yes` exactly when true, else `No`. Arrays, other objects and every other date become JSON. Null becomes the empty string. An integer becomes decimal text that parses back to it. Strings and floats keep their text. |
| DataTransformer.TransformRecord | src/Services/DataTransformer.php:43-50 | Every `toSheetRow()` entry keeps its key, in order, and gets its formatted value. |
| DataTransformer.TransformBatch | src/Services/DataTransformer.php:29-38 | One row per record, in record order, so an empty batch gives no rows. |
| DataTransformer.TransformBatchAppend | src/Services/DataTransformer.php:29-38 | Transforming a concatenation of batches gives the concatenation of their transforms, so chunking a table does not change the rows it yields. |
| FuzzyRecordIdentifier.IndexScore | src/Services/FuzzyRecordIdentifier.php:151-162 | A primary index scores 1.0 and only it does. A unique index that is not primary scores 0.9. Every score lies in [0.3, 1.0]. |
| FuzzyRecordIdentifier.AnalyzeSchema | src/Services/FuzzyRecordIdentifier.php:93-146 | Every schema score lies in [0, 1]. Without schema metadata (introspection threw), the score map is empty. |
| FuzzyRecordIdentifier.AnalyzeSchemaMatchesReference | src/Services/FuzzyRecordIdentifier.php:103-145 | A column is scored exactly when an index, a foreign key or a nullable listing mentions it. Its score is the best of its index scores, raised to at least 0.4 for a foreign-key column, then multiplied by 0.8 per nullable listing. |
| FuzzyRecordIdentifier.IndexPassSpec | src/Services/FuzzyRecordIdentifier.php:103-113 | The index pass raises each listed column to the best score of the indexes listing it and leaves every other column alone. |
| FuzzyRecordIdentifier.ForeignKeyPassSpec | src/Services/FuzzyRecordIdentifier.php:120-128 | The foreign-key pass raises exactly the foreign-key columns to at least 0.4. |
| FuzzyRecordIdentifier.NullablePassSpec | src/Services/FuzzyRecordIdentifier.php:135-140 | The nullable pass multiplies a column's score by 0.8 once per nullable listing, and touches no other column. |
| FuzzyRecordIdentifier.IdentifierIgnoresCase | src/Services/FuzzyRecordIdentifier.php:265-286 | The identifier-name test gives the same answer for a name and its lower-case form. |
| FuzzyRecordIdentifier.ForeignKeyNamesAreIdentifiers | src/Services/FuzzyRecordIdentifier.php:265-286 | Every name ending in `_id`, in any letter case, counts as an identifier name. |
| FuzzyRecordIdentifier.IdentifierWordsMatch | src/Services/FuzzyRecordIdentifier.php:265-286 | Every name that is, ignoring case, one of the identifier words is identifier-like, and no name shorter than two characters is. |
| FuzzyRecordIdentifier.ValueScore | src/Services/FuzzyRecordIdentifier.php:192-260 | A plain `\DateTime` raises a `TypeError` in the creation-date probe, and only it does. Null and booleans score 0. A Carbon date scores 0.8 exactly when it is creation-like, else 0.2. A string scores 0 exactly when it looks like JSON or holds an emoji, and 0.6 exactly when otherwise its length is 10 to 150, else 0.2. An integer scores 0.1 exactly in 0..12, else 0.4. A float scores 0.5 exactly with 1 to 3 decimals, else 0.4. An array or object scores 0.3 exactly when it has at most three non-nested members, else 0. Anything else scores 0.1. Every score lies in [0, 0.8]. |
| FuzzyRecordIdentifier.ScoreField | src/Services/FuzzyRecordIdentifier.php:167-187 | A field's score is the sum of its schema score, the 0.3 name bonus and its value score, capped at 1. It is never below either its schema score or its value score. The value's `TypeError` passes through. |
| FuzzyRecordIdentifier.FieldScores | src/Services/FuzzyRecordIdentifier.php:44-53 | Every field of the sample row is scored, in row order. Scoring fails with the `TypeError` exactly when some value is a plain `\DateTime`. |
| FuzzyRecordIdentifier.SortDesc | src/Services/FuzzyRecordIdentifier.php:56 | Sorting by descending score yields a permutation of the scored fields in non-increasing order. Fields with equal scores keep their row order, as PHP 8's stable `arsort` keeps them. |
| FuzzyRecordIdentifier.SortDescKeeps | src/Services/FuzzyRecordIdentifier.php:56 | Sorting keeps exactly the same scored fields and keeps field names unique. |
| FuzzyRecordIdentifier.AtLeastIsPrefix | src/Services/FuzzyRecordIdentifier.php:58-68 | On a sorted list, the fields at or above the threshold form a prefix. A field is in that prefix exactly when its score reaches the threshold. |
| FuzzyRecordIdentifier.SelectionSpec | src/Services/FuzzyRecordIdentifier.php:56-80 | The selection has no duplicates and uses only the row's fields. Every selected field scores at least as high as every unselected one. It holds between min(2, number of fields) and 5 fields. When it holds fewer than 5, every field at or above 0.6 is in it. A field below 0.6 is in it only as top-up, up to 2 fields. |
| FuzzyRecordIdentifier.AnalyzeModel | src/Services/FuzzyRecordIdentifier.php:39-85 | The analysis fails with the `TypeError` exactly when a sample value is a plain `\DateTime`. Otherwise `created_at` is present whenever the model keeps timestamps. It is appended only when the selection lacks it, and otherwise the result is the selection. |
| FuzzyRecordIdentifier.AnalyzeModelSpec | src/Services/FuzzyRecordIdentifier.php:39-88 | The chosen fields have no duplicates and number at most 6. Each is a field of the sample row or `created_at`. Without timestamps the result is the selection. The result depends only on the sample row and the schema metadata, because each call starts from empty scores. |
| SheetRowMapper.ConfiguredIdentity | src/Services/SheetRowMapper.php:43-55 | The configured identity starts with the primary key when it is truthy. It ends with the values of `getSheetUniqueAttributes()` when the model defines that method. Without that method it holds at most the key. |
| SheetRowMapper.IdentityTuple | src/Services/SheetRowMapper.php:43-63 | The configured identity is used whenever it is non-empty. The heuristic fields' values are used only when it is empty. Then hashing fails with `BadMethodCallException` when the model has no `toSheetRow()`, and with the heuristic's `TypeError` when a row value is a plain `\DateTime`. |
| SheetRowMapper.FuzzyIdentityBounded | src/Services/SheetRowMapper.php:57-63 | A heuristic identity has at most 6 values and includes `created_at` when the model keeps timestamps. |
| SheetRowMapper.RecordHash | src/Services/SheetRowMapper.php:40-67 | The hash is the digest of the identity tuple, so records with equal tuples get equal hashes. It fails exactly when the tuple cannot be built, with the same error. |
| SheetRowMapper.AlignRow | src/Services/SheetRowMapper.php:178-194 | An aligned row has one value per header other than the hash column. The value for each data header is the record's value for that header, or null when the record has none. It sits after one cell per data header before it, so without a hash column cell k belongs to header k. |
| SheetRowMapper.SetCell | src/Services/SheetRowMapper.php:107 | Writing the hash at the hash-column index sets that cell and keeps every other cell. It appends the cell when the index is one past the end. |
| SheetRowMapper.Hashes | src/Services/SheetRowMapper.php:104-105 | Records are hashed in order. The first record whose hash throws aborts the mapping with its error. |
| SheetRowMapper.PrepareRows | src/Services/SheetRowMapper.php:104-107 | Each record, in order, is paired with its hash and its aligned row, with the hash written at the hash-column index. |
| SheetRowMapper.HashIndex | src/Services/SheetRowMapper.php:93-98 | A hash is in the index exactly when some existing row has it as a non-empty cell in the hash column. It maps to that row's position plus one, taking the last such row. |
| SheetRowMapper.BlankColumn | src/Services/SheetRowMapper.php:86-89 | Adding the hash column gives every existing row an empty cell there. |
| SheetRowMapper.Classify | src/Services/SheetRowMapper.php:104-116 | A row position is updated exactly when some record's hash maps to it, and it carries the last such record's row. The new rows are the unmatched records' rows, in input order. |
| SheetRowMapper.ClassifyPartition | src/Services/SheetRowMapper.php:104-116 | Every record goes either to the update of its matched row or to the new rows. All records are new exactly when none matches, and none is new exactly when all match. |
| SheetRowMapper.HeadersFromModel | src/Services/SheetRowMapper.php:161-173 | The model's `defaultSheetHeaders()` come first. Otherwise the keys of `toSheetRow()` are used. The call fails exactly when `defaultSheetHeaders()` returns null, with the `TypeError` of the `array` return type, or when the model defines neither method, with a `SyncException`. |
| SheetRowMapper.PrepareNewSheetData | src/Services/SheetRowMapper.php:128-156 | No records give an empty mapping. Otherwise it fails exactly when the headers or some record's hash fail. On success the header is the model's headers plus `_record_hash`, nothing is updated, and each record gets one new row that is one cell longer than the data headers and ends in its hash. |
| SheetRowMapper.Layout | src/Services/SheetRowMapper.php:79-98 | The hash column is located in the header, or appended as its last entry. The index is built only from hashes actually present in the existing rows. |
| SheetRowMapper.MapRecordsToSheet | src/Services/SheetRowMapper.php:72-123 | On a sheet with a header, the returned header is the existing one, with the hash column appended if it was missing. There are never more new rows than records. |
| SheetRowMapper.EmptySheetNoRecords | src/Services/SheetRowMapper.php:74-76 | A sheet without a header row and no records give an empty header, no updates and no new rows. |
| SheetRowMapper.FreshSheetLayout | src/Services/SheetRowMapper.php:128-156 | On a sheet without a header row, the header is the first record's headers followed by `_record_hash`. Nothing is updated. There is one new row per record, in input order, ending in that record's hash. |
| SheetRowMapper.MissingHashColumnAllNew | src/Services/SheetRowMapper.php:80-98 | When the header lacks the hash column, it is appended as the last header. No record matches, and every record becomes a new row. |
| SheetRowMapper.HashOnlyLastIndex | src/Services/SheetRowMapper.php:80 | With the hash column only at the end, it is found at the last position and every other header is a data column. |
| SheetRowMapper.AlignedRowLength | src/Services/SheetRowMapper.php:106-107 | With the hash column last, an outgoing row has one cell per header. Each cell before the last holds the record's value for its header, or null, and the last cell is the hash. |
| SheetRowMapper.HashNotLastOverwrites | src/Services/SheetRowMapper.php:106-107 | With the hash column before another header, the outgoing row is one cell short. The hash lands where the first data column's value should be, so the row is misaligned. |
| SheetRowMapper.MappingLayout | src/Services/SheetRowMapper.php:93-116 | With the hash column last, the new rows are exactly the records whose hash the existing rows lack. Every indexed hash comes from an existing row. |
| SheetRowMapper.AllKnownNoNewRows | src/Services/SheetRowMapper.php:93-116 | When every record's hash is already in the hash column, the mapping keeps the header and produces no new rows. |
| SheetRowMapper.RerunAddsNoRows | src/Services/SheetRowMapper.php:94-115 | Re-running is idempotent. After one pass's new rows are appended under its header (hash column last), a second pass over the same records appends nothing and only updates. |
| ColumnNames.ColumnName | src/Services/GoogleClient.php:298-304 | Every column name is a non-empty string of capital letters. |
| ColumnNames.IndexOfName | src/Services/GoogleClient.php:298-304 | Reading a column name back as a bijective base-26 number recovers its index. |
| ColumnNames.NameOfIndex | src/Services/GoogleClient.php:298-304 | Every non-empty string of capital letters is the name of exactly the index it reads as, so naming is onto. |
| ColumnNames.NamesInjective | src/Services/GoogleClient.php:298-304 | Distinct indexes get distinct column names. |
| ColumnNames.NameExamples | src/Services/GoogleClient.php:298-304 | 0 is `A`, 25 is `Z`, 26 is `AA`, 701 is `ZZ` and 702 is `AAA`. |
| ColumnNames.ColumnNames | src/Services/GoogleClient.php:297-305 | The fallback header for `count` columns is the first `count` column names in order. |
| GoogleClient.RowKeys | src/Services/GoogleClient.php:311-314 | The keys of a transformed row, in order, each cast as PHP casts array keys. |
| GoogleClient.SequentialIff | src/Services/GoogleClient.php:311-314 | A row is sequential exactly when it is non-empty and its keys are 0, 1, … in order. An empty array is not sequential. |
| GoogleClient.GenerateHeaders | src/Services/GoogleClient.php:281-306 | The model's default headers win. Otherwise the keys of an associative first row are used. Otherwise the letters for the first row's width are used, or `A`..`Z` with no data. |
| GoogleClient.Perform | src/Services/GoogleClient.php:141-276 | Every public operation first waits out the rate limit, advancing the clock by the sleep. On success it applies its effect to the addressed sheet only, leaves every other sheet alone, and records exactly one timestamp, the time after the wait. On failure it records nothing, changes no sheet, and rethrows the cause as a `GoogleSheetsException` with the operation's message prefix. |
| GoogleClient.ReadSheetReturnsRows | src/Services/GoogleClient.php:193-210 | Reading returns the sheet's rows and changes no sheet. It fails exactly while the service is down, with the `Failed to read from Google Sheets: ` exception. A success records the call in the rate-limit window. |
| GoogleClient.GetHeadersOutcome | src/Services/GoogleClient.php:215-232 | Reading headers returns the first row, or none on an empty sheet, and changes no sheet. It fails exactly while the service is down. A success records the call in the rate-limit window. |
| GoogleClient.SetHeadersWritesPrefix | src/Services/GoogleClient.php:237-254 | Setting headers leaves the written headers as a prefix of row 1. It creates row 1 on an empty sheet and keeps every other row and sheet. It fails exactly while the service is down, leaving the remote alone. |
| GoogleClient.ClearSheetEmpties | src/Services/GoogleClient.php:171-188 | Clearing empties the addressed sheet only. It fails exactly while the service is down, leaving the remote alone. |
| GoogleClient.WriteBatchAppends | src/Services/GoogleClient.php:141-166 | A batch write keeps the old rows and appends one row of texts per transformed row. On an empty sheet it first writes the generated header row. No other sheet changes. It fails exactly while the service is down. |
| GoogleClient.Overwrite | src/Services/GoogleClient.php:241-248 | A Sheets `update` of one row overwrites the given cells from the first column on. Cells past the last given one keep their old text. |
| GoogleClient.UpdateFirstRow | src/Services/GoogleClient.php:241-248 | Writing headers overwrites the first row cell by cell, or creates it on an empty sheet, and keeps every other row. |
| GoogleClient.UpdateFirstRowReadBack | src/Services/GoogleClient.php:241-248 | The written headers begin the first row. The row is exactly the headers when the old first row was no longer than them. |
| GoogleClient.GetHeadersReturnsFirstRow | src/Services/GoogleClient.php:215-232 | Reading headers returns the first row, or none for an empty sheet, and changes no sheet. |
| GoogleClient.SetThenGetHeaders | src/Services/GoogleClient.php:215-254 | Headers that were written read back as a prefix of the header row. They read back unchanged exactly when the sheet was empty or its old header row was no longer. Otherwise the old row's trailing cells follow them. |
| GoogleClient.ClearThenRead | src/Services/GoogleClient.php:171-210 | A cleared sheet reads back empty. |
| GoogleClient.WriteBatchHeadersOnlyWhenEmpty | src/Services/GoogleClient.php:141-166 | A batch write on an empty sheet puts the generated header row first. On a non-empty sheet it only appends the rows' texts. |
| GoogleClient.FailedCallRecordsNothing | src/Services/GoogleClient.php:259-276 | A failed append changes nothing remote and records no timestamp. It raises a `GoogleSheetsException` wrapping the service's failure. |
| GoogleClient.AppendBelowExisting | src/Services/GoogleClient.php:259-276 | An append keeps the old rows, puts the given rows below them and touches no other sheet. A success records the call in the rate-limit window. A failure leaves the remote alone and raises the wrapped `GoogleSheetsException`. |
| RateLimiter.Retain | src/Services/GoogleClient.php:322-324 | The window filter keeps exactly the timestamps later than `now - 60`. |
| RateLimiter.CheckRateLimit | src/Services/GoogleClient.php:316-332 | The limiter sleeps exactly when the filtered window holds at least 100 requests. It then sleeps until the newest of them is 60 seconds old, plus one second. |
| RateLimiter.Record | src/Services/GoogleClient.php:316-337 | After a call, the window holds the retained earlier timestamps, those inside the last 60 seconds, followed by the call's own time. That time lies after `now` exactly when the window was full. |
| RateLimiter.SleepAtLeastTwo | src/Services/GoogleClient.php:327-330 | A sleep, when one happens, lasts at least two seconds. |
| RateLimiter.RetainSubsequence | src/Services/GoogleClient.php:322-324 | Filtering keeps the window ordered and in the past. |
| RateLimiter.RetainLater | src/Services/GoogleClient.php:322-324 | Filtering at a later time keeps no more requests. |
| RateLimiter.RetainTwice | src/Services/GoogleClient.php:322-324 | Filtering twice at the same time is filtering once. |
| RateLimiter.SleepEmptiesWindow | src/Services/GoogleClient.php:326-331 | After the sleep every filtered request has left the window. |
| RateLimiter.RecordKeepsValid | src/Services/GoogleClient.php:334-337 | Recording the time after the wait keeps the window ordered and in the past. |
| RateLimiter.RecordRespectsLimit | src/Services/GoogleClient.php:316-337 | After a check and a recorded call, the window seen at any time from the end of the wait on holds at most 100 requests. |
| RateLimiter.RetainConcat | src/Services/GoogleClient.php:322-324 | Filtering distributes over concatenation. |
| StateManager.Save | src/Services/StateManager.php:68 | Saving a run rewrites only that run's row and leaves the log alone. |
| StateManager.InitializeSync | src/Services/StateManager.php:33-42 | A new run is `running`, for the given class and type, started and created now, with no completion time, no counters and no error. Its mode is the column default, because the mode is not fillable. It is appended as a new row with the next id. |
| StateManager.EntriesFor | src/Services/StateManager.php:49-62 | One successful entry per id, in order, carrying the run's id, class and type and the current time. |
| StateManager.RecordBatchSync | src/Services/StateManager.php:47-68 | A non-empty batch appends its entries to the log. It raises the total by exactly the number of ids and sets the last id to the batch's maximum, not to the maximum with the old value. An empty batch raises a `ValueError` in `max()`. |
| StateManager.CompleteSync | src/Services/StateManager.php:73-83 | Completing sets status `completed` and the completion time, and overwrites both counters from the result. |
| StateManager.FailSync | src/Services/StateManager.php:88-97 | Failing sets status `failed`, the completion time and the error message, and leaves the counters unchanged. |
| StateManager.GetLastSuccessfulSync | src/Services/StateManager.php:102-108 | Returns null exactly when the class has no completed run. Otherwise it returns one of its completed runs whose completion time no other completed run exceeds. |
| StateManager.EntriesAppendOnly | src/Services/StateManager.php:47-97 | Logging only extends the log; completing or failing a run leaves it untouched. |
| StateManager.OperationsKeepWellFormed | src/Services/StateManager.php:47-97 | Every operation keeps each run stored at the row of its id. |
| StateManager.CompletionIgnoresStatus | src/Services/StateManager.php:73-97 | Neither completion checks the current status. A failed run can be completed, keeping its message, and a completed run can be failed, keeping its counters. |
| StateManager.LastIdCanDecrease | src/Services/StateManager.php:66 | A later batch with smaller ids lowers the last processed id. |
| StateManager.TwoBatches | src/Services/StateManager.php:47-68 | Two batches log both batches' entries in order and add both sizes to the total. The last id comes from the second batch alone. |
| StateManager.CompletedRunIsFound | src/Services/StateManager.php:73-108 | A run completed later than every other completed run of its class is the one reported as the last successful sync. |
| ErrorHandler.CurrentRetriesCountsRecentFailures | src/Services/ErrorHandler.php:72-79 | The retry count is the number of runs of the class that failed and were created within the last hour. |
| ErrorHandler.CurrentRetries | src/Services/ErrorHandler.php:72-79 | The retry count never exceeds the number of runs. |
| ErrorHandler.NoRetriesIffNoRecentFailure | src/Services/ErrorHandler.php:72-79 | The retry count is zero exactly when no run of the class failed within the last hour. |
| ErrorHandler.HandleError | src/Services/ErrorHandler.php:35-90 | Exactly one of the two paths runs. While fewer than 3 recent failures exist, one partial-sync job is queued for the class and the given ids, with retry count from 1 to 3, after the back-off delay, and the retry is announced with that count. Otherwise nothing is queued and the final failure is announced with the exception. |
| ErrorHandler.BackoffSchedule | src/Services/ErrorHandler.php:84 | The delay doubles with each retry: 60, 120 and 240 seconds for retries 1 to 3. |
| ErrorHandler.Delay | src/Services/ErrorHandler.php:84 | Every retry waits at least a minute. |
| ErrorHandler.CountUpdate | src/Services/ErrorHandler.php:72-79 | Rewriting one run changes the count by that run's own contribution only. |
| ErrorHandler.FailSyncAddsOneRetry | src/Services/ErrorHandler.php:72-79 | Failing a run of the class created within the hour adds exactly one to the count. |
| ErrorHandler.ExhaustedBudgetQueuesNothing | src/Services/ErrorHandler.php:42-46 | Once 3 recent failures exist, no job is queued. |
| BatchProcessor.Chunk | src/Services/BatchProcessor.php:50 | Chunking keeps every element in order: the chunks concatenate back to the input. Each chunk has 1 to `size` elements, and every chunk but the last is full. |
| BatchProcessor.ArrayChunk | src/Services/BatchProcessor.php:92 | `array_chunk` raises a `ValueError` exactly when the size is below 1. Otherwise it splits the ids in order into chunks of at most `size`. |
| BatchProcessor.ChunkMembers | src/Services/BatchProcessor.php:92 | An element of a chunk after the first comes from past the first `size` elements. |
| BatchProcessor.Select | src/Services/BatchProcessor.php:121-143 | A query keeps exactly the rows satisfying its condition. |
| BatchProcessor.SelectKeepsOrder | src/Services/BatchProcessor.php:137 | A query over a table with ascending ids returns rows in ascending id order. |
| BatchProcessor.EligibleAsWritten | src/Services/BatchProcessor.php:121-138 | As written, the subquery excludes every record once any recent entry of the class logs a record id equal to its own entry id. Otherwise it excludes none, and only the resume filter applies. |
| BatchProcessor.Eligible | src/Services/BatchProcessor.php:121-138 | A record is eligible exactly when its id passes the resume point (only when that is truthy) and no entry of the class within the last seven days logs it. |
| BatchProcessor.EligibilityDiscrepancy | src/Services/BatchProcessor.php:130-135 | A record synced seconds ago stays eligible as written, while the intended query excludes it. One entry whose record id equals its own id excludes an unrelated record as written, while the intended query keeps it. |
| BatchProcessor.EnsureHeaders | src/Services/BatchProcessor.php:145-168 | The sample row's keys are always returned. The header row is written exactly when the current one is empty or not identical to them. The call fails exactly when the service is down. |
| BatchProcessor.EnsureHeadersThenGet | src/Services/BatchProcessor.php:145-168 | After header set-up, the header row begins with the sample row's column names. It is exactly those names when the sheet was empty or its old header row was no longer. |
| BatchProcessor.LongerHeaderRewrittenEveryRun | src/Services/BatchProcessor.php:155-158 | A header row longer than the sample row's names needs rewriting, and still needs it after set-up, so every run rewrites it. |
| BatchProcessor.NumericHeaderAlwaysRewritten | src/Services/BatchProcessor.php:155-158 | A column named by an integer becomes an integer key, which never equals the string read back. Such headers are rewritten on every run. |
| BatchProcessor.Process | src/Services/BatchProcessor.php:38-79 | As written, nothing is written or logged. The run succeeds exactly when the class exists, the service is up, and either the batch size is 0 or no record is eligible. Otherwise any eligible record makes it fail with the `Error` of calling `map()` on an array. |
| BatchProcessor.ProcessChunk | src/Services/BatchProcessor.php:51-70 | One chunk of the corrected loop appends the chunk's rows to the sheet and logs the chunk's ids under the run. It adds the chunk size to both totals and takes the chunk's last id. A width mismatch fails in `array_combine`, and a service outage is passed on. |
| BatchProcessor.RunChunks | src/Services/BatchProcessor.php:50-78 | The chunk loop only appends to the log and never changes whether the service is up. |
| BatchProcessor.RunChunksKeepsRun | src/Services/BatchProcessor.php:50-78 | The chunk loop keeps the run id and does nothing after a failure. Finishing at least one chunk without failure means the service was up. |
| BatchProcessor.RunChunksCounts | src/Services/BatchProcessor.php:47-78 | After the loop, the total is the sum of the chunk sizes and the last id is the final record's id, or unchanged with no chunks. |
| BatchProcessor.RunChunksAppends | src/Services/BatchProcessor.php:59-63 | After the loop, the sheet has gained every chunked record's row, in order. |
| BatchProcessor.RunChunksLogs | src/Services/BatchProcessor.php:66-67 | After the loop, the log has gained every chunked record's id, in order, once each. |
| BatchProcessor.RunChunksLogsOwner | src/Services/BatchProcessor.php:66-67 | Every entry the loop adds is a successful entry of this run. |
| BatchProcessor.RunChunksSucceeds | src/Services/BatchProcessor.php:50-73 | With the service up and every row as wide as the headers, the loop does not fail. |
| BatchProcessor.ProcessIntendedFrame | src/Services/BatchProcessor.php:38-82 | The corrected run keeps the run id and only appends to the log. A missing class fails with the class-not-found `Error`, and a service that is down always makes it fail. |
| BatchProcessor.ProcessIntendedTotals | src/Services/BatchProcessor.php:47-78 | The corrected `process` reports the number of eligible records and the last one's id, or 0 and null when none is eligible. The run's own total grows by the same number. |
| BatchProcessor.ProcessIntendedWrites | src/Services/BatchProcessor.php:50-73 | The corrected `process` appends the eligible records' rows below the headers in id order. It logs each of them once, in order, under the run. |
| BatchProcessor.ProcessIntendedSucceeds | src/Services/BatchProcessor.php:50-73 | With the service up and every row as wide as the sample row, the corrected `process` cannot fail. |
| BatchProcessor.ProcessCrashesWhereIntendedSyncs | src/Services/BatchProcessor.php:53-57 | Whenever some record is eligible, the code as written fails with the `map()` error, while the corrected run succeeds and syncs at least one record. |
| BatchProcessor.Found | src/Services/BatchProcessor.php:89-93 | Because the builder is reused, a batch finds exactly the records whose id was requested and appears in every batch so far. |
| BatchProcessor.PartialChunk | src/Services/BatchProcessor.php:93-112 | A batch that finds nothing is skipped with no write and no log. Otherwise the whole requested batch of ids is logged, but only the records found are counted. |
| BatchProcessor.RunPartial | src/Services/BatchProcessor.php:92-112 | The batch loop only appends to the log, keeps the run and the number of runs, and never changes the reported last id. |
| BatchProcessor.RunPartialStopsOnFailure | src/Services/BatchProcessor.php:92-112 | The batch loop does nothing after a failure. |
| BatchProcessor.ProcessPartial | src/Services/BatchProcessor.php:84-119 | A batch size below 1 fails in `array_chunk` before anything happens. An empty id list fails with a `ValueError` and changes nothing. On success the last id is the largest requested id, found or not. |
| BatchProcessor.LaterBatchesFindNothing | src/Services/BatchProcessor.php:89-97 | With distinct ids, every batch after the first finds no record. |
| BatchProcessor.RunPartialIdle | src/Services/BatchProcessor.php:92-113 | With distinct ids, the loop does nothing after the first batch. |
| BatchProcessor.PartialOnlyFirstBatch | src/Services/BatchProcessor.php:84-119 | With distinct ids, only the records of the first batch are counted. Only that batch's ids are logged, all of them, or none when it finds nothing. Ids past the first batch are never synced. |
| BatchProcessor.PartialWithoutIdsFails | src/Services/BatchProcessor.php:117 | A partial run of no ids fails in `max()` with nothing written or logged. |
| SyncManager.DetermineSyncMode | src/Services/SyncManager.php:99-116 | A non-empty `sync_mode` option is taken as given. Otherwise the model's truthy preferred mode is used, else `append`. The resolved mode is never empty. |
| SyncManager.UnlistedModeAccepted | src/Services/SyncManager.php:99-103 | A mode that is not among the available modes is still accepted from the options. |
| SyncManager.ModePriority | src/Services/SyncManager.php:99-116 | For every class, a non-empty option decides the mode, even when the class does not exist, and an empty option (`""` or `"0"`) counts as no option. |
| SyncManager.ValidateModel | src/Services/SyncManager.php:80-91 | A class passes exactly when it exists, is an Eloquent model and implements the sync contract. Otherwise a `SyncException` is raised. |
| SyncManager.CloseFull | src/Services/SyncManager.php:47-53 | A successful run is completed with its counters and announced. An `Exception` is handed to the retry logic with no ids and rethrown, with the run left as it was. An `Error` passes through untouched. |
| SyncManager.FullSyncOutcome | src/Services/SyncManager.php:39-54 | As written, a successful full run is completed with 0 records processed and no last id. Only an `Exception` reaches the retry logic. Once the mode is resolved, the first notice announces the new run. |
| SyncManager.FullSyncSkipsValidation | src/Services/SyncManager.php:39-46 | A full run is opened even for a class that is neither a model nor synchronisable. |
| SyncManager.FullSyncCrashLeavesRunOpen | src/Services/SyncManager.php:39-54 | As written, a full run with a non-zero batch size and any eligible record ends in the `map()` error. No retry is considered and the stored run stays `running`. |
| SyncManager.ZeroBatchSizeCompletes | src/Services/BatchProcessor.php:47-78 | With a batch size of 0 the chunk callback never runs, so a full run completes with nothing processed and no last id. |
| SyncManager.RunChunksKeepsRetries | src/Services/SyncManager.php:46-53 | The corrected loop never stores a failed run, so the retry count is unchanged. |
| SyncManager.ProcessIntendedKeepsRetries | src/Services/SyncManager.php:46 | The corrected `process` leaves the retry count unchanged. |
| SyncManager.FullSyncFailureNotCounted | src/Services/SyncManager.php:50-53 | A failed full run is handed to the retry logic exactly when it failed with an `Exception`. It is never marked failed, so the retry count after it equals the count before. |
| SyncManager.FullSyncIntendedCompletes | src/Services/SyncManager.php:39-49 | A successful full run stores a completed run whose total is the number of eligible records. It is announced as started and then finished. |
| SyncManager.FullSyncIntendedOutcome | src/Services/SyncManager.php:39-54 | With the corrected process, a success is a completed run announced as started and then finished. Once the mode is resolved, the retry logic runs exactly when the run fails with an `Exception`. |
| SyncManager.PartialSync | src/Services/SyncManager.php:59-78 | An invalid class is rejected before anything is stored. A partial run never involves the retry logic. |
| SyncManager.PartialSyncCompletes | src/Services/SyncManager.php:67-72 | When `processPartial` succeeds, the new run is stored as completed, at the time the batches finished, with its total and last id. The state returned is that stored row, reloaded. |
| SyncManager.PartialSyncValidatesFirst | src/Services/SyncManager.php:80-91 | A missing class, a non-model or a class without the sync contract gets a `SyncException`, and no run is created. |
| SyncManager.RetryWithoutIdsLeavesRunOpen | src/Services/SyncManager.php:59-78 | A retry job's partial run of no ids fails in `max()` with an `Error`, which leaves the new run `running`. |
| SyncManager.PartialSyncFailureMarksFailed | src/Services/SyncManager.php:67-97 | A partial run that fails with an `Exception` is stored as failed with that exception's message. |
| TokenManager.Lookup | src/Services/TokenManager.php:53 | A cached token is returned while its cache entry lives, and nothing after. |
| TokenManager.StoreToken | src/Services/TokenManager.php:42-49 | A stored token expires `expires_in` seconds from now, 3600 when absent. It can be read back for seven days and not after. |
| TokenManager.StoreThenShouldRefresh | src/Services/TokenManager.php:42-60 | After a token is stored, a refresh is due exactly once the cache entry has lapsed or the token is within 300 seconds of the expiry it was stored with. |
| TokenManager.ShouldRefreshCases | src/Services/TokenManager.php:51-60 | A refresh is due with no cache entry, a lapsed one, or a token already expired. When none is due, the cached token has more than 300 seconds left. |
| TokenManager.ShouldRefreshMonotone | src/Services/TokenManager.php:51-60 | Once a refresh is due it stays due as time passes. |
| TokenManager.FreshTokenNeedsNoRefresh | src/Services/TokenManager.php:42-60 | Right after a token that lives longer than 300 seconds is stored, no refresh is due. |
| TokenManager.RefreshIfNeeded | src/Services/TokenManager.php:32-69 | The cache changes only when a refresh is due and the client reports its token expired. It then stores the freshly fetched token. |
| TokenManager.RefreshSettles | src/Services/TokenManager.php:32-69 | After a refresh that fetched a long-lived token, no refresh is due. |
| TokenManager.UnexpiredClientLeavesRefreshDue | src/Services/TokenManager.php:62-69 | When the client does not report expiry, a due refresh stays due. |

## Left out

- Client and authentication bootstrap (`GoogleClient.php:38-136`): configuration lookup, credential files and the Google SDK are I/O. That code also calls a token getter `TokenManager` does not define, so every remote operation fails on those paths; the model assumes a working client.
- The remote service's own semantics, such as how `append` lines up associative rows with the headers. A sheet is abstract state, and an append adds the rows' cell texts below the existing rows.
- A service failure is a persistent flag of the remote: while it is set, every call fails. A failure part-way through a sequence of calls is not modelled.
- Real sleeping and wall-clock reads. The clock is a parameter. `time()` read twice inside one call is read once, and time spent computing is not modelled.
- Eloquent and database execution. `chunk()` pages with offsets and re-runs the query while entries are inserted. The model chunks a fixed snapshot of the table, ordered by id. With the corrected query, real offset paging would skip records: with 250 eligible records and size 100, page 2 starts at offset 100 of the 150 still eligible, so records 101 to 200 are never synced.
- The internals of xxh3 over `serialize`, JSON parsing, the emoji pattern, multibyte length, float-to-text conversion, Carbon formatting and `json_encode`. These are uninterpreted deterministic functions or abstract predicates; hashes are not assumed injective.
- Notifications, events, the logger, the service provider, the facade, the console command and migrations are plumbing. Start and finish events are kept only as a list of notices. The `total_processed` column is assumed to default to 0.
- The `PartialSyncJob` back-off of 60, 180 and 360 seconds is the queue's own retry policy, unrelated to the retry delays.
- FuzzyRecordIdentifier.ScoreField: scores are exact rationals, while PHP adds doubles. Sums that tie here can differ in the last bit there: a foreign-key column without an identifier-like name, holding a 3-character string, scores 0.4 + 0.2 = 0.6000000000000001 there, above a null `uuid` column with a regular index at 0.3 + 0.3 = 0.6. Such near-ties can then reorder fields in the sort and change which fields the cap of 5 keeps.
- Carbon's string form is not modelled: whether a Carbon date is creation-like is the abstract probe. With the default string form that probe is always false.
- PHP integers are 64-bit; ids, counters and times are unbounded integers here.
- `BlankColumn` pads a short row with empty cells up to the hash column. PHP would instead leave gaps in the row's keys, but the hash index reads only the hash cell, so the outcome is the same.
- BatchProcessor.ProcessIntended: requires a batch size of at least 1, because the behaviour of `chunk()` for a smaller size depends on the framework version.
- BatchProcessor.Process: a negative batch size is taken to fail like a positive one, because `limit()` ignores a negative value and the first page then holds every row.
- BatchProcessor.Process: for a class that exists but does not implement the sync contract, the model assumes the contract's methods are present.
- ErrorHandler.Delay: requires a retry count of at least 1; its only caller passes the current count plus one.
- StateManager.GetLastSuccessfulSync: on equal completion times it returns the earliest row, because the database leaves the order unspecified.
- `clearSheet` and `readSheet` are modelled but unused, because no replace mode exists in the code.

## Findings

| source | as written | input that shows it | evidently intended | confidence | as-written member | corrected member |
|---|---|---|---|---|---|---|
| src/Services/BatchProcessor.php:55 | `->map()` is called on the plain array that `transformBatch` returns (DataTransformer.php:37), which raises an `Error` | A full run of a table with one record that has no log entry | Each transformed row is paired with the headers and appended, and the batch is logged | high, not executed | BatchProcessor.Process, SyncManager.FullSyncCrashLeavesRunOpen | BatchProcessor.ProcessIntendedWrites, BatchProcessor.ProcessIntendedTotals, BatchProcessor.ProcessCrashesWhereIntendedSyncs |
| src/Services/BatchProcessor.php:134 | `whereColumn('record_id', 'id')` inside the `sync_entries` subquery compares each entry with its own `id` | Record 5, with entries 1 (record 7) and 2 (record 5) synced now: record 5 stays eligible. Entry 1 logging record 1 excludes record 5 and every other record | A record is excluded exactly when a recent entry of the class logs that record's id | medium, not executed | BatchProcessor.EligibleAsWritten, BatchProcessor.EligibilityDiscrepancy | BatchProcessor.Eligible, BatchProcessor.ProcessIntendedWrites |
