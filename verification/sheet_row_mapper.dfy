/** Reconciles records with a sheet snapshot: every record gets a hash of its
    identity, and a record whose hash already sits in the sheet's hash column
    becomes an in-place update of that row, any other record a new row. */
module SheetRowMapper {
  import opened Wrappers
  import opened Php
  import opened Models
  import FuzzyRecordIdentifier

  const HashColumn: string := "_record_hash"

  // ---------------------------------------------------------------------------
  // Record identity

  /** `getAttribute` of each listed field, in order. */
  function AttributeValues(r: Record, fields: seq<string>): (vs: seq<Value>)
    ensures |vs| == |fields|
    ensures forall k :: 0 <= k < |fields| ==> vs[k] == Attribute(r, fields[k])
  {
    seq(|fields|, k requires 0 <= k < |fields| => Attribute(r, fields[k]))
  }

  /** The configured part of the identity: the primary key when it is truthy,
      then the values of `getSheetUniqueAttributes()` when the model defines
      that method. */
  function ConfiguredIdentity(cls: ModelClass, r: Record): (c: seq<Value>)
    ensures Truthy(r.key) ==> |c| > 0 && c[0] == r.key
    ensures cls.uniqueAttributes.None? ==> |c| <= 1
    ensures cls.uniqueAttributes.Some? ==>
              |c| >= |cls.uniqueAttributes.value|
              && c[|c| - |cls.uniqueAttributes.value|..] == AttributeValues(r, cls.uniqueAttributes.value)
  {
    (if Truthy(r.key) then [r.key] else [])
    + (match cls.uniqueAttributes
       case None => []
       case Some(attrs) => AttributeValues(r, attrs))
  }

  /** The fields the heuristic picks for this record's own `toSheetRow()`, or
      the `TypeError` scoring it raises. */
  function FuzzyFields(rt: Runtime, cls: ModelClass, r: Record): Result<seq<string>, Throwable> {
    FuzzyRecordIdentifier.AnalyzeModel(rt, r.sheetRow, cls.schema, cls.timestamps)
  }

  /** The list `generateRecordHash` serializes. The heuristic is consulted only
      when neither a truthy key nor any unique attribute contributed; it reads
      `toSheetRow()`, so a model without that method throws there, and a
      plain `\DateTime` among its values throws in the scoring. */
  function IdentityTuple(rt: Runtime, cls: ModelClass, r: Record): (t: Result<seq<Value>, Throwable>)
    ensures |ConfiguredIdentity(cls, r)| > 0 ==> t == Ok(ConfiguredIdentity(cls, r))
    ensures t.Ok? && |ConfiguredIdentity(cls, r)| == 0 ==>
              FuzzyFields(rt, cls, r).Ok? && t.value == AttributeValues(r, FuzzyFields(rt, cls, r).value)
    ensures t.Err? <==> |ConfiguredIdentity(cls, r)| == 0
                        && (!cls.hasToSheetRow || !FuzzyRecordIdentifier.ScorableRow(r.sheetRow))
    ensures t.Err? && !cls.hasToSheetRow ==> t.error.Exception? && t.error.eclass == BadMethodCallException
    ensures t.Err? && cls.hasToSheetRow ==> t.error == FuzzyRecordIdentifier.DateNotString
  {
    var configured := ConfiguredIdentity(cls, r);
    if |configured| > 0 then Ok(configured)
    else if !cls.hasToSheetRow then Err(Exception(BadMethodCallException, "Call to undefined method toSheetRow()", None))
    else
      var fields :- FuzzyFields(rt, cls, r);
      Ok(AttributeValues(r, fields))
  }

  /** A heuristic identity has at most six values, one per chosen field, and
      holds `created_at` when the model keeps timestamps. */
  lemma FuzzyIdentityBounded(rt: Runtime, cls: ModelClass, r: Record)
    requires UniqueKeys(r.sheetRow) && FuzzyRecordIdentifier.ScorableRow(r.sheetRow)
    requires |ConfiguredIdentity(cls, r)| == 0 && cls.hasToSheetRow
    ensures IdentityTuple(rt, cls, r).Ok?
    ensures |IdentityTuple(rt, cls, r).value| <= FuzzyRecordIdentifier.MaxIdentifyingFields + 1
    ensures cls.timestamps ==> Attribute(r, FuzzyRecordIdentifier.CreatedAt) in IdentityTuple(rt, cls, r).value
  {
    FuzzyRecordIdentifier.AnalyzeModelSpec(rt, r.sheetRow, cls.schema, cls.timestamps);
    var fields := FuzzyFields(rt, cls, r).value;
    if cls.timestamps {
      var k :| 0 <= k < |fields| && fields[k] == FuzzyRecordIdentifier.CreatedAt;
      assert AttributeValues(r, fields)[k] == Attribute(r, FuzzyRecordIdentifier.CreatedAt);
    }
  }

  /** `generateRecordHash`: a deterministic digest of the identity tuple, so
      records with equal tuples get equal hashes. */
  function RecordHash(rt: Runtime, cls: ModelClass, r: Record): (h: Result<Digest, Throwable>)
    ensures h.Ok? <==> IdentityTuple(rt, cls, r).Ok?
    ensures h.Ok? ==> h.value == rt.digest(IdentityTuple(rt, cls, r).value)
    ensures h.Err? ==> h.error == IdentityTuple(rt, cls, r).error
  {
    var tuple :- IdentityTuple(rt, cls, r);
    Ok(rt.digest(tuple))
  }

  // ---------------------------------------------------------------------------
  // Row alignment

  /** The data a row is built from: `toSheetRow()` when defined, else `toArray()`. */
  function RowSource(cls: ModelClass, r: Record): Row {
    if cls.hasToSheetRow then r.sheetRow else r.asArray
  }

  /** How many header cells are not the hash column. */
  function NonHashCount(header: seq<string>): (n: nat)
    ensures n <= |header|
    ensures HashColumn !in header ==> n == |header|
    decreases |header|
  {
    if |header| == 0 then 0
    else (if header[0] == HashColumn then 0 else 1) + NonHashCount(header[1..])
  }

  lemma {:induction false} NonHashCountAppend(header: seq<string>, x: string)
    ensures NonHashCount(header + [x]) == NonHashCount(header) + (if x == HashColumn then 0 else 1)
    decreases |header|
  {
    if |header| == 0 {
      assert NonHashCount([x]) == (if x == HashColumn then 0 else 1) + NonHashCount([]);
    } else {
      assert (header + [x])[1..] == header[1..] + [x];
      NonHashCountAppend(header[1..], x);
    }
  }

  /** Counting the data columns of a prefix one header at a time. */
  lemma NonHashCountPrefix(header: seq<string>, k: nat)
    requires 1 <= k <= |header|
    ensures NonHashCount(header[..k]) == (if header[0] == HashColumn then 0 else 1) + NonHashCount(header[1..][..k - 1])
  {
    assert header[..k][1..] == header[1..][..k - 1];
  }

  /** `prepareRowData`: one value per header that is not the hash column, in
      header order, `null` for a header the record has no value for. The
      value for a data header sits after one cell per data header before it. */
  function AlignRow(src: Row, header: seq<string>): (row: seq<Value>)
    ensures |row| == NonHashCount(header)
    ensures forall k :: 0 <= k < |header| && header[k] != HashColumn ==>
              NonHashCount(header[..k]) < |row| && row[NonHashCount(header[..k])] == Lookup(src, header[k])
    ensures HashColumn !in header ==> forall k :: 0 <= k < |header| ==> row[k] == Lookup(src, header[k])
    decreases |header|
  {
    if |header| == 0 then []
    else
      var rest := AlignRow(src, header[1..]);
      var row := if header[0] == HashColumn then rest else [Lookup(src, header[0])] + rest;
      assert forall k :: 1 <= k < |header| ==> header[k] == header[1..][k - 1];
      forall k | 0 <= k < |header| && header[k] != HashColumn
        ensures NonHashCount(header[..k]) < |row| && row[NonHashCount(header[..k])] == Lookup(src, header[k])
      {
        if k == 0 {
          assert header[..0] == [];
        } else {
          NonHashCountPrefix(header, k);
        }
      }
      row
  }

  /** `array_search`: the first position holding `x`. */
  function IndexOf(header: seq<string>, x: string): (p: Option<nat>)
    ensures p.None? <==> x !in header
    ensures p.Some? ==> p.value < |header| && header[p.value] == x && x !in header[..p.value]
    decreases |header|
  {
    if |header| == 0 then None
    else if header[0] == x then Some(0)
    else
      match IndexOf(header[1..], x)
      case None => None
      case Some(p) =>
        assert header[..p + 1] == [header[0]] + header[1..][..p];
        Some(p + 1)
  }

  lemma {:induction false} IndexOfAppend(s: seq<string>, x: string)
    requires x !in s
    ensures IndexOf(s + [x], x) == Some(|s|)
    decreases |s|
  {
    if |s| > 0 {
      assert (s + [x])[1..] == s[1..] + [x];
      IndexOfAppend(s[1..], x);
    }
  }

  /** The first hash column lies within the aligned row or right after it:
      every header before it is a data column. */
  lemma {:induction false} HashIndexWithinRow(header: seq<string>)
    requires HashColumn in header
    ensures IndexOf(header, HashColumn).value <= NonHashCount(header)
    decreases |header|
  {
    if header[0] != HashColumn {
      HashIndexWithinRow(header[1..]);
    }
  }

  /** `$row[$i] = $v` on a list: overwrites position `i`, or appends when `i`
      is one past the end. */
  function SetCell(row: seq<Value>, idx: nat, v: Value): (r: seq<Value>)
    requires idx <= |row|
    ensures |r| == if idx < |row| then |row| else |row| + 1
    ensures r[idx] == v
    ensures forall k :: 0 <= k < |row| && k != idx ==> r[k] == row[k]
  {
    if idx < |row| then row[idx := v] else row + [v]
  }

  /** A record's outgoing row: its aligned data with the hash written at the
      hash column's index. */
  function OutgoingRow(cls: ModelClass, r: Record, header: seq<string>, hashIdx: nat, h: Digest): seq<Value>
    requires hashIdx <= NonHashCount(header)
  {
    SetCell(AlignRow(RowSource(cls, r), header), hashIdx, Str(h))
  }

  /** A record's hash paired with its outgoing row. */
  type Prepared = seq<(Digest, seq<Value>)>

  /** Hashes every record in order; the first record whose hash throws aborts
      with that exception. */
  function Hashes(rt: Runtime, cls: ModelClass, records: seq<Record>): (hs: Result<seq<Digest>, Throwable>)
    ensures hs.Ok? <==> forall k :: 0 <= k < |records| ==> RecordHash(rt, cls, records[k]).Ok?
    ensures hs.Ok? ==> |hs.value| == |records|
    ensures hs.Ok? ==> forall k :: 0 <= k < |records| ==> hs.value[k] == RecordHash(rt, cls, records[k]).value
    ensures hs.Err? ==> exists k :: 0 <= k < |records| && RecordHash(rt, cls, records[k]).Err?
                                    && RecordHash(rt, cls, records[k]).error == hs.error
                                    && forall j :: 0 <= j < k ==> RecordHash(rt, cls, records[j]).Ok?
    decreases |records|
  {
    MapAll(r => RecordHash(rt, cls, r), records)
  }

  /** Hashes and aligns every record in order; the first record whose hash
      throws aborts the whole mapping with that exception. */
  function PrepareRows(rt: Runtime, cls: ModelClass, records: seq<Record>, header: seq<string>, hashIdx: nat)
    : (p: Result<Prepared, Throwable>)
    requires hashIdx <= NonHashCount(header)
    ensures p.Ok? <==> Hashes(rt, cls, records).Ok?
    ensures p.Ok? ==> |p.value| == |records|
    ensures p.Ok? ==> forall k :: 0 <= k < |records| ==>
              p.value[k] == (Hashes(rt, cls, records).value[k],
                             OutgoingRow(cls, records[k], header, hashIdx, Hashes(rt, cls, records).value[k]))
    ensures p.Err? ==> p.error == Hashes(rt, cls, records).error
  {
    var hs :- Hashes(rt, cls, records);
    Ok(seq(|records|, k requires 0 <= k < |records| => (hs[k], OutgoingRow(cls, records[k], header, hashIdx, hs[k]))))
  }

  // ---------------------------------------------------------------------------
  // The sheet's hash index

  /** Row `row` carries hash `h` in column `idx`: the cell is set and not empty. */
  predicate HasHash(row: seq<string>, idx: nat, h: string) {
    idx < |row| && row[idx] == h && h != ""
  }

  /** Every hash in the first `n` rows is indexed, and nothing else. */
  ghost predicate Covers(ix: map<string, nat>, rows: seq<seq<string>>, idx: nat, n: nat)
    requires n <= |rows|
  {
    forall h :: h in ix <==> exists p :: 0 <= p < n && HasHash(rows[p], idx, h)
  }

  /** Every indexed hash points one past a row among the first `n` holding it. */
  predicate PointsBack(ix: map<string, nat>, rows: seq<seq<string>>, idx: nat, n: nat)
    requires n <= |rows|
  {
    forall h :: h in ix ==> 1 <= ix[h] <= n && HasHash(rows[ix[h] - 1], idx, h)
  }

  /** No row after the one an indexed hash points to, among the first `n`,
      holds that hash again. */
  predicate LastWins(ix: map<string, nat>, rows: seq<seq<string>>, idx: nat, n: nat)
    requires n <= |rows|
  {
    forall h, p :: h in ix && ix[h] <= p < n ==> !HasHash(rows[p], idx, h)
  }

  /** One loop step: the `n`-th row's hash cell, when set, points to it. */
  function Extend(prev: map<string, nat>, last: seq<string>, idx: nat, n: nat): map<string, nat> {
    if idx < |last| && last[idx] != "" then prev[last[idx] := n] else prev
  }

  lemma ExtendCovers(prev: map<string, nat>, rows: seq<seq<string>>, idx: nat, n: nat)
    requires 1 <= n <= |rows| && Covers(prev, rows, idx, n - 1)
    ensures Covers(Extend(prev, rows[n - 1], idx, n), rows, idx, n)
  {
  }

  lemma ExtendPointsBack(prev: map<string, nat>, rows: seq<seq<string>>, idx: nat, n: nat)
    requires 1 <= n <= |rows| && PointsBack(prev, rows, idx, n - 1)
    ensures PointsBack(Extend(prev, rows[n - 1], idx, n), rows, idx, n)
  {
  }

  lemma ExtendLastWins(prev: map<string, nat>, rows: seq<seq<string>>, idx: nat, n: nat)
    requires 1 <= n <= |rows| && LastWins(prev, rows, idx, n - 1)
    ensures LastWins(Extend(prev, rows[n - 1], idx, n), rows, idx, n)
  {
  }

  /** The index built from the first `n` data rows. */
  function HashIndexUpTo(rows: seq<seq<string>>, idx: nat, n: nat): (ix: map<string, nat>)
    requires n <= |rows|
    ensures Covers(ix, rows, idx, n) && PointsBack(ix, rows, idx, n) && LastWins(ix, rows, idx, n)
    decreases n
  {
    if n == 0 then map[]
    else
      var prev := HashIndexUpTo(rows, idx, n - 1);
      ExtendCovers(prev, rows, idx, n);
      ExtendPointsBack(prev, rows, idx, n);
      ExtendLastWins(prev, rows, idx, n);
      Extend(prev, rows[n - 1], idx, n)
  }

  /** `$existingHashes`: each non-empty hash cell mapped to its data-row
      position plus one (the row's place below the header); when a hash occurs
      in several rows the last of them wins. */
  function HashIndex(rows: seq<seq<string>>, idx: nat): (ix: map<string, nat>)
    ensures forall h :: h in ix <==> exists p :: 0 <= p < |rows| && HasHash(rows[p], idx, h)
    ensures forall h :: h in ix ==> 1 <= ix[h] <= |rows| && HasHash(rows[ix[h] - 1], idx, h)
    ensures forall h, p :: h in ix && ix[h] <= p < |rows| ==> !HasHash(rows[p], idx, h)
  {
    HashIndexUpTo(rows, idx, |rows|)
  }

  /** `$row[$i] = ''` on every data row, for a column the sheet lacks. Cells a
      short row lacks before position `i` are filled with "" here (PHP leaves a
      gap there); only position `i` is ever read afterwards. */
  function BlankColumn(rows: seq<seq<string>>, idx: nat): (r: seq<seq<string>>)
    ensures |r| == |rows|
    ensures forall p :: 0 <= p < |rows| ==> idx < |r[p]| && r[p][idx] == ""
  {
    seq(|rows|, p requires 0 <= p < |rows| =>
      if idx < |rows[p]| then rows[p][idx := ""] else rows[p] + seq(idx - |rows[p]|, _ => "") + [""])
  }

  // ---------------------------------------------------------------------------
  // Classification

  predicate Matches(index: map<string, nat>, h: string, pos: nat) {
    h in index && index[h] == pos
  }

  /** The outgoing rows of the records whose hash the sheet lacks, in record
      order. */
  function Unmatched(index: map<string, nat>, prepared: Prepared): (rows: seq<seq<Value>>)
    ensures |rows| <= |prepared|
    decreases |prepared|
  {
    if |prepared| == 0 then []
    else (if prepared[0].0 in index then [] else [prepared[0].1]) + Unmatched(index, prepared[1..])
  }

  lemma {:induction false} UnmatchedSnoc(index: map<string, nat>, prepared: Prepared, x: (Digest, seq<Value>))
    ensures Unmatched(index, prepared + [x]) == Unmatched(index, prepared) + (if x.0 in index then [] else [x.1])
    decreases |prepared|
  {
    if |prepared| == 0 {
      assert Unmatched(index, [x]) == (if x.0 in index then [] else [x.1]) + Unmatched(index, []);
    } else {
      assert (prepared + [x])[1..] == prepared[1..] + [x];
      UnmatchedSnoc(index, prepared[1..], x);
    }
  }

  /** Each row position the first `n` records match is updated, and no other. */
  ghost predicate UpdatesCover(u: map<nat, seq<Value>>, index: map<string, nat>, prepared: Prepared, n: nat)
    requires n <= |prepared|
  {
    forall pos :: pos in u <==> exists k :: 0 <= k < n && Matches(index, prepared[k].0, pos)
  }

  /** Each updated position carries the row of the last of the first `n`
      records that matched it. */
  ghost predicate UpdatesLastWins(u: map<nat, seq<Value>>, index: map<string, nat>, prepared: Prepared, n: nat)
    requires n <= |prepared|
  {
    forall pos :: pos in u ==>
      exists k :: (0 <= k < n && Matches(index, prepared[k].0, pos) && u[pos] == prepared[k].1
                   && forall j :: k < j < n ==> !Matches(index, prepared[j].0, pos))
  }

  /** One record's effect on the updates: a matched record overwrites its row. */
  function Route(u: map<nat, seq<Value>>, index: map<string, nat>, x: (Digest, seq<Value>)): map<nat, seq<Value>> {
    if x.0 in index then u[index[x.0] := x.1] else u
  }

  lemma RouteCovers(u: map<nat, seq<Value>>, index: map<string, nat>, prepared: Prepared, n: nat)
    requires 1 <= n <= |prepared| && UpdatesCover(u, index, prepared, n - 1)
    ensures UpdatesCover(Route(u, index, prepared[n - 1]), index, prepared, n)
  {
  }

  lemma RouteLastWins(u: map<nat, seq<Value>>, index: map<string, nat>, prepared: Prepared, n: nat)
    requires 1 <= n <= |prepared| && UpdatesLastWins(u, index, prepared, n - 1)
    ensures UpdatesLastWins(Route(u, index, prepared[n - 1]), index, prepared, n)
  {
    var x := prepared[n - 1];
    var v := Route(u, index, x);
    forall pos | pos in v
      ensures exists k :: (0 <= k < n && Matches(index, prepared[k].0, pos) && v[pos] == prepared[k].1
                           && forall j :: k < j < n ==> !Matches(index, prepared[j].0, pos))
    {
      if x.0 in index && pos == index[x.0] {
        assert Matches(index, prepared[n - 1].0, pos) && v[pos] == prepared[n - 1].1;
      } else {
        var k :| 0 <= k < n - 1 && Matches(index, prepared[k].0, pos) && u[pos] == prepared[k].1
                 && forall j :: k < j < n - 1 ==> !Matches(index, prepared[j].0, pos);
        assert !Matches(index, prepared[n - 1].0, pos);
        assert v[pos] == prepared[k].1;
      }
    }
  }

  /** The record loop over the first `n` records. */
  function ClassifyUpTo(index: map<string, nat>, prepared: Prepared, n: nat): (c: (map<nat, seq<Value>>, seq<seq<Value>>))
    requires n <= |prepared|
    ensures UpdatesCover(c.0, index, prepared, n) && UpdatesLastWins(c.0, index, prepared, n)
    ensures c.1 == Unmatched(index, prepared[..n])
    decreases n
  {
    if n == 0 then (map[], [])
    else
      var prev := ClassifyUpTo(index, prepared, n - 1);
      var x := prepared[n - 1];
      assert prepared[..n] == prepared[..n - 1] + [x];
      UnmatchedSnoc(index, prepared[..n - 1], x);
      RouteCovers(prev.0, index, prepared, n);
      RouteLastWins(prev.0, index, prepared, n);
      (Route(prev.0, index, x), if x.0 in index then prev.1 else prev.1 + [x.1])
  }

  /** The record loop of `mapRecordsToSheet`, in order: a record whose hash is
      in the index overwrites the update for that row, any other is appended
      to the new rows. The updates are a map keyed by row position, so the
      order in which PHP's `$updates` array first received each key is not
      kept. */
  function Classify(index: map<string, nat>, prepared: Prepared): (c: (map<nat, seq<Value>>, seq<seq<Value>>))
    ensures forall pos :: pos in c.0 <==> exists k :: 0 <= k < |prepared| && Matches(index, prepared[k].0, pos)
    ensures forall pos :: pos in c.0 ==>
              exists k :: (0 <= k < |prepared| && Matches(index, prepared[k].0, pos)
                           && c.0[pos] == prepared[k].1
                           && forall j :: k < j < |prepared| ==> !Matches(index, prepared[j].0, pos))
    ensures c.1 == Unmatched(index, prepared)
  {
    assert prepared[..|prepared|] == prepared;
    ClassifyUpTo(index, prepared, |prepared|)
  }

  /** The unmatched rows are exactly those of the records whose hash is not
      in the index: each such row appears, every row kept means no match,
      and none kept means all matched. */
  lemma {:induction false} UnmatchedPartition(index: map<string, nat>, prepared: Prepared)
    ensures forall k :: 0 <= k < |prepared| && prepared[k].0 !in index ==> prepared[k].1 in Unmatched(index, prepared)
    ensures |Unmatched(index, prepared)| == |prepared| <==> forall k :: 0 <= k < |prepared| ==> prepared[k].0 !in index
    ensures Unmatched(index, prepared) == [] <==> forall k :: 0 <= k < |prepared| ==> prepared[k].0 in index
    decreases |prepared|
  {
    if |prepared| > 0 {
      var rest := prepared[1..];
      UnmatchedPartition(index, rest);
      assert forall k :: 1 <= k < |prepared| ==> prepared[k] == rest[k - 1];
      assert Unmatched(index, prepared) == (if prepared[0].0 in index then [] else [prepared[0].1]) + Unmatched(index, rest);
      if |Unmatched(index, prepared)| == |prepared| {
        assert prepared[0].0 !in index;
      }
      if Unmatched(index, prepared) == [] {
        assert prepared[0].0 in index;
      }
    }
  }

  /** Every record goes to exactly one destination: a record whose hash the
      sheet has becomes the update of that hash's row, any other record's row
      is among the new rows; the new rows are all of the records exactly when
      none matched, and none exactly when all matched. */
  lemma ClassifyPartition(index: map<string, nat>, prepared: Prepared)
    ensures forall k :: 0 <= k < |prepared| && prepared[k].0 in index ==> index[prepared[k].0] in Classify(index, prepared).0
    ensures forall k :: 0 <= k < |prepared| && prepared[k].0 !in index ==> prepared[k].1 in Classify(index, prepared).1
    ensures |Classify(index, prepared).1| == |prepared| <==> forall k :: 0 <= k < |prepared| ==> prepared[k].0 !in index
    ensures Classify(index, prepared).1 == [] <==> forall k :: 0 <= k < |prepared| ==> prepared[k].0 in index
  {
    var c := Classify(index, prepared);
    forall k | 0 <= k < |prepared| && prepared[k].0 in index
      ensures index[prepared[k].0] in c.0
    {
      assert Matches(index, prepared[k].0, index[prepared[k].0]);
    }
    UnmatchedPartition(index, prepared);
  }

  // ---------------------------------------------------------------------------
  // The mapping

  /** What `mapRecordsToSheet` returns: the header to use, the rows to
      overwrite keyed by their position below the header, and the rows to
      append. */
  datatype Mapping = Mapping(header: seq<string>, updates: map<nat, seq<Value>>, newRows: seq<seq<Value>>)

  /** `array_shift` of the sheet yields no usable header: the sheet is empty or
      its first row is. */
  predicate FreshSheet(sheet: seq<seq<string>>) {
    |sheet| == 0 || |sheet[0]| == 0
  }

  /** The `TypeError` PHP raises when `defaultSheetHeaders()` returns null
      from `getHeadersFromModel(): array`. */
  const HeadersNotArray: Throwable :=
    Error(TypeError, NullReturnedForArray("Zuko\\SyncroSheet\\Services\\SheetRowMapper::getHeadersFromModel"))

  /** `getHeadersFromModel`: the model's `defaultSheetHeaders()`, else the keys
      of its `toSheetRow()`, else a `SyncException`. A `defaultSheetHeaders()`
      that returns null violates the method's `array` return type. */
  function HeadersFromModel(cls: ModelClass, r: Record): (h: Result<seq<string>, Throwable>)
    ensures cls.defaultHeaders.Returns? ==> h == Ok(cls.defaultHeaders.value)
    ensures cls.defaultHeaders.Undefined? && cls.hasToSheetRow ==> h == Ok(Keys(r.sheetRow))
    ensures h.Err? <==> cls.defaultHeaders.ReturnsNull? || (cls.defaultHeaders.Undefined? && !cls.hasToSheetRow)
    ensures h.Err? && cls.defaultHeaders.Undefined? ==> h.error.Exception? && h.error.eclass == SyncException
    ensures cls.defaultHeaders.ReturnsNull? ==> h == Err(HeadersNotArray)
  {
    match cls.defaultHeaders
    case Returns(headers) => Ok(headers)
    case ReturnsNull => Err(HeadersNotArray)
    case Undefined =>
      if cls.hasToSheetRow then Ok(Keys(r.sheetRow))
      else Err(Exception(SyncException, "Model must implement either defaultSheetHeaders() or toSheetRow()", None))
  }

  /** `prepareNewSheetData`: with no records, everything empty; otherwise the
      first record's headers plus the hash column, no updates, and one row per
      record with its hash appended. */
  function PrepareNewSheetData(rt: Runtime, cls: ModelClass, records: seq<Record>): (m: Result<Mapping, Throwable>)
    ensures |records| == 0 ==> m == Ok(Mapping([], map[], []))
    ensures |records| > 0 ==>
              (m.Err? <==> HeadersFromModel(cls, records[0]).Err? || Hashes(rt, cls, records).Err?)
    ensures m.Ok? ==> m.value.updates == map[] && |m.value.newRows| == |records|
    ensures m.Ok? && |records| > 0 ==>
              && m.value.header == HeadersFromModel(cls, records[0]).value + [HashColumn]
              && forall k :: 0 <= k < |records| ==>
                   var row := m.value.newRows[k];
                   |row| == NonHashCount(m.value.header) + 1 && row[|row| - 1] == Str(RecordHash(rt, cls, records[k]).value)
  {
    if |records| == 0 then Ok(Mapping([], map[], []))
    else
      var headers :- HeadersFromModel(cls, records[0]);
      var header := headers + [HashColumn];
      NonHashCountAppend(headers, HashColumn);
      var prepared :- PrepareRows(rt, cls, records, header, NonHashCount(header));
      var rows := Values(prepared);
      forall k | 0 <= k < |records|
        ensures |rows[k]| == NonHashCount(header) + 1
        ensures rows[k][|rows[k]| - 1] == Str(RecordHash(rt, cls, records[k]).value)
      {
        var h := Hashes(rt, cls, records).value[k];
        assert rows[k] == prepared[k].1 == OutgoingRow(cls, records[k], header, NonHashCount(header), h);
      }
      Ok(Mapping(header, map[], rows))
  }

  /** The hash column and index a non-fresh sheet is matched with. When the
      header lacks the hash column it is appended, and the index is built from
      rows blanked in that column. */
  function Layout(sheet: seq<seq<string>>): (l: (seq<string>, nat, map<string, nat>))
    requires !FreshSheet(sheet)
    ensures l.1 <= NonHashCount(l.0) && l.1 < |l.0| && l.0[l.1] == HashColumn
    ensures IndexOf(l.0, HashColumn) == Some(l.1)
    ensures forall h :: h in l.2 ==> exists p :: 0 <= p < |sheet| - 1 && HasHash(sheet[1..][p], l.1, h)
    ensures l.0 == if HashColumn in sheet[0] then sheet[0] else sheet[0] + [HashColumn]
  {
    var header := sheet[0];
    match IndexOf(header, HashColumn)
    case None =>
      NonHashCountAppend(header, HashColumn);
      IndexOfAppend(header, HashColumn);
      var index := HashIndex(BlankColumn(sheet[1..], |header|), |header|);
      assert forall h :: h !in index;
      (header + [HashColumn], |header|, index)
    case Some(i) =>
      HashIndexWithinRow(header);
      (header, i, HashIndex(sheet[1..], i))
  }

  /** `mapRecordsToSheet`. */
  function MapRecordsToSheet(rt: Runtime, cls: ModelClass, records: seq<Record>, sheet: seq<seq<string>>)
    : (m: Result<Mapping, Throwable>)
    ensures m.Ok? && !FreshSheet(sheet) ==> m.value.header == Layout(sheet).0
    ensures m.Ok? ==> |m.value.newRows| <= |records|
  {
    if FreshSheet(sheet) then PrepareNewSheetData(rt, cls, records)
    else
      var (header, hashIdx, index) := Layout(sheet);
      var prepared :- PrepareRows(rt, cls, records, header, hashIdx);
      var (updates, newRows) := Classify(index, prepared);
      Ok(Mapping(header, updates, newRows))
  }

  // ---------------------------------------------------------------------------
  // Properties of the mapping

  /** An empty sheet and no records give an empty header, no updates and no
      new rows. */
  lemma EmptySheetNoRecords(rt: Runtime, cls: ModelClass, sheet: seq<seq<string>>)
    requires FreshSheet(sheet)
    ensures MapRecordsToSheet(rt, cls, [], sheet) == Ok(Mapping([], map[], []))
  {
  }

  /** A sheet without a header: the header is the model's headers followed by
      the hash column, nothing is updated, and there is one new row per record,
      in record order, ending in that record's hash. */
  lemma FreshSheetLayout(rt: Runtime, cls: ModelClass, records: seq<Record>, sheet: seq<seq<string>>)
    requires FreshSheet(sheet) && |records| > 0
    requires MapRecordsToSheet(rt, cls, records, sheet).Ok?
    ensures var m := MapRecordsToSheet(rt, cls, records, sheet).value;
            && HeadersFromModel(cls, records[0]).Ok?
            && m.header == HeadersFromModel(cls, records[0]).value + [HashColumn]
            && m.updates == map[]
            && |m.newRows| == |records|
            && forall k :: 0 <= k < |records| ==>
                 && RecordHash(rt, cls, records[k]).Ok?
                 && m.newRows[k] == AlignRow(RowSource(cls, records[k]), m.header) + [Str(RecordHash(rt, cls, records[k]).value)]
  {
    var headers := HeadersFromModel(cls, records[0]).value;
    var header := headers + [HashColumn];
    NonHashCountAppend(headers, HashColumn);
  }

  /** A header without the hash column: the column is appended as the last
      header, every existing row is blank there, so the index is empty,
      nothing is updated and every record becomes a new row. */
  lemma MissingHashColumnAllNew(rt: Runtime, cls: ModelClass, records: seq<Record>, sheet: seq<seq<string>>)
    requires !FreshSheet(sheet) && HashColumn !in sheet[0]
    requires MapRecordsToSheet(rt, cls, records, sheet).Ok?
    ensures var m := MapRecordsToSheet(rt, cls, records, sheet).value;
            && m.header == sheet[0] + [HashColumn]
            && m.updates == map[]
            && |m.newRows| == |records|
  {
    var header := sheet[0];
    var blank := BlankColumn(sheet[1..], |header|);
    var index := HashIndex(blank, |header|);
    assert forall h :: h !in index;
    var (hd, hashIdx, ix) := Layout(sheet);
    var prepared := PrepareRows(rt, cls, records, hd, hashIdx).value;
    ClassifyPartition(ix, prepared);
    assert Classify(ix, prepared).0 == map[];
  }

  /** The header carries the hash column once, as its last cell. */
  predicate HashOnlyLast(header: seq<string>) {
    |header| > 0 && header[|header| - 1] == HashColumn && HashColumn !in header[..|header| - 1]
  }

  lemma HashOnlyLastIndex(header: seq<string>)
    requires HashOnlyLast(header)
    ensures IndexOf(header, HashColumn) == Some(|header| - 1)
    ensures NonHashCount(header) == |header| - 1
  {
    var init := header[..|header| - 1];
    assert header == init + [HashColumn];
    NonHashCountAppend(init, HashColumn);
    IndexOfAppend(init, HashColumn);
  }

  /** With the hash column as the only and last header, each outgoing row has
      one cell per header: the record's value (or null) under each data
      header, and the hash last. */
  lemma AlignedRowLength(cls: ModelClass, r: Record, header: seq<string>, h: Digest)
    requires HashOnlyLast(header)
    ensures NonHashCount(header) == |header| - 1
    ensures |OutgoingRow(cls, r, header, |header| - 1, h)| == |header|
    ensures OutgoingRow(cls, r, header, |header| - 1, h)[|header| - 1] == Str(h)
    ensures forall k :: 0 <= k < |header| - 1 ==>
              OutgoingRow(cls, r, header, |header| - 1, h)[k] == Lookup(RowSource(cls, r), header[k])
  {
    HashOnlyLastIndex(header);
    var init := header[..|header| - 1];
    forall k | 0 <= k < |header| - 1
      ensures NonHashCount(header[..k]) == k && header[k] != HashColumn
    {
      assert header[..k] == init[..k];
      assert header[k] == init[k];
      assert HashColumn !in init[..k];
    }
  }

  /** With the hash column before another header, the outgoing row is one cell
      short of the header and the hash overwrites the value of the header just
      after the hash column: the row is misaligned. */
  lemma HashNotLastOverwrites(cls: ModelClass, r: Record, header: seq<string>, h: Digest)
    requires |header| >= 2 && header[0] == HashColumn && HashColumn !in header[1..]
    ensures NonHashCount(header) == |header| - 1
    ensures var row := OutgoingRow(cls, r, header, 0, h);
            |row| == |header| - 1 && row[0] == Str(h)
            && forall k :: 1 <= k < |row| ==> row[k] == Lookup(RowSource(cls, r), header[k + 1])
  {
    var rest := AlignRow(RowSource(cls, r), header[1..]);
    assert AlignRow(RowSource(cls, r), header) == rest;
  }

  /** The rows below the header a second pass sees besides the appended ones. */
  function OldRows(sheet: seq<seq<string>>): seq<seq<string>> {
    if |sheet| == 0 then [] else sheet[1..]
  }

  /** The hash index of a first pass: empty for a sheet without a header. */
  function FirstIndex(sheet: seq<seq<string>>): map<string, nat> {
    if FreshSheet(sheet) then map[] else Layout(sheet).2
  }

  /** One unfolding of `MapRecordsToSheet` on a sheet with a header. */
  lemma UnfoldExisting(rt: Runtime, cls: ModelClass, records: seq<Record>, sheet: seq<seq<string>>)
    requires !FreshSheet(sheet)
    requires MapRecordsToSheet(rt, cls, records, sheet).Ok?
    ensures var l := Layout(sheet);
            var m := MapRecordsToSheet(rt, cls, records, sheet).value;
            && PrepareRows(rt, cls, records, l.0, l.1).Ok?
            && m.header == l.0
            && m.newRows == Unmatched(l.2, PrepareRows(rt, cls, records, l.0, l.1).value)
  {
    var l := Layout(sheet);
    var prepared := PrepareRows(rt, cls, records, l.0, l.1);
    assert prepared.Ok?;
    var c := Classify(l.2, prepared.value);
    assert MapRecordsToSheet(rt, cls, records, sheet) == Ok(Mapping(l.0, c.0, c.1));
  }

  /** One unfolding of `MapRecordsToSheet` on a sheet without a header. */
  lemma UnfoldFresh(rt: Runtime, cls: ModelClass, records: seq<Record>, sheet: seq<seq<string>>)
    requires FreshSheet(sheet) && |records| > 0
    requires MapRecordsToSheet(rt, cls, records, sheet).Ok?
    ensures var m := MapRecordsToSheet(rt, cls, records, sheet).value;
            && HeadersFromModel(cls, records[0]).Ok?
            && m.header == HeadersFromModel(cls, records[0]).value + [HashColumn]
            && NonHashCount(m.header) == NonHashCount(HeadersFromModel(cls, records[0]).value)
            && PrepareRows(rt, cls, records, m.header, NonHashCount(m.header)).Ok?
            && m.updates == map[]
            && m.newRows == Values(PrepareRows(rt, cls, records, m.header, NonHashCount(m.header)).value)
  {
    var headers := HeadersFromModel(cls, records[0]).value;
    NonHashCountAppend(headers, HashColumn);
  }

  /** A mapping whose header ends in its only hash column was matched on that
      column, against an index drawn from the sheet's rows. */
  lemma MappingLayout(rt: Runtime, cls: ModelClass, records: seq<Record>, sheet: seq<seq<string>>)
    requires MapRecordsToSheet(rt, cls, records, sheet).Ok?
    requires HashOnlyLast(MapRecordsToSheet(rt, cls, records, sheet).value.header)
    ensures var m := MapRecordsToSheet(rt, cls, records, sheet).value;
            var idx := |m.header| - 1;
            && NonHashCount(m.header) == idx
            && PrepareRows(rt, cls, records, m.header, idx).Ok?
            && m.newRows == Unmatched(FirstIndex(sheet), PrepareRows(rt, cls, records, m.header, idx).value)
            && forall h :: h in FirstIndex(sheet) ==>
                 exists p :: 0 <= p < |OldRows(sheet)| && HasHash(OldRows(sheet)[p], idx, h)
  {
    var m := MapRecordsToSheet(rt, cls, records, sheet).value;
    HashOnlyLastIndex(m.header);
    if FreshSheet(sheet) {
      UnfoldFresh(rt, cls, records, sheet);
      var prepared := PrepareRows(rt, cls, records, m.header, |m.header| - 1).value;
      UnmatchedAll(map[], prepared);
    } else {
      UnfoldExisting(rt, cls, records, sheet);
      assert sheet[1..] == OldRows(sheet);
    }
  }

  lemma {:induction false} UnmatchedAll(index: map<string, nat>, prepared: Prepared)
    requires forall k :: 0 <= k < |prepared| ==> prepared[k].0 !in index
    ensures Unmatched(index, prepared) == Values(prepared)
    decreases |prepared|
  {
    if |prepared| > 0 {
      assert forall k :: 1 <= k < |prepared| ==> prepared[k] == prepared[1..][k - 1];
      UnmatchedAll(index, prepared[1..]);
      assert Values(prepared) == [prepared[0].1] + Values(prepared[1..]);
    }
  }

  /** A sheet stores a string cell as its text. */
  predicate WrittenAs(written: seq<string>, row: seq<Value>) {
    |written| == |row| && forall c :: 0 <= c < |row| && row[c].Str? ==> written[c] == row[c].s
  }

  /** Every prepared hash sits, non-empty, in the hash column of some row of
      `before + written`: either a row the index was built from, or the
      appended row of a record the index lacked. */
  lemma HashesLandInRows(index: map<string, nat>, prepared: Prepared, before: seq<seq<string>>,
                         written: seq<seq<string>>, idx: nat, k: nat)
    requires forall h :: h in index ==> exists p :: 0 <= p < |before| && HasHash(before[p], idx, h)
    requires forall i :: 0 <= i < |prepared| ==> idx < |prepared[i].1| && prepared[i].1[idx] == Str(prepared[i].0)
    requires |written| == |Unmatched(index, prepared)|
    requires forall j :: 0 <= j < |written| ==> WrittenAs(written[j], Unmatched(index, prepared)[j])
    requires k < |prepared|
    ensures exists p :: 0 <= p < |before + written| && HasHash((before + written)[p], idx, prepared[k].0)
  {
    var data := before + written;
    var h := prepared[k].0;
    assert |h| == 16;
    if h in index {
      var p :| 0 <= p < |before| && HasHash(before[p], idx, h);
      assert data[p] == before[p];
    } else {
      ClassifyPartition(index, prepared);
      var newRows := Unmatched(index, prepared);
      var j :| 0 <= j < |newRows| && newRows[j] == prepared[k].1;
      assert HasHash(written[j], idx, h);
      assert data[|before| + j] == written[j];
    }
  }

  /** A second pass over a sheet whose hash column already holds every
      record's hash appends nothing. */
  lemma AllKnownNoNewRows(rt: Runtime, cls: ModelClass, records: seq<Record>, sheet: seq<seq<string>>)
    requires !FreshSheet(sheet) && HashOnlyLast(sheet[0])
    requires Hashes(rt, cls, records).Ok?
    requires forall k :: 0 <= k < |records| ==>
               exists p :: 0 <= p < |sheet| - 1 && HasHash(sheet[1..][p], |sheet[0]| - 1, Hashes(rt, cls, records).value[k])
    ensures MapRecordsToSheet(rt, cls, records, sheet).Ok?
    ensures MapRecordsToSheet(rt, cls, records, sheet).value.header == sheet[0]
    ensures MapRecordsToSheet(rt, cls, records, sheet).value.newRows == []
  {
    HashOnlyLastIndex(sheet[0]);
    var l := Layout(sheet);
    assert l.1 == |sheet[0]| - 1 && l.0 == sheet[0];
    assert l.2 == HashIndex(sheet[1..], l.1);
    var prepared := PrepareRows(rt, cls, records, l.0, l.1).value;
    forall k | 0 <= k < |prepared| ensures prepared[k].0 in l.2 {
      assert prepared[k].0 == Hashes(rt, cls, records).value[k];
    }
    ClassifyPartition(l.2, prepared);
    UnfoldExisting(rt, cls, records, sheet);
  }

  /** The first pass's mapping with its new rows written below its header:
      every record's hash then sits in the hash column of some row. */
  lemma FirstPassLeavesAllHashes(rt: Runtime, cls: ModelClass, records: seq<Record>, sheet: seq<seq<string>>,
                                 written: seq<seq<string>>)
    requires MapRecordsToSheet(rt, cls, records, sheet).Ok?
    requires HashOnlyLast(MapRecordsToSheet(rt, cls, records, sheet).value.header)
    requires var m := MapRecordsToSheet(rt, cls, records, sheet).value;
             |written| == |m.newRows| && forall j :: 0 <= j < |written| ==> WrittenAs(written[j], m.newRows[j])
    ensures Hashes(rt, cls, records).Ok?
    ensures var m := MapRecordsToSheet(rt, cls, records, sheet).value;
            var data := OldRows(sheet) + written;
            forall k :: 0 <= k < |records| ==>
              exists p :: 0 <= p < |data| && HasHash(data[p], |m.header| - 1, Hashes(rt, cls, records).value[k])
  {
    var m := MapRecordsToSheet(rt, cls, records, sheet).value;
    var idx := |m.header| - 1;
    MappingLayout(rt, cls, records, sheet);
    var prepared := PrepareRows(rt, cls, records, m.header, idx).value;
    forall i | 0 <= i < |prepared| ensures idx < |prepared[i].1| && prepared[i].1[idx] == Str(prepared[i].0) {
      AlignedRowLength(cls, records[i], m.header, prepared[i].0);
    }
    forall k | 0 <= k < |records|
      ensures exists p :: 0 <= p < |OldRows(sheet) + written|
                && HasHash((OldRows(sheet) + written)[p], idx, Hashes(rt, cls, records).value[k])
    {
      HashesLandInRows(FirstIndex(sheet), prepared, OldRows(sheet), written, idx, k);
    }
  }

  /** The sheet after appending `written` below a fresh copy of `header`. */
  function Appended(header: seq<string>, sheet: seq<seq<string>>, written: seq<seq<string>>): (r: seq<seq<string>>)
    ensures |r| > 0 && r[0] == header && r[1..] == OldRows(sheet) + written
  {
    [header] + OldRows(sheet) + written
  }

  /** Re-running is idempotent: once the new rows of one pass are appended
      below the returned header (hash column last), a second pass over the
      same records appends nothing and only updates. */
  lemma RerunAddsNoRows(rt: Runtime, cls: ModelClass, records: seq<Record>, sheet: seq<seq<string>>,
                        written: seq<seq<string>>)
    requires MapRecordsToSheet(rt, cls, records, sheet).Ok?
    requires HashOnlyLast(MapRecordsToSheet(rt, cls, records, sheet).value.header)
    requires var m := MapRecordsToSheet(rt, cls, records, sheet).value;
             |written| == |m.newRows| && forall j :: 0 <= j < |written| ==> WrittenAs(written[j], m.newRows[j])
    ensures var m := MapRecordsToSheet(rt, cls, records, sheet).value;
            var again := MapRecordsToSheet(rt, cls, records, Appended(m.header, sheet, written));
            again.Ok? && again.value.newRows == [] && again.value.header == m.header
  {
    var m := MapRecordsToSheet(rt, cls, records, sheet).value;
    var sheet2 := Appended(m.header, sheet, written);
    FirstPassLeavesAllHashes(rt, cls, records, sheet, written);
    AllKnownNoNewRows(rt, cls, records, sheet2);
  }
}
