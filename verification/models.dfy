/** The application side the engine works against: a synchronisable model
    class with the optional capabilities it may or may not implement, one
    record of it, and the table metadata schema introspection reports. */
module Models {
  import opened Wrappers
  import opened Php

  /** A PHP associative array from column name to value, in insertion order,
      as `toSheetRow()` or `toArray()` returns it. */
  type Row = seq<(string, Value)>

  /** `array_keys($row)`. */
  function Keys<V>(row: seq<(string, V)>): (ks: seq<string>)
    ensures |ks| == |row|
    ensures forall k :: 0 <= k < |row| ==> ks[k] == row[k].0
  {
    seq(|row|, k requires 0 <= k < |row| => row[k].0)
  }

  /** `array_values($row)`. */
  function Values<K, V>(row: seq<(K, V)>): (vs: seq<V>)
    ensures |vs| == |row|
    ensures forall k :: 0 <= k < |row| ==> vs[k] == row[k].1
  {
    seq(|row|, k requires 0 <= k < |row| => row[k].1)
  }

  /** A PHP array never repeats a key. */
  predicate UniqueKeys<V>(row: seq<(string, V)>) {
    forall i, j :: 0 <= i < j < |row| ==> row[i].0 != row[j].0
  }

  /** `$row[$key] ?? null`. */
  function Lookup(row: Row, key: string): (v: Value)
    ensures (exists k :: 0 <= k < |row| && row[k].0 == key) || v == Null
  {
    if |row| == 0 then Null
    else if row[0].0 == key then row[0].1
    else
      var v := Lookup(row[1..], key);
      assert forall k :: 1 <= k < |row| ==> row[k] == row[1..][k - 1];
      v
  }

  /** A spreadsheet id plus the sheet (tab) name inside it. */
  datatype SheetAddress = SheetAddress(spreadsheetId: string, sheetName: string)

  /** One database index: its columns and whether it is primary or unique. */
  datatype Index = Index(columns: seq<string>, primary: bool, unique: bool)

  /** One table column and its NOT NULL flag. */
  datatype Column = Column(name: string, notNull: bool)

  /** What schema introspection lists for a table: indexes, the local columns
      of each foreign key, and the columns. */
  datatype SchemaMeta = SchemaMeta(indexes: seq<Index>, foreignKeys: seq<seq<string>>, columns: seq<Column>)

  /** An optional method declared to return an array: the class does not
      define it, defines it but returns null, or returns an array. */
  datatype ArrayMethod<T> = Undefined | ReturnsNull | Returns(value: T)

  /** A model class as the engine sees it. Optional methods whose callers
      treat a missing method and a null return alike are `Option`s (`None`
      when the class does not define the method or it returns null):
      - `classExists`: `class_exists`; `isModel`, `isSyncable`: whether an instance
        is an Eloquent model and implements the sync contract;
      - `hasToSheetRow`: whether `toSheetRow()` is defined;
      - `defaultHeaders`: `defaultSheetHeaders()`, told apart from a null
        return because `getHeadersFromModel` is declared to return an array;
      - `uniqueAttributes`: `getSheetUniqueAttributes()`;
      - `preferredMode`: `getPreferredSyncMode()`;
      - `batchSize`: `getBatchSize()`;
      - `timestamps`: the model's `$timestamps` flag;
      - `sheet`: `getSheetIdentifier()` and `getSheetName()`;
      - `sampleRow`: `toSheetRow()` of a freshly constructed instance;
      - `schema`: the table metadata, `None` when introspection throws. */
  datatype ModelClass = ModelClass(
    name: string,
    classExists: bool,
    isModel: bool,
    isSyncable: bool,
    hasToSheetRow: bool,
    defaultHeaders: ArrayMethod<seq<string>>,
    uniqueAttributes: Option<seq<string>>,
    preferredMode: Option<string>,
    batchSize: Option<int>,
    timestamps: bool,
    sheet: SheetAddress,
    sampleRow: Row,
    schema: Option<SchemaMeta>)

  /** One stored record: its `id` column, `getKey()`, its attributes as
      `getAttribute` returns them, `toSheetRow()` and `toArray()`. */
  datatype Record = Record(id: int, key: Value, attributes: map<string, Value>, sheetRow: Row, asArray: Row)

  /** `$model->getAttribute($name)`: null for an unknown attribute. */
  function Attribute(r: Record, name: string): Value {
    if name in r.attributes then r.attributes[name] else Null
  }

  /** `$records->pluck('id')`. */
  function Ids(records: seq<Record>): (ids: seq<int>)
    ensures |ids| == |records|
    ensures forall k :: 0 <= k < |records| ==> ids[k] == records[k].id
  {
    seq(|records|, k requires 0 <= k < |records| => records[k].id)
  }

  /** A table snapshot: records in ascending primary-key order, so that each
      id occurs once. */
  predicate WellFormedTable(table: seq<Record>) {
    forall i, j :: 0 <= i < j < |table| ==> table[i].id < table[j].id
  }
}
