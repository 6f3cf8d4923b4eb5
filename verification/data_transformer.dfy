/** Turns records into sheet rows whose every cell is a display string. */
module DataTransformer {
  import opened Wrappers
  import opened Php
  import opened Models

  /** A transformed row: column name to cell text, in `toSheetRow()` order. */
  type Cells = seq<(string, string)>

  /** `formatValue`: the text a value is written to a cell as. The date test is
      for `Illuminate\Support\Carbon` and comes before the generic object
      case, so such a date is formatted while a plain `\DateTime` or a bare
      `Carbon\Carbon` is JSON-encoded like any other object. */
  function FormatValue(rt: Runtime, v: Value): (cell: string)
    ensures v.Date? && v.d.dclass == IlluminateCarbon ==> cell == rt.formatDate(v.d)
    ensures v.Bool? ==> (cell == "Yes" || cell == "No") && (cell == "Yes" <==> v.b)
    ensures v.Arr? || v.Obj? || (v.Date? && v.d.dclass != IlluminateCarbon) ==> cell == rt.jsonEncode(v)
    ensures v.Null? ==> cell == ""
    ensures v.Int? ==> ParseInt(cell) == Some(v.i)
    ensures v.Str? ==> cell == v.s
    ensures v.Float? ==> cell == v.text
  {
    match v
    case Date(d) =>
      if d.dclass == IlluminateCarbon then rt.formatDate(d) else rt.jsonEncode(v)
    case Bool(b) => if b then "Yes" else "No"
    case Arr(_) => rt.jsonEncode(v)
    case Obj(_) => rt.jsonEncode(v)
    case Null => ""
    case Int(i) =>
      IntToStringRoundTrip(i);
      IntToString(i)
    case Float(t) => t
    case Str(s) => s
    case Other(t) => t
  }

  /** `transformRecord`: every value of `toSheetRow()` formatted, keys kept. */
  function TransformRecord(rt: Runtime, row: Row): (cells: Cells)
    ensures |cells| == |row|
    ensures forall k :: 0 <= k < |row| ==> cells[k] == (row[k].0, FormatValue(rt, row[k].1))
  {
    seq(|row|, k requires 0 <= k < |row| => (row[k].0, FormatValue(rt, row[k].1)))
  }

  /** `transformBatch`: one transformed row per record, in record order; an
      empty batch gives an empty list. */
  function TransformBatch(rt: Runtime, records: seq<Record>): (rows: seq<Cells>)
    ensures |rows| == |records|
    ensures forall k :: 0 <= k < |records| ==> rows[k] == TransformRecord(rt, records[k].sheetRow)
  {
    if |records| == 0 then []
    else seq(|records|, k requires 0 <= k < |records| => TransformRecord(rt, records[k].sheetRow))
  }

  /** Transforming a batch distributes over concatenation, so transforming
      chunk by chunk yields the rows of transforming the whole list at once. */
  lemma TransformBatchAppend(rt: Runtime, a: seq<Record>, b: seq<Record>)
    ensures TransformBatch(rt, a + b) == TransformBatch(rt, a) + TransformBatch(rt, b)
  {
    var whole := TransformBatch(rt, a + b);
    var parts := TransformBatch(rt, a) + TransformBatch(rt, b);
    forall k | 0 <= k < |whole| ensures whole[k] == parts[k] {
      if k < |a| {
        assert (a + b)[k] == a[k];
      } else {
        assert (a + b)[k] == b[k - |a|];
      }
    }
  }
}
