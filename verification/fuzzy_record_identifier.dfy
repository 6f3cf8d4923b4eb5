/** The identifying-field heuristic: scores every column of a sample row from
    schema metadata, the column name and the shape of its value, then picks
    the best-scoring columns as a record's identity. It is a pure function of
    the sample row, the schema metadata and the timestamps flag: the scores
    and schema information are rebuilt from scratch on every call. */
module FuzzyRecordIdentifier {
  import opened Wrappers
  import opened Php
  import opened Models

  const MinStringLength: nat := 10
  const MaxStringLength: nat := 150
  const MinIdentifyingFields: nat := 2
  const MaxIdentifyingFields: nat := 5
  const ScoreThreshold: real := 0.6
  const ForeignKeyScore: real := 0.4
  const NullablePenalty: real := 0.8
  const NameBonus: real := 0.3
  const CreatedAt: string := "created_at"

  /** Column name to schema score. */
  type SchemaInfo = map<string, real>

  /** A column name with its score. */
  type Scored = seq<(string, real)>

  function MaxR(a: real, b: real): real {
    if a >= b then a else b
  }

  function MinR(a: real, b: real): real {
    if a <= b then a else b
  }

  /** `$info[$c] ?? 0`. */
  function Get0(info: SchemaInfo, c: string): real {
    if c in info then info[c] else 0.0
  }

  predicate InUnit(info: SchemaInfo) {
    forall c :: c in info ==> 0.0 <= info[c] <= 1.0
  }

  // ---------------------------------------------------------------------------
  // Schema analysis

  /** `getIndexScore`. */
  function IndexScore(ix: Index): (s: real)
    ensures 0.3 <= s <= 1.0
    ensures s == 1.0 <==> ix.primary
    ensures s == 0.9 <==> !ix.primary && ix.unique
  {
    if ix.primary then 1.0 else if ix.unique then 0.9 else 0.3
  }

  /** Raises each listed column to at least `s`, a column seen for the first
      time starting from 0. */
  function Raise(info: SchemaInfo, cols: seq<string>, s: real): (r: SchemaInfo)
    requires InUnit(info) && 0.0 <= s <= 1.0
    ensures InUnit(r)
    decreases |cols|
  {
    if |cols| == 0 then info
    else Raise(info[cols[0] := MaxR(Get0(info, cols[0]), s)], cols[1..], s)
  }

  /** The index loop of `analyzeSchema`. */
  function IndexPass(info: SchemaInfo, ixs: seq<Index>): (r: SchemaInfo)
    requires InUnit(info)
    ensures InUnit(r)
    decreases |ixs|
  {
    if |ixs| == 0 then info
    else IndexPass(Raise(info, ixs[0].columns, IndexScore(ixs[0])), ixs[1..])
  }

  /** The foreign-key loop of `analyzeSchema`. */
  function ForeignKeyPass(info: SchemaInfo, fks: seq<seq<string>>): (r: SchemaInfo)
    requires InUnit(info)
    ensures InUnit(r)
    decreases |fks|
  {
    if |fks| == 0 then info
    else ForeignKeyPass(Raise(info, fks[0], ForeignKeyScore), fks[1..])
  }

  /** The nullable-column loop of `analyzeSchema`. */
  function NullablePass(info: SchemaInfo, cols: seq<Column>): (r: SchemaInfo)
    requires InUnit(info)
    ensures InUnit(r)
    decreases |cols|
  {
    if |cols| == 0 then info
    else NullablePass(Penalize(info, cols[0]), cols[1..])
  }

  /** One column of the nullable loop: a nullable column's score is scaled by
      0.8, a column seen for the first time starting from 0. */
  function Penalize(info: SchemaInfo, col: Column): (r: SchemaInfo)
    requires InUnit(info)
    ensures InUnit(r)
  {
    if col.notNull then info else info[col.name := Get0(info, col.name) * NullablePenalty]
  }

  /** `analyzeSchema`: `None` stands for introspection throwing, which leaves
      the schema information empty. */
  function AnalyzeSchema(schema: Option<SchemaMeta>): (info: SchemaInfo)
    ensures InUnit(info)
    ensures schema.None? ==> info == map[]
  {
    match schema
    case None => map[]
    case Some(meta) =>
      NullablePass(ForeignKeyPass(IndexPass(map[], meta.indexes), meta.foreignKeys), meta.columns)
  }

  // Reference definition of a column's schema score, column by column.

  predicate InSomeIndex(ixs: seq<Index>, c: string) {
    exists k :: 0 <= k < |ixs| && c in ixs[k].columns
  }

  /** The best score of the indexes that list `c`, 0 when none does. */
  function IndexMax(ixs: seq<Index>, c: string): (m: real)
    ensures 0.0 <= m <= 1.0
    decreases |ixs|
  {
    if |ixs| == 0 then 0.0
    else MaxR(if c in ixs[0].columns then IndexScore(ixs[0]) else 0.0, IndexMax(ixs[1..], c))
  }

  predicate InForeignKey(fks: seq<seq<string>>, c: string) {
    exists k :: 0 <= k < |fks| && c in fks[k]
  }

  /** How many nullable columns named `c` introspection lists. */
  function NullableCount(cols: seq<Column>, c: string): nat
    decreases |cols|
  {
    if |cols| == 0 then 0
    else (if !cols[0].notNull && cols[0].name == c then 1 else 0) + NullableCount(cols[1..], c)
  }

  function Pow(x: real, n: nat): real
    decreases n
  {
    if n == 0 then 1.0 else x * Pow(x, n - 1)
  }

  /** Whether the schema information gets an entry for `c` at all. */
  predicate Mentioned(meta: SchemaMeta, c: string) {
    InSomeIndex(meta.indexes, c) || InForeignKey(meta.foreignKeys, c) || NullableCount(meta.columns, c) > 0
  }

  /** A column's schema score: the best of its index scores, at least 0.4 when
      it is a foreign-key column, then 0.8 applied once per nullable listing. */
  function ExpectedSchemaScore(meta: SchemaMeta, c: string): real {
    KeyScore(meta, c) * Pow(NullablePenalty, NullableCount(meta.columns, c))
  }

  /** A column's score before the nullable penalty: the best of its index
      scores, at least 0.4 when it is a foreign-key column. */
  function KeyScore(meta: SchemaMeta, c: string): real {
    MaxR(IndexMax(meta.indexes, c), if InForeignKey(meta.foreignKeys, c) then ForeignKeyScore else 0.0)
  }

  lemma {:induction false} RaiseSpec(info: SchemaInfo, cols: seq<string>, s: real, c: string)
    requires InUnit(info) && 0.0 <= s <= 1.0
    ensures c in Raise(info, cols, s) <==> c in info || c in cols
    ensures Get0(Raise(info, cols, s), c) == if c in cols then MaxR(Get0(info, c), s) else Get0(info, c)
    decreases |cols|
  {
    if |cols| > 0 {
      var info1 := info[cols[0] := MaxR(Get0(info, cols[0]), s)];
      RaiseSpec(info1, cols[1..], s, c);
      assert c in cols <==> c == cols[0] || c in cols[1..];
    }
  }

  lemma {:induction false} IndexPassSpec(info: SchemaInfo, ixs: seq<Index>, c: string)
    requires InUnit(info)
    ensures c in IndexPass(info, ixs) <==> c in info || InSomeIndex(ixs, c)
    ensures Get0(IndexPass(info, ixs), c) == MaxR(Get0(info, c), IndexMax(ixs, c))
    decreases |ixs|
  {
    if |ixs| > 0 {
      var info1 := Raise(info, ixs[0].columns, IndexScore(ixs[0]));
      RaiseSpec(info, ixs[0].columns, IndexScore(ixs[0]), c);
      IndexPassSpec(info1, ixs[1..], c);
      assert InSomeIndex(ixs, c) <==> c in ixs[0].columns || InSomeIndex(ixs[1..], c) by {
        if InSomeIndex(ixs[1..], c) {
          var k :| 0 <= k < |ixs[1..]| && c in ixs[1..][k].columns;
          assert c in ixs[k + 1].columns;
        }
        if InSomeIndex(ixs, c) && c !in ixs[0].columns {
          var k :| 0 <= k < |ixs| && c in ixs[k].columns;
          assert k > 0 && c in ixs[1..][k - 1].columns;
        }
      }
    }
  }

  lemma {:induction false} ForeignKeyPassSpec(info: SchemaInfo, fks: seq<seq<string>>, c: string)
    requires InUnit(info)
    ensures c in ForeignKeyPass(info, fks) <==> c in info || InForeignKey(fks, c)
    ensures Get0(ForeignKeyPass(info, fks), c)
         == if InForeignKey(fks, c) then MaxR(Get0(info, c), ForeignKeyScore) else Get0(info, c)
    decreases |fks|
  {
    if |fks| > 0 {
      var info1 := Raise(info, fks[0], ForeignKeyScore);
      RaiseSpec(info, fks[0], ForeignKeyScore, c);
      ForeignKeyPassSpec(info1, fks[1..], c);
      assert InForeignKey(fks, c) <==> c in fks[0] || InForeignKey(fks[1..], c) by {
        if InForeignKey(fks[1..], c) {
          var k :| 0 <= k < |fks[1..]| && c in fks[1..][k];
          assert c in fks[k + 1];
        }
        if InForeignKey(fks, c) && c !in fks[0] {
          var k :| 0 <= k < |fks| && c in fks[k];
          assert k > 0 && c in fks[1..][k - 1];
        }
      }
    }
  }

  lemma {:induction false} NullablePassSpec(info: SchemaInfo, cols: seq<Column>, c: string)
    requires InUnit(info)
    ensures c in NullablePass(info, cols) <==> c in info || NullableCount(cols, c) > 0
    ensures Get0(NullablePass(info, cols), c) == Penalized(Get0(info, c), NullableCount(cols, c))
    decreases |cols|
  {
    if |cols| > 0 {
      var n := NullableCount(cols[1..], c);
      var info1 := Penalize(info, cols[0]);
      assert NullablePass(info, cols) == NullablePass(info1, cols[1..]);
      PenalizeSpec(info, cols[0], c);
      NullablePassSpec(info1, cols[1..], c);
      if !cols[0].notNull && cols[0].name == c {
        assert NullableCount(cols, c) == n + 1;
      } else {
        assert NullableCount(cols, c) == n;
      }
    }
  }

  /** `a` with the nullable penalty applied `n` times over. */
  function Penalized(a: real, n: nat): real
    decreases n
  {
    if n == 0 then a else Penalized(a * NullablePenalty, n - 1)
  }

  lemma {:induction false} PenalizedIsPower(a: real, n: nat)
    ensures Penalized(a, n) == a * Pow(NullablePenalty, n)
    decreases n
  {
    if n > 0 {
      PenalizedIsPower(a * NullablePenalty, n - 1);
      PenaltyStep(a, n - 1);
    }
  }

  lemma PenalizeSpec(info: SchemaInfo, col: Column, c: string)
    requires InUnit(info)
    ensures c in Penalize(info, col) <==> c in info || (!col.notNull && col.name == c)
    ensures Get0(Penalize(info, col), c)
         == if !col.notNull && col.name == c then Get0(info, c) * NullablePenalty else Get0(info, c)
  {
  }

  /** One more penalty folds into the power. */
  lemma PenaltyStep(a: real, n: nat)
    ensures (a * NullablePenalty) * Pow(NullablePenalty, n) == a * Pow(NullablePenalty, n + 1)
  {
    assert Pow(NullablePenalty, n + 1) == NullablePenalty * Pow(NullablePenalty, n);
  }

  /** The schema map built by folding over indexes, foreign keys and columns
      agrees, column by column, with the reference definition: a column has an
      entry exactly when some index, foreign key or nullable listing mentions
      it, and the entry is `ExpectedSchemaScore`. */
  lemma AnalyzeSchemaMatchesReference(meta: SchemaMeta, c: string)
    ensures c in AnalyzeSchema(Some(meta)) <==> Mentioned(meta, c)
    ensures Get0(AnalyzeSchema(Some(meta)), c) == ExpectedSchemaScore(meta, c)
  {
    AnalyzeSchemaPenalized(meta, c);
    PenalizedIsPower(KeyScore(meta, c), NullableCount(meta.columns, c));
  }

  /** The three passes in terms of `KeyScore` and the nullable penalty. */
  lemma AnalyzeSchemaPenalized(meta: SchemaMeta, c: string)
    ensures c in AnalyzeSchema(Some(meta)) <==> Mentioned(meta, c)
    ensures Get0(AnalyzeSchema(Some(meta)), c) == Penalized(KeyScore(meta, c), NullableCount(meta.columns, c))
  {
    var i1 := IndexPass(map[], meta.indexes);
    var i2 := ForeignKeyPass(i1, meta.foreignKeys);
    IndexPassSpec(map[], meta.indexes, c);
    ForeignKeyPassSpec(i1, meta.foreignKeys, c);
    NullablePassSpec(i2, meta.columns, c);
    assert Get0(i2, c) == KeyScore(meta, c);
  }

  // ---------------------------------------------------------------------------
  // Name and value scores

  const IdentifierNames: seq<string> := ["id", "uuid", "email", "username", "slug", "code", "sku", "reference"]

  function LowerAscii(c: char): char {
    if 'A' <= c <= 'Z' then (c as int + 32) as char else c
  }

  /** ASCII case folding, as a `/i` pattern without the `u` flag applies it. */
  function Lower(s: string): (r: string)
    ensures |r| == |s|
    ensures forall k :: 0 <= k < |s| ==> r[k] == LowerAscii(s[k])
  {
    seq(|s|, k requires 0 <= k < |s| => LowerAscii(s[k]))
  }

  /** What a pattern anchored with `$` must match: PCRE's `$` also matches just
      before a final newline. */
  function BeforeFinalNewline(s: string): string {
    if |s| > 0 && s[|s| - 1] == '\n' then s[..|s| - 1] else s
  }

  predicate EndsWith(s: string, suffix: string) {
    |s| >= |suffix| && s[|s| - |suffix|..] == suffix
  }

  /** `isLikelyIdentifier`: the name is, ignoring ASCII case, one of the
      identifier words, or ends in `_id`. */
  predicate IsLikelyIdentifier(field: string) {
    var core := Lower(BeforeFinalNewline(field));
    core in IdentifierNames || EndsWith(core, "_id")
  }

  /** Every identifier word matches whatever its letter case, and a match
      has at least two characters. */
  lemma IdentifierWordsMatch(field: string)
    ensures Lower(field) in IdentifierNames ==> IsLikelyIdentifier(field)
    ensures IsLikelyIdentifier(field) ==> |field| >= 2
  {
  }

  /** The name test ignores letter case. */
  lemma IdentifierIgnoresCase(field: string)
    ensures IsLikelyIdentifier(Lower(field)) == IsLikelyIdentifier(field)
  {
    assert Lower(BeforeFinalNewline(Lower(field))) == Lower(BeforeFinalNewline(field));
  }

  /** Every name ending in `_id`, in any letter case, is identifier-like. */
  lemma ForeignKeyNamesAreIdentifiers(prefix: string, suffix: string)
    requires Lower(suffix) == "_id"
    ensures IsLikelyIdentifier(prefix + suffix)
  {
    var f := prefix + suffix;
    assert BeforeFinalNewline(f) == f;
    var core := Lower(f);
    assert core[|core| - 3..] == Lower(suffix);
  }

  predicate IsEmoji(c: char) {
    var n := c as int;
    (0x1F300 <= n <= 0x1F64F) || (0x1F680 <= n <= 0x1F6FF) || (0x2600 <= n <= 0x26FF)
    || (0x2700 <= n <= 0x27BF) || (0x1F900 <= n <= 0x1F9FF) || (0x1F1E0 <= n <= 0x1F1FF)
  }

  /** `containsEmoji`: some character lies in one of the emoji blocks. */
  predicate ContainsEmoji(s: string) {
    exists k :: 0 <= k < |s| && IsEmoji(s[k])
  }

  /** `looksLikeJson`: starts with `{` or `[` and `json_decode` accepts it. */
  predicate LooksLikeJson(rt: Runtime, s: string) {
    |s| > 0 && (s[0] == '{' || s[0] == '[') && rt.jsonDecodes(s)
  }

  /** Position of the last `.` in a string. */
  function LastDot(s: string): (p: Option<nat>)
    ensures p.Some? ==> p.value < |s| && s[p.value] == '.'
    ensures p.Some? ==> forall k :: p.value < k < |s| ==> s[k] != '.'
    ensures p.None? ==> forall k :: 0 <= k < |s| ==> s[k] != '.'
    decreases |s|
  {
    if |s| == 0 then None
    else if s[|s| - 1] == '.' then Some(|s| - 1)
    else LastDot(s[..|s| - 1])
  }

  /** `strlen(substr(strrchr($text, "."), 1))`: characters after the last dot
      of the float's string form, 0 when there is none. */
  function Decimals(text: string): nat {
    match LastDot(text)
    case None => 0
    case Some(p) => |text| - p - 1
  }

  /** `isSimpleArrayOrObject`: at most three members, none an array or object. */
  predicate IsSimple(members: seq<Value>) {
    |members| <= 3 && forall k :: 0 <= k < |members| ==> !IsArrayOrObject(members[k])
  }

  /** Whether `getValueScore` can score a value: `isLikelyCreationDate` hands
      a date to `Str::contains`, and `str_contains` accepts a Carbon date
      through its `__toString` but raises a `TypeError` for a plain
      `\DateTime`, which has none. */
  predicate Scorable(v: Value) {
    !(v.Date? && v.d.dclass == PlainDateTime)
  }

  /** Whether every value of a sample row can be scored. */
  predicate ScorableRow(sample: Row) {
    forall k :: 0 <= k < |sample| ==> Scorable(sample[k].1)
  }

  /** The `TypeError` a plain `\DateTime` raises in the creation-date probe. */
  const DateNotString: Throwable := Error(TypeError, HaystackNotString("DateTime"))

  /** `getValueScore`. Strings are tested before numbers, so a numeric string
      is scored as a string. */
  function ValueScore(rt: Runtime, v: Value): (r: Result<real, Throwable>)
    ensures r.Err? <==> !Scorable(v)
    ensures r.Err? ==> r.error == DateNotString
    ensures r.Ok? ==> 0.0 <= r.value <= 0.8
    ensures v.Null? || v.Bool? ==> r == Ok(0.0)
    ensures v.Date? && Scorable(v) ==> (r == Ok(0.8) <==> rt.creationLike(v.d)) && (r == Ok(0.8) || r == Ok(0.2))
    ensures v.Str? ==> (r == Ok(0.0) <==> LooksLikeJson(rt, v.s) || ContainsEmoji(v.s))
    ensures v.Str? ==> (r == Ok(0.6) <==> !LooksLikeJson(rt, v.s) && !ContainsEmoji(v.s)
                                          && MinStringLength <= |v.s| <= MaxStringLength)
    ensures v.Str? ==> r == Ok(0.0) || r == Ok(0.2) || r == Ok(0.6)
    ensures v.Int? ==> (r == Ok(0.1) <==> 0 <= v.i <= 12) && (r == Ok(0.1) || r == Ok(0.4))
    ensures v.Float? ==> (r == Ok(0.5) <==> 1 <= Decimals(v.text) <= 3) && (r == Ok(0.5) || r == Ok(0.4))
    ensures v.Arr? ==> (r == Ok(0.3) <==> IsSimple(v.items)) && (r == Ok(0.3) || r == Ok(0.0))
    ensures v.Obj? ==> (r == Ok(0.3) <==> IsSimple(v.members)) && (r == Ok(0.3) || r == Ok(0.0))
    ensures v.Other? ==> r == Ok(0.1)
  {
    match v
    case Null => Ok(0.0)
    case Date(d) =>
      if d.dclass == PlainDateTime then Err(DateNotString)
      else if rt.creationLike(d) then Ok(0.8) else Ok(0.2)
    case Str(str) =>
      if LooksLikeJson(rt, str) then Ok(0.0)
      else if ContainsEmoji(str) then Ok(0.0)
      else if MinStringLength <= |str| <= MaxStringLength then Ok(0.6)
      else Ok(0.2)
    case Int(i) => if 0 <= i <= 12 then Ok(0.1) else Ok(0.4)
    case Float(t) =>
      var d := Decimals(t);
      if d > 0 && d <= 3 then Ok(0.5) else Ok(0.4)
    case Arr(items) => if IsSimple(items) then Ok(0.3) else Ok(0.0)
    case Obj(members) => if IsSimple(members) then Ok(0.3) else Ok(0.0)
    case Bool(_) => Ok(0.0)
    case Other(_) => Ok(0.1)
  }

  /** `scoreField`: schema score plus name bonus plus value score, capped at
      1; the value's `TypeError` passes through. */
  function ScoreField(rt: Runtime, info: SchemaInfo, field: string, value: Value): (r: Result<real, Throwable>)
    requires InUnit(info)
    ensures r.Err? <==> ValueScore(rt, value).Err?
    ensures r.Err? ==> r.error == DateNotString
    ensures r.Ok? ==>
              && 0.0 <= r.value <= 1.0
              && (r.value == 1.0 ||
                  r.value == Get0(info, field) + (if IsLikelyIdentifier(field) then NameBonus else 0.0)
                             + ValueScore(rt, value).value)
              && r.value >= ValueScore(rt, value).value && r.value >= Get0(info, field)
  {
    var v :- ValueScore(rt, value);
    Ok(MinR(1.0, Get0(info, field) + (if IsLikelyIdentifier(field) then NameBonus else 0.0) + v))
  }

  /** The score of every column of the sample row, in row order; the first
      value that cannot be scored aborts with its `TypeError`. */
  function FieldScores(rt: Runtime, info: SchemaInfo, sample: Row): (r: Result<Scored, Throwable>)
    requires InUnit(info)
    ensures r.Ok? <==> ScorableRow(sample)
    ensures r.Err? ==> r.error == DateNotString
    ensures r.Ok? ==> |r.value| == |sample|
    ensures r.Ok? ==> forall k :: 0 <= k < |sample| ==>
              r.value[k] == (sample[k].0, ScoreField(rt, info, sample[k].0, sample[k].1).value)
  {
    if ScorableRow(sample) then
      Ok(seq(|sample|, k requires 0 <= k < |sample| => (sample[k].0, ScoreField(rt, info, sample[k].0, sample[k].1).value)))
    else Err(DateNotString)
  }

  // ---------------------------------------------------------------------------
  // Ordering and selection

  predicate SortedDesc(s: Scored) {
    forall i, j :: 0 <= i < j < |s| ==> s[i].1 >= s[j].1
  }

  /** Places `x` before the first entry it is not below; entries already
      present with an equal score stay behind `x`. */
  function InsertDesc(x: (string, real), s: Scored): (r: Scored)
    requires SortedDesc(s)
    ensures SortedDesc(r)
    ensures multiset(r) == multiset(s) + multiset{x}
    ensures |r| == |s| + 1
    ensures r[0] == if |s| == 0 || s[0].1 <= x.1 then x else s[0]
    decreases |s|
  {
    if |s| == 0 then [x]
    else if s[0].1 <= x.1 then [x] + s
    else
      var tail := InsertDesc(x, s[1..]);
      assert s == [s[0]] + s[1..];
      assert tail[0].1 <= s[0].1;
      [s[0]] + tail
  }

  lemma {:induction false} InsertDescUnique(x: (string, real), s: Scored)
    requires SortedDesc(s) && UniqueKeys(s)
    requires forall k :: 0 <= k < |s| ==> s[k].0 != x.0
    ensures UniqueKeys(InsertDesc(x, s))
    decreases |s|
  {
    if |s| > 0 && s[0].1 > x.1 {
      var tail := InsertDesc(x, s[1..]);
      InsertDescUnique(x, s[1..]);
      forall k | 0 <= k < |tail| ensures tail[k].0 != s[0].0 {
        assert tail[k] in multiset(tail);
        if tail[k] != x {
          assert tail[k] in multiset(s[1..]);
          var j :| 0 <= j < |s[1..]| && s[1..][j] == tail[k];
          assert s[j + 1] == tail[k];
        }
      }
      assert InsertDesc(x, s) == [s[0]] + tail;
    }
  }

  /** The entries scoring exactly `v`, in their order in `s`. */
  function Ties(s: Scored, v: real): (t: Scored)
    decreases |s|
  {
    if |s| == 0 then []
    else (if s[0].1 == v then [s[0]] else []) + Ties(s[1..], v)
  }

  /** Inserting `x` puts it ahead of the entries that tie with it and leaves
      every other group of ties as it was. */
  lemma {:induction false} InsertDescTies(x: (string, real), s: Scored, v: real)
    requires SortedDesc(s)
    ensures Ties(InsertDesc(x, s), v) == (if x.1 == v then [x] else []) + Ties(s, v)
    decreases |s|
  {
    if |s| == 0 {
      TiesCons(x, [], v);
    } else if s[0].1 <= x.1 {
      TiesCons(x, s, v);
    } else {
      SortedDescTail(s);
      var tail := InsertDesc(x, s[1..]);
      assert InsertDesc(x, s) == [s[0]] + tail;
      TiesCons(s[0], tail, v);
      InsertDescTies(x, s[1..], v);
      TiesCons(s[0], s[1..], v);
      assert [s[0]] + s[1..] == s;
      DisjointTiesCommute(if s[0].1 == v then [s[0]] else [], if x.1 == v then [x] else [], Ties(s[1..], v));
    }
  }

  lemma SortedDescTail(s: Scored)
    requires SortedDesc(s) && |s| > 0
    ensures SortedDesc(s[1..])
  {
    forall i, j | 0 <= i < j < |s| - 1
      ensures s[1..][i].1 >= s[1..][j].1
    {
      assert s[1..][i] == s[i + 1] && s[1..][j] == s[j + 1];
    }
  }

  /** Two groups of which at least one is empty can be put in either order. */
  lemma DisjointTiesCommute(a: Scored, b: Scored, t: Scored)
    requires a == [] || b == []
    ensures a + (b + t) == b + (a + t)
  {
    if a == [] {
      assert a + (b + t) == b + t == b + (a + t);
    } else {
      assert a + (b + t) == a + t == b + (a + t);
    }
  }

  lemma TiesCons(e: (string, real), s: Scored, v: real)
    ensures Ties([e] + s, v) == (if e.1 == v then [e] else []) + Ties(s, v)
  {
    assert ([e] + s)[1..] == s;
  }

  /** `arsort`: a stable sort by descending score (PHP 8 sorts are stable):
      entries with equal scores keep their order in the input. */
  function SortDesc(s: Scored): (r: Scored)
    ensures SortedDesc(r)
    ensures multiset(r) == multiset(s)
    ensures |r| == |s|
    ensures forall v :: Ties(r, v) == Ties(s, v)
    decreases |s|
  {
    if |s| == 0 then []
    else
      assert s == [s[0]] + s[1..];
      var rest := SortDesc(s[1..]);
      assert forall v :: Ties(InsertDesc(s[0], rest), v) == (if s[0].1 == v then [s[0]] else []) + Ties(rest, v) by {
        forall v ensures Ties(InsertDesc(s[0], rest), v) == (if s[0].1 == v then [s[0]] else []) + Ties(rest, v) {
          InsertDescTies(s[0], rest, v);
        }
      }
      InsertDesc(s[0], rest)
  }

  /** Sorting keeps every entry, and keeps column names distinct. */
  lemma {:induction false} SortDescKeeps(s: Scored)
    ensures forall p :: p in SortDesc(s) <==> p in s
    ensures UniqueKeys(s) ==> UniqueKeys(SortDesc(s))
    decreases |s|
  {
    SortDescMembers(s);
    if |s| > 0 && UniqueKeys(s) {
      var rest := SortDesc(s[1..]);
      SortDescKeeps(s[1..]);
      UniqueKeysTail(s);
      forall k | 0 <= k < |rest| ensures rest[k].0 != s[0].0 {
        assert rest[k] in s[1..];
      }
      InsertDescUnique(s[0], rest);
    }
  }

  lemma SortDescMembers(s: Scored)
    ensures forall p :: p in SortDesc(s) <==> p in s
  {
    assert forall p :: p in SortDesc(s) <==> p in multiset(SortDesc(s));
  }

  lemma UniqueKeysTail(s: Scored)
    requires |s| > 0 && UniqueKeys(s)
    ensures UniqueKeys(s[1..])
    ensures forall p :: p in s[1..] ==> p.0 != s[0].0
  {
    forall i, j | 0 <= i < j < |s[1..]| ensures s[1..][i].0 != s[1..][j].0 {
      assert s[1..][i] == s[i + 1] && s[1..][j] == s[j + 1];
    }
    forall p | p in s[1..] ensures p.0 != s[0].0 {
      var j :| 0 <= j < |s[1..]| && s[1..][j] == p;
      assert s[j + 1] == p;
    }
  }

  /** `array_filter($scores, fn($s) => $s >= threshold)`, order kept. */
  function AtLeast(s: Scored, t: real): (r: Scored)
    decreases |s|
  {
    if |s| == 0 then []
    else if s[0].1 >= t then [s[0]] + AtLeast(s[1..], t)
    else AtLeast(s[1..], t)
  }

  /** `array_slice($s, $offset, $length)` for non-negative arguments. */
  function Slice<T>(s: seq<T>, offset: nat, length: nat): (r: seq<T>)
    ensures offset <= |s| ==> r == s[offset..if offset + length <= |s| then offset + length else |s|]
    ensures offset > |s| ==> r == []
  {
    if offset > |s| then []
    else s[offset..if offset + length <= |s| then offset + length else |s|]
  }

  /** Filtering a descending list by a threshold keeps a prefix of it. */
  lemma {:induction false} AtLeastIsPrefix(s: Scored, t: real)
    requires SortedDesc(s)
    ensures |AtLeast(s, t)| <= |s|
    ensures AtLeast(s, t) == s[..|AtLeast(s, t)|]
    ensures forall k :: 0 <= k < |s| ==> (s[k].1 >= t <==> k < |AtLeast(s, t)|)
    decreases |s|
  {
    if |s| > 0 {
      AtLeastIsPrefix(s[1..], t);
      if s[0].1 >= t {
        assert AtLeast(s, t) == [s[0]] + AtLeast(s[1..], t);
        assert forall k :: 1 <= k < |s| ==> s[k] == s[1..][k - 1];
      } else {
        assert forall k :: 1 <= k < |s| ==> s[k] == s[1..][k - 1] && s[k].1 <= s[0].1;
        if |s| > 1 {
          assert s[1..][0].1 < t;
        }
      }
    }
  }

  /** The columns chosen before `created_at` is considered: those scoring at
      least 0.6 in descending order, at most five; when fewer than two
      qualify, topped up with the next best columns until there are two or no
      more columns. */
  function Selection(rt: Runtime, sample: Row, schema: Option<SchemaMeta>): seq<string>
    requires ScorableRow(sample)
  {
    Choose(SortedScores(rt, sample, schema))
  }

  /** The selection from an already sorted list of scored columns. */
  function Choose(sorted: Scored): seq<string> {
    var chosen := Slice(Keys(AtLeast(sorted, ScoreThreshold)), 0, MaxIdentifyingFields);
    if |chosen| < MinIdentifyingFields then
      chosen + Slice(Keys(sorted), |chosen|, MinIdentifyingFields - |chosen|)
    else chosen
  }

  /** `analyzeModel`: the selection, with `created_at` appended when the model
      keeps timestamps and the selection lacks it; a sample value that cannot
      be scored raises its `TypeError` instead. */
  function AnalyzeModel(rt: Runtime, sample: Row, schema: Option<SchemaMeta>, timestamps: bool)
    : (r: Result<seq<string>, Throwable>)
    ensures r.Ok? <==> ScorableRow(sample)
    ensures r.Err? ==> r.error == DateNotString
    ensures r.Ok? && timestamps ==> CreatedAt in r.value
    ensures r.Ok? ==>
              || r.value == Selection(rt, sample, schema)
              || (timestamps && CreatedAt !in Selection(rt, sample, schema)
                  && r.value == Selection(rt, sample, schema) + [CreatedAt])
  {
    if !ScorableRow(sample) then Err(DateNotString)
    else
      var chosen := Selection(rt, sample, schema);
      Ok(if timestamps && CreatedAt !in chosen then chosen + [CreatedAt] else chosen)
  }

  predicate NoDuplicates(s: seq<string>) {
    forall i, j :: 0 <= i < j < |s| ==> s[i] != s[j]
  }

  /** How many columns the selection takes from the sorted list, given how
      many qualify (`q`) and how many there are (`n`). */
  function SelectionLength(q: nat, n: nat): nat {
    var m := if q <= MaxIdentifyingFields then q else MaxIdentifyingFields;
    if m < MinIdentifyingFields then (if n < MinIdentifyingFields then n else MinIdentifyingFields) else m
  }

  function SortedScores(rt: Runtime, sample: Row, schema: Option<SchemaMeta>): Scored
    requires ScorableRow(sample)
  {
    SortDesc(FieldScores(rt, AnalyzeSchema(schema), sample).value)
  }

  /** The selection is a prefix of the sorted column names. */
  lemma SelectionIsPrefix(rt: Runtime, sample: Row, schema: Option<SchemaMeta>)
    requires ScorableRow(sample)
    ensures var sorted := SortedScores(rt, sample, schema);
            var q := |AtLeast(sorted, ScoreThreshold)|;
            && q <= |sorted|
            && (forall k :: 0 <= k < |sorted| ==> (sorted[k].1 >= ScoreThreshold <==> k < q))
            && SelectionLength(q, |sorted|) <= |sorted|
            && Selection(rt, sample, schema) == Keys(sorted)[..SelectionLength(q, |sorted|)]
  {
    ChooseIsPrefix(SortedScores(rt, sample, schema));
  }

  lemma ChooseIsPrefix(sorted: Scored)
    requires SortedDesc(sorted)
    ensures var q := |AtLeast(sorted, ScoreThreshold)|;
            && q <= |sorted|
            && (forall k :: 0 <= k < |sorted| ==> (sorted[k].1 >= ScoreThreshold <==> k < q))
            && SelectionLength(q, |sorted|) <= |sorted|
            && Choose(sorted) == Keys(sorted)[..SelectionLength(q, |sorted|)]
  {
    var keys := Keys(sorted);
    AtLeastIsPrefix(sorted, ScoreThreshold);
    var q := |AtLeast(sorted, ScoreThreshold)|;
    KeysOfPrefix(sorted, q);
    var m := if q <= MaxIdentifyingFields then q else MaxIdentifyingFields;
    assert Slice(Keys(AtLeast(sorted, ScoreThreshold)), 0, MaxIdentifyingFields) == keys[..m];
    if m < MinIdentifyingFields {
      TopUp(keys, m, SelectionLength(q, |sorted|));
    }
  }

  lemma KeysOfPrefix(s: Scored, n: nat)
    requires n <= |s|
    ensures Keys(s[..n]) == Keys(s)[..n]
  {
  }

  /** Topping a prefix up from the rest of the list gives a longer prefix. */
  lemma TopUp(keys: seq<string>, m: nat, len: nat)
    requires m <= len <= |keys| && len <= MinIdentifyingFields
    requires len == MinIdentifyingFields || len == |keys|
    ensures keys[..m] + Slice(keys, m, MinIdentifyingFields - m) == keys[..len]
  {
    assert Slice(keys, m, MinIdentifyingFields - m) == keys[m..len];
  }

  /** Facts about a prefix of the column names of a sorted list with distinct
      names, `q` of whose entries reach the threshold. */
  lemma SortedPrefixFacts(s: Scored, q: nat, len: nat)
    requires SortedDesc(s) && UniqueKeys(s) && q <= |s| && len <= |s|
    requires forall k :: 0 <= k < |s| ==> (s[k].1 >= ScoreThreshold <==> k < q)
    ensures var sel := Keys(s)[..len];
            && NoDuplicates(sel)
            && (forall f :: f in sel ==> exists a :: a in s && a.0 == f)
            && (forall a, b :: a in s && b in s && a.0 in sel && b.0 !in sel ==> a.1 >= b.1)
            && (q <= len ==> forall a :: a in s && a.1 >= ScoreThreshold ==> a.0 in sel)
            && (forall a :: a in s && a.0 in sel && a.1 < ScoreThreshold ==> q < len)
  {
    PrefixPositions(s, len);
    PrefixDrawn(s, len);
    PrefixBetter(s, len);
    PrefixThreshold(s, q, len);
  }

  lemma PrefixDrawn(s: Scored, len: nat)
    requires len <= |s|
    ensures forall f :: f in Keys(s)[..len] ==> exists a :: a in s && a.0 == f
  {
    forall f | f in Keys(s)[..len] ensures exists a :: a in s && a.0 == f {
      var j :| 0 <= j < len && Keys(s)[..len][j] == f;
      assert s[j] in s;
    }
  }

  lemma PrefixBetter(s: Scored, len: nat)
    requires SortedDesc(s) && UniqueKeys(s) && len <= |s|
    requires forall p :: 0 <= p < |s| ==> (s[p].0 in Keys(s)[..len] <==> p < len)
    ensures forall a, b :: a in s && b in s && a.0 in Keys(s)[..len] && b.0 !in Keys(s)[..len] ==> a.1 >= b.1
  {
    forall a, b | a in s && b in s && a.0 in Keys(s)[..len] && b.0 !in Keys(s)[..len] ensures a.1 >= b.1 {
      var i :| 0 <= i < |s| && s[i] == a;
      var j :| 0 <= j < |s| && s[j] == b;
      assert i < len <= j;
    }
  }

  lemma PrefixThreshold(s: Scored, q: nat, len: nat)
    requires q <= |s| && len <= |s|
    requires forall k :: 0 <= k < |s| ==> (s[k].1 >= ScoreThreshold <==> k < q)
    requires forall p :: 0 <= p < |s| ==> (s[p].0 in Keys(s)[..len] <==> p < len)
    ensures q <= len ==> forall a :: a in s && a.1 >= ScoreThreshold ==> a.0 in Keys(s)[..len]
    ensures forall a :: a in s && a.0 in Keys(s)[..len] && a.1 < ScoreThreshold ==> q < len
  {
    forall a | a in s && a.1 >= ScoreThreshold && q <= len ensures a.0 in Keys(s)[..len] {
      var i :| 0 <= i < |s| && s[i] == a;
      assert i < q;
    }
    forall a | a in s && a.0 in Keys(s)[..len] && a.1 < ScoreThreshold ensures q < len {
      var i :| 0 <= i < |s| && s[i] == a;
      assert q <= i < len;
    }
  }

  /** An entry's name is among the first `len` names exactly when the entry
      is among the first `len` entries. */
  lemma PrefixPositions(s: Scored, len: nat)
    requires UniqueKeys(s) && len <= |s|
    ensures forall p :: 0 <= p < |s| ==> (s[p].0 in Keys(s)[..len] <==> p < len)
    ensures NoDuplicates(Keys(s)[..len])
  {
    var sel := Keys(s)[..len];
    forall p | 0 <= p < |s| ensures s[p].0 in sel <==> p < len {
      if s[p].0 in sel {
        var j :| 0 <= j < len && sel[j] == s[p].0;
        assert s[j].0 == s[p].0;
      }
      if p < len {
        assert sel[p] == s[p].0;
      }
    }
  }

  /** The selection in terms of the sample's own scores: it draws distinct
      columns of the sample; it never passes over a better column for a worse
      one; it has between min(2, n) and 5 entries; below 5 it holds every
      column scoring at least 0.6; and it holds a column scoring below 0.6 only
      when it has at most two entries. */
  lemma SelectionSpec(rt: Runtime, sample: Row, schema: Option<SchemaMeta>)
    requires UniqueKeys(sample) && ScorableRow(sample)
    ensures var sel := Selection(rt, sample, schema);
            var scored := FieldScores(rt, AnalyzeSchema(schema), sample).value;
            && NoDuplicates(sel)
            && (forall f :: f in sel ==> f in Keys(sample))
            && (forall a, b :: a in scored && b in scored && a.0 in sel && b.0 !in sel ==> a.1 >= b.1)
            && (if |sample| < MinIdentifyingFields then |sample| else MinIdentifyingFields) <= |sel| <= MaxIdentifyingFields
            && (|sel| < MaxIdentifyingFields ==>
                  forall a :: a in scored && a.1 >= ScoreThreshold ==> a.0 in sel)
            && ((exists a :: a in scored && a.0 in sel && a.1 < ScoreThreshold) ==> |sel| <= MinIdentifyingFields)
  {
    var scored := FieldScores(rt, AnalyzeSchema(schema), sample).value;
    var sorted := SortedScores(rt, sample, schema);
    SortDescKeeps(scored);
    FieldScoresKeys(rt, AnalyzeSchema(schema), sample);
    ChooseSpec(scored, sorted);
    assert Selection(rt, sample, schema) == Choose(sorted);
  }

  /** Scoring keeps the sample's column names, so they stay distinct. */
  lemma FieldScoresKeys(rt: Runtime, info: SchemaInfo, sample: Row)
    requires InUnit(info) && UniqueKeys(sample) && ScorableRow(sample)
    ensures UniqueKeys(FieldScores(rt, info, sample).value)
    ensures forall a :: a in FieldScores(rt, info, sample).value ==> a.0 in Keys(sample)
  {
    var scored := FieldScores(rt, info, sample).value;
    forall a | a in scored ensures a.0 in Keys(sample) {
      var i :| 0 <= i < |scored| && scored[i] == a;
      assert Keys(sample)[i] == a.0;
    }
  }

  /** The selection from a sorted arrangement of `scored` with distinct names,
      stated in terms of `scored` itself. */
  lemma ChooseSpec(scored: Scored, sorted: Scored)
    requires SortedDesc(sorted) && UniqueKeys(sorted) && |sorted| == |scored|
    requires forall p :: p in sorted <==> p in scored
    ensures var sel := Choose(sorted);
            && NoDuplicates(sel)
            && (forall f :: f in sel ==> exists a :: a in scored && a.0 == f)
            && (forall a, b :: a in scored && b in scored && a.0 in sel && b.0 !in sel ==> a.1 >= b.1)
            && (if |scored| < MinIdentifyingFields then |scored| else MinIdentifyingFields) <= |sel| <= MaxIdentifyingFields
            && (|sel| < MaxIdentifyingFields ==>
                  forall a :: a in scored && a.1 >= ScoreThreshold ==> a.0 in sel)
            && ((exists a :: a in scored && a.0 in sel && a.1 < ScoreThreshold) ==> |sel| <= MinIdentifyingFields)
  {
    ChooseIsPrefix(sorted);
    var q := |AtLeast(sorted, ScoreThreshold)|;
    var len := SelectionLength(q, |sorted|);
    SortedPrefixFacts(sorted, q, len);
  }

  /** The identifying fields are distinct, at most six, drawn from the sample's
      columns and `created_at`, and include `created_at` whenever the model
      keeps timestamps; the analysis fails only on a value it cannot score. */
  lemma AnalyzeModelSpec(rt: Runtime, sample: Row, schema: Option<SchemaMeta>, timestamps: bool)
    requires UniqueKeys(sample)
    ensures var r := AnalyzeModel(rt, sample, schema, timestamps);
            r.Ok? ==>
            var fields := r.value;
            && NoDuplicates(fields)
            && |fields| <= MaxIdentifyingFields + 1
            && (forall f :: f in fields ==> f in Keys(sample) || f == CreatedAt)
            && (!timestamps ==> fields == Selection(rt, sample, schema))
  {
    if ScorableRow(sample) {
      SelectionSpec(rt, sample, schema);
    }
  }
}
