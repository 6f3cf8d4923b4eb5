/** The part of PHP's runtime the sync engine depends on: dynamically typed
    values, truthiness, integer-to-string casts, `max`, the exceptions and
    errors the engine raises, and the library routines it calls but whose
    internals are not modelled. */
module Php {
  import opened Wrappers

  /** An array key; PHP normalises every key to an integer or a string. */
  datatype Key = IntKey(n: int) | StrKey(s: string)

  /** The class of a `\DateTime` instance: a plain `\DateTime`, `Carbon\Carbon`,
      or its subclass `Illuminate\Support\Carbon`. Both Carbon classes convert
      to a string through `__toString`; a plain `\DateTime` does not.
      `CarbonImmutable` does not extend `\DateTime` and is an `Obj` here. */
  datatype DateClass = PlainDateTime | CarbonDate | IlluminateCarbon

  /** A `\DateTime` instance. */
  datatype DateTime = DateTime(dclass: DateClass, stamp: int)

  /** A dynamically typed PHP value as it reaches the engine. A float is carried
      as PHP's own string form of it, which is all the engine inspects. */
  datatype Value =
    | Null
    | Bool(b: bool)
    | Int(i: int)
    | Float(text: string)
    | Str(s: string)
    | Date(d: DateTime)
    | Arr(items: seq<Value>)
    | Obj(members: seq<Value>)
    | Other(text: string)

  /** PHP's conversion to boolean: `null`, `false`, `0`, `0.0`, `""`, `"0"` and
      `[]` are falsy; every object is truthy. */
  predicate Truthy(v: Value) {
    match v
    case Null => false
    case Bool(b) => b
    case Int(i) => i != 0
    case Float(t) => t != "0" && t != "-0"
    case Str(s) => s != "" && s != "0"
    case Arr(items) => |items| > 0
    case _ => true
  }

  /** `is_array($v) || is_object($v)`; a `DateTime` is an object. */
  predicate IsArrayOrObject(v: Value) {
    v.Arr? || v.Obj? || v.Date?
  }

  /** `empty($s)` for a string: the empty string and `"0"` are empty. */
  predicate EmptyString(s: string) {
    s == "" || s == "0"
  }

  // ---------------------------------------------------------------------------
  // Integer casts

  predicate IsDigit(c: char) {
    '0' <= c <= '9'
  }

  predicate AllDigits(s: string) {
    forall k :: 0 <= k < |s| ==> IsDigit(s[k])
  }

  function DigitChar(d: nat): char
    requires d < 10
  {
    ['0', '1', '2', '3', '4', '5', '6', '7', '8', '9'][d]
  }

  function DigitValue(c: char): nat
    requires IsDigit(c)
  {
    (c as int - '0' as int) as nat
  }

  /** Decimal digits of `n`, without leading zeros. */
  function NatToString(n: nat): (s: string)
    ensures |s| >= 1 && AllDigits(s)
    ensures |s| > 1 ==> s[0] != '0'
    decreases n
  {
    if n < 10 then [DigitChar(n)] else NatToString(n / 10) + [DigitChar(n % 10)]
  }

  /** `(string) $i` for an integer. */
  function IntToString(i: int): (s: string)
    ensures |s| >= 1
    ensures s[0] == '-' <==> i < 0
  {
    if i < 0 then "-" + NatToString(-i) else NatToString(i)
  }

  /** The value of a string of decimal digits. */
  function DigitsValue(s: string): nat
    requires AllDigits(s)
    decreases |s|
  {
    if |s| == 0 then 0 else DigitsValue(s[..|s| - 1]) * 10 + DigitValue(s[|s| - 1])
  }

  /** Reads back an optionally signed decimal integer; the reference that
      `IntToString` is checked against. */
  function ParseInt(s: string): Option<int> {
    if |s| == 0 then None
    else if s[0] == '-' then
      if |s| > 1 && AllDigits(s[1..]) then
        var magnitude: int := DigitsValue(s[1..]);
        Some(-magnitude)
      else None
    else if AllDigits(s) then
      var magnitude: int := DigitsValue(s);
      Some(magnitude)
    else None
  }

  lemma {:induction false} NatToStringValue(n: nat)
    ensures DigitsValue(NatToString(n)) == n
    decreases n
  {
    if n >= 10 {
      var p := NatToString(n / 10);
      var s := p + [DigitChar(n % 10)];
      assert s[..|s| - 1] == p;
      NatToStringValue(n / 10);
    }
  }

  /** Casting an integer to a string loses nothing: it parses back to itself. */
  lemma IntToStringRoundTrip(i: int)
    ensures ParseInt(IntToString(i)) == Some(i)
  {
    if i < 0 {
      var n: nat := -i;
      NegativeRoundTrip(n);
      assert IntToString(i) == "-" + NatToString(n);
    } else {
      var n: nat := i;
      NatRoundTrip(n);
      assert IntToString(i) == NatToString(n);
    }
  }

  lemma NatRoundTrip(n: nat)
    ensures ParseInt(NatToString(n)) == Some(n)
  {
    var s := NatToString(n);
    assert IsDigit(s[0]);
    NatToStringValue(n);
  }

  lemma NegativeRoundTrip(n: nat)
    requires n > 0
    ensures ParseInt("-" + NatToString(n)) == Some(-(n as int))
  {
    var t := NatToString(n);
    var s := "-" + t;
    assert s[1..] == t;
    NatToStringValue(n);
  }

  /** The cast is injective: distinct integers give distinct strings. */
  lemma IntToStringInjective(i: int, j: int)
    ensures IntToString(i) == IntToString(j) ==> i == j
  {
    IntToStringRoundTrip(i);
    IntToStringRoundTrip(j);
  }

  // ---------------------------------------------------------------------------
  // Array keys and range()

  /** The text a key shows as: an integer key in decimal, a string key as is. */
  function KeyText(k: Key): string {
    match k
    case IntKey(n) => IntToString(n)
    case StrKey(s) => s
  }

  /** PHP's key cast for a string key: a string that is exactly the decimal
      form of an integer becomes that integer, any other stays a string. */
  function NormalizeKey(s: string): (k: Key)
    ensures KeyText(k) == s
    ensures k.IntKey? <==> exists i :: ParseInt(s) == Some(i) && IntToString(i) == s
  {
    match ParseInt(s)
    case Some(i) => if IntToString(i) == s then IntKey(i) else StrKey(s)
    case None => StrKey(s)
  }

  /** The decimal form of an integer is cast to that integer. */
  lemma NormalizeIntString(i: int)
    ensures NormalizeKey(IntToString(i)) == IntKey(i)
  {
    IntToStringRoundTrip(i);
  }

  /** `range($lo, $hi)` with a step of 1: ascending when `lo <= hi`, and
      otherwise descending from `lo` down to `hi`. */
  function PhpRange(lo: int, hi: int): (r: seq<int>)
    ensures lo <= hi ==> |r| == hi - lo + 1 && forall k :: 0 <= k < |r| ==> r[k] == lo + k
    ensures lo > hi ==> |r| == lo - hi + 1 && forall k :: 0 <= k < |r| ==> r[k] == lo - k
  {
    if lo <= hi then seq(hi - lo + 1, k requires 0 <= k < hi - lo + 1 => lo + k)
    else seq(lo - hi + 1, k requires 0 <= k < lo - hi + 1 => lo - k)
  }

  // ---------------------------------------------------------------------------
  // max()

  /** PHP's `max` over a non-empty list of integers. */
  function Max(s: seq<int>): (m: int)
    requires |s| > 0
    ensures m in s
    ensures forall k :: 0 <= k < |s| ==> s[k] <= m
  {
    if |s| == 1 then s[0]
    else
      var rest := Max(s[1..]);
      assert forall k :: 1 <= k < |s| ==> s[k] == s[1..][k - 1];
      if s[0] >= rest then s[0] else rest
  }

  // ---------------------------------------------------------------------------
  // Exceptions and errors

  /** Subclasses of `\Exception` the engine raises: its own two classes, and
      the `BadMethodCallException` Eloquent throws when a model is asked for a
      method it does not define. */
  datatype ExceptionClass = SyncException | GoogleSheetsException | BadMethodCallException

  /** PHP's `\Error` hierarchy as far as the engine can raise it: a generic
      `Error` (undefined class or method, a method called on an array), a
      `ValueError` (`max([])`, `array_chunk` with a length below 1, a count
      mismatch in `array_combine`) or a `TypeError` (an object without
      `__toString` passed where a string is required, or null returned from a
      method declared to return an array). */
  datatype ErrorClass = GenericError | ValueError | TypeError

  /** What an `Error` the engine can raise reports: `new` of an undefined
      class, a method called on an array, and the argument checks of
      `array_chunk`, `array_combine` and `max`. */
  datatype ErrorReason =
    | UndefinedClass(name: string)
    | MethodOnArray(name: string)
    | ChunkLengthBelowOne
    | CombineCountMismatch
    | MaxOfEmptyArray
    | HaystackNotString(given: string)
    | NullReturnedForArray(name: string)

  /** The message PHP gives an `Error` of each reason. */
  function ErrorText(r: ErrorReason): string {
    match r
    case UndefinedClass(name) => "Class \"" + name + "\" not found"
    case MethodOnArray(name) => "Call to a member function " + name + "() on array"
    case ChunkLengthBelowOne => "array_chunk(): Argument #2 ($length) must be greater than 0"
    case CombineCountMismatch =>
      "array_combine(): Argument #1 ($keys) and argument #2 ($values) must have the same number of elements"
    case MaxOfEmptyArray => "max(): Argument #1 ($value) must contain at least one element"
    case HaystackNotString(given) =>
      "str_contains(): Argument #1 ($haystack) must be of type string, " + given + " given"
    case NullReturnedForArray(name) =>
      name + "(): Return value must be of type array, null returned"
  }

  /** A PHP `Throwable`. Only the `Exception` branch is caught by
      `catch (\Exception $e)`; an `Error` escapes such a handler. An
      `Error`'s message is `ErrorText(reason)`. */
  datatype Throwable =
    | Exception(eclass: ExceptionClass, message: string, cause: Option<string>)
    | Error(rclass: ErrorClass, reason: ErrorReason)

  // ---------------------------------------------------------------------------
  // Library routines whose internals are not modelled

  predicate IsHexDigit(c: char) {
    '0' <= c <= '9' || 'a' <= c <= 'f'
  }

  /** An xxh3 digest as `hash('xxh3', ...)` returns it: 16 lower-case hex digits. */
  type Digest = s: string | |s| == 16 && forall k :: 0 <= k < |s| ==> IsHexDigit(s[k])
    witness "0000000000000000"

  /** Routines the engine calls and whose results are taken as given:
      whether `json_decode` accepts a string, `json_encode`, Carbon's
      `format('Y-m-d H:i:s')`, the creation-date probe of the identifier
      heuristic, and `hash('xxh3', serialize($tuple))`. Each is a total,
      deterministic function; nothing else is assumed about it. */
  datatype Runtime = Runtime(
    jsonDecodes: string -> bool,
    jsonEncode: Value -> string,
    formatDate: DateTime -> string,
    creationLike: DateTime -> bool,
    digest: seq<Value> -> Digest)
}
