/** Spreadsheet column letters: bijective base 26 over `A`–`Z`, the fallback
    header names of the sheet adapter. */
module ColumnNames {

  predicate IsUpper(c: char) {
    'A' <= c <= 'Z'
  }

  /** A well-formed column name: one or more capital letters. */
  predicate IsColumnName(s: string) {
    |s| > 0 && forall k :: 0 <= k < |s| ==> IsUpper(s[k])
  }

  /** `chr($d + 65)`. */
  function Letter(d: nat): (c: char)
    requires d < 26
    ensures IsUpper(c)
  {
    (d + 65) as char
  }

  /** The name of zero-based column `n`: the loop that prepends
      `chr(n % 26 + 65)` and continues with `floor(n / 26) - 1` while that
      is not negative. */
  function ColumnName(n: nat): (s: string)
    ensures IsColumnName(s)
    decreases n
  {
    if n < 26 then [Letter(n)]
    else ColumnName(n / 26 - 1) + [Letter(n % 26)]
  }

  /** A capital letter's digit, `A` = 1 … `Z` = 26. */
  function Digit(c: char): (d: nat)
    requires IsUpper(c)
    ensures 1 <= d <= 26
  {
    c as int - 64
  }

  /** The bijective base-26 value of a name, `A` = 1. */
  function Value(s: string): (v: nat)
    requires IsColumnName(s)
    ensures v >= 1
    decreases |s|
  {
    var last := Digit(s[|s| - 1]);
    if |s| == 1 then last
    else Value(s[..|s| - 1]) * 26 + last
  }

  /** The zero-based column a name denotes, the inverse of `ColumnName`. */
  function ColumnIndex(s: string): nat
    requires IsColumnName(s)
  {
    Value(s) - 1
  }

  /** Every column number has a name that denotes it again. */
  lemma {:induction false} IndexOfName(n: nat)
    ensures ColumnIndex(ColumnName(n)) == n
    decreases n
  {
    if n >= 26 {
      var prefix := ColumnName(n / 26 - 1);
      var s := prefix + [Letter(n % 26)];
      IndexOfName(n / 26 - 1);
      assert s[..|s| - 1] == prefix;
      assert Digit(s[|s| - 1]) == n % 26 + 1;
    }
  }

  /** Every well-formed name is the name of the column it denotes. */
  lemma {:induction false} NameOfIndex(s: string)
    requires IsColumnName(s)
    ensures ColumnName(ColumnIndex(s)) == s
    decreases |s|
  {
    var last := Digit(s[|s| - 1]);
    if |s| > 1 {
      var init := s[..|s| - 1];
      NameOfIndex(init);
      var n := Value(s) - 1;
      assert n == (Value(init) - 1) * 26 + 26 + last - 1;
      assert n / 26 - 1 == Value(init) - 1 && n % 26 == last - 1 by {
        DivMod26(Value(init) - 1, last - 1);
      }
      assert s == init + [s[|s| - 1]];
    }
  }

  lemma DivMod26(q: nat, r: nat)
    requires r < 26
    ensures (q * 26 + 26 + r) / 26 == q + 1 && (q * 26 + 26 + r) % 26 == r
  {
    assert q * 26 + 26 + r == (q + 1) * 26 + r;
  }

  /** Distinct columns get distinct names. */
  lemma NamesInjective(m: nat, n: nat)
    requires ColumnName(m) == ColumnName(n)
    ensures m == n
  {
    IndexOfName(m);
    IndexOfName(n);
  }

  /** The boundaries of the one-, two- and three-letter ranges. */
  lemma NameExamples()
    ensures ColumnName(0) == "A" && ColumnName(25) == "Z"
    ensures ColumnName(26) == "AA" && ColumnName(701) == "ZZ" && ColumnName(702) == "AAA"
  {
    assert ColumnName(26) == ColumnName(0) + [Letter(0)];
    assert ColumnName(701) == ColumnName(25) + [Letter(25)];
    assert ColumnName(702) == ColumnName(26) + [Letter(0)];
  }

  /** The names of columns `0 .. count - 1`, as `array_map` over `range`. */
  function ColumnNames(count: nat): (names: seq<string>)
    ensures |names| == count
    ensures forall k :: 0 <= k < count ==> names[k] == ColumnName(k)
  {
    seq(count, k requires 0 <= k < count => ColumnName(k))
  }
}
