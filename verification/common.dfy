/** Shared vocabulary of the model: optional values, request-body fields,
    HTTP replies, result rows, and the JavaScript string operations that the
    route handlers and the browser views rely on. */
module Common {

  datatype Option<+T> = None | Some(value: T)

  /** Failures raised by the database layer. Every handler catches them and
      answers 500. */
  datatype Fault =
    | UniqueViolation      // a UNIQUE column would hold a value twice
    | CheckViolation       // a CHECK (... IN (...)) constraint rejects a value
    | ForeignKeyViolation  // a REFERENCES column names a missing row
    | BadArgument          // a negative LIMIT or OFFSET, or one beyond bigint
    | TooLong              // a character that is not a space past a VARCHAR(n) column's length
    | BadEncoding          // a text parameter PostgreSQL cannot take: U+0000, or JSON its jsonb refuses
    | Unreachable          // no connection could be obtained

  datatype Result<+T> = Ok(value: T) | Err(fault: Fault)

  /** One property of a parsed JSON request body: absent, explicitly `null`,
      or a string. */
  datatype Field = Missing | Null | Text(s: string)

  /** JavaScript truthiness of a body field: `!field` is false exactly when
      the field is a non-empty string. */
  predicate Present(f: Field) {
    f.Text? && f.s != ""
  }

  /** JavaScript truthiness of an optional string (`undefined`/`null` or `""`
      are falsy). */
  predicate Truthy(o: Option<string>) {
    o.Some? && o.value != ""
  }

  /** `value || fallback` on an optional string. */
  function OrElse(o: Option<string>, fallback: string): (r: string)
    ensures Truthy(o) ==> r == o.value
    ensures !Truthy(o) ==> r == fallback
  {
    if o.Some? && o.value != "" then o.value else fallback
  }

  /** What a route answers: an error status with its message, or a success
      status with a payload. */
  datatype Reply<+T> = Refused(code: int, error: string) | Done(code: int, body: T)

  /** A cell of a result row, as serialised to JSON: a number, a string,
      `null`, or any other JSON value (array, object, boolean), which the
      model carries as its JSON text. */
  datatype Value = Int(i: int) | Str(s: string) | Nil | Json(text: string)

  /** A result row (or a flat JSON object): column name to cell. */
  type Row = map<string, Value>

  /** The SQL projection `SELECT columns`: keeps exactly the listed columns. */
  function Select(row: Row, columns: set<string>): (r: Row)
    ensures r.Keys == row.Keys * columns
    ensures forall k | k in r :: r[k] == row[k]
  {
    map k | k in row && k in columns :: row[k]
  }

  function OptStr(o: Option<string>): Value {
    if o.Some? then Str(o.value) else Nil
  }

  function OptInt(o: Option<nat>): Value {
    if o.Some? then Int(o.value) else Nil
  }

  // ---------------------------------------------------------------------
  // JavaScript character classes and string operations
  // ---------------------------------------------------------------------

  /** ECMAScript LineTerminator. */
  predicate IsLineTerminator(c: char) {
    c == '\n' || c == '\r' || c == '\U{2028}' || c == '\U{2029}'
  }

  /** The regular-expression class `\s` (ECMAScript WhiteSpace plus
      LineTerminator); `String.prototype.trim` strips the same set. */
  predicate IsSpace(c: char) {
    || IsLineTerminator(c)
    || c == '\t' || c == '\U{000B}' || c == '\U{000C}' || c == ' '
    || c == '\U{00A0}' || c == '\U{1680}'
    || ('\U{2000}' <= c <= '\U{200A}')
    || c == '\U{202F}' || c == '\U{205F}' || c == '\U{3000}' || c == '\U{FEFF}'
  }

  predicate AllSpace(s: string) {
    forall k | 0 <= k < |s| :: IsSpace(s[k])
  }

  /** `trimStart`: the longest suffix of `s` that does not begin with white
      space. */
  function TrimStart(s: string): (r: string)
    ensures |r| <= |s| && r == s[|s| - |r|..]
    ensures r == [] || !IsSpace(r[0])
    ensures forall k | 0 <= k < |s| - |r| :: IsSpace(s[k])
  {
    if |s| > 0 && IsSpace(s[0]) then TrimStart(s[1..]) else s
  }

  /** `trimEnd`: the longest prefix of `s` that does not end with white
      space. */
  function TrimEnd(s: string): (r: string)
    ensures |r| <= |s| && r == s[..|r|]
    ensures r == [] || !IsSpace(r[|r| - 1])
    ensures forall k | |r| <= k < |s| :: IsSpace(s[k])
  {
    if |s| > 0 && IsSpace(s[|s| - 1]) then TrimEnd(s[..|s| - 1]) else s
  }

  /** `String.prototype.trim`. */
  function Trim(s: string): string {
    TrimEnd(TrimStart(s))
  }

  /** A string trims to nothing exactly when it is all white space. */
  lemma TrimEmptyIff(s: string)
    ensures Trim(s) == [] <==> AllSpace(s)
  {
    var t := TrimStart(s);
    if !AllSpace(s) {
      var k :| 0 <= k < |s| && !IsSpace(s[k]);
      assert |t| > 0 && t[k - (|s| - |t|)] == s[k];
      assert !IsSpace(t[|t| - 1]) || TrimEnd(t) != [];
    }
  }

  /** `toLowerCase` on the ASCII letters; other characters are kept. */
  function LowerChar(c: char): char {
    if 'A' <= c <= 'Z' then (c as int + 32) as char else c
  }

  function Lower(s: string): (r: string)
    ensures |r| == |s|
    ensures forall k | 0 <= k < |s| :: r[k] == LowerChar(s[k])
  {
    seq(|s|, k requires 0 <= k < |s| => LowerChar(s[k]))
  }

  /** `s.includes(sub)`: `sub` occurs in `s` at some position. */
  predicate Contains(s: string, sub: string) {
    exists i | 0 <= i <= |s| - |sub| :: sub <= s[i..]
  }

  /** Index of the first element satisfying `p`, searching from `from`. */
  function FirstIndexFrom<T>(s: seq<T>, p: T -> bool, from: nat): (r: Option<nat>)
    requires from <= |s|
    ensures r.Some? ==> from <= r.value < |s| && p(s[r.value])
    ensures r.Some? ==> forall k | from <= k < r.value :: !p(s[k])
    ensures r.None? ==> forall k | from <= k < |s| :: !p(s[k])
    decreases |s| - from
  {
    if from == |s| then None
    else if p(s[from]) then Some(from)
    else FirstIndexFrom(s, p, from + 1)
  }

  /** `Array.prototype.findIndex`, with `None` for -1. */
  function FirstIndex<T>(s: seq<T>, p: T -> bool): (r: Option<nat>)
    ensures r.Some? ==> r.value < |s| && p(s[r.value])
    ensures r.Some? ==> forall k | 0 <= k < r.value :: !p(s[k])
    ensures r.None? ==> forall k | 0 <= k < |s| :: !p(s[k])
  {
    FirstIndexFrom(s, p, 0)
  }

  /** `Array.prototype.filter`. */
  function Filter<T>(s: seq<T>, p: T -> bool): (r: seq<T>)
    ensures |r| <= |s|
    ensures forall x | x in r :: x in s && p(x)
    ensures forall x | x in s && p(x) :: x in r
    ensures multiset(r) <= multiset(s)
  {
    if s == [] then []
    else
      assert s == [s[0]] + s[1..];
      var rest := Filter(s[1..], p);
      if p(s[0]) then [s[0]] + rest else rest
  }

  /** `xs` is obtained from `ys` by deleting elements, keeping the order. */
  ghost predicate Subsequence<T>(xs: seq<T>, ys: seq<T>)
    decreases |ys|
  {
    if xs == [] then true
    else if ys == [] then false
    else if xs[0] == ys[0] then Subsequence(xs[1..], ys[1..])
    else Subsequence(xs, ys[1..])
  }

  /** A filtered sequence keeps the order of its source. */
  lemma {:induction false} FilterIsSubsequence<T>(s: seq<T>, p: T -> bool)
    ensures Subsequence(Filter(s, p), s)
    decreases |s|
  {
    if s != [] {
      FilterIsSubsequence(s[1..], p);
      var rest := Filter(s[1..], p);
      if !p(s[0]) && rest != [] {
        // every kept element satisfies p, so the head of s is skipped
        assert rest[0] in rest;
      }
    }
  }

  /** A filter that accepts everything is the identity. */
  lemma {:induction false} FilterAll<T>(s: seq<T>, p: T -> bool)
    requires forall x | x in s :: p(x)
    ensures Filter(s, p) == s
    decreases |s|
  {
    if s != [] {
      FilterAll(s[1..], p);
      assert s == [s[0]] + s[1..];
    }
  }

  /** Every element is kept by exactly one of a filter and its complement. */
  lemma {:induction false} FilterPartition<T>(s: seq<T>, p: T -> bool, q: T -> bool)
    requires forall x | x in s :: q(x) == !p(x)
    ensures |Filter(s, p)| + |Filter(s, q)| == |s|
    decreases |s|
  {
    if s != [] {
      FilterPartition(s[1..], p, q);
    }
  }

  /** Number of elements satisfying `p` (`s.filter(p).length`). */
  function Count<T>(s: seq<T>, p: T -> bool): nat {
    |Filter(s, p)|
  }

  // ---------------------------------------------------------------------
  // Decimal rendering of clock values (`Date.now().toString()`)
  // ---------------------------------------------------------------------

  predicate IsDigit(c: char) {
    '0' <= c <= '9'
  }

  function DigitChar(d: nat): (c: char)
    requires d < 10
    ensures IsDigit(c) && c as int - '0' as int == d
  {
    ('0' as int + d) as char
  }

  function DecimalString(n: nat): (r: string)
    ensures |r| > 0
    ensures forall k | 0 <= k < |r| :: IsDigit(r[k])
  {
    if n < 10 then [DigitChar(n)] else DecimalString(n / 10) + [DigitChar(n % 10)]
  }

  /** The number a string of decimal digits denotes. */
  function DigitsValue(s: string): nat
    requires forall k | 0 <= k < |s| :: IsDigit(s[k])
  {
    if s == [] then 0
    else
      assert IsDigit(s[|s| - 1]);
      DigitsValue(s[..|s| - 1]) * 10 + (s[|s| - 1] as int - '0' as int)
  }

  /** Reading back a rendered number gives the number. */
  lemma {:induction false} DecimalRoundTrip(n: nat)
    ensures DigitsValue(DecimalString(n)) == n
  {
    if n >= 10 {
      DecimalRoundTrip(n / 10);
      var s := DecimalString(n);
      assert s[..|s| - 1] == DecimalString(n / 10);
    }
  }

  /** Distinct clock readings render to distinct strings. */
  lemma DecimalInjective(m: nat, n: nat)
    requires m != n
    ensures DecimalString(m) != DecimalString(n)
  {
    DecimalRoundTrip(m);
    DecimalRoundTrip(n);
  }
}
