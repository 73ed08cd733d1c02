/** `parseInt(string)` with no radix, as the page listing applies it to its
    query parameters: leading white space, an optional sign, an optional
    `0x` prefix that switches to base 16, then the longest run of digits;
    NaN (here `None`) when that run is empty. */
module JsNumber {
  import opened Common

  predicate IsHexDigit(c: char) {
    IsDigit(c) || 'a' <= c <= 'f' || 'A' <= c <= 'F'
  }

  function HexDigitValue(c: char): (r: nat)
    requires IsHexDigit(c)
    ensures r < 16
  {
    if IsDigit(c) then c as int - '0' as int
    else if 'a' <= c <= 'f' then c as int - 'a' as int + 10
    else c as int - 'A' as int + 10
  }

  /** The longest prefix of `s` whose characters all satisfy `p`. */
  function Run(s: string, p: char -> bool): (r: string)
    ensures r <= s
    ensures forall k | 0 <= k < |r| :: p(r[k])
    ensures |r| < |s| ==> !p(s[|r|])
  {
    if s == [] || !p(s[0]) then []
    else [s[0]] + Run(s[1..], p)
  }

  function HexValue(s: string): nat
    requires forall k | 0 <= k < |s| :: IsHexDigit(s[k])
  {
    if s == [] then 0
    else
      assert IsHexDigit(s[|s| - 1]);
      HexValue(s[..|s| - 1]) * 16 + HexDigitValue(s[|s| - 1])
  }

  predicate HasHexPrefix(s: string) {
    |s| >= 2 && s[0] == '0' && (s[1] == 'x' || s[1] == 'X')
  }

  /** The magnitude `parseInt` reads from an unsigned string. */
  function Magnitude(u: string): (r: Option<nat>)
    ensures r.None? <==> if HasHexPrefix(u) then Run(u[2..], IsHexDigit) == []
                         else Run(u, IsDigit) == []
  {
    if HasHexPrefix(u) then
      var h := Run(u[2..], IsHexDigit);
      if h == [] then None else Some(HexValue(h))
    else
      var d := Run(u, IsDigit);
      if d == [] then None else Some(DigitsValue(d))
  }

  function ParseInt(s: string): Option<int> {
    Signed(TrimStart(s))
  }

  /** What `parseInt` reads once white space is skipped. */
  function Signed(t: string): Option<int> {
    if t != [] && (t[0] == '-' || t[0] == '+') then
      match Magnitude(t[1..])
      case None => None
      case Some(m) => Some(if t[0] == '-' then -(m as int) else m as int)
    else
      match Magnitude(t)
      case None => None
      case Some(m) => Some(m as int)
  }

  /** Leading white space is skipped. */
  lemma LeadingSpaceIgnored(c: char, s: string)
    requires IsSpace(c)
    ensures ParseInt([c] + s) == ParseInt(s)
  {
    assert ([c] + s)[1..] == s;
  }

  /** Without leading white space the text is read as it is. */
  lemma NoSpaceToSkip(s: string)
    requires s == [] || !IsSpace(s[0])
    ensures ParseInt(s) == Signed(s)
  {
    assert TrimStart(s) == s;
  }

  /** A string that starts with a digit is read without sign or skipping. */
  lemma ReadsUnsigned(u: string)
    requires u != [] && IsDigit(u[0])
    ensures ParseInt(u) == if Magnitude(u).Some? then Some(Magnitude(u).value as int) else None
  {
    NoSpaceToSkip(u);
  }

  /** A leading sign applies to the magnitude that follows it. */
  lemma ReadsSigned(c: char, u: string)
    requires c == '-' || c == '+'
    ensures ParseInt([c] + u) == if Magnitude(u).None? then None
                                 else Some(if c == '-' then -(Magnitude(u).value as int) else Magnitude(u).value as int)
  {
    var s := [c] + u;
    assert s[1..] == u;
    NoSpaceToSkip(s);
  }

  /** Text that may follow a number without changing what it reads as:
      not a digit, and not the `x` that would turn a lone `0` into a hex
      prefix. */
  predicate Terminates(rest: string) {
    rest == [] || (!IsDigit(rest[0]) && rest[0] != 'x' && rest[0] != 'X')
  }

  /** Digits followed by a terminator: the digits' value. */
  lemma {:induction false} MagnitudeOfDigits(d: string, rest: string)
    requires d != [] && forall k | 0 <= k < |d| :: IsDigit(d[k])
    requires Terminates(rest)
    ensures Magnitude(d + rest) == Some(DigitsValue(d))
  {
    RunOfDigits(d, rest);
    assert !HasHexPrefix(d + rest) by {
      if |d| >= 2 {
        assert (d + rest)[1] == d[1];
      } else if |d + rest| >= 2 {
        assert (d + rest)[1] == rest[0];
      }
    }
  }

  /** Without digits there is no number: the empty string, a bare sign, a
      bare `0x` and a word are all NaN. */
  lemma NoDigitsNoNumber()
    ensures ParseInt("") == None && ParseInt("-") == None
    ensures ParseInt("0x") == None && ParseInt("abc") == None
  {
    EmptyIsNaN();
    BareSignIsNaN();
    BareHexPrefixIsNaN();
    WordIsNaN();
  }

  lemma EmptyIsNaN()
    ensures ParseInt("") == None
  {
    assert Signed("") == None;
    NoSpaceToSkip("");
  }

  lemma BareSignIsNaN()
    ensures ParseInt("-") == None
  {
    var s := "-";
    assert s[1..] == [];
    NoSpaceToSkip(s);
  }

  lemma BareHexPrefixIsNaN()
    ensures ParseInt("0x") == None
  {
    var s := "0x";
    assert HasHexPrefix(s);
    assert s[2..] == [];
    NoSpaceToSkip(s);
  }

  lemma WordIsNaN()
    ensures ParseInt("abc") == None
  {
    var s := "abc";
    assert !IsSpace(s[0]) && !IsDigit(s[0]) && !HasHexPrefix(s);
    assert Run(s, IsDigit) == [];
    NoSpaceToSkip(s);
  }

  /** A decimal rendering followed by a terminator has the rendered number
      as its magnitude. */
  lemma DecimalMagnitude(n: nat, rest: string)
    requires Terminates(rest)
    ensures var u := DecimalString(n) + rest;
            u != [] && IsDigit(u[0]) && Magnitude(u) == Some(n)
  {
    var d := DecimalString(n);
    DecimalRoundTrip(n);
    MagnitudeOfDigits(d, rest);
    assert (d + rest)[0] == d[0];
  }

  /** A decimal rendering reads back as the number it renders, whatever
      terminator follows it. */
  lemma DecimalReadsBack(n: nat, rest: string)
    requires Terminates(rest)
    ensures ParseInt(DecimalString(n) + rest) == Some(n)
  {
    DecimalMagnitude(n, rest);
    ReadsUnsigned(DecimalString(n) + rest);
  }

  /** With a minus sign it reads back negated. */
  lemma NegativeDecimalReadsBack(n: nat, rest: string)
    requires Terminates(rest)
    ensures ParseInt("-" + DecimalString(n) + rest) == Some(-(n as int))
  {
    var u := DecimalString(n) + rest;
    assert "-" + DecimalString(n) + rest == ['-'] + u;
    DecimalMagnitude(n, rest);
    ReadsNegative(u, n);
  }

  lemma ReadsNegative(u: string, m: nat)
    requires Magnitude(u) == Some(m)
    ensures ParseInt(['-'] + u) == Some(-(m as int))
  {
    var s := ['-'] + u;
    assert s[1..] == u;
    NoSpaceToSkip(s);
  }

  /** With a plus sign it reads back unchanged. */
  lemma PositiveDecimalReadsBack(n: nat, rest: string)
    requires Terminates(rest)
    ensures ParseInt("+" + DecimalString(n) + rest) == Some(n)
  {
    var u := DecimalString(n) + rest;
    assert "+" + DecimalString(n) + rest == ['+'] + u;
    DecimalMagnitude(n, rest);
    ReadsSigned('+', u);
  }

  /** The literals the handlers fall back on. */
  lemma DefaultLiterals()
    ensures ParseInt("0") == Some(0) && ParseInt("1") == Some(1) && ParseInt("10") == Some(10)
  {
    Renderings();
    RenderedLiteral(0, "0");
    RenderedLiteral(1, "1");
    RenderedLiteral(10, "10");
  }

  lemma Renderings()
    ensures DecimalString(0) == "0" && DecimalString(1) == "1" && DecimalString(10) == "10"
  {
    assert DecimalString(10) == DecimalString(1) + [DigitChar(0)];
  }

  /** A literal that is the rendering of `n` reads as `n`. */
  lemma RenderedLiteral(n: nat, lit: string)
    requires DecimalString(n) == lit
    ensures ParseInt(lit) == Some(n)
  {
    assert lit + "" == lit;
    DecimalReadsBack(n, "");
  }

  lemma LiteralReadsBack(d: string)
    requires d != [] && forall k | 0 <= k < |d| :: IsDigit(d[k])
    ensures ParseInt(d) == Some(DigitsValue(d))
  {
    assert d + "" == d;
    MagnitudeOfDigits(d, "");
    ReadsUnsigned(d);
  }

  lemma {:induction false} RunOfDigits(d: string, rest: string)
    requires forall k | 0 <= k < |d| :: IsDigit(d[k])
    requires rest == [] || !IsDigit(rest[0])
    ensures Run(d + rest, IsDigit) == d
  {
    if d != [] {
      assert (d + rest)[1..] == d[1..] + rest;
      RunOfDigits(d[1..], rest);
      assert d == [d[0]] + d[1..];
    } else {
      assert d + rest == rest;
    }
  }
}
