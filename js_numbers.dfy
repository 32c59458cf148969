/**
 * The two JavaScript number conversions the cooldown subcommand applies to its tokens:
 * the `isNaN(token)` test (which converts the token with `Number`) and `parseInt(token)`.
 * A value here is NaN or an exact, unbounded integer. JavaScript's `parseInt` returns a
 * double instead: digit strings above 2^53 come back rounded and very long ones give
 * `Infinity`, neither of which this model reproduces.
 */
module JsNumbers {
  import opened JsStrings

  datatype Num = NaN | Int(value: int)

  predicate IsRadixDigit(c: char, radix: nat) {
    DigitValue(c) < radix
  }

  /** The value of a digit character in bases up to 36; 36 for anything that is not a digit. */
  function DigitValue(c: char): (d: nat)
    ensures d <= 36
  {
    if '0' <= c <= '9' then c as int - '0' as int
    else if 'a' <= c <= 'z' then c as int - 'a' as int + 10
    else if 'A' <= c <= 'Z' then c as int - 'A' as int + 10
    else 36
  }

  predicate AllRadixDigits(s: string, radix: nat) {
    forall i :: 0 <= i < |s| ==> IsRadixDigit(s[i], radix)
  }

  /** The longest prefix of `s` made of digits of the given radix. */
  function LeadingDigits(s: string, radix: nat): (r: string)
    ensures |r| <= |s| && r == s[..|r|]
    ensures AllRadixDigits(r, radix)
    ensures |r| == |s| || !IsRadixDigit(s[|r|], radix)
  {
    if s != [] && IsRadixDigit(s[0], radix) then
      var t := LeadingDigits(s[1..], radix);
      assert [s[0]] + t == s[..|t| + 1];
      [s[0]] + t
    else []
  }

  /** The value of a digit string, most significant digit first. */
  function DigitsValue(s: string, radix: nat): (v: nat)
    requires AllRadixDigits(s, radix)
  {
    if s == [] then 0
    else DigitsValue(s[..|s| - 1], radix) * radix + DigitValue(s[|s| - 1])
  }

  // ---- Number(token): the StringNumericLiteral grammar (section 7.1.4.1.1 of ECMA-262) ----

  /** An optional exponent part: `e` or `E`, an optional sign, then at least one decimal digit. */
  predicate IsOptionalExponent(t: string) {
    t == "" ||
    (|t| >= 2 && (t[0] == 'e' || t[0] == 'E') &&
     var u := if t[1] == '+' || t[1] == '-' then t[1..][1..] else t[1..];
     u != [] && AllRadixDigits(u, 10))
  }

  /** `Infinity`, or digits with an optional fraction and exponent, or a fraction alone. */
  predicate IsUnsignedDecimal(t: string) {
    t == "Infinity" ||
    var a := LeadingDigits(t, 10);
    var rest := t[|a|..];
    if rest != [] && rest[0] == '.' then
      var b := LeadingDigits(rest[1..], 10);
      |a| + |b| > 0 && IsOptionalExponent(rest[1..][|b|..])
    else
      |a| > 0 && IsOptionalExponent(rest)
  }

  predicate IsDecimalLiteral(t: string) {
    if t != [] && (t[0] == '+' || t[0] == '-') then IsUnsignedDecimal(t[1..]) else IsUnsignedDecimal(t)
  }

  /** `0x`, `0o` or `0b` literals (no sign allowed). */
  predicate IsNonDecimalIntegerLiteral(t: string) {
    |t| >= 3 && t[0] == '0' &&
    ((t[1] in "xX" && AllRadixDigits(t[2..], 16)) ||
     (t[1] in "oO" && AllRadixDigits(t[2..], 8)) ||
     (t[1] in "bB" && AllRadixDigits(t[2..], 2)))
  }

  /** Text that starts with anything but a digit, a sign, a point or `I` is no numeric literal. */
  lemma NonNumericStart(t: string)
    ensures t != [] && !IsRadixDigit(t[0], 10) && t[0] !in "+-.I" ==>
      !IsNonDecimalIntegerLiteral(t) && !IsDecimalLiteral(t)
  {
    if t != [] && !IsRadixDigit(t[0], 10) && t[0] !in "+-.I" {
      assert LeadingDigits(t, 10) == [];
      assert t != "Infinity";
      assert !IsUnsignedDecimal(t);
    }
  }

  /** `isNaN(s)`: `Number(s)` is NaN unless the trimmed string is empty or a numeric literal. */
  predicate IsNaNCoerced(s: string) {
    var t := Trim(s);
    !(t == "" || IsNonDecimalIntegerLiteral(t) || IsDecimalLiteral(t))
  }

  /** Blank text counts as 0 and `Infinity` as a number; text starting with anything other than
      a digit, a sign, a point or `I` is NaN. */
  lemma IsNaNCoercedCases(s: string)
    ensures AllWhitespace(s) ==> !IsNaNCoerced(s)
    ensures Trim(s) == "Infinity" ==> !IsNaNCoerced(s)
    ensures var t := Trim(s);
      t != [] && !IsRadixDigit(t[0], 10) && t[0] !in "+-.I" ==> IsNaNCoerced(s)
  {
    TrimOfBlank(s);
    NonNumericStart(Trim(s));
  }

  // ---- parseInt(token) with no radix argument ----

  /** `parseInt(s)`: skip leading whitespace, take an optional sign, a `0x`/`0X` prefix selects
      base 16, then the longest run of digits; NaN when that run is empty. */
  function ParseInt(s: string): Num {
    ParseSigned(TrimStart(s))
  }

  /** Blank text, and text whose first non-blank is neither a digit nor a sign, read as NaN:
      `parseInt("abc")` is NaN although `a`, `b`, `c` are hexadecimal digits. */
  lemma ParseIntNonNumeric(s: string)
    ensures AllWhitespace(s) ==> ParseInt(s) == NaN
    ensures var t := TrimStart(s);
      t != [] && !IsRadixDigit(t[0], 10) && t[0] != '+' && t[0] != '-' ==> ParseInt(s) == NaN
  {
  }

  function ParseSigned(t: string): Num {
    if t != [] && t[0] == '-' then Negate(ParseUnsigned(t[1..]))
    else if t != [] && t[0] == '+' then ParseUnsigned(t[1..])
    else ParseUnsigned(t)
  }

  predicate HasHexPrefix(u: string) {
    |u| >= 2 && u[0] == '0' && (u[1] == 'x' || u[1] == 'X')
  }

  function ParseUnsigned(u: string): Num {
    if HasHexPrefix(u) then DigitRun(u[2..], 16) else DigitRun(u, 10)
  }

  function DigitRun(v: string, radix: nat): Num {
    var d := LeadingDigits(v, radix);
    if d == [] then NaN else Int(DigitsValue(d, radix))
  }

  function Negate(x: Num): Num {
    match x
    case NaN => NaN
    case Int(v) => Int(-v)
  }

  // ---- decimal printing, the inverse used to state what the two conversions accept ----

  function DigitChar(d: nat): (c: char)
    requires d < 10
    ensures IsRadixDigit(c, 10) && DigitValue(c) == d
  {
    ('0' as int + d) as char
  }

  /** The decimal digits of `n`, most significant first, with no leading zeros. */
  function NatDigits(n: nat): (s: string)
    ensures s != [] && AllRadixDigits(s, 10)
  {
    if n < 10 then [DigitChar(n)] else NatDigits(n / 10) + [DigitChar(n % 10)]
  }

  /** How an integer is written in decimal: an optional minus sign, then its digits. */
  function DecimalString(n: int): string {
    if n < 0 then "-" + NatDigits(-n) else NatDigits(n)
  }

  lemma {:induction false} NatDigitsValue(n: nat)
    ensures DigitsValue(NatDigits(n), 10) == n
  {
    if n >= 10 {
      var s := NatDigits(n);
      assert s[..|s| - 1] == NatDigits(n / 10);
      NatDigitsValue(n / 10);
    }
  }

  /** A run of digits is its own longest digit prefix. */
  lemma LeadingDigitsOfDigits(d: string, radix: nat)
    requires AllRadixDigits(d, radix)
    ensures LeadingDigits(d, radix) == d
  {
  }

  /** A decimal string has no space in it. */
  lemma {:induction false} DecimalStringHasNoSpace(n: int)
    ensures ' ' !in DecimalString(n)
  {
    var m: nat := if n < 0 then -n else n;
    var d := NatDigits(m);
    assert !IsRadixDigit(' ', 10);
    assert ' ' !in d;
    if n < 0 {
      assert DecimalString(n) == ['-'] + d;
    }
  }

  /** A decimal string starts and ends with a non-blank character. */
  lemma {:induction false} DecimalStringShape(n: int)
    ensures var s := DecimalString(n);
      s != [] && !IsWhitespace(s[0]) && !IsWhitespace(s[|s| - 1]) &&
      (n < 0 ==> s[0] == '-' && s[1..] == NatDigits(-n)) &&
      (n >= 0 ==> s == NatDigits(n) && s[0] != '+' && s[0] != '-')
  {
    var m: nat := if n < 0 then -n else n;
    var d := NatDigits(m);
    assert IsRadixDigit(d[0], 10) && IsRadixDigit(d[|d| - 1], 10);
    if n < 0 {
      assert DecimalString(n) == ['-'] + d;
      assert (['-'] + d)[1..] == d;
    }
  }

  /** The longest digit prefix stops where the digits do. */
  lemma {:induction false} LeadingDigitsStop(d: string, rest: string, radix: nat)
    requires AllRadixDigits(d, radix)
    requires rest == [] || !IsRadixDigit(rest[0], radix)
    ensures LeadingDigits(d + rest, radix) == d
  {
    if d != [] {
      assert (d + rest)[1..] == d[1..] + rest;
      LeadingDigitsStop(d[1..], rest, radix);
    } else {
      assert d + rest == rest;
    }
  }

  /** Decimal digits followed by text that neither continues them nor makes a `0x` prefix. */
  lemma ParseUnsignedDigits(d: string, rest: string)
    requires d != [] && AllRadixDigits(d, 10)
    requires rest == [] || (!IsRadixDigit(rest[0], 10) && rest[0] != 'x' && rest[0] != 'X')
    ensures ParseUnsigned(d + rest) == Int(DigitsValue(d, 10))
  {
    var u := d + rest;
    assert !HasHexPrefix(u) by {
      assert u[0] == d[0] && IsRadixDigit(d[0], 10);
      if |d| >= 2 { assert u[1] == d[1] && IsRadixDigit(d[1], 10); }
      else if |u| >= 2 { assert u[1] == rest[0]; }
    }
    LeadingDigitsStop(d, rest, 10);
  }

  lemma SignedConcat(d: string, rest: string)
    ensures ("-" + d) + rest == "-" + (d + rest)
  {
  }

  lemma ParseSignedMinus(u: string)
    ensures ParseSigned("-" + u) == Negate(ParseUnsigned(u))
  {
    assert ("-" + u)[1..] == u;
  }

  /** `parseInt` reads an integer written in decimal and ignores whatever follows it, as long as
      that does not start with a digit or turn a leading `0` into a `0x` prefix: `12abc` is 12. */
  lemma {:induction false} ParseIntStopsAtNonDigit(n: int, rest: string)
    requires rest == [] || (!IsRadixDigit(rest[0], 10) && rest[0] != 'x' && rest[0] != 'X')
    ensures ParseInt(DecimalString(n) + rest) == Int(n)
  {
    var m: nat := if n < 0 then -n else n;
    var d := NatDigits(m);
    var u := d + rest;
    ParseUnsignedDigits(d, rest);
    NatDigitsValue(m);
    if n < 0 {
      assert DecimalString(n) == "-" + d;
      SignedConcat(d, rest);
      NonBlankStart("-" + u);
      ParseSignedMinus(u);
    } else {
      assert DecimalString(n) == d;
      assert IsRadixDigit(u[0], 10) by { assert u[0] == d[0]; }
      NonBlankStart(u);
    }
  }

  /** `parseInt` reads back every integer written in decimal. */
  lemma ParseIntDecimal(n: int)
    ensures ParseInt(DecimalString(n)) == Int(n)
  {
    ParseIntStopsAtNonDigit(n, "");
    assert DecimalString(n) + "" == DecimalString(n);
  }

  /** `isNaN` is false for every integer written in decimal. */
  lemma {:induction false} DecimalIsNumeric(n: int)
    ensures !IsNaNCoerced(DecimalString(n))
  {
    var s := DecimalString(n);
    var m: nat := if n < 0 then -n else n;
    var d := NatDigits(m);
    DecimalStringShape(n);
    TrimOfTrimmed(s);
    LeadingDigitsOfDigits(d, 10);
    assert d[|d|..] == "";
    assert IsUnsignedDecimal(d);
    assert IsDecimalLiteral(s);
  }
}
