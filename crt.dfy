/** The parts of the C runtime that the argument parser of CreateLoad relies on:
    `tolower` in the "C" locale, `isspace`, and base-10 `strtoul` / `strtoll`
    with the integer widths of a Windows (LLP64) build, where `unsigned` and
    `unsigned long` are 32 bits wide and `long long` is 64 bits wide. */
module CRuntime {

  const ULONG_MAX: int := 0xFFFF_FFFF
  const LLONG_MAX: int := 0x7FFF_FFFF_FFFF_FFFF
  const LLONG_MIN: int := -0x8000_0000_0000_0000

  /** `unsigned` and `unsigned long` on Windows. */
  type uint32 = x: int | 0 <= x <= 0xFFFF_FFFF

  /** `long long`, also the representation of `std::chrono::seconds`. */
  type int64 = x: int | -0x8000_0000_0000_0000 <= x <= 0x7FFF_FFFF_FFFF_FFFF

  /** `tolower` in the "C" locale: only 'A'..'Z' change. */
  function ToLower(c: char): char {
    if 'A' <= c <= 'Z' then (c as int + 32) as char else c
  }

  /** A string with every character lower-cased. */
  function LowerString(s: string): string {
    seq(|s|, k requires 0 <= k < |s| => ToLower(s[k]))
  }

  /** `isspace` in the "C" locale: space, \t, \n, \v, \f, \r. */
  predicate IsSpace(c: char) {
    c == ' ' || 9 <= c as int <= 13
  }

  predicate IsDigit(c: char) {
    '0' <= c <= '9'
  }

  predicate AllDigits(d: string) {
    forall k :: 0 <= k < |d| ==> IsDigit(d[k])
  }

  /** Leading white space, which `strtoul` and `strtoll` skip. */
  function SkipSpace(s: string): string {
    if |s| > 0 && IsSpace(s[0]) then SkipSpace(s[1..]) else s
  }

  /** The longest prefix of decimal digits. */
  function DigitPrefix(s: string): string {
    if |s| > 0 && IsDigit(s[0]) then [s[0]] + DigitPrefix(s[1..]) else []
  }

  /** The value of a string of decimal digits, most significant first, unbounded. */
  function DecimalValue(d: string): nat
    requires AllDigits(d)
  {
    if d == [] then 0
    else DecimalValue(d[..|d| - 1]) * 10 + (d[|d| - 1] as int - '0' as int)
  }

  /** The subject sequence that base-10 `strtoul` and `strtoll` recognise:
      white space, an optional sign, then digits. With no digits the
      magnitude is 0, which is what "no conversion" returns. */
  datatype Subject = Subject(negative: bool, magnitude: nat)

  function ParseSubject(s: string): Subject {
    var t := SkipSpace(s);
    var signed := |t| > 0 && (t[0] == '+' || t[0] == '-');
    var digits := DigitPrefix(if signed then t[1..] else t);
    DigitPrefixAllDigits(if signed then t[1..] else t);
    Subject(signed && t[0] == '-', DecimalValue(digits))
  }

  /** Base-10 `strtoul` with a 32-bit `unsigned long`: a magnitude
      beyond ULONG_MAX clamps to ULONG_MAX, and a '-' sign negates the
      magnitude in unsigned arithmetic. */
  function StrToUL(s: string): uint32 {
    var p := ParseSubject(s);
    if p.magnitude > ULONG_MAX then ULONG_MAX
    else if p.negative then (0x1_0000_0000 - p.magnitude) % 0x1_0000_0000
    else p.magnitude
  }

  /** Base-10 `strtoll`: out-of-range values clamp to LLONG_MAX or LLONG_MIN. */
  function StrToLL(s: string): int64 {
    var p := ParseSubject(s);
    if !p.negative then (if p.magnitude > LLONG_MAX then LLONG_MAX else p.magnitude)
    else if p.magnitude > -LLONG_MIN then LLONG_MIN
    else -(p.magnitude as int)
  }

  /** The decimal representation of n, without sign or leading zeros. */
  function Decimal(n: nat): (r: string)
    ensures |r| > 0 && AllDigits(r)
  {
    if n < 10 then [('0' as int + n) as char]
    else Decimal(n / 10) + [('0' as int + n % 10) as char]
  }

  lemma {:induction false} DigitPrefixAllDigits(s: string)
    ensures AllDigits(DigitPrefix(s))
    ensures |DigitPrefix(s)| <= |s| && DigitPrefix(s) == s[..|DigitPrefix(s)|]
  {
    if |s| > 0 && IsDigit(s[0]) {
      DigitPrefixAllDigits(s[1..]);
    }
  }

  lemma {:induction false} DigitPrefixOfDigits(d: string, rest: string)
    requires AllDigits(d)
    requires |rest| > 0 ==> !IsDigit(rest[0])
    ensures DigitPrefix(d + rest) == d
  {
    if d != [] {
      assert (d + rest)[1..] == d[1..] + rest;
      DigitPrefixOfDigits(d[1..], rest);
    } else {
      assert d + rest == rest;
    }
  }

  lemma {:induction false} DecimalValueOfDecimal(n: nat)
    ensures DecimalValue(Decimal(n)) == n
  {
    var d := Decimal(n);
    if n >= 10 {
      DecimalValueOfDecimal(n / 10);
      assert d[..|d| - 1] == Decimal(n / 10);
    }
  }

  /** The digits of a decimal representation are read back exactly. */
  lemma SubjectOfDecimal(n: nat, sign: string)
    requires sign == [] || sign == "+" || sign == "-"
    ensures ParseSubject(sign + Decimal(n)) == Subject(sign == "-", n)
  {
    var d := Decimal(n);
    var s := sign + d;
    assert s[0] == if sign == [] then d[0] else sign[0];
    assert SkipSpace(s) == s;
    DigitPrefixOfDigits(d, []);
    assert d + [] == d;
    if sign != [] {
      assert s[1..] == d;
    } else {
      assert s == d;
      assert !(d[0] == '+' || d[0] == '-');
    }
    DecimalValueOfDecimal(n);
  }

  /** strtoul reads back every value of its type from its decimal form. */
  lemma StrToULOfDecimal(n: uint32)
    ensures StrToUL(Decimal(n)) == n
  {
    SubjectOfDecimal(n, []);
    assert [] + Decimal(n) == Decimal(n);
  }

  /** strtoul applied to "-n" gives 2^32 - n: for instance "-4294967295" gives 1. */
  lemma StrToULOfNegative(n: nat)
    requires 0 < n <= ULONG_MAX
    ensures StrToUL("-" + Decimal(n)) == 0x1_0000_0000 - n
  {
    SubjectOfDecimal(n, "-");
  }

  /** strtoll reads back every non-negative and negative value of its type. */
  lemma StrToLLOfDecimal(n: nat)
    requires n <= LLONG_MAX
    ensures StrToLL(Decimal(n)) == n
    ensures StrToLL("-" + Decimal(n)) == -(n as int)
  {
    SubjectOfDecimal(n, []);
    assert [] + Decimal(n) == Decimal(n);
    SubjectOfDecimal(n, "-");
  }

  lemma {:induction false} SkipSpaceSuffix(s: string)
    ensures |SkipSpace(s)| <= |s| && SkipSpace(s) == s[|s| - |SkipSpace(s)|..]
  {
    if |s| > 0 && IsSpace(s[0]) {
      SkipSpaceSuffix(s[1..]);
    }
  }

  /** A token with no digit in it, such as "" or "--rt", converts to 0. */
  lemma NoDigitsConvertsToZero(s: string)
    requires forall k :: 0 <= k < |s| ==> !IsDigit(s[k])
    ensures StrToUL(s) == 0 && StrToLL(s) == 0
  {
    var t := SkipSpace(s);
    SkipSpaceSuffix(s);
    var u := if |t| > 0 && (t[0] == '+' || t[0] == '-') then t[1..] else t;
    assert |u| > 0 ==> u[0] == s[|s| - |u|];
    assert DigitPrefix(u) == [];
  }

  lemma {:induction false} SkipSpaceLower(s: string)
    ensures SkipSpace(LowerString(s)) == LowerString(SkipSpace(s))
  {
    if |s| > 0 {
      assert LowerString(s)[1..] == LowerString(s[1..]);
      if IsSpace(s[0]) {
        SkipSpaceLower(s[1..]);
      }
    }
  }

  lemma {:induction false} DigitPrefixLower(s: string)
    ensures DigitPrefix(LowerString(s)) == DigitPrefix(s)
  {
    if |s| > 0 {
      assert LowerString(s)[1..] == LowerString(s[1..]);
      if IsDigit(s[0]) {
        DigitPrefixLower(s[1..]);
      }
    }
  }

  /** Lower-casing a value token never changes what it converts to. */
  lemma LowerKeepsNumbers(s: string)
    ensures StrToUL(LowerString(s)) == StrToUL(s)
    ensures StrToLL(LowerString(s)) == StrToLL(s)
  {
    var t := SkipSpace(s);
    SkipSpaceLower(s);
    var lt := LowerString(t);
    if |t| > 0 {
      assert lt[1..] == LowerString(t[1..]);
      DigitPrefixLower(t[1..]);
    }
    DigitPrefixLower(t);
    assert ParseSubject(LowerString(s)) == ParseSubject(s);
  }
}
