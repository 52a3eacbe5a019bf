/** Decimal numerals as strconv prints and parses them, with 64-bit range. */
module Decimal {
  import opened Wrappers

  const MAX_INT64: int := 0x7FFF_FFFF_FFFF_FFFF
  const MIN_INT64: int := -0x8000_0000_0000_0000
  const TWO_64: int := 0x1_0000_0000_0000_0000

  /** A mathematical integer as the int64 that arithmetic leaves. */
  function Wrap64(x: int): (r: int)
    ensures MIN_INT64 <= r <= MAX_INT64 && (MIN_INT64 <= x <= MAX_INT64 ==> r == x)
  {
    (x - MIN_INT64) % TWO_64 + MIN_INT64
  }

  /** The sum of two int64 values as Go computes it. */
  function Sum64(x: int, y: int): int {
    if x + y > MAX_INT64 then x + y - TWO_64 else if x + y < MIN_INT64 then x + y + TWO_64 else x + y
  }

  predicate IsDigit(c: char) {
    '0' <= c <= '9'
  }

  function Digit(d: nat): char
    requires d < 10
  {
    '0' + d as char
  }

  predicate AllDigits(s: string) {
    forall i :: 0 <= i < |s| ==> IsDigit(s[i])
  }

  /** The numeral of a number. */
  function Dec(n: nat): (s: string)
    ensures s != "" && forall i :: 0 <= i < |s| ==> IsDigit(s[i])
  {
    if n < 10 then [Digit(n)] else Dec(n / 10) + [Digit(n % 10)]
  }

  function DigitsValue(s: string): (r: nat)
    requires forall i :: 0 <= i < |s| ==> IsDigit(s[i])
  {
    if s == "" then 0
    else
      var last := s[|s| - 1];
      assert IsDigit(last);
      DigitsValue(s[..|s| - 1]) * 10 + (last as int - '0' as int)
  }

  lemma {:induction false} DecValue(n: nat)
    ensures DigitsValue(Dec(n)) == n
  {
    var s := Dec(n);
    if n >= 10 {
      DecValue(n / 10);
      assert s[..|s| - 1] == Dec(n / 10);
    } else {
      assert s[..0] == "";
    }
  }

  /** Different numbers have different numerals. */
  lemma DecInjective(m: nat, n: nat)
    requires Dec(m) == Dec(n)
    ensures m == n
  {
    DecValue(m);
    DecValue(n);
  }

  /** ParseInt in base 10: an optional sign, at least one digit, and a value that fits an int64. */
  function ParseInt(s: string): Option<int> {
    var negative := s != "" && s[0] == '-';
    var digits := if s != "" && (s[0] == '-' || s[0] == '+') then s[1..] else s;
    if digits == "" || !AllDigits(digits) then None
    else
      var v := if negative then 0 - DigitsValue(digits) else DigitsValue(digits);
      if MIN_INT64 <= v <= MAX_INT64 then Some(v) else None
  }

  /** Parsing the numeral of an int64 gives the number back; a larger number is out of range. */
  lemma ParseDec(n: nat)
    ensures ParseInt(Dec(n)) == if n <= MAX_INT64 then Some(n) else None
  {
    DecValue(n);
    assert IsDigit(Dec(n)[0]);
  }

  /** A signed numeral: a sign or none, and at least one digit. */
  predicate IsSigned(s: string, sign: string, digits: string) {
    && s == sign + digits && (sign == "" || sign == "+" || sign == "-")
    && digits != "" && AllDigits(digits)
  }

  /** Exactly the signed numerals of int64 values are parsed, each to its value. */
  lemma SignedIsParsed(s: string, sign: string, digits: string)
    requires IsSigned(s, sign, digits)
    ensures var v := if sign == "-" then 0 - DigitsValue(digits) else DigitsValue(digits);
            ParseInt(s) == if MIN_INT64 <= v <= MAX_INT64 then Some(v) else None
  {
    assert IsDigit(digits[0]);
    if sign == "" {
      assert s == digits;
    } else {
      assert s[1..] == digits;
    }
  }

  lemma ParsedIsSigned(s: string) returns (sign: string, digits: string)
    requires ParseInt(s).Some?
    ensures IsSigned(s, sign, digits)
  {
    if s[0] == '-' || s[0] == '+' {
      sign, digits := if s[0] == '-' then "-" else "+", s[1..];
      assert s == sign + digits;
    } else {
      sign, digits := "", s;
      assert s == sign + digits;
    }
  }

  /** Leading zeros do not matter. */
  lemma {:induction false} LeadingZero(digits: string)
    requires forall i :: 0 <= i < |digits| ==> IsDigit(digits[i])
    ensures forall i :: 0 <= i < |"0" + digits| ==> IsDigit(("0" + digits)[i])
    ensures DigitsValue("0" + digits) == DigitsValue(digits)
  {
    if digits == "" {
      assert "0" + digits == "0" && "0"[..0] == "";
    } else {
      var init := digits[..|digits| - 1];
      LeadingZero(init);
      assert ("0" + digits)[..|digits|] == "0" + init;
    }
  }
}
