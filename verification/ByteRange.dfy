/** The --range argument: one byte range in the notation of section 14.35.1 of RFC 2616
    (cmd/uplink/cmd_cp.go). */
module ByteRange {
  import opened Wrappers
  import opened Sequences
  import opened Decimal

  /** unicode.IsSpace. */
  predicate IsSpace(c: char) {
    || '\t' <= c <= '\r' || c == ' ' || c == '\U{85}' || c == '\U{A0}' || c == '\U{1680}'
    || '\U{2000}' <= c <= '\U{200A}' || c == '\U{2028}' || c == '\U{2029}' || c == '\U{202F}' || c == '\U{205F}'
    || c == '\U{3000}'
  }

  function TrimSpace(s: string): string {
    TrimRight(TrimLeft(s))
  }

  function TrimLeft(s: string): string {
    if s != "" && IsSpace(s[0]) then TrimLeft(s[1..]) else s
  }

  function TrimRight(s: string): string {
    if s != "" && IsSpace(s[|s| - 1]) then TrimRight(s[..|s| - 1]) else s
  }

  function TrimPrefix(s: string, p: string): string {
    if p <= s then s[|p|..] else s
  }

  datatype RangeError = NotSingle | NoDash | BadNumber | NoBounds | NegativeStart | StartAfterEnd

  datatype Parsed = Range(offset: int, length: int) | Invalid(error: RangeError)

  /** parseRange: the offset to start at, negative when it counts from the end, and the length
      to copy, -1 when it is open. The length is computed in 64 bits. */
  function ParseRange(arg: string): Parsed {
    ParseBody(Stripped(arg))
  }

  /** The argument without spaces around it and without its unit. */
  function Stripped(arg: string): string {
    TrimPrefix(TrimSpace(arg), "bytes=")
  }

  function ParseBody(r: string): Parsed {
    if r == "" then Range(0, -1)
    else if ',' in r then Invalid(NotSingle)
    else
      var idx := FirstIndex(r, '-');
      if idx < 0 then Invalid(NoDash) else ParseBounds(TrimSpace(r[..idx]), TrimSpace(r[idx + 1..]))
  }

  function ParseBounds(start: string, end: string): Parsed {
    var s, e := if start == "" then Some(0) else ParseInt(start), if end == "" then Some(0) else ParseInt(end);
    if s.None? || e.None? then Invalid(BadNumber)
    else if start == "" && end == "" then Invalid(NoBounds)
    else if start == "" then Range(Wrap64(-e.value), -1)
    else if end == "" then Range(s.value, -1)
    else if s.value < 0 then Invalid(NegativeStart)
    else if s.value > e.value then Invalid(StartAfterEnd)
    else Range(s.value, Wrap64(e.value - s.value + 1))
  }

  // ----- what the printed forms mean

  lemma NothingToTrim(s: string)
    requires s == "" || (!IsSpace(s[0]) && !IsSpace(s[|s| - 1]))
    ensures TrimSpace(s) == s
  {
  }

  /** A printed range: two numerals, either of which may be left out. */
  function Printed(a: string, b: string): string {
    a + "-" + b
  }

  lemma PrintedChars(a: string, b: string)
    requires AllDigits(a) && AllDigits(b)
    ensures var r := Printed(a, b); r != "" && forall i :: 0 <= i < |r| ==> IsDigit(r[i]) || r[i] == '-'
  {
  }

  lemma PrintedIsBare(r: string)
    requires r != "" && forall i :: 0 <= i < |r| ==> IsDigit(r[i]) || r[i] == '-'
    ensures TrimPrefix(TrimSpace(r), "bytes=") == r && ',' !in r
  {
    NothingToTrim(r);
    assert r[0] != "bytes="[0];
  }

  lemma PrintedSplits(a: string, b: string)
    requires AllDigits(a) && AllDigits(b)
    ensures FirstIndex(Printed(a, b), '-') == |a|
    ensures Printed(a, b)[..|a|] == a && Printed(a, b)[|a| + 1..] == b
    ensures TrimSpace(a) == a && TrimSpace(b) == b
  {
    NothingToTrim(a);
    NothingToTrim(b);
    assert Printed(a, b) == a + ("-" + b);
    FirstIndexAppend(a, "-" + b, '-');
  }

  lemma PrintedRange(a: string, b: string)
    requires AllDigits(a) && AllDigits(b)
    ensures ParseRange(Printed(a, b)) ==
      var s, e := if a == "" then Some(0) else ParseInt(a), if b == "" then Some(0) else ParseInt(b);
      if s.None? || e.None? then Invalid(BadNumber)
      else if a == "" && b == "" then Invalid(NoBounds)
      else if a == "" then Range(Wrap64(0 - e.value), -1)
      else if b == "" then Range(s.value, -1)
      else if s.value < 0 then Invalid(NegativeStart)
      else if s.value > e.value then Invalid(StartAfterEnd)
      else Range(s.value, Wrap64(e.value - s.value + 1))
  {
    PrintedChars(a, b);
    PrintedIsBare(Printed(a, b));
    PrintedSplits(a, b);
  }

  /** `a-b` is the range that starts at a and has b-a+1 bytes, for all 64-bit bounds; only the
      whole of 0-9223372036854775807 has a length that does not fit and wraps around. */
  lemma ClosedRange(a: nat, b: nat)
    requires a <= MAX_INT64 && b <= MAX_INT64
    ensures ParseRange(Printed(Dec(a), Dec(b))) == if a > b then Invalid(StartAfterEnd) else Range(a, Wrap64(b - a + 1))
    ensures a <= b ==> (Wrap64(b - a + 1) == b - a + 1 <==> !(a == 0 && b == MAX_INT64))
  {
    PrintedRange(Dec(a), Dec(b));
    ParseDec(a);
    ParseDec(b);
  }

  /** `a-` starts at a and is open. */
  lemma OpenRange(a: nat)
    requires a <= MAX_INT64
    ensures ParseRange(Printed(Dec(a), "")) == Range(a, -1)
  {
    PrintedRange(Dec(a), "");
    ParseDec(a);
  }

  /** `-n` starts n bytes before the end. So `-0` is the whole source, which the standard calls unsatisfiable. */
  lemma SuffixRange(n: nat)
    requires n <= MAX_INT64
    ensures ParseRange(Printed("", Dec(n))) == Range(0 - n, -1)
  {
    PrintedRange("", Dec(n));
    ParseDec(n);
  }

  // ----- spaces, the unit, and what is refused

  ghost predicate AllSpace(s: string) {
    forall i :: 0 <= i < |s| ==> IsSpace(s[i])
  }

  /** No space at either end. */
  predicate Bare(s: string) {
    s == "" || (!IsSpace(s[0]) && !IsSpace(s[|s| - 1]))
  }

  lemma {:induction false} LeftTrims(x: string, s: string)
    requires AllSpace(x)
    ensures TrimLeft(x + s) == TrimLeft(s)
  {
    if x == "" {
      assert x + s == s;
    } else {
      assert (x + s)[1..] == x[1..] + s;
      LeftTrims(x[1..], s);
    }
  }

  lemma {:induction false} RightTrims(s: string, y: string)
    requires AllSpace(y)
    ensures TrimRight(s + y) == TrimRight(s)
  {
    if y == "" {
      assert s + y == s;
    } else {
      assert (s + y)[..|s + y| - 1] == s + y[..|y| - 1];
      RightTrims(s, y[..|y| - 1]);
    }
  }

  /** Trimming takes away all spaces on both sides and nothing else. */
  lemma Trims(x: string, s: string, y: string)
    requires AllSpace(x) && AllSpace(y) && Bare(s)
    ensures TrimSpace(x + s + y) == s
  {
    assert x + s + y == x + (s + y);
    LeftTrims(x, s + y);
    if s == "" {
      assert s + y == y + "";
      LeftTrims(y, "");
    } else {
      assert TrimLeft(s + y) == s + y;
      RightTrims(s, y);
      assert TrimRight(s) == s;
    }
  }

  lemma StripsPadding(x: string, r: string, y: string)
    requires AllSpace(x) && AllSpace(y) && Bare(r)
    ensures Stripped(x + r + y) == TrimPrefix(r, "bytes=") == Stripped(r)
  {
    Trims(x, r, y);
    Trims("", r, "");
    assert "" + r + "" == r;
  }

  lemma UnitIsBare(r: string)
    requires Bare(r)
    ensures Bare("bytes=" + r) && TrimPrefix("bytes=" + r, "bytes=") == r
  {
    var u := "bytes=" + r;
    assert u[0] == 'b' && u[|u| - 1] == if r == "" then '=' else r[|r| - 1];
    assert u[|"bytes="|..] == r;
  }

  lemma StripsUnit(x: string, r: string, y: string)
    requires AllSpace(x) && AllSpace(y) && Bare(r) && !("bytes=" <= r)
    ensures Stripped(x + ("bytes=" + r) + y) == r == Stripped(r)
  {
    UnitIsBare(r);
    StripsPadding(x, "bytes=" + r, y);
    StripsPadding("", r, "");
  }

  /** Spaces around a range do not matter, nor does the unit in front of it. */
  lemma SpacesDoNotMatter(x: string, r: string, y: string)
    requires AllSpace(x) && AllSpace(y) && Bare(r)
    ensures ParseRange(x + r + y) == ParseRange(r)
    ensures !("bytes=" <= r) ==> ParseRange(x + ("bytes=" + r) + y) == ParseRange(r)
  {
    StripsPadding(x, r, y);
    if !("bytes=" <= r) {
      StripsUnit(x, r, y);
    }
  }

  /** Without a range, with or without the unit, everything is copied from the start on. */
  lemma NoRangeIsEverything(x: string, y: string)
    requires AllSpace(x) && AllSpace(y)
    ensures ParseRange(x) == Range(0, -1) && ParseRange(x + "bytes=" + y) == Range(0, -1)
  {
    StripsPadding(x, "", "");
    StripsUnit(x, "", y);
    assert x + "" + "" == x;
    assert "bytes=" + "" == "bytes=";
  }

  lemma BodySplits(p: string, q: string)
    requires '-' !in p && ',' !in p && ',' !in q
    ensures ParseBody(p + "-" + q) == ParseBounds(TrimSpace(p), TrimSpace(q))
  {
    var r := p + "-" + q;
    assert r == p + ("-" + q);
    FirstIndexAppend(p, "-" + q, '-');
    assert r[..|p|] == p && r[|p| + 1..] == q;
  }

  predicate InBound(c: char) {
    IsDigit(c) || IsSpace(c)
  }

  lemma InBoundOnly(s: string)
    requires forall i :: 0 <= i < |s| ==> InBound(s[i])
    ensures '-' !in s && ',' !in s
  {
  }

  /** A numeral with spaces around it, on the side of the dash only. */
  lemma BoundIsTrimmed(y: string, a: string, z: string)
    requires AllSpace(y) && AllSpace(z) && AllDigits(a)
    ensures TrimSpace(y + a + z) == a && '-' !in y + a + z && ',' !in y + a + z
  {
    Trims(y, a, z);
    assert forall i :: 0 <= i < |y + a + z| ==> InBound((y + a + z)[i]);
    InBoundOnly(y + a + z);
  }

  lemma BoundsAreStripped(a: string, y: string, z: string, b: string)
    requires AllSpace(y) && AllSpace(z) && AllDigits(a) && AllDigits(b)
    ensures var r := (if a == "" then "" else a + y) + "-" + (if b == "" then "" else z + b);
            Bare(r) && TrimPrefix(r, "bytes=") == r
  {
    var p, q := if a == "" then "" else a + y, if b == "" then "" else z + b;
    var r := p + "-" + q;
    assert r[0] == if a == "" then '-' else a[0];
    assert r[|r| - 1] == if b == "" then '-' else b[|b| - 1];
    assert "bytes="[0] == 'b';
  }

  lemma Regroup(x: string, a: string, y: string, z: string, b: string, w: string)
    ensures var p, q := if a == "" then "" else a + y, if b == "" then "" else z + b;
            x + a + y + "-" + (z + b + w) ==
            (if a == "" then x + y else x) + (p + "-" + q) + (if b == "" then z + w else w)
  {
  }

  lemma SpacedIsStripped(x: string, a: string, y: string, z: string, b: string, w: string)
    requires AllSpace(x) && AllSpace(y) && AllSpace(z) && AllSpace(w) && AllDigits(a) && AllDigits(b)
    ensures Stripped(x + a + y + "-" + (z + b + w)) ==
      (if a == "" then "" else a + y) + "-" + (if b == "" then "" else z + b)
  {
    var p, q := if a == "" then "" else a + y, if b == "" then "" else z + b;
    Regroup(x, a, y, z, b, w);
    BoundsAreStripped(a, y, z, b);
    StripsPadding(if a == "" then x + y else x, p + "-" + q, if b == "" then z + w else w);
  }

  lemma BoundsAreTheNumerals(a: string, y: string, z: string, b: string)
    requires AllSpace(y) && AllSpace(z) && AllDigits(a) && AllDigits(b)
    ensures ParseBody((if a == "" then "" else a + y) + "-" + (if b == "" then "" else z + b)) == ParseBounds(a, b)
  {
    var p, q := if a == "" then "" else a + y, if b == "" then "" else z + b;
    assert "" + a + y == a + y && z + b + "" == z + b;
    BoundIsTrimmed("", a, y);
    BoundIsTrimmed(z, b, "");
    BodySplits(p, q);
  }

  /** Spaces around the numerals do not matter. */
  lemma SpacedRange(x: string, a: string, y: string, z: string, b: string, w: string)
    requires AllSpace(x) && AllSpace(y) && AllSpace(z) && AllSpace(w) && AllDigits(a) && AllDigits(b)
    ensures ParseRange(x + a + y + "-" + (z + b + w)) == ParseRange(Printed(a, b))
  {
    SpacedIsStripped(x, a, y, z, b, w);
    BoundsAreTheNumerals(a, y, z, b);
    PrintedChars(a, b);
    PrintedIsBare(Printed(a, b));
    PrintedSplits(a, b);
  }

  lemma RefusedBounds(start: string, end: string)
    ensures ParseBounds(start, end) == Invalid(BadNumber) <==>
      (start != "" && ParseInt(start).None?) || (end != "" && ParseInt(end).None?)
    ensures ParseBounds(start, end) != Invalid(NotSingle) && ParseBounds(start, end) != Invalid(NoDash)
  {
  }

  /** Bounds that are no numerals are refused. */
  lemma RefusedRanges(p: string, q: string)
    requires Bare(p + "-" + q) && !("bytes=" <= p + "-" + q) && '-' !in p && ',' !in p && ',' !in q
    ensures ParseRange(p + "-" + q) == Invalid(BadNumber) <==>
      (TrimSpace(p) != "" && ParseInt(TrimSpace(p)).None?) || (TrimSpace(q) != "" && ParseInt(TrimSpace(q)).None?)
  {
    StripsPadding("", p + "-" + q, "");
    BodySplits(p, q);
    RefusedBounds(TrimSpace(p), TrimSpace(q));
  }

  /** More than one range and a range without a dash are refused. */
  lemma RefusedForms(r: string)
    requires Bare(r) && !("bytes=" <= r) && r != ""
    ensures ParseRange(r) == Invalid(NotSingle) <==> ',' in r
    ensures ParseRange(r) == Invalid(NoDash) <==> ',' !in r && '-' !in r
  {
    StripsPadding("", r, "");
    var idx := FirstIndex(r, '-');
    if idx >= 0 {
      RefusedBounds(TrimSpace(r[..idx]), TrimSpace(r[idx + 1..]));
    }
  }
}
