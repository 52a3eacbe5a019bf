/** Blockchain addresses and hashes as hexadecimal strings, with the EIP-55 checksum in the case of
    the letters (private/blockchain/types.go). */
module Address {
  import opened Keys

  const ADDRESS_LENGTH := 20
  const HASH_LENGTH := 32

  const QUOTE: Byte := 34
  const ZERO: Byte := 48  // '0'
  const NINE: Byte := 57  // '9'
  const LOWER_A: Byte := 97
  const UPPER_A: Byte := 65
  const LOWER_X: Byte := 120
  const UPPER_X: Byte := 88

  // ----- digits

  /** The lower-case digit of a nibble. */
  function Digit(n: int): Byte
    requires 0 <= n < 16
  {
    if n < 10 then ZERO + n else LOWER_A + n - 10
  }

  /** The value of a hexadecimal digit in either case, -1 for any other byte. */
  function DigitValue(b: Byte): (v: int)
    ensures -1 <= v < 16
  {
    if ZERO <= b <= NINE then b - ZERO
    else if LOWER_A <= b < LOWER_A + 6 then b - LOWER_A + 10
    else if UPPER_A <= b < UPPER_A + 6 then b - UPPER_A + 10
    else -1
  }

  /** The digits as they are written. */
  const LOWER_DIGITS := "0123456789abcdef"
  const UPPER_DIGITS := "0123456789ABCDEF"

  /** A nibble is written as the digit at its place, and read from that digit in either case. */
  lemma DigitsAreInOrder(n: nat, b: Byte)
    requires n < 16
    ensures Digit(n) == LOWER_DIGITS[n] as int
    ensures DigitValue(b) == n <==> b == LOWER_DIGITS[n] as int || b == UPPER_DIGITS[n] as int
  {
  }

  /** The i-th nibble of a byte string, high nibble first. */
  function Nibble(bytes: seq<Byte>, i: nat): (n: int)
    requires i < 2 * |bytes|
    ensures 0 <= n < 16
  {
    if i % 2 == 0 then bytes[i / 2] / 16 else bytes[i / 2] % 16
  }

  /** hex.Encode. */
  function Encode(bytes: seq<Byte>): (s: seq<Byte>)
    ensures |s| == 2 * |bytes|
  {
    seq(2 * |bytes|, i requires 0 <= i < 2 * |bytes| => Digit(Nibble(bytes, i)))
  }

  predicate IsLetter(b: Byte) {
    LOWER_A <= b < LOWER_A + 6
  }

  /** The lower-case digits with exactly the letters in upper case whose nibble of the hash is 8 or more. */
  ghost predicate Checksummed(s: seq<Byte>, digits: seq<Byte>, hash: seq<Byte>)
    requires |digits| <= 2 * |hash|
  {
    && |s| == |digits| + 2 && s[0] == ZERO && s[1] == LOWER_X
    && forall i {:trigger s[i + 2]} :: 0 <= i < |digits| ==>
      s[i + 2] == if IsLetter(digits[i]) && Nibble(hash, i) >= 8 then digits[i] - 32 else digits[i]
  }

  /** A prefix and the nibbles of the bytes in digits of either case. */
  ghost predicate Spells(s: seq<Byte>, bytes: seq<Byte>) {
    && |s| == 2 * |bytes| + 2 && s[0] == ZERO && (s[1] == LOWER_X || s[1] == UPPER_X)
    && forall i :: 0 <= i < 2 * |bytes| ==> SpellsAt(s, bytes, i)
  }

  predicate SpellsAt(s: seq<Byte>, bytes: seq<Byte>, i: nat)
    requires i < 2 * |bytes| && i + 2 < |s|
  {
    DigitValue(s[i + 2]) == Nibble(bytes, i)
  }

  lemma ChecksummedSpells(s: seq<Byte>, bytes: seq<Byte>, hash: seq<Byte>)
    requires |bytes| <= |hash| && Checksummed(s, Encode(bytes), hash)
    ensures Spells(s, bytes)
  {
    forall i | 0 <= i < 2 * |bytes|
      ensures SpellsAt(s, bytes, i)
    {
      assert Encode(bytes)[i] == Digit(Nibble(bytes, i));
    }
  }

  /** Different bytes are never spelled alike, whatever the case of the letters. */
  lemma SpellingIsInjective(s: seq<Byte>, a: seq<Byte>, b: seq<Byte>)
    requires Spells(s, a) && Spells(s, b)
    ensures a == b
  {
    forall k | 0 <= k < |a|
      ensures a[k] == b[k]
    {
      assert SpellsAt(s, a, 2 * k) && SpellsAt(s, b, 2 * k);
      assert SpellsAt(s, a, 2 * k + 1) && SpellsAt(s, b, 2 * k + 1);
    }
  }

  /** Hex is injective for every hash function. */
  lemma HexIsInjective(s: seq<Byte>, a: seq<Byte>, b: seq<Byte>, hash: seq<Byte> -> seq<Byte>)
    requires |a| == |b| == ADDRESS_LENGTH && |hash(Encode(a))| == |hash(Encode(b))| == HASH_LENGTH
    requires Checksummed(s, Encode(a), hash(Encode(a))) && Checksummed(s, Encode(b), hash(Encode(b)))
    ensures a == b
  {
    ChecksummedSpells(s, a, hash(Encode(a)));
    ChecksummedSpells(s, b, hash(Encode(b)));
    SpellingIsInjective(s, a, b);
  }

  // ----- printing

  /** The digits are written to a buffer and its letters raised in place by the hash of the digits. */
  method Hex(address: seq<Byte>, hash: seq<Byte> -> seq<Byte>) returns (s: seq<Byte>)
    requires |address| == ADDRESS_LENGTH && |hash(Encode(address))| == HASH_LENGTH
    ensures Checksummed(s, Encode(address), hash(Encode(address)))
  {
    var digits := Encode(address);
    var buf := new Byte[2 * |address| + 2](i requires 0 <= i < 2 * |address| + 2 =>
      if i == 0 then ZERO else if i == 1 then LOWER_X else digits[i - 2]);
    var sum := hash(digits);
    for i := 2 to buf.Length
      invariant buf[0] == ZERO && buf[1] == LOWER_X
      invariant forall k :: i <= k < buf.Length ==> buf[k] == digits[k - 2]
      invariant forall k :: 2 <= k < i ==>
        buf[k] == if IsLetter(digits[k - 2]) && Nibble(sum, k - 2) >= 8 then digits[k - 2] - 32 else digits[k - 2]
    {
      var hashByte := sum[(i - 2) / 2];
      if i % 2 == 0 {
        hashByte := hashByte / 16;
      } else {
        hashByte := hashByte % 16;
      }
      assert hashByte == Nibble(sum, i - 2);
      assert digits[i - 2] == Digit(Nibble(address, i - 2));
      if buf[i] > NINE && hashByte > 7 {
        buf[i] := buf[i] - 32;
      }
    }
    s := buf[..];
  }

  /** A hash prints in lower case. */
  function HashHex(hash: seq<Byte>): seq<Byte> {
    [ZERO, LOWER_X] + Encode(hash)
  }

  lemma HashHexSpells(hash: seq<Byte>)
    ensures Spells(HashHex(hash), hash)
    ensures forall i :: 0 <= i < |HashHex(hash)| ==> !(UPPER_A <= HashHex(hash)[i] <= UPPER_X)
  {
  }

  // ----- parsing

  datatype Outcome = Decoded | NotAString | BadByte(b: Byte) | OddLength | Panics

  predicate PairOk(src: seq<Byte>, k: nat)
    requires 2 * k + 1 < |src|
  {
    DigitValue(src[2 * k]) >= 0 && DigitValue(src[2 * k + 1]) >= 0
  }

  /** The number of leading pairs of digits, counted from the k-th. */
  function GoodPairs(src: seq<Byte>, k: nat): (n: nat)
    requires k <= |src| / 2
    ensures k <= n <= |src| / 2
    ensures forall j :: k <= j < n ==> PairOk(src, j)
    ensures n < |src| / 2 ==> !PairOk(src, n)
    decreases |src| / 2 - k
  {
    if k < |src| / 2 && PairOk(src, k) then GoodPairs(src, k + 1) else k
  }

  /** What decoding reports: more good pairs than fit make it panic, then come bad bytes, then an odd length. */
  function Report(src: seq<Byte>, room: nat): Outcome {
    var n := GoodPairs(src, 0);
    if n > room then Panics
    else if n < |src| / 2 then BadByte(if DigitValue(src[2 * n]) < 0 then src[2 * n] else src[2 * n + 1])
    else if |src| % 2 == 0 then Decoded
    else if DigitValue(src[|src| - 1]) < 0 then BadByte(src[|src| - 1])
    else OddLength
  }

  predicate AllDigits(src: seq<Byte>) {
    forall i :: 0 <= i < |src| ==> DigitValue(src[i]) >= 0
  }

  /** Decoding panics exactly when more pairs of digits lead the input than there is room for. It succeeds
      exactly for an even number of digits that fit, also for too few of them, and sets every byte exactly
      when there are two digits for each. */
  lemma LengthIsNotChecked(src: seq<Byte>, room: nat)
    ensures Report(src, room) == Panics <==> 2 * (room + 1) <= |src| && AllDigits(src[..2 * (room + 1)])
    ensures Report(src, room) == Decoded <==> |src| % 2 == 0 && |src| <= 2 * room && AllDigits(src)
    ensures Report(src, room) == Decoded && GoodPairs(src, 0) == room <==> |src| == 2 * room && AllDigits(src)
  {
    PairsAreDigits(src, |src| / 2);
    if room < |src| / 2 {
      PairsAreDigits(src, room + 1);
    }
    if |src| % 2 == 0 {
      assert src[..2 * (|src| / 2)] == src;
    }
  }

  /** The first byte that is no digit is the one that is reported, as far as it comes before a byte without room;
      without one the length is odd. */
  lemma ReportsFirstBadByte(src: seq<Byte>, room: nat, k: nat)
    requires k < |src| && DigitValue(src[k]) < 0 && AllDigits(src[..k])
    ensures Report(src, room) == if k / 2 > room then Panics else BadByte(src[k])
  {
    PairsAreDigits(src, k / 2);
    assert src[..k][..2 * (k / 2)] == src[..2 * (k / 2)];
    assert 2 * (k / 2) + 1 < |src| ==> !PairOk(src, k / 2);
    if k % 2 == 1 {
      assert src[..k][k - 1] == src[k - 1];
    }
  }

  lemma ReportsOddLength(src: seq<Byte>, room: nat)
    requires |src| % 2 == 1 && AllDigits(src)
    ensures Report(src, room) == if |src| / 2 > room then Panics else OddLength
  {
    PairsAreDigits(src, |src| / 2);
  }

  lemma PairsAreDigits(src: seq<Byte>, n: nat)
    requires n <= |src| / 2
    ensures GoodPairs(src, 0) >= n <==> AllDigits(src[..2 * n])
  {
    var good := GoodPairs(src, 0);
    if good >= n {
      GoodPairsAreDigits(src, n);
    } else {
      assert src[..2 * n][2 * good] == src[2 * good] && src[..2 * n][2 * good + 1] == src[2 * good + 1];
    }
  }

  lemma GoodPairsAreDigits(src: seq<Byte>, n: nat)
    requires n <= |src| / 2 && GoodPairs(src, 0) >= n
    ensures AllDigits(src[..2 * n])
  {
    forall i | 0 <= i < 2 * n
      ensures DigitValue(src[..2 * n][i]) >= 0
    {
      assert PairOk(src, i / 2);
    }
  }

  /** The pairs are stored, and nothing else of the destination changes. */
  ghost predicate Stored(before: seq<Byte>, after: seq<Byte>, src: seq<Byte>, n: nat)
    requires n <= |src| / 2
  {
    && |after| == |before| && n <= |after|
    && (forall k :: 0 <= k < n ==>
         PairOk(src, k) && after[k] == 16 * DigitValue(src[2 * k]) + DigitValue(src[2 * k + 1]))
    && forall k :: n <= k < |after| ==> after[k] == before[k]
  }

  /** hex.Decode: stores pair after pair until one is bad; what was stored before stays. */
  method Decode(dst: array<Byte>, src: seq<Byte>) returns (r: Outcome)
    modifies dst
    ensures r == Report(src, dst.Length)
    ensures var n := GoodPairs(src, 0); Stored(old(dst[..]), dst[..], src, if n > dst.Length then dst.Length else n)
  {
    var i, j := 0, 1;
    while j < |src|
      invariant j == 2 * i + 1 && i <= |src| / 2 && i <= dst.Length
      invariant GoodPairs(src, i) == GoodPairs(src, 0)
      invariant Stored(old(dst[..]), dst[..], src, i)
    {
      var p, q := src[j - 1], src[j];
      var a, b := DigitValue(p), DigitValue(q);
      if a < 0 {
        return BadByte(p);
      }
      if b < 0 {
        return BadByte(q);
      }
      assert PairOk(src, i);
      if i == dst.Length {
        return Panics;
      }
      dst[i] := a * 16 + b;
      i := i + 1;
      j := j + 2;
    }
    if |src| % 2 == 1 {
      if DigitValue(src[j - 1]) < 0 {
        return BadByte(src[j - 1]);
      }
      return OddLength;
    }
    r := Decoded;
  }

  predicate IsString(input: seq<Byte>) {
    |input| >= 2 && input[0] == QUOTE && input[|input| - 1] == QUOTE
  }

  predicate Has0xPrefix(input: seq<Byte>) {
    |input| >= 2 && input[0] == ZERO && (input[1] == LOWER_X || input[1] == UPPER_X)
  }

  /** The digits of a JSON string, without an optional prefix. */
  function Digits(src: seq<Byte>): seq<Byte>
    requires IsString(src)
  {
    var inner := src[1..|src| - 1];
    if Has0xPrefix(inner) then inner[2..] else inner
  }

  method UnmarshalHexString(dst: array<Byte>, src: seq<Byte>) returns (r: Outcome)
    modifies dst
    ensures !IsString(src) ==> r == NotAString && dst[..] == old(dst[..])
    ensures IsString(src) ==> r == Report(Digits(src), dst.Length)
    ensures IsString(src) ==>
      var n := GoodPairs(Digits(src), 0);
      Stored(old(dst[..]), dst[..], Digits(src), if n > dst.Length then dst.Length else n)
  {
    if !IsString(src) {
      return NotAString;
    }
    var inner := src[1..|src| - 1];
    if Has0xPrefix(inner) {
      inner := inner[2..];
    }
    r := Decode(dst, inner);
  }

  /** The prefix is optional. */
  lemma PrefixIsOptional(digits: seq<Byte>, x: Byte)
    requires AllDigits(digits) && (x == LOWER_X || x == UPPER_X)
    ensures var (bare, prefixed) := ([QUOTE] + digits + [QUOTE], [QUOTE] + ([ZERO, x] + digits) + [QUOTE]);
            && IsString(bare) && Digits(bare) == digits
            && IsString(prefixed) && Digits(prefixed) == digits
  {
    assert ([QUOTE] + digits + [QUOTE])[1..|digits| + 1] == digits;
    var inner := [ZERO, x] + digits;
    assert ([QUOTE] + inner + [QUOTE])[1..|inner| + 1] == inner && inner[2..] == digits;
  }

  lemma QuotedDigits(s: seq<Byte>, bytes: seq<Byte>)
    requires Spells(s, bytes)
    ensures var src := [QUOTE] + s + [QUOTE]; IsString(src) && Digits(src) == s[2..]
  {
    assert ([QUOTE] + s + [QUOTE])[1..|s| + 1] == s;
  }

  lemma PairSpells(s: seq<Byte>, bytes: seq<Byte>, k: nat)
    requires Spells(s, bytes) && k < |bytes|
    ensures var digits := s[2..];
            PairOk(digits, k) && 16 * DigitValue(digits[2 * k]) + DigitValue(digits[2 * k + 1]) == bytes[k]
  {
    assert SpellsAt(s, bytes, 2 * k) && SpellsAt(s, bytes, 2 * k + 1);
  }

  /** Unmarshalling the quoted string stores exactly these bytes, without an error. */
  ghost predicate DecodesTo(s: seq<Byte>, bytes: seq<Byte>) {
    var src := [QUOTE] + s + [QUOTE];
    && IsString(src) && Report(Digits(src), |bytes|) == Decoded && GoodPairs(Digits(src), 0) == |bytes|
    && forall k :: 0 <= k < |bytes| ==> 2 * k + 1 < |Digits(src)| && PairIs(Digits(src), k, bytes[k])
  }

  predicate PairIs(digits: seq<Byte>, k: nat, b: Byte)
    requires 2 * k + 1 < |digits|
  {
    PairOk(digits, k) && 16 * DigitValue(digits[2 * k]) + DigitValue(digits[2 * k + 1]) == b
  }

  lemma SpelledIsDecoded(s: seq<Byte>, bytes: seq<Byte>)
    requires Spells(s, bytes)
    ensures DecodesTo(s, bytes)
  {
    QuotedDigits(s, bytes);
    forall k | 0 <= k < |bytes|
      ensures PairOk(s[2..], k) && PairIs(s[2..], k, bytes[k])
    {
      PairSpells(s, bytes, k);
    }
    assert GoodPairs(s[2..], 0) == |bytes|;
  }

  lemma DecodedIsSpelled(s: seq<Byte>, bytes: seq<Byte>)
    requires Has0xPrefix(s) && DecodesTo(s, bytes)
    ensures Spells(s, bytes)
  {
    var src := [QUOTE] + s + [QUOTE];
    assert src[1..|src| - 1] == s;
    forall i: nat | i < 2 * |bytes|
      ensures SpellsAt(s, bytes, i)
    {
      assert PairIs(Digits(src), i / 2, bytes[i / 2]);
    }
  }

  /** A prefixed string decodes to exactly the bytes that it spells, in any case of its letters. */
  lemma SpellingDecodes(s: seq<Byte>, bytes: seq<Byte>)
    requires Has0xPrefix(s)
    ensures DecodesTo(s, bytes) <==> Spells(s, bytes)
  {
    if Spells(s, bytes) {
      SpelledIsDecoded(s, bytes);
    }
    if DecodesTo(s, bytes) {
      DecodedIsSpelled(s, bytes);
    }
  }

  lemma DecodedIsStored(s: seq<Byte>, bytes: seq<Byte>, before: seq<Byte>, after: seq<Byte>)
    requires DecodesTo(s, bytes) && |before| == |bytes|
    requires Stored(before, after, Digits([QUOTE] + s + [QUOTE]), |bytes|)
    ensures after == bytes
  {
    forall k | 0 <= k < |bytes|
      ensures after[k] == bytes[k]
    {
      assert PairIs(Digits([QUOTE] + s + [QUOTE]), k, bytes[k]);
    }
  }

  // ----- the checksum is not verified

  /** The printed form, as the checksum asks for it. */
  function Print(bytes: seq<Byte>, hash: seq<Byte>): (s: seq<Byte>)
    requires |bytes| <= |hash|
    ensures Checksummed(s, Encode(bytes), hash)
  {
    var digits := Encode(bytes);
    [ZERO, LOWER_X] + seq(|digits|, i requires 0 <= i < |digits| =>
      if IsLetter(digits[i]) && Nibble(hash, i) >= 8 then digits[i] - 32 else digits[i])
  }

  /** The other case of a letter. */
  function OtherCase(b: Byte): Byte {
    if IsLetter(b) then b - 32 else if UPPER_A <= b < UPPER_A + 6 then b + 32 else b
  }

  ghost predicate HasLetter(bytes: seq<Byte>) {
    exists i: nat :: i < 2 * |bytes| && LetterAt(bytes, i)
  }

  predicate LetterAt(bytes: seq<Byte>, i: nat)
    requires i < 2 * |bytes|
  {
    Nibble(bytes, i) >= 10
  }

  /** A string with the usual prefix that unmarshals to the bytes and is not their checksummed print. */
  ghost predicate WrongChecksumAccepted(s: seq<Byte>, bytes: seq<Byte>, hash: seq<Byte>)
    requires |bytes| <= |hash|
  {
    Has0xPrefix(s) && s[1] == LOWER_X && DecodesTo(s, bytes) && !Checksummed(s, Encode(bytes), hash)
  }

  /** Unmarshalling accepts a wrong checksum for exactly the addresses with a letter among their digits. */
  lemma ChecksumIsNotVerified(bytes: seq<Byte>, hash: seq<Byte>)
    requires |bytes| <= |hash|
    ensures (exists s :: WrongChecksumAccepted(s, bytes, hash)) <==> HasLetter(bytes)
  {
    if HasLetter(bytes) {
      var i: nat :| i < 2 * |bytes| && LetterAt(bytes, i);
      WrongCaseIsAccepted(bytes, hash, i);
    } else {
      forall s | WrongChecksumAccepted(s, bytes, hash)
        ensures false
      {
        SpellingDecodes(s, bytes);
        forall i | 0 <= i < 2 * |bytes|
          ensures s[i + 2] == Encode(bytes)[i] && !IsLetter(Encode(bytes)[i])
        {
          assert SpellsAt(s, bytes, i) && !LetterAt(bytes, i);
        }
      }
    }
  }

  lemma WrongCaseIsAccepted(bytes: seq<Byte>, hash: seq<Byte>, i: nat)
    requires |bytes| <= |hash| && i < 2 * |bytes| && LetterAt(bytes, i)
    ensures var s := Print(bytes, hash); WrongChecksumAccepted(s[i + 2 := OtherCase(s[i + 2])], bytes, hash)
  {
    var s := Print(bytes, hash);
    var t := s[i + 2 := OtherCase(s[i + 2])];
    ChecksummedSpells(s, bytes, hash);
    assert Encode(bytes)[i] == Digit(Nibble(bytes, i));
    assert t[i + 2] != s[i + 2];
    forall k | 0 <= k < 2 * |bytes|
      ensures SpellsAt(t, bytes, k)
    {
      assert SpellsAt(s, bytes, k);
    }
    SpellingDecodes(t, bytes);
  }

  /** Printing an address and unmarshalling the quoted result gives the address back. */
  method PrintThenParse(address: seq<Byte>, hash: seq<Byte> -> seq<Byte>, dst: array<Byte>) returns (r: Outcome)
    requires |address| == ADDRESS_LENGTH && |hash(Encode(address))| == HASH_LENGTH && dst.Length == ADDRESS_LENGTH
    modifies dst
    ensures r == Decoded && dst[..] == address
  {
    var s := Hex(address, hash);
    ChecksummedSpells(s, address, hash(Encode(address)));
    SpellingDecodes(s, address);
    ghost var before := dst[..];
    r := UnmarshalHexString(dst, [QUOTE] + s + [QUOTE]);
    DecodedIsStored(s, address, before, dst[..]);
  }
}
