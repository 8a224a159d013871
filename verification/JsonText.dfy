/** Decimal, hexadecimal and UTF-8 text as json11 reads and writes it. */
module JsonText {
  import opened JsonValue

  const NUL: Byte := 0 as char

  /** `str[k]`, which is the terminating zero at the end of the string. */
  function At(s: Bytes, k: nat): Byte {
    if k < |s| then s[k] else NUL
  }

  predicate IsDigit(c: Byte) { '0' <= c <= '9' }

  predicate IsHexDigit(c: Byte) {
    'a' <= c <= 'f' || 'A' <= c <= 'F' || '0' <= c <= '9'
  }

  function Digit(d: nat): Byte
    requires d < 10
  {
    (d + '0' as int) as char
  }

  function DigitValue(c: Byte): nat
    requires IsDigit(c)
  {
    c as int - '0' as int
  }

  predicate AllDigits(t: Bytes) {
    forall k :: 0 <= k < |t| ==> IsDigit(t[k])
  }

  // ----- Decimal integers -----

  function Pow10(n: nat): (r: nat)
    ensures r > 0
  {
    if n == 0 then 1 else 10 * Pow10(n - 1)
  }

  /** The number a digit string denotes. */
  function DigitsValue(t: Bytes): (n: nat)
    requires AllDigits(t)
    ensures n < Pow10(|t|)
  {
    if t == [] then 0
    else 10 * DigitsValue(t[..|t| - 1]) + DigitValue(t[|t| - 1])
  }

  /** `%llu`. */
  function Decimal(n: nat): (t: Bytes)
    ensures t != [] && AllDigits(t)
  {
    if n < 10 then [Digit(n)] else Decimal(n / 10) + [Digit(n % 10)]
  }

  /** `%d`. */
  function SignedDecimal(n: int): Bytes {
    if n < 0 then ['-'] + Decimal(-n) else Decimal(n)
  }

  predicate IsIntegerText(t: Bytes) {
    || (t != [] && AllDigits(t))
    || (|t| > 1 && t[0] == '-' && AllDigits(t[1..]))
  }

  /** `atoi`, on texts short enough not to overflow. */
  function IntegerValue(t: Bytes): int
    requires IsIntegerText(t)
  {
    if t[0] == '-' then 0 - DigitsValue(t[1..]) else DigitsValue(t)
  }

  lemma {:induction false} DecimalDenotes(n: nat)
    ensures DigitsValue(Decimal(n)) == n
    ensures Decimal(n)[0] == '0' <==> n == 0
    ensures n == 0 ==> |Decimal(n)| == 1
  {
    if n >= 10 {
      DecimalDenotes(n / 10);
      assert Decimal(n)[..|Decimal(n)| - 1] == Decimal(n / 10);
    }
  }

  lemma SignedDecimalDenotes(n: int)
    ensures IsIntegerText(SignedDecimal(n)) && IntegerValue(SignedDecimal(n)) == n
  {
    if n < 0 {
      DecimalDenotes(-n);
      assert SignedDecimal(n)[1..] == Decimal(-n);
    } else {
      DecimalDenotes(n);
    }
  }

  lemma ShortIntegerFits(t: Bytes)
    requires IsIntegerText(t) && |t| <= 9
    ensures -1_000_000_000 < IntegerValue(t) < 1_000_000_000
  {
    Pow10Monotone(|t|, 9);
    Pow10Monotone(|t| - 1, 9);
    assert Pow10(9) == 1_000_000_000;
  }

  /** The int a short integer text is read as. */
  function ShortInt(t: Bytes): Json
    requires IsIntegerText(t) && |t| <= 9
  {
    ShortIntegerFits(t);
    Int(IntegerValue(t))
  }

  lemma {:induction false} Pow10Monotone(m: nat, n: nat)
    requires m <= n
    ensures Pow10(m) <= Pow10(n)
    decreases n
  {
    if m < n { Pow10Monotone(m, n - 1); }
  }

  // ----- Hexadecimal -----

  function LowerHexDigit(d: nat): (c: Byte)
    requires d < 16
    ensures IsHexDigit(c)
  {
    if d < 10 then (d + '0' as int) as char else (d - 10 + 'a' as int) as char
  }

  /** `%04x` of a byte. */
  function Hex4(c: Byte): Bytes {
    ['0', '0', LowerHexDigit(c as int / 16), LowerHexDigit(c as int % 16)]
  }

  function HexDigitValue(c: Byte): (d: nat)
    requires IsHexDigit(c)
    ensures d < 16
  {
    if IsDigit(c) then c as int - '0' as int
    else if 'a' <= c <= 'f' then c as int - 'a' as int + 10
    else c as int - 'A' as int + 10
  }

  predicate IsHex4(h: Bytes) {
    |h| == 4 && IsHexDigit(h[0]) && IsHexDigit(h[1]) && IsHexDigit(h[2]) && IsHexDigit(h[3])
  }

  /** `strtol(h, nullptr, 16)`. */
  function Hex4Value(h: Bytes): (n: nat)
    requires IsHex4(h)
    ensures n < 0x10000
  {
    ((HexDigitValue(h[0]) * 16 + HexDigitValue(h[1])) * 16 + HexDigitValue(h[2])) * 16 + HexDigitValue(h[3])
  }

  // ----- UTF-8 and surrogates -----

  predicate IsHighSurrogate(cp: nat) { 0xD800 <= cp <= 0xDBFF }

  predicate IsLowSurrogate(cp: nat) { 0xDC00 <= cp <= 0xDFFF }

  function Astral(high: nat, low: nat): (cp: nat)
    requires IsHighSurrogate(high) && IsLowSurrogate(low)
    ensures 0x10000 <= cp <= 0x10FFFF
  {
    (high - 0xD800) * 0x400 + (low - 0xDC00) + 0x10000
  }

  type CodePoint = n: nat | n <= 0x10FFFF

  /** Shifts, masks and ors on disjoint bits are written with `/`, `%` and `+`. */
  function Utf8(cp: CodePoint): Bytes {
    if cp < 0x80 then [cp as char]
    else if cp < 0x800 then
      [(cp / 0x40 + 0xC0) as char, (cp % 0x40 + 0x80) as char]
    else if cp < 0x10000 then
      [(cp / 0x1000 + 0xE0) as char, (cp / 0x40 % 0x40 + 0x80) as char, (cp % 0x40 + 0x80) as char]
    else
      [(cp / 0x40000 + 0xF0) as char, (cp / 0x1000 % 0x40 + 0x80) as char,
       (cp / 0x40 % 0x40 + 0x80) as char, (cp % 0x40 + 0x80) as char]
  }

  /** Reads one sequence the way section 3 of RFC 3629 lays it out: the first byte
      tells the length, every later byte carries six bits. */
  function Utf8Length(first: Byte): nat {
    var b := first as int;
    if b < 0x80 then 1 else if b < 0xE0 then 2 else if b < 0xF0 then 3 else 4
  }

  function Utf8Decode(t: Bytes): int
    requires t != [] && |t| == Utf8Length(t[0])
  {
    var b := t[0] as int;
    if |t| == 1 then b
    else if |t| == 2 then (b - 0xC0) * 0x40 + Continuation(t[1])
    else if |t| == 3 then ((b - 0xE0) * 0x40 + Continuation(t[1])) * 0x40 + Continuation(t[2])
    else (((b - 0xF0) * 0x40 + Continuation(t[1])) * 0x40 + Continuation(t[2])) * 0x40 + Continuation(t[3])
  }

  function Continuation(c: Byte): int { c as int - 0x80 }

  /** The encoder is inverted by the decoder, takes the shortest length, and marks
      every byte but the first as a continuation byte. */
  lemma Utf8RoundTrip(cp: CodePoint)
    ensures var t := Utf8(cp);
      && |t| == Utf8Length(t[0])
      && Utf8Decode(t) == cp
      && |t| == (if cp < 0x80 then 1 else if cp < 0x800 then 2 else if cp < 0x10000 then 3 else 4)
      && (forall k :: 1 <= k < |t| ==> 0x80 <= t[k] as int < 0xC0)
  {
    SixBitGroups(cp);
    var t := Utf8(cp);
    if cp < 0x800 {
    } else if cp < 0x10000 {
      assert Continuation(t[1]) == cp / 0x40 % 0x40 && Continuation(t[2]) == cp % 0x40;
    } else {
      assert Continuation(t[1]) == cp / 0x1000 % 0x40;
      assert Continuation(t[2]) == cp / 0x40 % 0x40 && Continuation(t[3]) == cp % 0x40;
    }
  }

  lemma SixBitGroups(cp: nat)
    ensures cp == cp / 0x40 * 0x40 + cp % 0x40
    ensures cp / 0x40 == cp / 0x1000 * 0x40 + cp / 0x40 % 0x40
    ensures cp / 0x1000 == cp / 0x40000 * 0x40 + cp / 0x1000 % 0x40
  {
    var n := cp / 0x40;
    assert n / 0x40 == cp / 0x1000;
    assert cp / 0x1000 / 0x40 == cp / 0x40000;
  }
}
