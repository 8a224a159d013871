/** The number grammar, and what is promised of the C library's conversions. */
module JsonNumbers {
  import opened JsonValue
  import opened JsonText
  import opened JsonGrammar

  // ----- Section 6 of RFC 8259 -----

  /** [ minus ] int */
  ghost predicate IsWhole(w: Bytes) {
    && IsIntegerText(w)
    && var digits := if w[0] == '-' then w[1..] else w;
       digits[0] == '0' ==> |digits| == 1
  }

  /** [ frac ] */
  ghost predicate IsFraction(f: Bytes) {
    f == [] || (|f| > 1 && f[0] == '.' && AllDigits(f[1..]))
  }

  /** [ exp ] */
  ghost predicate IsExponent(e: Bytes) {
    || e == []
    || ((e[0] == 'e' || e[0] == 'E') && |e| > 1 && AllDigits(e[1..]))
    || ((e[0] == 'e' || e[0] == 'E') && |e| > 2 && (e[1] == '+' || e[1] == '-') && AllDigits(e[2..]))
  }

  ghost predicate IsNumberText(t: Bytes) {
    exists w, f, e | IsWhole(w) && IsFraction(f) && IsExponent(e) :: t == w + f + e
  }

  /** The text that follows cannot continue a number. */
  predicate EndsNumber(rest: Bytes) {
    var c := At(rest, 0);
    !IsDigit(c) && c != '.' && c != 'e' && c != 'E'
  }

  // ----- The scanner accepts exactly the grammar -----

  lemma {:induction false} DigitsEndAt(s: Bytes, k: nat, j: nat)
    requires k <= j <= |s| && AllDigits(s[k..j]) && !IsDigit(At(s, j))
    ensures DigitsEnd(s, k) == j
    decreases j - k
  {
    if k < j {
      assert s[k + 1..j] == s[k..j][1..];
      DigitsEndAt(s, k + 1, j);
    }
  }

  lemma ScanWhole(w: Bytes, t: Bytes)
    requires IsWhole(w) && !IsDigit(At(t, 0))
    ensures WholeEnd(w + t) == Ok(|w|, [])
  {
    var s := w + t;
    var k := if w[0] == '-' then 1 else 0;
    assert s[k + 1..|w|] == w[k..][1..];
    if w[k] != '0' {
      DigitsEndAt(s, k + 1, |w|);
    }
  }

  lemma ScanFraction(a: Bytes, f: Bytes, t: Bytes)
    requires IsFraction(f) && !IsDigit(At(t, 0)) && (f == [] ==> At(t, 0) != '.')
    ensures FractionEnd(a + f + t, |a|) == Ok(|a| + |f|, [])
  {
    var s := a + f + t;
    if f != [] {
      assert s[|a| + 1..|a| + |f|] == f[1..];
      DigitsEndAt(s, |a| + 1, |a| + |f|);
    }
  }

  lemma ScanExponent(a: Bytes, e: Bytes, t: Bytes)
    requires IsExponent(e) && EndsNumber(t)
    ensures ExponentEnd(a + e + t, |a|) == Ok(|a| + |e|, [])
  {
    var s := a + e + t;
    if e != [] {
      var k := if e[1] == '+' || e[1] == '-' then 2 else 1;
      assert s[|a| + k..|a| + |e|] == e[k..];
      DigitsEndAt(s, |a| + k, |a| + |e|);
    }
  }

  /** Every number text is scanned to its end. */
  lemma ScanNumber(w: Bytes, f: Bytes, e: Bytes, rest: Bytes)
    requires IsWhole(w) && IsFraction(f) && IsExponent(e) && EndsNumber(rest)
    ensures var t := w + f + e;
      NumberEnd(t + rest) == Ok((|t|, f == [] && e == [] && |w| <= 9), [])
  {
    var s := w + f + e + rest;
    assert s == w + (f + e + rest) == w + f + (e + rest) == (w + f) + e + rest;
    ScanWhole(w, f + e + rest);
    ScanFraction(w, f, e + rest);
    ScanExponent(w + f, e, rest);
  }

  lemma FractionScanned(s: Bytes, k: nat)
    requires k <= |s| && FractionEnd(s, k).Ok?
    ensures IsFraction(s[k..FractionEnd(s, k).value])
  {
    if At(s, k) == '.' {
      DigitsEndCovers(s, k + 1);
      var f := FractionEnd(s, k).value;
      assert s[k..f][1..] == s[k + 1..f];
    }
  }

  lemma ExponentScanned(s: Bytes, k: nat)
    requires k <= |s| && ExponentEnd(s, k).Ok?
    ensures IsExponent(s[k..ExponentEnd(s, k).value])
  {
    if At(s, k) == 'e' || At(s, k) == 'E' {
      var j := if At(s, k + 1) == '+' || At(s, k + 1) == '-' then k + 2 else k + 1;
      DigitsEndCovers(s, j);
      var e := ExponentEnd(s, k).value;
      assert s[k..e][j - k..] == s[j..e];
    }
  }

  lemma WholeScanned(s: Bytes)
    requires WholeEnd(s).Ok?
    ensures IsWhole(s[..WholeEnd(s).value])
  {
    WholeIsInteger(s);
  }

  lemma ThreeParts(s: Bytes, k: nat, f: nat, e: nat)
    requires k <= f <= e <= |s|
    ensures s[..e] == s[..k] + s[k..f] + s[f..e]
  {
  }

  /** Whatever the scanner accepts is a number text. */
  lemma ScannedIsNumber(s: Bytes)
    requires NumberEnd(s).Ok?
    ensures IsNumberText(s[..NumberEnd(s).value.0])
  {
    var k := WholeEnd(s).value;
    WholeScanned(s);
    if NumberEnd(s).value.1 {
      assert s[..k] == s[..k] + [] + [] && IsFraction([]) && IsExponent([]);
    } else {
      var f := FractionEnd(s, k).value;
      var e := ExponentEnd(s, f).value;
      FractionScanned(s, k);
      ExponentScanned(s, f);
      hide IsWhole, IsFraction, IsExponent, WholeEnd, FractionEnd, ExponentEnd;
      ThreeParts(s, k, f, e);
    }
  }

  // ----- The C library -----

  /** The conversion of an integer is exact up to 2^53; `strtod` rounds an integer
      literal the same way; `%.17g` prints every double as a number text that
      `strtod` reads back. */
  ghost predicate Conforms(p: Platform) {
    && (forall n: int :: -0x20_0000_0000_0000 <= n <= 0x20_0000_0000_0000 ==> p.toDouble(n) == n as real)
    && (forall t | IsIntegerText(t) && -0x1_0000_0000_0000_0000 < IntegerValue(t) < 0x1_0000_0000_0000_0000 ::
          p.strtod(t) == Finite(p.toDouble(IntegerValue(t))))
    && (forall r | p.isDouble(r) :: IsNumberText(p.format17(r)) && p.strtod(p.format17(r)) == Finite(r))
  }

  /** The number a number text is parsed as. */
  function Reread(p: Platform, t: Bytes): Json {
    if IsIntegerText(t) && |t| <= 9 then ShortInt(t) else Dbl(p.strtod(t))
  }

  lemma NumberTextParses(p: Platform, t: Bytes, rest: Bytes)
    requires IsNumberText(t) && EndsNumber(rest)
    ensures ParseNumber(p, t + rest) == Ok(Reread(p, t), rest)
  {
    var w, f, e :| IsWhole(w) && IsFraction(f) && IsExponent(e) && t == w + f + e;
    ScanNumber(w, f, e, rest);
    var s := t + rest;
    assert s[..|t|] == t && s[|t|..] == rest;
    if f == [] && e == [] {
      assert t == w;
    } else {
      NotAnInteger(w, f, e);
    }
  }

  lemma NotAnInteger(w: Bytes, f: Bytes, e: Bytes)
    requires IsWhole(w) && IsFraction(f) && IsExponent(e) && f + e != []
    ensures !IsIntegerText(w + f + e)
  {
    var t := w + f + e;
    assert t[|w|] == (f + e)[0] && !IsDigit(t[|w|]);
    if |t| > 1 {
      assert t[1..][|w| - 1] == t[|w|];
    }
  }

  /** A number text ends where it says, and starts with a digit or a minus sign. */
  lemma NumberTextHead(t: Bytes)
    requires IsNumberText(t)
    ensures t != [] && (t[0] == '-' || IsDigit(t[0]))
  {
    var w, f, e :| IsWhole(w) && IsFraction(f) && IsExponent(e) && t == w + f + e;
    assert t[0] == w[0];
  }

  lemma DecimalIsNumberText(n: int)
    ensures IsNumberText(SignedDecimal(n))
  {
    var t := SignedDecimal(n);
    if n < 0 {
      DecimalDenotes(-n);
      assert t[1..] == Decimal(-n);
    } else {
      DecimalDenotes(n);
    }
    assert t == t + [] + [] && IsWhole(t) && IsFraction([]) && IsExponent([]);
  }

  /** An integer survives printing and parsing, as an int or as a double. */
  lemma IntegerRereads(p: Platform, n: int)
    requires Conforms(p) && -0x1_0000_0000_0000_0000 < n < 0x1_0000_0000_0000_0000
    ensures IsNumber(Reread(p, SignedDecimal(n)))
    ensures NumberValue(p, Reread(p, SignedDecimal(n))) == Finite(p.toDouble(n))
  {
    SignedDecimalDenotes(n);
  }

  lemma DoubleRereads(p: Platform, r: real)
    requires Conforms(p) && p.isDouble(r)
    ensures IsNumber(Reread(p, p.format17(r)))
    ensures NumberValue(p, Reread(p, p.format17(r))) == Finite(r)
  {
    var t := p.format17(r);
    if IsIntegerText(t) && |t| <= 9 {
      ShortIntegerFits(t);
    }
  }
}
