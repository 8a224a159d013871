/** What the small tables of json11 say, against the standards' own tables: digits,
    escapes, surrogates, blanks, words and the limits. */
module JsonTables {
  import opened Common
  import opened JsonValue
  import opened JsonText
  import opened JsonPrinter
  import opened JsonGrammar
  import opened JsonNumbers
  import opened JsonEscapes
  import opened JsonLayout
  import opened JsonSyntax
  import opened JsonRoundTrip

  // ----- Digits -----

  const DECIMAL: Bytes := "0123456789"
  const LOWER: Bytes := "0123456789abcdef"
  const UPPER: Bytes := "0123456789ABCDEF"

  /** A decimal digit is one of the ten, and denotes its place among them. */
  lemma DecimalDigits(c: Byte)
    ensures IsDigit(c) <==> c in DECIMAL
    ensures forall d :: 0 <= d < 10 ==> IsDigit(DECIMAL[d]) && DigitValue(DECIMAL[d]) == d && Digit(d) == DECIMAL[d]
  {
    if IsDigit(c) { assert DECIMAL[c as int - '0' as int] == c; }
  }

  /** A hexadecimal digit is one of the sixteen in either case, and denotes its place. */
  lemma HexDigits(c: Byte, d: nat)
    requires d < 16
    ensures IsHexDigit(c) <==> c in LOWER || c in UPPER
    ensures IsHexDigit(LOWER[d]) && HexDigitValue(LOWER[d]) == d && LowerHexDigit(d) == LOWER[d]
    ensures IsHexDigit(UPPER[d]) && HexDigitValue(UPPER[d]) == d
  {
    if '0' <= c <= '9' { assert LOWER[c as int - '0' as int] == c; }
    if 'a' <= c <= 'f' { assert LOWER[c as int - 'a' as int + 10] == c; }
    if 'A' <= c <= 'F' { assert UPPER[c as int - 'A' as int + 10] == c; }
  }

  /** The text spells a number with this digit, in either case. */
  predicate Spells(c: Byte, d: nat)
    requires d < 16
  {
    c == LOWER[d] || c == UPPER[d]
  }

  /** Four hexadecimal digits, most significant first, denote the number they spell in
      base 16, whatever the case of each. */
  lemma Hex4Spells(n: nat, h: Bytes)
    requires n < 0x10000 && |h| == 4
    requires Spells(h[0], n / 0x1000) && Spells(h[1], n / 0x100 % 16) && Spells(h[2], n / 0x10 % 16) && Spells(h[3], n % 16)
    ensures IsHex4(h) && Hex4Value(h) == n
  {
    HexDigits(h[0], n / 0x1000);
    HexDigits(h[1], n / 0x100 % 16);
    HexDigits(h[2], n / 0x10 % 16);
    HexDigits(h[3], n % 16);
    hide HexDigitValue, IsHexDigit;
    HexParts(n);
  }

  lemma HexParts(n: nat)
    ensures n == n / 0x10 * 16 + n % 16
    ensures n / 0x10 == n / 0x100 * 16 + n / 0x10 % 16
    ensures n / 0x100 == n / 0x1000 * 16 + n / 0x100 % 16
  {
    var a := n / 0x10;
    assert a / 0x10 == n / 0x100 && a / 0x100 == n / 0x1000;
    assert n / 0x100 / 0x10 == n / 0x1000;
  }

  /** And the printer spells a byte that way. */
  lemma Hex4Printed(c: Byte)
    ensures |Hex4(c)| == 4 && Hex4(c)[0] == '0' && Hex4(c)[1] == '0'
    ensures Hex4(c)[2] == LOWER[c as int / 16] && Hex4(c)[3] == LOWER[c as int % 16]
  {
    HexDigits('0', c as int / 16);
    HexDigits('0', c as int % 16);
  }

  // ----- Escapes -----

  const SHORT: Bytes := "\"\\/bfnrt"
  const MEANT: seq<int> := [0x22, 0x5C, 0x2F, 0x08, 0x0C, 0x0A, 0x0D, 0x09]

  /** The eight short escapes of section 7 of RFC 8259, and no others. */
  lemma ShortEscapes(c: Byte)
    ensures IsShortEscape(c) <==> c in SHORT
    ensures forall k :: 0 <= k < 8 ==> IsShortEscape(SHORT[k]) && ShortEscape(SHORT[k]) as int == MEANT[k]
  {
    assert c in SHORT <==> exists k :: 0 <= k < 8 && c == SHORT[k];
    assert SHORT == ['"', '\\', '/', 'b', 'f', 'n', 'r', 't'];
    forall k | 0 <= k < 8 ensures IsShortEscape(SHORT[k]) && ShortEscape(SHORT[k]) as int == MEANT[k] {
      if k == 0 {} else if k == 1 {} else if k == 2 {} else if k == 3 {} else if k == 4 {} else if k == 5 {} else if k == 6 {}
    }
  }

  /** Two bytes for the quote, the backslash and five controls, `\\u00xx` for the other
      controls, `\\u2028` and `\\u2029` for the two separators, everything else as it is. */
  lemma PrintedEscapes(s: Bytes)
    requires s != []
    ensures var c := s[0] as int;
      && (c == 0x22 ==> EscapeHead(s) == ['\\', '"']) && (c == 0x5C ==> EscapeHead(s) == ['\\', '\\'])
      && (c == 0x08 ==> EscapeHead(s) == ['\\', 'b']) && (c == 0x0C ==> EscapeHead(s) == ['\\', 'f'])
      && (c == 0x0A ==> EscapeHead(s) == ['\\', 'n']) && (c == 0x0D ==> EscapeHead(s) == ['\\', 'r'])
      && (c == 0x09 ==> EscapeHead(s) == ['\\', 't'])
      && (c < 0x20 && c !in {0x08, 0x09, 0x0A, 0x0C, 0x0D} ==>
            EscapeHead(s) == ['\\', 'u', '0', '0', LOWER[c / 16], LOWER[c % 16]])
    ensures [0xE2 as char, 0x80 as char, 0xA8 as char] <= s ==> EscapeHead(s) == "\\u2028" && HeadLength(s) == 3
    ensures [0xE2 as char, 0x80 as char, 0xA9 as char] <= s ==> EscapeHead(s) == "\\u2029" && HeadLength(s) == 3
    ensures s[0] as int >= 0x20 && s[0] !in {'"', '\\'} && EscapeHead(s) != [s[0]] ==>
      [0xE2 as char, 0x80 as char] <= s && |s| >= 3 && s[2] as int in {0xA8, 0xA9}
    ensures HeadLength(s) == 1 || HeadLength(s) == 3
  {
    Hex4Printed(s[0]);
    hide Hex4;
  }

  // ----- Surrogates -----

  /** A code point beyond the basic plane is recovered from the surrogate pair that
      UTF-16 writes for it, and only such pairs count as pairs. */
  lemma SurrogatePairs(cp: nat)
    requires 0x10000 <= cp <= 0x10FFFF
    ensures var high, low := 0xD800 + (cp - 0x10000) / 0x400, 0xDC00 + (cp - 0x10000) % 0x400;
      IsHighSurrogate(high) && IsLowSurrogate(low) && Astral(high, low) == cp
  {
  }

  lemma PairsAreSurrogates(high: nat, low: nat)
    ensures IsHighSurrogate(high) <==> 0xD800 <= high < 0xDC00
    ensures IsLowSurrogate(low) <==> 0xDC00 <= low < 0xE000
    ensures IsHighSurrogate(high) && IsLowSurrogate(low) ==>
      var cp := Astral(high, low); high == 0xD800 + (cp - 0x10000) / 0x400 && low == 0xDC00 + (cp - 0x10000) % 0x400
  {
  }

  /** So a pair of escapes is read as the UTF-8 of the code point it stands for. */
  lemma PairsDecode(cp: nat, h: Bytes, l: Bytes, rest: Bytes)
    requires 0x10000 <= cp <= 0x10FFFF && IsHex4(h) && IsHex4(l)
    requires Hex4Value(h) == 0xD800 + (cp - 0x10000) / 0x400 && Hex4Value(l) == 0xDC00 + (cp - 0x10000) % 0x400
    ensures ParseString(("\\u" + h) + ("\\u" + l) + (['"'] + rest), Nothing, []) == Ok(Utf8(cp), rest)
  {
    var ps := [Unicode(h), Unicode(l)];
    SurrogatePairs(cp);
    PairUnits(h, l);
    DecodeWhole(ps, rest);
    hide Hex4Value, IsHex4, Utf8, Astral, ParseString;
    assert Utf8(cp) + [] == Utf8(cp);
  }

  lemma PairUnits(h: Bytes, l: Bytes)
    requires IsHex4(h) && IsHex4(l) && IsHighSurrogate(Hex4Value(h)) && IsLowSurrogate(Hex4Value(l))
    ensures var ps := [Unicode(h), Unicode(l)];
      && JsonEscapes.Valid(ps) && JsonEscapes.Text(ps) == ("\\u" + h) + ("\\u" + l)
      && Encode(Units(ps)) == Utf8(Astral(Hex4Value(h), Hex4Value(l))) + []
  {
    hide Hex4Value, IsHex4, Utf8, Astral;
    var ps := [Unicode(h), Unicode(l)];
    assert ps[1..] == [Unicode(l)] && ps[1..][1..] == [];
    var us := [Code(Hex4Value(h)), Code(Hex4Value(l))];
    assert Units(ps[1..]) == [Code(Hex4Value(l))];
    assert Units(ps) == us && us[2..] == [];
    assert JsonEscapes.Text(ps[1..]) == "\\u" + l;
  }

  /** And any single escape as the UTF-8 of its own code point, a lone surrogate too. */
  lemma UnitDecodes(h: Bytes, rest: Bytes)
    requires IsHex4(h)
    ensures ParseString(("\\u" + h) + (['"'] + rest), Nothing, []) == Ok(Utf8(Hex4Value(h)), rest)
  {
    var ps := [Unicode(h)];
    DecodeWhole(ps, rest);
    hide Hex4Value, IsHex4, Utf8, Astral, ParseString;
    assert ps[1..] == [] && JsonEscapes.Text(ps) == ("\\u" + h) + [];
    assert Units(ps) == [Code(Hex4Value(h))] && [Code(Hex4Value(h))][1..] == [];
    assert Utf8(Hex4Value(h)) + [] == Utf8(Hex4Value(h)) && ("\\u" + h) + [] == "\\u" + h;
  }

  // ----- Blanks, words and numbers -----

  lemma Blanks(c: Byte)
    ensures IsWhitespace(c) <==> c as int in {0x20, 0x09, 0x0A, 0x0D}
  {
  }

  lemma Words(d: Dialect)
    ensures ParseDocument(d, "null") == Ok(Null, [])
    ensures ParseDocument(d, "true") == Ok(Bool(true), [])
    ensures ParseDocument(d, "false") == Ok(Bool(false), [])
  {
    WordDocument(d, NullWord);
    WordDocument(d, BoolWord(true));
    WordDocument(d, BoolWord(false));
  }

  lemma WordDocument(d: Dialect, x: Syntax)
    requires x.NullWord? || x.BoolWord?
    ensures ParseDocument(d, Tokens(x)[0]) == Ok(Meaning(d.platform, x), [])
  {
    OneToken(d.strategy, Tokens(x)[0]);
    assert Tokens(x) == [Tokens(x)[0]];
    GrammarParses(d, x, Tokens(x)[0]);
  }

  lemma OneToken(strategy: Strategy, token: Bytes)
    ensures IsLayout(strategy, token, [token])
  {
    assert [] == FillText([]) + [] && ValidFill(strategy, []) && StartsTokens(strategy, [], []);
    TokenBefore(strategy, token, [], []);
    assert token + [] == token && [token] + [] == [token];
  }

  /** An integer text of at most nine bytes, sign included, is an int; every other number
      is what `strtod` makes of it. */
  lemma Numbers(d: Dialect, t: Bytes)
    requires IsNumberText(t)
    ensures var r := ParseDocument(d, t);
      && r.Ok?
      && if IsIntegerText(t) && |t| <= 9 then r.value.Int? && r.value.n == IntegerValue(t)
         else r.value == Dbl(d.platform.strtod(t))
  {
    OneToken(d.strategy, t);
    GrammarParses(d, NumberText(t), t);
  }

  // ----- Limits and separators -----

  /** So many empty lists, one inside the other. */
  function Nested(k: nat): Json
  {
    if k == 0 then Arr([]) else Arr([Nested(k - 1)])
  }

  function Brackets(open: Byte, k: nat): Bytes {
    if k == 0 then [] else [open] + Brackets(open, k - 1)
  }

  lemma {:induction false} BracketsEnd(open: Byte, k: nat)
    ensures Brackets(open, k) + [open] == [open] + Brackets(open, k)
  {
    if k > 0 {
      BracketsEnd(open, k - 1);
      assert [open] + Brackets(open, k - 1) + [open] == [open] + (Brackets(open, k - 1) + [open]);
    }
  }

  lemma {:induction false} NestedText(p: Platform, k: nat)
    ensures Dump(p, Nested(k)) == Brackets('[', k + 1) + Brackets(']', k + 1)
    ensures WellFormed(p, Nested(k)) && AllFinite(Nested(k)) && Nest(Nested(k)) == k
  {
    if k == 0 {
      assert Brackets('[', 1) == "[" && Brackets(']', 1) == "]";
      assert "[" + [] + "]" == "[" + "]";
    } else {
      NestedText(p, k - 1);
      var inner := Nested(k - 1);
      assert [inner][1..] == [];
      assert DumpItems(p, [inner], true) == Dump(p, inner) by {
        assert [] + Dump(p, inner) + [] == Dump(p, inner);
      }
      BracketsEnd(']', k);
      assert "[" + (Brackets('[', k) + Brackets(']', k)) + "]" == ("[" + Brackets('[', k)) + (Brackets(']', k) + "]");
    }
  }

  /** Two hundred and one brackets are accepted, and not one more. */
  lemma DepthLimit(d: Dialect, k: nat)
    requires Conforms(d.platform)
    ensures var text := Brackets('[', k + 1) + Brackets(']', k + 1);
      if k + 1 <= 201 then ParseDocument(d, text).Ok? else ParseDocument(d, text) == Fail(TooDeep)
  {
    NestedText(d.platform, k);
    ParseUndoesPrint(d, Nested(k));
  }

  /** How values are printed. */
  lemma PrintedLists(p: Platform, v: Json, w: Json)
    ensures Dump(p, Arr([])) == "[]"
    ensures Dump(p, Arr([v])) == "[" + Dump(p, v) + "]"
    ensures Dump(p, Arr([v, w])) == "[" + Dump(p, v) + ", " + Dump(p, w) + "]"
  {
    var a, b := Dump(p, v), Dump(p, w);
    assert [v, w][1..] == [w] && [w][1..] == [] && [v][1..] == [];
    assert DumpItems(p, [w], false) == ", " + b by { EmptyLast(", " + b); }
    assert DumpItems(p, [v, w], true) == a + (", " + b) by { EmptyFirst(a, ", " + b); }
    assert DumpItems(p, [v], true) == a by { EmptyFirst(a, []); EmptyLast(a); }
    hide Dump, DumpItems;
    assert "[" + (a + (", " + b)) + "]" == "[" + a + ", " + b + "]";
  }

  lemma EmptyLast(a: Bytes)
    ensures a + [] == a
  {
  }

  lemma PrintedObjects(p: Platform, n: Member, m: Member)
    ensures Dump(p, Obj([])) == "{}"
    ensures Dump(p, Obj([n])) == "{" + (Quoted(n.key) + ": " + Dump(p, n.value)) + "}"
    ensures Dump(p, Obj([n, m]))
         == "{" + (Quoted(n.key) + ": " + Dump(p, n.value)) + ", " + (Quoted(m.key) + ": " + Dump(p, m.value)) + "}"
  {
    hide Quoted;
    var a, b := DumpMember(p, n), DumpMember(p, m);
    assert [n, m][1..] == [m] && [m][1..] == [] && [n][1..] == [];
    assert DumpMembers(p, [m], false) == ", " + b by { EmptyLast(", " + b); }
    assert DumpMembers(p, [n, m], true) == a + (", " + b) by { EmptyFirst(a, ", " + b); }
    assert DumpMembers(p, [n], true) == a by { EmptyFirst(a, []); EmptyLast(a); }
    hide Dump, DumpMembers;
    assert "{" + (a + (", " + b)) + "}" == "{" + a + ", " + b + "}";
  }

  lemma PrintedWords(p: Platform, s: Bytes)
    ensures Dump(p, Null) == "null" && Dump(p, Bool(true)) == "true" && Dump(p, Bool(false)) == "false"
    ensures Dump(p, Dbl(NaN)) == "null" && Dump(p, Dbl(Infinite(true))) == "null" && Dump(p, Dbl(Infinite(false))) == "null"
    ensures Dump(p, Str(s)) == "\"" + EscapeString(s) + "\""
  {
  }

  /** Integers of both kinds are printed as the shortest integer text that denotes them,
      finite doubles as `%.17g` prints them. */
  lemma PrintedNumbers(p: Platform, n: Int32, u: UInt64, r: real)
    ensures IsWhole(Dump(p, Int(n))) && IntegerValue(Dump(p, Int(n))) == n && (Dump(p, Int(n))[0] == '-' <==> n < 0)
    ensures IsWhole(Dump(p, UInt(u))) && IntegerValue(Dump(p, UInt(u))) == u && Dump(p, UInt(u))[0] != '-'
    ensures Dump(p, Dbl(Finite(r))) == p.format17(r)
  {
    WholeDecimal(n);
    WholeDecimal(u);
    hide IsWhole, IsIntegerText, IntegerValue;
  }

  lemma WholeDecimal(n: int)
    ensures IsWhole(SignedDecimal(n)) && IntegerValue(SignedDecimal(n)) == n && (SignedDecimal(n)[0] == '-' <==> n < 0)
    ensures n >= 0 ==> SignedDecimal(n) == Decimal(n)
  {
    SignedDecimalDenotes(n);
    DecimalDenotes(if n < 0 then -n else n);
    if n < 0 { assert SignedDecimal(n)[1..] == Decimal(-n); }
  }
}
