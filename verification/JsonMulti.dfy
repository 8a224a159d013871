/** Text the parser has not read has no influence: cutting bytes off the unread end
    leaves the result. Hence the stop position of `parse_multi` ends a text that
    parses completely, to the values before it. */
module JsonMulti {
  import opened Common
  import opened JsonValue
  import opened JsonText
  import opened JsonGrammar

  /** The text without its last `n` bytes. */
  function Cut(s: Bytes, n: nat): Bytes
    requires n <= |s|
  {
    s[..|s| - n]
  }

  lemma CutDrop(s: Bytes, n: nat, k: nat)
    requires k + n <= |s|
    ensures Cut(s, n)[k..] == Cut(s[k..], n)
  {
  }

  lemma CutKeeps(s: Bytes, n: nat, j: nat, k: nat)
    requires j <= k && k + n <= |s|
    ensures Cut(s, n)[j..k] == s[j..k]
  {
  }

  /** A parse of `s` and the parse of the cut text agree. */
  ghost predicate Agrees<T>(r: Parsed<T>, cut: Parsed<T>, n: nat)
    requires r.Ok? && n <= |r.rest|
  {
    cut == Ok(r.value, Cut(r.rest, n))
  }

  // ----- Layout -----

  lemma {:induction false} CutWhitespace(s: Bytes, n: nat)
    requires n <= |SkipWhitespace(s)|
    ensures SkipWhitespace(Cut(s, n)) == Cut(SkipWhitespace(s), n)
  {
    if s != [] && IsWhitespace(s[0]) {
      CutWhitespace(s[1..], n);
      CutDrop(s, n, 1);
    }
  }

  lemma {:induction false} CutLine(s: Bytes, n: nat)
    requires n <= |LineEnd(s)|
    ensures LineEnd(Cut(s, n)) == Cut(LineEnd(s), n)
  {
    if s != [] && s[0] != '\n' {
      CutLine(s[1..], n);
      CutDrop(s, n, 1);
    }
  }

  lemma {:induction false} CutBlock(s: Bytes, n: nat)
    requires BlockEnd(s).Ok? && n <= |BlockEnd(s).rest|
    ensures Agrees(BlockEnd(s), BlockEnd(Cut(s, n)), n)
  {
    if s[0] == '*' && s[1] == '/' {
      CutDrop(s, n, 2);
    } else {
      CutBlock(s[1..], n);
      CutDrop(s, n, 1);
    }
  }

  lemma {:induction false} CutGarbage(strategy: Strategy, s: Bytes, n: nat)
    requires SkipGarbage(strategy, s).Ok? && n <= |SkipGarbage(strategy, s).rest|
    ensures Agrees(SkipGarbage(strategy, s), SkipGarbage(strategy, Cut(s, n)), n)
    decreases |s|
  {
    var t := SkipWhitespace(s);
    if strategy.Comments? && t != [] && t[0] == '/' {
      var u := SkipComment(t).rest;
      CutGarbage(strategy, u, n);
      CutComment(t, n);
    }
    CutWhitespace(s, n);
  }

  lemma CutComment(t: Bytes, n: nat)
    requires t != [] && t[0] == '/' && SkipComment(t).Ok? && n <= |SkipComment(t).rest|
    ensures |t| - n >= 2 && Agrees(SkipComment(t), SkipComment(Cut(t, n)), n)
  {
    CutDrop(t, n, 2);
    if t[1] == '/' {
      CutLine(t[2..], n);
    } else {
      CutBlock(t[2..], n);
    }
  }

  /** A token that is kept is still the next token. */
  lemma CutToken(strategy: Strategy, s: Bytes, n: nat)
    requires NextToken(strategy, s).Ok? && n < |NextToken(strategy, s).rest|
    ensures Agrees(NextToken(strategy, s), NextToken(strategy, Cut(s, n)), n)
    ensures Cut(NextToken(strategy, s).rest, n)[1..] == Cut(NextToken(strategy, s).rest[1..], n)
  {
    CutGarbage(strategy, s, n);
    CutDrop(NextToken(strategy, s).rest, n, 1);
  }

  // ----- Strings, words and numbers -----

  lemma {:induction false} CutString(s: Bytes, pending: Pending, out: Bytes, n: nat)
    requires pending.Escaped? ==> pending.cp < 0x10000
    requires ParseString(s, pending, out).Ok? && n <= |ParseString(s, pending, out).rest|
    ensures Agrees(ParseString(s, pending, out), ParseString(Cut(s, n), pending, out), n)
    decreases |s|
  {
    if s[0] == '"' {
      CutDrop(s, n, 1);
    } else if s[0] != '\\' {
      CutDrop(s, n, 1);
      CutString(s[1..], Nothing, Flush(pending, out) + [s[0]], n);
    } else if s[1] != 'u' {
      CutDrop(s, n, 2);
      CutString(s[2..], Nothing, Flush(pending, out) + [ShortEscape(s[1])], n);
    } else {
      CutDrop(s, n, 6);
      CutKeeps(s, n, 2, 6);
      var cp := Hex4Value(s[2..6]);
      if pending.Escaped? && IsHighSurrogate(pending.cp) && IsLowSurrogate(cp) {
        CutString(s[6..], Nothing, out + Utf8(Astral(pending.cp, cp)), n);
      } else {
        CutString(s[6..], Escaped(cp), Flush(pending, out), n);
      }
    }
  }

  lemma CutWord(s: Bytes, word: Bytes, v: Json, n: nat)
    requires word != [] && ExpectWord(s, word, v).Ok? && n <= |ExpectWord(s, word, v).rest|
    ensures Agrees(ExpectWord(s, word, v), ExpectWord(Cut(s, n), word, v), n)
  {
    CutDrop(s, n, |word|);
  }

  lemma {:induction false} CutDigits(s: Bytes, k: nat, n: nat)
    requires k <= |s| && DigitsEnd(s, k) + n <= |s|
    ensures DigitsEnd(Cut(s, n), k) == DigitsEnd(s, k)
    decreases |s| - k
  {
    if k < |s| && IsDigit(s[k]) { CutDigits(s, k + 1, n); }
  }

  lemma CutWhole(s: Bytes, n: nat)
    requires WholeEnd(s).Ok? && WholeEnd(s).value + n <= |s|
    ensures WholeEnd(Cut(s, n)) == WholeEnd(s)
  {
    var k := if At(s, 0) == '-' then 1 else 0;
    if At(s, k) != '0' { CutDigits(s, k + 1, n); }
  }

  lemma CutFraction(s: Bytes, k: nat, n: nat)
    requires k <= |s| && FractionEnd(s, k).Ok? && FractionEnd(s, k).value + n <= |s|
    ensures FractionEnd(Cut(s, n), k) == FractionEnd(s, k)
  {
    if At(s, k) == '.' {
      CutDigits(s, k + 1, n);
      assert DigitsEnd(s, k + 1) > k + 1;
    }
  }

  lemma CutExponent(s: Bytes, k: nat, n: nat)
    requires k <= |s| && ExponentEnd(s, k).Ok? && ExponentEnd(s, k).value + n <= |s|
    ensures ExponentEnd(Cut(s, n), k) == ExponentEnd(s, k)
  {
    if At(s, k) == 'e' || At(s, k) == 'E' {
      var j := if At(s, k + 1) == '+' || At(s, k + 1) == '-' then k + 2 else k + 1;
      CutDigits(s, j, n);
      assert DigitsEnd(s, j) > j;
    }
  }

  lemma CutNumber(p: Platform, s: Bytes, n: nat)
    requires ParseNumber(p, s).Ok? && n <= |ParseNumber(p, s).rest|
    ensures Agrees(ParseNumber(p, s), ParseNumber(p, Cut(s, n)), n)
  {
    var k, e := WholeEnd(s).value, NumberEnd(s).value.0;
    CutWhole(s, n);
    if !NumberEnd(s).value.1 {
      CutFraction(s, k, n);
      CutExponent(s, FractionEnd(s, k).value, n);
    }
    assert NumberEnd(Cut(s, n)) == NumberEnd(s);
    assert Cut(s, n)[..e] == s[..e];
    CutDrop(s, n, e);
  }

  // ----- Values -----

  lemma {:induction false} CutValue(d: Dialect, s: Bytes, depth: nat, n: nat)
    requires ParseValue(d, s, depth).Ok? && n <= |ParseValue(d, s, depth).rest|
    ensures Agrees(ParseValue(d, s, depth), ParseValue(d, Cut(s, n), depth), n)
    decreases |s|, 0
  {
    hide NextToken, ParseNumber, ExpectWord, ParseString, AfterBrace, AfterBracket, Cut;
    var t := NextToken(d.strategy, s).rest;
    CutToken(d.strategy, s, n);
    if t[0] == '-' || IsDigit(t[0]) {
      CutNumber(d.platform, t, n);
    } else if t[0] == 't' {
      CutWord(t, "true", Bool(true), n);
    } else if t[0] == 'f' {
      CutWord(t, "false", Bool(false), n);
    } else if t[0] == 'n' {
      CutWord(t, "null", Null, n);
    } else if t[0] == '"' {
      CutString(t[1..], Nothing, [], n);
    } else if t[0] == '{' {
      CutBrace(d, t[1..], depth, n);
    } else {
      CutBracket(d, t[1..], depth, n);
    }
  }

  lemma {:induction false} CutBracket(d: Dialect, s: Bytes, depth: nat, n: nat)
    requires AfterBracket(d, s, depth).Ok? && n <= |AfterBracket(d, s, depth).rest|
    ensures Agrees(AfterBracket(d, s, depth), AfterBracket(d, Cut(s, n), depth), n)
    decreases |s|, 3
  {
    var t := NextToken(d.strategy, s).rest;
    CutToken(d.strategy, s, n);
    if t[0] != ']' { CutItems(d, t, depth, [], n); }
  }

  lemma {:induction false} CutItems(d: Dialect, s: Bytes, depth: nat, data: seq<Json>, n: nat)
    requires ParseItems(d, s, depth, data).Ok? && n <= |ParseItems(d, s, depth, data).rest|
    ensures Agrees(ParseItems(d, s, depth, data), ParseItems(d, Cut(s, n), depth, data), n)
    decreases |s|, 1
  {
    var r := ParseValue(d, s, depth + 1);
    var data' := data + [r.value];
    CutValue(d, s, depth + 1, n);
    CutSeparator(d, r.rest, ']', n);
    var closed, t := Separator(d, r.rest, ']').value, Separator(d, r.rest, ']').rest;
    assert ParseItems(d, Cut(s, n), depth, data) == AfterItem(d, Cut(r.rest, n), depth, data');
    if !closed { CutItems(d, t, depth, data', n); }
  }

  lemma CutSeparator(d: Dialect, s: Bytes, close: Byte, n: nat)
    requires Separator(d, s, close).Ok?
    requires var r := Separator(d, s, close); if r.value then n <= |r.rest| else n < |r.rest|
    ensures Agrees(Separator(d, s, close), Separator(d, Cut(s, n), close), n)
  {
    var t := NextToken(d.strategy, s).rest;
    CutToken(d.strategy, s, n);
    if t[0] != close { CutToken(d.strategy, t[1..], n); }
  }

  lemma {:induction false} CutBrace(d: Dialect, s: Bytes, depth: nat, n: nat)
    requires AfterBrace(d, s, depth).Ok? && n <= |AfterBrace(d, s, depth).rest|
    ensures Agrees(AfterBrace(d, s, depth), AfterBrace(d, Cut(s, n), depth), n)
    decreases |s|, 3
  {
    var t := NextToken(d.strategy, s).rest;
    CutToken(d.strategy, s, n);
    if t[0] != '}' { CutMembers(d, t, depth, [], n); }
  }

  lemma CutKey(d: Dialect, s: Bytes, n: nat)
    requires ParseKey(d, s).Ok? && n <= |ParseKey(d, s).rest|
    ensures Agrees(ParseKey(d, s), ParseKey(d, Cut(s, n)), n)
  {
    var t := ParseString(s[1..], Nothing, []).rest;
    CutDrop(s, n, 1);
    CutString(s[1..], Nothing, [], n);
    CutToken(d.strategy, t, n);
  }

  lemma {:induction false} CutMember(d: Dialect, s: Bytes, depth: nat, n: nat)
    requires ParseMember(d, s, depth).Ok? && n <= |ParseMember(d, s, depth).rest|
    ensures Agrees(ParseMember(d, s, depth), ParseMember(d, Cut(s, n), depth), n)
    decreases |s|, 1
  {
    CutKey(d, s, n);
    CutValue(d, ParseKey(d, s).rest, depth + 1, n);
  }

  lemma {:induction false} CutMembers(d: Dialect, s: Bytes, depth: nat, data: seq<Member>, n: nat)
    requires ParseMembers(d, s, depth, data).Ok? && n <= |ParseMembers(d, s, depth, data).rest|
    ensures Agrees(ParseMembers(d, s, depth, data), ParseMembers(d, Cut(s, n), depth, data), n)
    decreases |s|, 2
  {
    var r := ParseMember(d, s, depth);
    var data' := Insert(data, r.value.key, r.value.value);
    CutMember(d, s, depth, n);
    CutSeparator(d, r.rest, '}', n);
    var closed, t := Separator(d, r.rest, '}').value, Separator(d, r.rest, '}').rest;
    assert ParseMembers(d, Cut(s, n), depth, data) == AfterMember(d, Cut(r.rest, n), depth, data');
    if !closed { CutMembers(d, t, depth, data', n); }
  }

  // ----- Main result -----

  /** The values that were completely read before the stop position. */
  function Complete(m: Many): seq<Json>
    requires m.failure.Some? ==> m.values != []
  {
    if m.failure.Some? then m.values[..|m.values| - 1] else m.values
  }

  /** The text up to the stop position parses without failure, to its end, and to
      the values before the failing one; each of them took at least one byte. */
  lemma {:induction false} StopMarksParsedPrefix(d: Dialect, s: Bytes, values: seq<Json>)
    ensures var m := ParseMany(d, s, values);
      && (m.failure.Some? ==> m.values != [])
      && (m.failure.None? <==> m.rest == [])
      && ParseMany(d, Cut(s, |m.rest|), values) == Many(Complete(m), [], None)
      && |values| <= |Complete(m)| <= |values| + |s| - |m.rest|
    decreases |s|
  {
    var m := ParseMany(d, s, values);
    var n := |m.rest|;
    if s != [] && ParseValue(d, s, 0).Ok? {
      var v, t := ParseValue(d, s, 0).value, ParseValue(d, s, 0).rest;
      var g := SkipGarbage(d.strategy, t);
      if g.Ok? {
        StopMarksParsedPrefix(d, g.rest, values + [v]);
        CutValue(d, s, 0, n);
        CutGarbage(d.strategy, t, n);
      }
    }
  }
}
