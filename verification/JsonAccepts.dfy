/** The parser accepts exactly the texts of the grammar of section 2 of RFC 8259, up to
    the limit on nesting: what it accepts is a layout of a syntax tree. */
module JsonAccepts {
  import opened Common
  import opened JsonValue
  import opened JsonText
  import opened JsonGrammar
  import opened JsonNumbers
  import opened JsonEscapes
  import opened JsonLayout
  import opened JsonCovers
  import opened JsonSyntax

  // ----- Numbers, strings and words -----

  /** A scanned number is read as the number text it is. */
  lemma ScannedIsReread(p: Platform, s: Bytes)
    requires NumberEnd(s).Ok?
    ensures var n := NumberEnd(s).value; IsNumberText(s[..n.0]) && NumberOf(p, s, n.0, n.1) == Reread(p, s[..n.0])
  {
    ScannedIsNumber(s);
    WholeIsInteger(s);
    var k, n := WholeEnd(s).value, NumberEnd(s).value;
    if !n.1 && k <= 9 { LongerIsNoInteger(s, k, n.0); }
  }

  lemma LongerIsNoInteger(s: Bytes, k: nat, e: nat)
    requires WholeEnd(s) == Ok(k, []) && k < e <= |s| && (s[k] == '.' || s[k] == 'e' || s[k] == 'E')
    ensures !IsIntegerText(s[..e])
  {
    WholeIsInteger(s);
    assert s[..e][k] == s[k] && k > 0;
    assert s[..e][1..][k - 1] == s[k];
    assert !IsDigit(s[k]);
  }

  /** What a value read from `s` up to `rest` says: a proper tree whose tokens are laid
      out there, that fits below the depth and means the value. */
  ghost predicate Says(d: Dialect, s: Bytes, depth: nat, x: Syntax, v: Json, rest: Bytes) {
    && Proper(x) && depth + Levels(x) <= MAX_DEPTH && Meaning(d.platform, x) == v
    && Covers(d.strategy, s, rest, Tokens(x))
  }

  lemma NumberSays(d: Dialect, s: Bytes, t: Bytes, depth: nat) returns (x: Syntax)
    requires depth <= MAX_DEPTH && NextToken(d.strategy, s).Ok? && NextToken(d.strategy, s).rest == t
    requires ParseNumber(d.platform, t).Ok?
    ensures Says(d, s, depth, x, ParseNumber(d.platform, t).value, ParseNumber(d.platform, t).rest)
  {
    hide Covers, NextToken, IsNumberText, Reread, NumberOf, NumberEnd;
    ScannedIsReread(d.platform, t);
    var k := NumberEnd(t).value.0;
    x := NumberText(t[..k]);
    assert t == t[..k] + t[k..];
    TokenCovers(d.strategy, s, t[..k], t[k..]);
  }

  lemma WordSays(d: Dialect, s: Bytes, t: Bytes, depth: nat, x: Syntax)
    requires depth <= MAX_DEPTH && NextToken(d.strategy, s).Ok? && NextToken(d.strategy, s).rest == t
    requires (x.NullWord? || x.BoolWord?) && Tokens(x)[0] <= t
    ensures Says(d, s, depth, x, Meaning(d.platform, x), t[|Tokens(x)[0]|..])
  {
    hide Covers, NextToken;
    var token := Tokens(x)[0];
    assert t == token + t[|token|..];
    TokenCovers(d.strategy, s, token, t[|token|..]);
  }

  lemma StringSays(d: Dialect, s: Bytes, t: Bytes) returns (ps: seq<Piece>)
    requires NextToken(d.strategy, s).Ok? && NextToken(d.strategy, s).rest == ['"'] + t
    requires ParseString(t, Nothing, []).Ok?
    ensures var r := ParseString(t, Nothing, []);
      Valid(ps) && Encode(Units(ps)) == r.value && Covers(d.strategy, s, r.rest, [Quote(ps)])
  {
    hide Covers, NextToken, ParseString, Encode, Units, Text;
    var rest := ParseString(t, Nothing, []).rest;
    ps := PiecesOf(t, Nothing, []);
    DecodeWhole(ps, rest);
    Associate4(['"'], Text(ps), ['"'], rest);
    TokenCovers(d.strategy, s, Quote(ps), rest);
  }

  // ----- Values -----

  lemma {:induction false} ValueSays(d: Dialect, s: Bytes, depth: nat) returns (x: Syntax)
    requires ParseValue(d, s, depth).Ok?
    ensures Says(d, s, depth, x, ParseValue(d, s, depth).value, ParseValue(d, s, depth).rest)
    decreases |s|, 2
  {
    hide Covers, NextToken, AfterBrace, AfterBracket, ParseNumber, ParseString, Says;
    var n := NextToken(d.strategy, s);
    var ch, t := n.value, n.rest;
    if ch == '-' || IsDigit(ch) {
      x := NumberSays(d, s, t, depth);
    } else if ch == 't' || ch == 'f' || ch == 'n' {
      x := if ch == 'n' then NullWord else BoolWord(ch == 't');
      WordSays(d, s, t, depth, x);
    } else if ch == '"' {
      x := TextSays(d, s, t, depth);
    } else if ch == '[' {
      x := BracketSays(d, s, t, depth);
    } else {
      x := BraceSays(d, s, t, depth);
    }
  }

  lemma TextSays(d: Dialect, s: Bytes, t: Bytes, depth: nat) returns (x: Syntax)
    requires depth <= MAX_DEPTH && NextToken(d.strategy, s).Ok? && NextToken(d.strategy, s).rest == t
    requires t != [] && t[0] == '"' && ParseText(t[1..]).Ok?
    ensures Says(d, s, depth, x, ParseText(t[1..]).value, ParseText(t[1..]).rest)
  {
    hide Covers, NextToken, ParseString, Quote, Encode, Units;
    assert t == ['"'] + t[1..];
    var ps := StringSays(d, s, t[1..]);
    x := StringText(ps);
  }

  /** The opening or closing token of a container, and the comma. */
  lemma MarkCovers(d: Dialect, s: Bytes, c: Byte, t: Bytes)
    requires NextToken(d.strategy, s) == Ok(c, t)
    ensures Covers(d.strategy, s, t[1..], [[c]])
  {
    hide Covers;
    assert t == [c] + t[1..];
    TokenCovers(d.strategy, s, [c], t[1..]);
  }

  lemma SeparatorCovers(d: Dialect, s: Bytes, close: Byte)
    requires Separator(d, s, close).Ok? && close != ','
    ensures var r := Separator(d, s, close); Covers(d.strategy, s, r.rest, if r.value then [[close]] else [","])
  {
    hide Covers;
    var n := NextToken(d.strategy, s);
    MarkCovers(d, s, n.value, n.rest);
    if n.value != close {
      NextCovers(d.strategy, n.rest[1..]);
      CoversTrans(d.strategy, s, n.rest[1..], Separator(d, s, close).rest, [","], []);
      assert [","] + [] == [","];
    }
  }

  // ----- Lists -----

  lemma {:induction false} BracketSays(d: Dialect, s: Bytes, t: Bytes, depth: nat) returns (x: Syntax)
    requires depth <= MAX_DEPTH && NextToken(d.strategy, s) == Ok('[', t) && AfterBracket(d, t[1..], depth).Ok?
    ensures Says(d, s, depth, x, AfterBracket(d, t[1..], depth).value, AfterBracket(d, t[1..], depth).rest)
    decreases |t|, 1
  {
    hide Covers, ParseItems, NextToken;
    MarkCovers(d, s, '[', t);
    var u, r := t[1..], AfterBracket(d, t[1..], depth);
    var n := NextToken(d.strategy, u);
    var xs: seq<Syntax>;
    if n.value == ']' {
      xs := [];
      MarkCovers(d, u, ']', n.rest);
      assert [] + ["]"] == ["]"];
    } else {
      xs := ItemsSay(d, n.rest, depth, []);
      assert [] + Meanings(d.platform, xs) == Meanings(d.platform, xs);
      NextCovers(d.strategy, u);
      CoversTrans(d.strategy, u, n.rest, r.rest, [], ItemTokens(xs, true) + ["]"]);
      assert [] + (ItemTokens(xs, true) + ["]"]) == ItemTokens(xs, true) + ["]"];
    }
    x := ListOf(xs);
    CoversTrans(d.strategy, s, u, r.rest, ["["], ItemTokens(xs, true) + ["]"]);
    Associate(["["], ItemTokens(xs, true), ["]"]);
  }

  /** The items from the first token of an item up to the closing token. */
  lemma {:induction false} ItemsSay(d: Dialect, s: Bytes, depth: nat, data: seq<Json>) returns (xs: seq<Syntax>)
    requires ParseItems(d, s, depth, data).Ok?
    ensures xs != [] && ProperItems(xs) && depth + 1 + ItemLevels(xs) <= MAX_DEPTH
    ensures ParseItems(d, s, depth, data).value == Arr(data + Meanings(d.platform, xs))
    ensures Covers(d.strategy, s, ParseItems(d, s, depth, data).rest, ItemTokens(xs, true) + ["]"])
    decreases |s|, 3
  {
    hide Covers, ParseValue, Separator, Tokens, Proper, Meaning, Levels, ItemTokens;
    var x := ValueSays(d, s, depth + 1);
    var v := ParseValue(d, s, depth + 1);
    var c, r := Separator(d, v.rest, ']'), ParseItems(d, s, depth, data).rest;
    SeparatorCovers(d, v.rest, ']');
    if c.value {
      xs := [x];
      OneItem(d.platform, x);
      CoversTrans(d.strategy, s, v.rest, r, Tokens(x), ["]"]);
    } else {
      var ys := ItemsSay(d, c.rest, depth, data + [v.value]);
      xs := [x] + ys;
      MoreItems(d.platform, x, ys, ["]"]);
      CoversTrans(d.strategy, v.rest, c.rest, r, [","], ItemTokens(ys, true) + ["]"]);
      CoversTrans(d.strategy, s, v.rest, r, Tokens(x), [","] + (ItemTokens(ys, true) + ["]"]));
      Associate(data, [v.value], Meanings(d.platform, ys));
    }
  }

  lemma OneItem(p: Platform, x: Syntax)
    requires Proper(x)
    ensures ProperItems([x]) && ItemLevels([x]) == Levels(x) && Meanings(p, [x]) == [Meaning(p, x)]
    ensures ItemTokens([x], true) == Tokens(x)
  {
    assert [x][1..] == [];
    assert [] + Tokens(x) + [] == Tokens(x);
  }

  lemma MoreItems(p: Platform, x: Syntax, ys: seq<Syntax>, more: seq<Bytes>)
    requires Proper(x) && ProperItems(ys) && ys != []
    ensures var xs := [x] + ys;
      && ProperItems(xs) && ItemLevels(xs) == Max(Levels(x), ItemLevels(ys))
      && Meanings(p, xs) == [Meaning(p, x)] + Meanings(p, ys)
      && ItemTokens(xs, true) + more == Tokens(x) + ([","] + (ItemTokens(ys, true) + more))
  {
    var xs := [x] + ys;
    assert xs[1..] == ys;
    ItemTokensSplit(xs, more);
    ItemTokensSplit(ys, more);
  }

  // ----- Objects -----

  lemma {:induction false} BraceSays(d: Dialect, s: Bytes, t: Bytes, depth: nat) returns (x: Syntax)
    requires depth <= MAX_DEPTH && NextToken(d.strategy, s) == Ok('{', t) && AfterBrace(d, t[1..], depth).Ok?
    ensures Says(d, s, depth, x, AfterBrace(d, t[1..], depth).value, AfterBrace(d, t[1..], depth).rest)
    decreases |t|, 1
  {
    hide Covers, ParseMembers, NextToken;
    MarkCovers(d, s, '{', t);
    var u, r := t[1..], AfterBrace(d, t[1..], depth);
    var n := NextToken(d.strategy, u);
    var es: seq<Entry>;
    if n.value == '}' {
      es := [];
      MarkCovers(d, u, '}', n.rest);
      assert [] + ["}"] == ["}"];
    } else {
      NextAgain(d.strategy, u);
      es := EntriesSay(d, n.rest, depth, []);
      NextCovers(d.strategy, u);
      CoversTrans(d.strategy, u, n.rest, r.rest, [], EntryTokens(es, true) + ["}"]);
      assert [] + (EntryTokens(es, true) + ["}"]) == EntryTokens(es, true) + ["}"];
    }
    x := ObjectOf(es);
    CoversTrans(d.strategy, s, u, r.rest, ["{"], EntryTokens(es, true) + ["}"]);
    Associate(["{"], EntryTokens(es, true), ["}"]);
  }

  /** A text that starts with a token has nothing to skip. */
  lemma NextAgain(strategy: Strategy, s: Bytes)
    requires NextToken(strategy, s).Ok?
    ensures var t := NextToken(strategy, s).rest; NextToken(strategy, t) == Ok(t[0], t)
  {
    GarbageEnds(strategy, s);
  }

  lemma {:induction false} GarbageEnds(strategy: Strategy, s: Bytes)
    requires SkipGarbage(strategy, s).Ok?
    ensures var t := SkipGarbage(strategy, s).rest;
      SkipGarbage(strategy, t) == Ok((), t)
    decreases |s|
  {
    var t := SkipWhitespace(s);
    if strategy.Comments? && t != [] && t[0] == '/' {
      GarbageEnds(strategy, SkipComment(t).rest);
    }
  }

  /** One member: its key, a colon and its value. */
  lemma {:induction false} EntrySays(d: Dialect, s: Bytes, depth: nat) returns (e: Entry)
    requires ParseMember(d, s, depth).Ok? && NextToken(d.strategy, s).Ok? && NextToken(d.strategy, s).rest == s
    ensures var m := ParseMember(d, s, depth);
      && Valid(e.key) && Proper(e.value) && depth + 1 + Levels(e.value) <= MAX_DEPTH
      && m.value == Member(Encode(Units(e.key)), Meaning(d.platform, e.value))
      && Covers(d.strategy, s, m.rest, EntryHead(e))
    decreases |s|, 3
  {
    hide Covers, NextToken, ParseValue, ParseString, Encode, Units, Quote, Tokens, Meaning, Levels, Proper;
    assert s == ['"'] + s[1..];
    var key := StringSays(d, s, s[1..]);
    var t := ParseString(s[1..], Nothing, []).rest;
    var n := NextToken(d.strategy, t);
    MarkCovers(d, t, ':', n.rest);
    var u := n.rest[1..];
    var x := ValueSays(d, u, depth + 1);
    e := Entry(key, x);
    var r := ParseMember(d, s, depth).rest;
    CoversTrans(d.strategy, s, t, u, [Quote(key)], [":"]);
    CoversTrans(d.strategy, s, u, r, [Quote(key)] + [":"], Tokens(x));
  }

  /** The members from the first token of a key up to the closing token. */
  lemma {:induction false} EntriesSay(d: Dialect, s: Bytes, depth: nat, data: seq<Member>) returns (es: seq<Entry>)
    requires ParseMembers(d, s, depth, data).Ok? && NextToken(d.strategy, s).Ok? && NextToken(d.strategy, s).rest == s
    ensures es != [] && ProperEntries(es) && depth + 1 + EntryLevels(es) <= MAX_DEPTH
    ensures ParseMembers(d, s, depth, data).value == Obj(Collect(d.platform, data, es))
    ensures Covers(d.strategy, s, ParseMembers(d, s, depth, data).rest, EntryTokens(es, true) + ["}"])
    decreases |s|, 4
  {
    hide Covers, ParseMember, Separator, Insert, EntryHead, Proper, Meaning, Levels, EntryTokens, NextToken, Encode, Units, Valid;
    var e := EntrySays(d, s, depth);
    var m := ParseMember(d, s, depth);
    var data' := Insert(data, m.value.key, m.value.value);
    var c, r := Separator(d, m.rest, '}'), ParseMembers(d, s, depth, data).rest;
    SeparatorCovers(d, m.rest, '}');
    if c.value {
      es := [e];
      OneEntry(d.platform, e, data);
      CoversTrans(d.strategy, s, m.rest, r, EntryHead(e), ["}"]);
    } else {
      SeparatorStops(d, m.rest, '}');
      var fs := EntriesSay(d, c.rest, depth, data');
      es := [e] + fs;
      MoreEntries(d.platform, e, fs, data, ["}"]);
      CoversTrans(d.strategy, m.rest, c.rest, r, [","], EntryTokens(fs, true) + ["}"]);
      CoversTrans(d.strategy, s, m.rest, r, EntryHead(e), [","] + (EntryTokens(fs, true) + ["}"]));
    }
  }

  lemma SeparatorStops(d: Dialect, s: Bytes, close: Byte)
    requires Separator(d, s, close).Ok? && !Separator(d, s, close).value
    ensures var t := Separator(d, s, close).rest; NextToken(d.strategy, t).Ok? && NextToken(d.strategy, t).rest == t
  {
    NextAgain(d.strategy, NextToken(d.strategy, s).rest[1..]);
  }

  lemma OneEntry(p: Platform, e: Entry, data: seq<Member>)
    requires Valid(e.key) && Proper(e.value)
    ensures ProperEntries([e]) && EntryLevels([e]) == Levels(e.value) && EntryTokens([e], true) == EntryHead(e)
    ensures Collect(p, data, [e]) == Insert(data, Encode(Units(e.key)), Meaning(p, e.value))
  {
    assert [e][1..] == [];
    assert [] + EntryHead(e) + [] == EntryHead(e);
  }

  lemma MoreEntries(p: Platform, e: Entry, fs: seq<Entry>, data: seq<Member>, more: seq<Bytes>)
    requires Valid(e.key) && Proper(e.value) && ProperEntries(fs) && fs != []
    ensures var es := [e] + fs;
      && ProperEntries(es) && EntryLevels(es) == Max(Levels(e.value), EntryLevels(fs))
      && Collect(p, data, es) == Collect(p, Insert(data, Encode(Units(e.key)), Meaning(p, e.value)), fs)
      && EntryTokens(es, true) + more == EntryHead(e) + ([","] + (EntryTokens(fs, true) + more))
  {
    var es := [e] + fs;
    assert es[1..] == fs;
    EntryTokensSplit(fs, more);
    assert [] + EntryHead(e) == EntryHead(e);
    Associate(EntryHead(e), EntryTokens(fs, false), more);
  }

  // ----- Main result -----

  /** The text is a layout, with whitespace and under the comment strategy with comments,
      of the tokens of a syntax tree: any number texts, any string pieces, any members
      with keys repeated or not, at most 200 levels deep. The tree means the value. */
  ghost predicate Denotes(d: Dialect, s: Bytes, x: Syntax, v: Json) {
    Proper(x) && Levels(x) <= MAX_DEPTH && IsLayout(d.strategy, s, Tokens(x)) && Meaning(d.platform, x) == v
  }

  /** The tree of an accepted text. */
  lemma DocumentSays(d: Dialect, s: Bytes, v: Json) returns (x: Syntax)
    requires ParseDocument(d, s) == Ok(v, [])
    ensures Denotes(d, s, x, v)
  {
    hide ParseValue, SkipGarbage, IsLayout;
    x := ValueSays(d, s, 0);
    var g := SkipGarbage(d.strategy, ParseValue(d, s, 0).rest);
    assert g.value == () && g == Ok((), []);
    EndIsLayout(d.strategy, ParseValue(d, s, 0).rest);
    assert Tokens(x) + [] == Tokens(x);
  }

  /** A text is accepted with a value exactly when it denotes the value as RFC 8259
      says. */
  lemma AcceptsIffGrammar(d: Dialect, s: Bytes, v: Json)
    ensures ParseDocument(d, s) == Ok(v, []) <==> exists x: Syntax :: Denotes(d, s, x, v)
  {
    if ParseDocument(d, s) == Ok(v, []) {
      var x := DocumentSays(d, s, v);
    }
    forall x: Syntax | Denotes(d, s, x, v) ensures ParseDocument(d, s) == Ok(v, []) {
      GrammarParses(d, x, s);
    }
  }
}
