/** The grammar of section 2 of RFC 8259 as syntax trees, and the proof that the parser
    reads every layout of a tree back to its meaning. */
module JsonSyntax {
  import opened Common
  import opened JsonValue
  import opened JsonText
  import opened JsonGrammar
  import opened JsonNumbers
  import opened JsonEscapes
  import opened JsonLayout

  /** What a JSON text says, before it is read: numbers and strings as they are written,
      objects with their members in order, keys possibly repeated. */
  datatype Syntax =
    | NullWord
    | BoolWord(b: bool)
    | NumberText(text: Bytes)
    | StringText(pieces: seq<Piece>)
    | ListOf(items: seq<Syntax>)
    | ObjectOf(entries: seq<Entry>)

  datatype Entry = Entry(key: seq<Piece>, value: Syntax)

  /** Numbers are number texts and strings are valid pieces, throughout. */
  ghost predicate Proper(x: Syntax)
    decreases x, 1
  {
    match x
    case NumberText(t) => IsNumberText(t)
    case StringText(ps) => Valid(ps)
    case ListOf(xs) => ProperItems(xs)
    case ObjectOf(es) => ProperEntries(es)
    case _ => true
  }

  ghost predicate ProperItems(xs: seq<Syntax>)
    decreases xs, 0
  {
    xs == [] || (Proper(xs[0]) && ProperItems(xs[1..]))
  }

  ghost predicate ProperEntries(es: seq<Entry>)
    decreases es, 0
  {
    es == [] || (Valid(es[0].key) && Proper(es[0].value) && ProperEntries(es[1..]))
  }

  function Max(m: nat, n: nat): nat { if m < n then n else m }

  /** The greatest number of containers around anything inside. */
  function Levels(x: Syntax): nat
    decreases x, 1
  {
    match x
    case ListOf(xs) => if xs == [] then 0 else 1 + ItemLevels(xs)
    case ObjectOf(es) => if es == [] then 0 else 1 + EntryLevels(es)
    case _ => 0
  }

  function ItemLevels(xs: seq<Syntax>): nat
    decreases xs, 0
  {
    if xs == [] then 0 else Max(Levels(xs[0]), ItemLevels(xs[1..]))
  }

  function EntryLevels(es: seq<Entry>): nat
    decreases es, 0
  {
    if es == [] then 0 else Max(Levels(es[0].value), EntryLevels(es[1..]))
  }

  // ----- Tokens -----

  function Quote(ps: seq<Piece>): Bytes {
    ['"'] + Text(ps) + ['"']
  }

  function BoolToken(b: bool): Bytes { if b then "true" else "false" }

  function Tokens(x: Syntax): seq<Bytes>
    decreases x, 1
  {
    match x
    case NullWord => ["null"]
    case BoolWord(b) => [BoolToken(b)]
    case NumberText(t) => [t]
    case StringText(ps) => [Quote(ps)]
    case ListOf(xs) => ["["] + ItemTokens(xs, true) + ["]"]
    case ObjectOf(es) => ["{"] + EntryTokens(es, true) + ["}"]
  }

  function ItemTokens(xs: seq<Syntax>, first: bool): seq<Bytes>
    decreases xs, 0
  {
    if xs == [] then []
    else (if first then [] else [","]) + Tokens(xs[0]) + ItemTokens(xs[1..], false)
  }

  function EntryTokens(es: seq<Entry>, first: bool): seq<Bytes>
    decreases es, 0
  {
    if es == [] then []
    else (if first then [] else [","]) + EntryHead(es[0]) + EntryTokens(es[1..], false)
  }

  /** The tokens of one member. */
  function EntryHead(e: Entry): seq<Bytes>
    decreases e, 0
  {
    [Quote(e.key)] + [":"] + Tokens(e.value)
  }

  // ----- Meaning -----

  /** The value a tree denotes; of members with the same key the last one stays. */
  ghost function Meaning(p: Platform, x: Syntax): Json
    requires Proper(x)
    decreases x, 1
  {
    match x
    case NullWord => Null
    case BoolWord(b) => Bool(b)
    case NumberText(t) => Reread(p, t)
    case StringText(ps) => Str(Encode(Units(ps)))
    case ListOf(xs) => Arr(Meanings(p, xs))
    case ObjectOf(es) => Obj(Collect(p, [], es))
  }

  ghost function Meanings(p: Platform, xs: seq<Syntax>): seq<Json>
    requires ProperItems(xs)
    decreases xs, 0
  {
    if xs == [] then [] else [Meaning(p, xs[0])] + Meanings(p, xs[1..])
  }

  ghost function Collect(p: Platform, data: seq<Member>, es: seq<Entry>): seq<Member>
    requires ProperEntries(es)
    decreases es, 0
  {
    if es == [] then data
    else Collect(p, Insert(data, Encode(Units(es[0].key)), Meaning(p, es[0].value)), es[1..])
  }

  // ----- The parser reads a layout back -----

  /** The first token of a tree starts a value. */
  lemma HeadToken(x: Syntax)
    requires Proper(x)
    ensures Tokens(x) != [] && IsSolid(Tokens(x)[0])
    ensures Tokens(x)[0][0] != ']'
  {
    if x.NumberText? { NumberTextHead(x.text); }
  }

  /** The token is there and the rest is laid out. */
  lemma SplitToken(strategy: Strategy, t: Bytes, token: Bytes, more: seq<Bytes>) returns (rest: Bytes)
    requires StartsTokens(strategy, t, [token] + more)
    ensures t == token + rest && IsLayout(strategy, rest, more)
  {
    rest := t[|token|..];
    assert ([token] + more)[1..] == more;
  }

  lemma NumberLayout(d: Dialect, token: Bytes, text: Bytes, more: seq<Bytes>, depth: nat) returns (rest: Bytes)
    requires IsNumberText(token) && depth <= MAX_DEPTH
    requires IsLayout(d.strategy, text, [token] + more) && (more == [] || IsPunctuation(more[0]))
    ensures ParseValue(d, text, depth) == Ok(Reread(d.platform, token), rest) && IsLayout(d.strategy, rest, more)
  {
    hide IsLayout, IsNumberText, EndsNumber, Reread, ParseNumber;
    NumberTextHead(token);
    var t := NextOfLayout(d.strategy, text, [token] + more);
    rest := SplitToken(d.strategy, t, token, more);
    LayoutEndsNumber(d.strategy, rest, more);
    NumberTextParses(d.platform, token, rest);
  }

  lemma WordLayout(d: Dialect, x: Syntax, text: Bytes, more: seq<Bytes>, depth: nat) returns (rest: Bytes)
    requires (x.NullWord? || x.BoolWord?) && depth <= MAX_DEPTH
    requires IsLayout(d.strategy, text, Tokens(x) + more)
    ensures ParseValue(d, text, depth) == Ok(Meaning(d.platform, x), rest) && IsLayout(d.strategy, rest, more)
  {
    hide IsLayout;
    var token := Tokens(x)[0];
    var t := NextOfLayout(d.strategy, text, [token] + more);
    rest := SplitToken(d.strategy, t, token, more);
    WordParses(t, token, rest, Meaning(d.platform, x));
    assert token == "true" || token == "false" || token == "null";
  }

  lemma WordParses(t: Bytes, word: Bytes, rest: Bytes, v: Json)
    requires word != [] && t == word + rest
    ensures ExpectWord(t, word, v) == Ok(v, rest)
  {
    assert t[|word|..] == rest;
  }

  lemma StringLayout(d: Dialect, ps: seq<Piece>, text: Bytes, more: seq<Bytes>, depth: nat) returns (rest: Bytes)
    requires depth <= MAX_DEPTH && Valid(ps) && IsLayout(d.strategy, text, [Quote(ps)] + more)
    ensures ParseValue(d, text, depth) == Ok(Str(Encode(Units(ps))), rest) && IsLayout(d.strategy, rest, more)
  {
    var t := NextOfLayout(d.strategy, text, [Quote(ps)] + more);
    rest := SplitToken(d.strategy, t, Quote(ps), more);
    QuoteParses(ps, rest);
  }

  lemma QuoteParses(ps: seq<Piece>, rest: Bytes)
    requires Valid(ps)
    ensures ParseString((Quote(ps) + rest)[1..], Nothing, []) == Ok(Encode(Units(ps)), rest)
  {
    DecodeWhole(ps, rest);
    var body := Text(ps) + (['"'] + rest);
    Associate4(['"'], Text(ps), ['"'], rest);
    assert (['"'] + body)[1..] == body;
  }

  /** The parse of a tree at this depth: its meaning, or the depth error. */
  ghost predicate Parses(d: Dialect, r: Parsed<Json>, fits: bool, v: Json, rest: Bytes, more: seq<Bytes>) {
    if fits then r == Ok(v, rest) && IsLayout(d.strategy, rest, more) else r == Fail(TooDeep)
  }

  lemma {:induction false} ParseLayout(d: Dialect, x: Syntax, text: Bytes, more: seq<Bytes>, depth: nat) returns (rest: Bytes)
    requires Proper(x)
    requires IsLayout(d.strategy, text, Tokens(x) + more) && (more == [] || IsPunctuation(more[0]))
    ensures Parses(d, ParseValue(d, text, depth), depth + Levels(x) <= MAX_DEPTH, Meaning(d.platform, x), rest, more)
    decreases x, 2
  {
    rest := [];
    if depth <= MAX_DEPTH {
      match x
      case NumberText(t) => rest := NumberLayout(d, t, text, more, depth);
      case StringText(ps) => rest := StringLayout(d, ps, text, more, depth);
      case ListOf(xs) => rest := ListLayout(d, xs, text, more, depth);
      case ObjectOf(es) => rest := ObjectLayout(d, es, text, more, depth);
      case _ => rest := WordLayout(d, x, text, more, depth);
    }
  }

  /** The opening token of a container is read. */
  lemma OpenLayout(d: Dialect, open: Bytes, tokens: seq<Bytes>, close: Bytes, text: Bytes, more: seq<Bytes>)
    returns (t: Bytes, body: Bytes)
    requires IsSolid(open) && |open| == 1
    requires IsLayout(d.strategy, text, [open] + tokens + [close] + more)
    ensures NextToken(d.strategy, text) == Ok(open[0], t) && t[1..] == body
    ensures IsLayout(d.strategy, body, tokens + ([close] + more))
  {
    Associate4([open], tokens, [close], more);
    t := NextOfLayout(d.strategy, text, [open] + (tokens + ([close] + more)));
    body := SplitToken(d.strategy, t, open, tokens + ([close] + more));
  }

  /** The closing token is read. */
  lemma CloseLayout(d: Dialect, close: Byte, text: Bytes, more: seq<Bytes>) returns (t: Bytes, rest: Bytes)
    requires close == ']' || close == '}'
    requires IsLayout(d.strategy, text, [[close]] + more)
    ensures NextToken(d.strategy, text) == Ok(close, t) && t[1..] == rest
    ensures Separator(d, text, close) == Ok(true, rest) && IsLayout(d.strategy, rest, more)
  {
    t := NextOfLayout(d.strategy, text, [[close]] + more);
    rest := SplitToken(d.strategy, t, [close], more);
  }

  /** A comma is read, and the next token is ahead. */
  lemma CommaLayout(d: Dialect, close: Byte, text: Bytes, tokens: seq<Bytes>) returns (t: Bytes)
    requires close == ']' || close == '}'
    requires IsLayout(d.strategy, text, [","] + tokens) && tokens != [] && IsSolid(tokens[0])
    ensures Separator(d, text, close) == Ok(false, t) && StartsTokens(d.strategy, t, tokens)
  {
    var u := NextOfLayout(d.strategy, text, [","] + tokens);
    var after := SplitToken(d.strategy, u, ",", tokens);
    assert u[1..] == after;
    t := NextOfLayout(d.strategy, after, tokens);
  }

  lemma Dispatch(d: Dialect, text: Bytes, t: Bytes, depth: nat)
    requires depth <= MAX_DEPTH && t != [] && NextToken(d.strategy, text) == Ok(t[0], t)
    ensures t[0] == '[' ==> ParseValue(d, text, depth) == AfterBracket(d, t[1..], depth)
    ensures t[0] == '{' ==> ParseValue(d, text, depth) == AfterBrace(d, t[1..], depth)
  {
  }

  lemma MemberSteps(d: Dialect, text: Bytes, key: Bytes, t: Bytes, depth: nat)
    requires ParseKey(d, text) == Ok(key, t)
    ensures ParseMember(d, text, depth) == match ParseValue(d, t, depth + 1)
                                           case Ok(v, rest) => Ok(Member(key, v), rest)
                                           case Fail(e) => Fail(e)
  {
  }

  // ----- Lists -----

  lemma {:induction false} ListLayout(d: Dialect, xs: seq<Syntax>, text: Bytes, more: seq<Bytes>, depth: nat) returns (rest: Bytes)
    requires ProperItems(xs) && depth <= MAX_DEPTH && IsLayout(d.strategy, text, Tokens(ListOf(xs)) + more)
    ensures Parses(d, ParseValue(d, text, depth), depth + Levels(ListOf(xs)) <= MAX_DEPTH, Arr(Meanings(d.platform, xs)), rest, more)
    decreases xs, 4
  {
    var t, body := OpenLayout(d, "[", ItemTokens(xs, true), "]", text, more);
    Dispatch(d, text, t, depth);
    rest := BracketLayout(d, xs, body, more, depth);
  }

  lemma {:induction false} BracketLayout(d: Dialect, xs: seq<Syntax>, text: Bytes, more: seq<Bytes>, depth: nat) returns (rest: Bytes)
    requires ProperItems(xs) && depth <= MAX_DEPTH
    requires IsLayout(d.strategy, text, ItemTokens(xs, true) + (["]"] + more))
    ensures Parses(d, AfterBracket(d, text, depth), depth + Levels(ListOf(xs)) <= MAX_DEPTH, Arr(Meanings(d.platform, xs)), rest, more)
    decreases xs, 3
  {
    var tokens := ItemTokens(xs, true) + (["]"] + more);
    if xs == [] {
      assert tokens == ["]"] + more;
      var t;
      t, rest := CloseLayout(d, ']', text, more);
    } else {
      HeadToken(xs[0]);
      assert tokens[0] == Tokens(xs[0])[0];
      var t := NextOfLayout(d.strategy, text, tokens);
      rest := ItemsLayout(d, xs, t, more, depth, []);
      assert [] + Meanings(d.platform, xs) == Meanings(d.platform, xs);
    }
  }

  lemma ItemTokensSplit(xs: seq<Syntax>, more: seq<Bytes>)
    requires xs != []
    ensures ItemTokens(xs, true) + more == Tokens(xs[0]) + (ItemTokens(xs[1..], false) + more)
    ensures ItemTokens(xs, false) + more == [","] + (ItemTokens(xs, true) + more)
  {
    var tail := ItemTokens(xs[1..], false);
    assert [] + Tokens(xs[0]) == Tokens(xs[0]);
    Associate(Tokens(xs[0]), tail, more);
    Associate([","], Tokens(xs[0]), tail);
    Associate([","], ItemTokens(xs, true), more);
  }

  lemma FirstItemLayout(strategy: Strategy, xs: seq<Syntax>, text: Bytes, more: seq<Bytes>)
    requires xs != [] && more != [] && IsPunctuation(more[0])
    requires StartsTokens(strategy, text, ItemTokens(xs, true) + more)
    ensures var after := ItemTokens(xs[1..], false) + more;
      IsLayout(strategy, text, Tokens(xs[0]) + after) && IsPunctuation(after[0])
  {
    StartedIsLayout(strategy, text, ItemTokens(xs, true) + more);
    ItemTokensSplit(xs, more);
  }

  lemma {:induction false} ItemsLayout(
    d: Dialect, xs: seq<Syntax>, text: Bytes, more: seq<Bytes>, depth: nat, data: seq<Json>) returns (rest: Bytes)
    requires ProperItems(xs) && xs != []
    requires StartsTokens(d.strategy, text, ItemTokens(xs, true) + (["]"] + more))
    ensures Parses(d, ParseItems(d, text, depth, data), depth + 1 + ItemLevels(xs) <= MAX_DEPTH,
              Arr(data + Meanings(d.platform, xs)), rest, more)
    decreases xs, 1
  {
    hide IsLayout, StartsTokens, ParseValue, AfterItem, Tokens, ItemTokens;
    var after := ItemTokens(xs[1..], false) + (["]"] + more);
    FirstItemLayout(d.strategy, xs, text, ["]"] + more);
    rest := ParseLayout(d, xs[0], text, after, depth + 1);
    if depth + 1 + Levels(xs[0]) <= MAX_DEPTH {
      var m := Meaning(d.platform, xs[0]);
      assert ParseItems(d, text, depth, data) == AfterItem(d, rest, depth, data + [m]);
      rest := AfterItemLayout(d, xs[1..], rest, more, depth, data + [m]);
      Associate(data, [m], Meanings(d.platform, xs[1..]));
    }
  }

  lemma {:induction false} AfterItemLayout(
    d: Dialect, xs: seq<Syntax>, text: Bytes, more: seq<Bytes>, depth: nat, data: seq<Json>) returns (rest: Bytes)
    requires ProperItems(xs) && depth + 1 <= MAX_DEPTH
    requires IsLayout(d.strategy, text, ItemTokens(xs, false) + (["]"] + more))
    ensures Parses(d, AfterItem(d, text, depth, data), depth + 1 + ItemLevels(xs) <= MAX_DEPTH,
              Arr(data + Meanings(d.platform, xs)), rest, more)
    decreases xs, 2
  {
    if xs == [] {
      assert [] + (["]"] + more) == ["]"] + more;
      assert data + [] == data;
      var t;
      t, rest := CloseLayout(d, ']', text, more);
    } else {
      ItemTokensSplit(xs, ["]"] + more);
      HeadToken(xs[0]);
      var t := CommaLayout(d, ']', text, ItemTokens(xs, true) + (["]"] + more));
      rest := ItemsLayout(d, xs, t, more, depth, data);
    }
  }

  // ----- Objects -----

  lemma KeyLayout(d: Dialect, key: seq<Piece>, text: Bytes, tokens: seq<Bytes>) returns (rest: Bytes)
    requires Valid(key) && StartsTokens(d.strategy, text, [Quote(key)] + ([":"] + tokens))
    ensures ParseKey(d, text) == Ok(Encode(Units(key)), rest) && IsLayout(d.strategy, rest, tokens)
  {
    var after := SplitToken(d.strategy, text, Quote(key), [":"] + tokens);
    QuoteParses(key, after);
    var t := NextOfLayout(d.strategy, after, [":"] + tokens);
    rest := SplitToken(d.strategy, t, ":", tokens);
    assert t[1..] == rest;
  }

  lemma EntryTokensSplit(es: seq<Entry>, more: seq<Bytes>)
    requires es != []
    ensures EntryTokens(es, true) + more == [Quote(es[0].key)] + ([":"] + (
              Tokens(es[0].value) + (EntryTokens(es[1..], false) + more)))
    ensures EntryTokens(es, false) + more == [","] + (EntryTokens(es, true) + more)
  {
    var head, tail := EntryHead(es[0]), EntryTokens(es[1..], false);
    assert [] + head == head;
    Associate(head, tail, more);
    Associate4([Quote(es[0].key)], [":"], Tokens(es[0].value), tail + more);
    Associate([","], head, tail);
    Associate([","], EntryTokens(es, true), more);
  }

  lemma EntryTailHead(es: seq<Entry>, more: seq<Bytes>)
    requires more != [] && IsPunctuation(more[0])
    ensures IsPunctuation((EntryTokens(es, false) + more)[0])
  {
  }

  lemma {:induction false} ObjectLayout(d: Dialect, es: seq<Entry>, text: Bytes, more: seq<Bytes>, depth: nat) returns (rest: Bytes)
    requires ProperEntries(es) && depth <= MAX_DEPTH && IsLayout(d.strategy, text, Tokens(ObjectOf(es)) + more)
    ensures Parses(d, ParseValue(d, text, depth), depth + Levels(ObjectOf(es)) <= MAX_DEPTH,
              Obj(Collect(d.platform, [], es)), rest, more)
    decreases es, 4
  {
    var t, body := OpenLayout(d, "{", EntryTokens(es, true), "}", text, more);
    Dispatch(d, text, t, depth);
    rest := BraceLayout(d, es, body, more, depth);
  }

  lemma {:induction false} BraceLayout(d: Dialect, es: seq<Entry>, text: Bytes, more: seq<Bytes>, depth: nat) returns (rest: Bytes)
    requires ProperEntries(es) && depth <= MAX_DEPTH
    requires IsLayout(d.strategy, text, EntryTokens(es, true) + (["}"] + more))
    ensures Parses(d, AfterBrace(d, text, depth), depth + Levels(ObjectOf(es)) <= MAX_DEPTH,
              Obj(Collect(d.platform, [], es)), rest, more)
    decreases es, 3
  {
    var tokens := EntryTokens(es, true) + (["}"] + more);
    if es == [] {
      assert tokens == ["}"] + more;
      var t;
      t, rest := CloseLayout(d, '}', text, more);
    } else {
      EntryTokensSplit(es, ["}"] + more);
      var t := NextOfLayout(d.strategy, text, tokens);
      rest := EntriesLayout(d, es, t, more, depth, []);
    }
  }

  lemma {:induction false} EntriesLayout(
    d: Dialect, es: seq<Entry>, text: Bytes, more: seq<Bytes>, depth: nat, data: seq<Member>) returns (rest: Bytes)
    requires ProperEntries(es) && es != []
    requires StartsTokens(d.strategy, text, EntryTokens(es, true) + (["}"] + more))
    ensures Parses(d, ParseMembers(d, text, depth, data), depth + 1 + EntryLevels(es) <= MAX_DEPTH,
              Obj(Collect(d.platform, data, es)), rest, more)
    decreases es, 1
  {
    hide IsLayout, StartsTokens, ParseMember, AfterMember, Tokens, EntryTokens, Insert;
    var after := EntryTokens(es[1..], false) + (["}"] + more);
    EntryTokensSplit(es, ["}"] + more);
    EntryTailHead(es[1..], ["}"] + more);
    rest := EntryLayout(d, es[0], text, after, depth);
    if depth + 1 + Levels(es[0].value) <= MAX_DEPTH {
      var data' := Insert(data, Encode(Units(es[0].key)), Meaning(d.platform, es[0].value));
      assert ParseMembers(d, text, depth, data) == AfterMember(d, rest, depth, data');
      rest := AfterEntryLayout(d, es[1..], rest, more, depth, data');
    }
  }

  lemma {:induction false} EntryLayout(d: Dialect, e: Entry, text: Bytes, after: seq<Bytes>, depth: nat) returns (rest: Bytes)
    requires Valid(e.key) && Proper(e.value)
    requires StartsTokens(d.strategy, text, [Quote(e.key)] + ([":"] + (Tokens(e.value) + after)))
    requires after != [] && IsPunctuation(after[0])
    ensures if depth + 1 + Levels(e.value) <= MAX_DEPTH
            then ParseMember(d, text, depth) == Ok(Member(Encode(Units(e.key)), Meaning(d.platform, e.value)), rest)
                 && IsLayout(d.strategy, rest, after)
            else ParseMember(d, text, depth) == Fail(TooDeep)
    decreases e, 0
  {
    hide IsLayout, StartsTokens, ParseMember, ParseValue, ParseKey;
    var t := KeyLayout(d, e.key, text, Tokens(e.value) + after);
    rest := ParseLayout(d, e.value, t, after, depth + 1);
    MemberSteps(d, text, Encode(Units(e.key)), t, depth);
  }

  lemma {:induction false} AfterEntryLayout(
    d: Dialect, es: seq<Entry>, text: Bytes, more: seq<Bytes>, depth: nat, data: seq<Member>) returns (rest: Bytes)
    requires ProperEntries(es) && depth + 1 <= MAX_DEPTH
    requires IsLayout(d.strategy, text, EntryTokens(es, false) + (["}"] + more))
    ensures Parses(d, AfterMember(d, text, depth, data), depth + 1 + EntryLevels(es) <= MAX_DEPTH,
              Obj(Collect(d.platform, data, es)), rest, more)
    decreases es, 2
  {
    if es == [] {
      assert [] + (["}"] + more) == ["}"] + more;
      var t;
      t, rest := CloseLayout(d, '}', text, more);
    } else {
      EntryTokensSplit(es, ["}"] + more);
      var t := CommaLayout(d, '}', text, EntryTokens(es, true) + (["}"] + more));
      rest := EntriesLayout(d, es, t, more, depth, data);
    }
  }

  /** Every text with the tokens of a tree, in any layout, is parsed to the end, to the
      meaning of the tree; nesting beyond the limit is the one way to fail. */
  lemma GrammarParses(d: Dialect, x: Syntax, text: Bytes)
    requires Proper(x) && IsLayout(d.strategy, text, Tokens(x))
    ensures ParseDocument(d, text)
         == if Levels(x) <= MAX_DEPTH then Ok(Meaning(d.platform, x), []) else Fail(TooDeep)
  {
    assert Tokens(x) + [] == Tokens(x);
    var rest := ParseLayout(d, x, text, [], 0);
    if Levels(x) <= MAX_DEPTH {
      EndOfLayout(d.strategy, rest);
    }
  }
}
