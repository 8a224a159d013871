/** Parsing undoes printing, whatever layout stands between the tokens. */
module JsonRoundTrip {
  import opened Common
  import opened JsonValue
  import opened JsonText
  import opened JsonOrder
  import opened JsonGrammar
  import opened JsonNumbers
  import opened JsonPrinter
  import opened JsonEscapes
  import opened JsonLayout
  import opened JsonSyntax

  // ----- Values -----

  ghost predicate Ascending(ms: seq<Member>) {
    forall i, j :: 0 <= i < j < |ms| ==> LessBytes(ms[i].key, ms[j].key)
  }

  /** What C++ types guarantee of a value: doubles are doubles, map keys ascend. */
  ghost predicate WellFormed(p: Platform, v: Json)
    decreases v, 1
  {
    match v
    case Dbl(d) => d.Finite? ==> p.isDouble(d.r)
    case Arr(xs) => WellFormedItems(p, xs)
    case Obj(ms) => Ascending(ms) && WellFormedMembers(p, ms)
    case _ => true
  }

  ghost predicate WellFormedItems(p: Platform, xs: seq<Json>)
    decreases xs, 0
  {
    xs == [] || (WellFormed(p, xs[0]) && WellFormedItems(p, xs[1..]))
  }

  ghost predicate WellFormedMembers(p: Platform, ms: seq<Member>)
    decreases ms, 0
  {
    ms == [] || (WellFormed(p, ms[0].value) && WellFormedMembers(p, ms[1..]))
  }

  /** The greatest number of containers around any value inside `v`. */
  function Nest(v: Json): nat
    decreases v, 1
  {
    match v
    case Arr(xs) => if xs == [] then 0 else 1 + NestItems(xs)
    case Obj(ms) => if ms == [] then 0 else 1 + NestMembers(ms)
    case _ => 0
  }

  function NestItems(xs: seq<Json>): nat
    decreases xs, 0
  {
    if xs == [] then 0 else Max(Nest(xs[0]), NestItems(xs[1..]))
  }

  function NestMembers(ms: seq<Member>): nat
    decreases ms, 0
  {
    if ms == [] then 0 else Max(Nest(ms[0].value), NestMembers(ms[1..]))
  }

  /** What parsing a printed value yields: numbers may change representation, and a
      double that is not finite comes back as null. */
  function Reparse(p: Platform, v: Json): Json
    decreases v, 1
  {
    match v
    case Int(n) => Reread(p, SignedDecimal(n))
    case UInt(u) => Reread(p, SignedDecimal(u))
    case Dbl(d) => if d.Finite? then Reread(p, p.format17(d.r)) else Null
    case Arr(xs) => Arr(ReparseItems(p, xs))
    case Obj(ms) => Obj(ReparseMembers(p, ms))
    case _ => v
  }

  function ReparseItems(p: Platform, xs: seq<Json>): seq<Json>
    decreases xs, 0
  {
    if xs == [] then [] else [Reparse(p, xs[0])] + ReparseItems(p, xs[1..])
  }

  function ReparseMembers(p: Platform, ms: seq<Member>): seq<Member>
    decreases ms, 0
  {
    if ms == [] then []
    else [Member(ms[0].key, Reparse(p, ms[0].value))] + ReparseMembers(p, ms[1..])
  }

  /** A key after all others is inserted last. */
  lemma {:induction false} InsertLast(data: seq<Member>, key: Bytes, value: Json)
    requires forall i :: 0 <= i < |data| ==> LessBytes(data[i].key, key)
    ensures Insert(data, key, value) == data + [Member(key, value)]
  {
    if data != [] {
      BytesAntisymmetric(data[0].key, key);
      BytesAntisymmetric(key, data[0].key);
      InsertLast(data[1..], key, value);
    }
  }

  ghost predicate AllBelow(data: seq<Member>, ms: seq<Member>) {
    forall i, j :: 0 <= i < |data| && 0 <= j < |ms| ==> LessBytes(data[i].key, ms[j].key)
  }

  lemma AppendBelow(data: seq<Member>, ms: seq<Member>, value: Json)
    requires ms != [] && AllBelow(data, ms) && Ascending(ms)
    ensures Insert(data, ms[0].key, value) == data + [Member(ms[0].key, value)]
    ensures AllBelow(data + [Member(ms[0].key, value)], ms[1..]) && Ascending(ms[1..])
  {
    InsertLast(data, ms[0].key, value);
  }

  // ----- What is printed, as syntax -----

  /** The syntax tree of the printed value. */
  function Printed(p: Platform, v: Json): Syntax
    decreases v, 1
  {
    match v
    case Null => NullWord
    case Bool(b) => BoolWord(b)
    case Int(n) => NumberText(SignedDecimal(n))
    case UInt(u) => NumberText(Decimal(u))
    case Dbl(d) => if d.Finite? then NumberText(p.format17(d.r)) else NullWord
    case Str(s) => StringText(PrintedPieces(s))
    case Arr(xs) => ListOf(PrintedItems(p, xs))
    case Obj(ms) => ObjectOf(PrintedEntries(p, ms))
  }

  function PrintedItems(p: Platform, xs: seq<Json>): (ys: seq<Syntax>)
    ensures |ys| == |xs|
    decreases xs, 0
  {
    if xs == [] then [] else [Printed(p, xs[0])] + PrintedItems(p, xs[1..])
  }

  function PrintedEntries(p: Platform, ms: seq<Member>): (es: seq<Entry>)
    ensures |es| == |ms|
    decreases ms, 0
  {
    if ms == [] then []
    else [Entry(PrintedPieces(ms[0].key), Printed(p, ms[0].value))] + PrintedEntries(p, ms[1..])
  }

  lemma QuoteOfPrinted(s: Bytes)
    ensures Valid(PrintedPieces(s)) && Quote(PrintedPieces(s)) == Quoted(s) && Encode(Units(PrintedPieces(s))) == s
  {
    PrintedPiecesDenote(s);
  }

  /** The printed tree is proper, nests as the value does, and means its image. */
  lemma {:induction false} PrintedMeans(p: Platform, v: Json)
    requires Conforms(p) && WellFormed(p, v)
    ensures Proper(Printed(p, v)) && Levels(Printed(p, v)) == Nest(v) && Meaning(p, Printed(p, v)) == Reparse(p, v)
    decreases v, 1
  {
    match v
    case Int(n) => DecimalIsNumberText(n);
    case UInt(u) => DecimalIsNumberText(u);
    case Str(s) => QuoteOfPrinted(s);
    case Arr(xs) => PrintedItemsMean(p, xs);
    case Obj(ms) =>
      PrintedEntriesMean(p, ms, []);
      assert [] + ReparseMembers(p, ms) == ReparseMembers(p, ms);
    case _ =>
  }

  lemma {:induction false} PrintedItemsMean(p: Platform, xs: seq<Json>)
    requires Conforms(p) && WellFormedItems(p, xs)
    ensures var ys := PrintedItems(p, xs);
      ProperItems(ys) && ItemLevels(ys) == NestItems(xs) && Meanings(p, ys) == ReparseItems(p, xs)
    decreases xs, 0
  {
    if xs != [] {
      PrintedMeans(p, xs[0]);
      PrintedItemsMean(p, xs[1..]);
      assert PrintedItems(p, xs)[1..] == PrintedItems(p, xs[1..]);
    }
  }

  lemma {:induction false} PrintedEntriesMean(p: Platform, ms: seq<Member>, data: seq<Member>)
    requires Conforms(p) && WellFormedMembers(p, ms) && Ascending(ms) && AllBelow(data, ms)
    ensures var es := PrintedEntries(p, ms);
      ProperEntries(es) && EntryLevels(es) == NestMembers(ms) && Collect(p, data, es) == data + ReparseMembers(p, ms)
    decreases ms, 0
  {
    if ms != [] {
      hide LessBytes, Insert, Encode, Units, PrintedPieces;
      var m := Member(ms[0].key, Reparse(p, ms[0].value));
      PrintedMeans(p, ms[0].value);
      QuoteOfPrinted(ms[0].key);
      AppendBelow(data, ms, m.value);
      PrintedEntriesMean(p, ms[1..], data + [m]);
      assert PrintedEntries(p, ms)[1..] == PrintedEntries(p, ms[1..]);
      Associate(data, [m], ReparseMembers(p, ms[1..]));
    }
  }

  // ----- Printed text is a layout of its tokens -----

  lemma EnclosedIsLayout(
    strategy: Strategy, open: Bytes, body: Bytes, close: Bytes, text: Bytes, tokens: seq<Bytes>, more: seq<Bytes>)
    requires IsLayout(strategy, body + (close + text), tokens + ([close] + more))
    ensures IsLayout(strategy, open + body + close + text, [open] + tokens + [close] + more)
  {
    hide IsLayout;
    TokenBefore(strategy, open, body + (close + text), tokens + ([close] + more));
    Associate4(open, body, close, text);
    Associate4([open], tokens, [close], more);
  }

  lemma {:induction false} DumpIsLayout(p: Platform, strategy: Strategy, v: Json, text: Bytes, more: seq<Bytes>)
    requires IsLayout(strategy, text, more)
    ensures IsLayout(strategy, Dump(p, v) + text, Tokens(Printed(p, v)) + more)
    decreases v, 1
  {
    hide IsLayout;
    match v
    case Arr(xs) =>
      TokenBefore(strategy, "]", text, more);
      DumpItemsIsLayout(p, strategy, xs, true, "]" + text, ["]"] + more);
      EnclosedIsLayout(strategy, "[", DumpItems(p, xs, true), "]", text, ItemTokens(PrintedItems(p, xs), true), more);
    case Obj(ms) =>
      TokenBefore(strategy, "}", text, more);
      DumpMembersIsLayout(p, strategy, ms, true, "}" + text, ["}"] + more);
      EnclosedIsLayout(strategy, "{", DumpMembers(p, ms, true), "}", text, EntryTokens(PrintedEntries(p, ms), true), more);
    case Str(s) =>
      QuoteOfPrinted(s);
      TokenBefore(strategy, Dump(p, v), text, more);
    case _ =>
      TokenBefore(strategy, Dump(p, v), text, more);
  }

  lemma CommaBefore(strategy: Strategy, first: bool, text: Bytes, more: seq<Bytes>)
    requires IsLayout(strategy, text, more)
    ensures IsLayout(strategy, (if first then [] else ", ") + text, (if first then [] else [","]) + more)
  {
    hide IsLayout;
    if first {
      assert [] + text == text && [] + more == more;
    } else {
      BlankBefore(strategy, text, more);
      TokenBefore(strategy, ",", [' '] + text, more);
      assert ", " + text == "," + ([' '] + text);
    }
  }

  lemma {:induction false} DumpItemsIsLayout(
    p: Platform, strategy: Strategy, xs: seq<Json>, first: bool, text: Bytes, more: seq<Bytes>)
    requires IsLayout(strategy, text, more)
    ensures IsLayout(strategy, DumpItems(p, xs, first) + text, ItemTokens(PrintedItems(p, xs), first) + more)
    decreases xs, 0
  {
    hide IsLayout;
    if xs == [] {
      assert [] + text == text && [] + more == more;
    } else {
      var ys := PrintedItems(p, xs[1..]);
      assert PrintedItems(p, xs)[1..] == ys;
      var text', more' := DumpItems(p, xs[1..], false) + text, ItemTokens(ys, false) + more;
      DumpItemsIsLayout(p, strategy, xs[1..], false, text, more);
      DumpIsLayout(p, strategy, xs[0], text', more');
      CommaBefore(strategy, first, Dump(p, xs[0]) + text', Tokens(Printed(p, xs[0])) + more');
      Associate4(if first then [] else ", ", Dump(p, xs[0]), DumpItems(p, xs[1..], false), text);
      Associate4(if first then [] else [","], Tokens(Printed(p, xs[0])), ItemTokens(ys, false), more);
    }
  }

  lemma {:induction false} DumpMembersIsLayout(
    p: Platform, strategy: Strategy, ms: seq<Member>, first: bool, text: Bytes, more: seq<Bytes>)
    requires IsLayout(strategy, text, more)
    ensures IsLayout(strategy, DumpMembers(p, ms, first) + text, EntryTokens(PrintedEntries(p, ms), first) + more)
    decreases ms, 0
  {
    hide IsLayout;
    if ms == [] {
      assert [] + text == text && [] + more == more;
    } else {
      var es, head := PrintedEntries(p, ms[1..]), PrintedEntries(p, ms)[0];
      assert PrintedEntries(p, ms)[1..] == es;
      var text', more' := DumpMembers(p, ms[1..], false) + text, EntryTokens(es, false) + more;
      DumpMembersIsLayout(p, strategy, ms[1..], false, text, more);
      DumpIsLayout(p, strategy, ms[0].value, text', more');
      MemberBefore(p, strategy, ms[0], text', more');
      CommaBefore(strategy, first, DumpMember(p, ms[0]) + text', EntryHead(head) + more');
      Associate4(if first then [] else ", ", DumpMember(p, ms[0]), DumpMembers(p, ms[1..], false), text);
      Associate4(if first then [] else [","], EntryHead(head), EntryTokens(es, false), more);
    }
  }

  lemma MemberBefore(p: Platform, strategy: Strategy, m: Member, text: Bytes, more: seq<Bytes>)
    requires IsLayout(strategy, Dump(p, m.value) + text, Tokens(Printed(p, m.value)) + more)
    ensures IsLayout(strategy, DumpMember(p, m) + text, EntryHead(Entry(PrintedPieces(m.key), Printed(p, m.value))) + more)
  {
    hide IsLayout;
    var body, tokens := Dump(p, m.value) + text, Tokens(Printed(p, m.value)) + more;
    QuoteOfPrinted(m.key);
    BlankBefore(strategy, body, tokens);
    TokenBefore(strategy, ":", [' '] + body, tokens);
    TokenBefore(strategy, Quoted(m.key), ":" + ([' '] + body), [":"] + tokens);
    MemberText(Quoted(m.key), Dump(p, m.value), text);
    Associate4([Quoted(m.key)], [":"], Tokens(Printed(p, m.value)), more);
  }

  lemma MemberText(key: Bytes, value: Bytes, text: Bytes)
    ensures key + ": " + value + text == key + (":" + ([' '] + (value + text)))
  {
    Associate4(key, ": ", value, text);
    assert ": " + (value + text) == ":" + ([' '] + (value + text));
  }

  // ----- The reparsed value equals the original -----

  ghost predicate AllFinite(v: Json)
    decreases v, 1
  {
    match v
    case Dbl(d) => d.Finite?
    case Arr(xs) => AllFiniteItems(xs)
    case Obj(ms) => AllFiniteMembers(ms)
    case _ => true
  }

  ghost predicate AllFiniteItems(xs: seq<Json>)
    decreases xs, 0
  {
    xs == [] || (AllFinite(xs[0]) && AllFiniteItems(xs[1..]))
  }

  ghost predicate AllFiniteMembers(ms: seq<Member>)
    decreases ms, 0
  {
    ms == [] || (AllFinite(ms[0].value) && AllFiniteMembers(ms[1..]))
  }

  lemma {:induction false} ReparseEquals(p: Platform, v: Json)
    requires Conforms(p) && WellFormed(p, v)
    ensures Equals(p, Reparse(p, v), v) <==> AllFinite(v)
    decreases v, 1
  {
    match v
    case Int(n) => IntegerRereads(p, n);
    case UInt(u) => IntegerRereads(p, u);
    case Dbl(d) => if d.Finite? { DoubleRereads(p, d.r); }
    case Arr(xs) => ReparseItemsEquals(p, xs);
    case Obj(ms) => ReparseMembersEquals(p, ms);
    case _ =>
  }

  lemma {:induction false} ReparseItemsEquals(p: Platform, xs: seq<Json>)
    requires Conforms(p) && WellFormedItems(p, xs)
    ensures EqualItems(p, ReparseItems(p, xs), xs) <==> AllFiniteItems(xs)
    decreases xs, 0
  {
    if xs != [] {
      ReparseEquals(p, xs[0]);
      ReparseItemsEquals(p, xs[1..]);
      assert ReparseItems(p, xs)[1..] == ReparseItems(p, xs[1..]);
    }
  }

  lemma {:induction false} ReparseMembersEquals(p: Platform, ms: seq<Member>)
    requires Conforms(p) && WellFormedMembers(p, ms)
    ensures EqualMembers(p, ReparseMembers(p, ms), ms) <==> AllFiniteMembers(ms)
    decreases ms, 0
  {
    if ms != [] {
      ReparseEquals(p, ms[0].value);
      ReparseMembersEquals(p, ms[1..]);
      assert ReparseMembers(p, ms)[1..] == ReparseMembers(p, ms[1..]);
    }
  }

  // ----- Main results -----

  /** Any text with the tokens of a printed value, and any layout the strategy allows
      before, between and after them, is parsed to the end. The result is the image of
      `v`, equal to `v` exactly when no double in it is infinite or NaN; nesting beyond
      the limit is the one way to fail. */
  lemma LayoutParses(d: Dialect, v: Json, text: Bytes)
    requires Conforms(d.platform) && WellFormed(d.platform, v)
    requires IsLayout(d.strategy, text, Tokens(Printed(d.platform, v)))
    ensures ParseDocument(d, text) == if Nest(v) <= MAX_DEPTH then Ok(Reparse(d.platform, v), []) else Fail(TooDeep)
    ensures Equals(d.platform, Reparse(d.platform, v), v) <==> AllFinite(v)
  {
    PrintedMeans(d.platform, v);
    GrammarParses(d, Printed(d.platform, v), text);
    ReparseEquals(d.platform, v);
  }

  /** Parsing undoes printing, under either strategy. */
  lemma ParseUndoesPrint(d: Dialect, v: Json)
    requires Conforms(d.platform) && WellFormed(d.platform, v)
    ensures var r := ParseDocument(d, Dump(d.platform, v));
      && (Nest(v) <= MAX_DEPTH && AllFinite(v) <==> r.Ok? && Equals(d.platform, r.value, v))
      && (Nest(v) > MAX_DEPTH <==> r.Fail?)
      && (r.Fail? ==> r.error == TooDeep)
  {
    DumpIsWholeLayout(d.platform, d.strategy, v);
    LayoutParses(d, v, Dump(d.platform, v));
  }

  lemma DumpIsWholeLayout(p: Platform, strategy: Strategy, v: Json)
    ensures IsLayout(strategy, Dump(p, v), Tokens(Printed(p, v)))
  {
    assert [] == FillText([]) + [] && ValidFill(strategy, []) && StartsTokens(strategy, [], []);
    DumpIsLayout(p, strategy, v, [], []);
    assert Dump(p, v) + [] == Dump(p, v) && Tokens(Printed(p, v)) + [] == Tokens(Printed(p, v));
  }
}
