/** What the parser accepts, as functions of the input that is still unread. Each
    returns the value with the unread rest, or the first error. */
module JsonGrammar {
  import opened Common
  import opened JsonValue
  import opened JsonText

  const MAX_DEPTH := 200

  datatype Strategy = Standard | Comments

  datatype Dialect = Dialect(platform: Platform, strategy: Strategy)

  /** The messages the parser can store; `Caller(id)` is whatever the caller's string held. */
  datatype Error =
    | Caller(id: nat)
    | UnexpectedEnd
    | EndAfterSlash
    | EndInBlockComment
    | MalformedComment
    | EndInString
    | UnescapedInString(c: Byte)
    | BadUnicodeEscape(text: Bytes)
    | InvalidEscape(c: Byte)
    | LeadingZero
    | InvalidInNumber(c: Byte)
    | NoFractionDigit
    | NoExponentDigit
    | Expected(word: Bytes, got: Bytes)
    | TooDeep
    | ExpectedKey(c: Byte)
    | ExpectedColon(c: Byte)
    | ExpectedObjectComma(c: Byte)
    | ExpectedListComma(c: Byte)
    | ExpectedValue(c: Byte)
    | Trailing(c: Byte)

  datatype Parsed<+T> = Ok(value: T, rest: Bytes) | Fail(error: Error) {
    predicate IsFailure() { Fail? }

    function PropagateFailure<U>(): Parsed<U>
      requires Fail?
    {
      Fail(error)
    }

    function Extract(): (T, Bytes)
      requires Ok?
    {
      (value, rest)
    }
  }

  // ----- Whitespace and comments -----

  predicate IsWhitespace(c: Byte) {
    c == ' ' || c == '\r' || c == '\n' || c == '\t'
  }

  function SkipWhitespace(s: Bytes): (rest: Bytes)
    ensures |rest| <= |s|
    ensures rest != [] ==> !IsWhitespace(rest[0])
  {
    if s != [] && IsWhitespace(s[0]) then SkipWhitespace(s[1..]) else s
  }

  /** The input from the next line break on. */
  function LineEnd(s: Bytes): (rest: Bytes)
    ensures |rest| <= |s|
  {
    if s == [] || s[0] == '\n' then s else LineEnd(s[1..])
  }

  /** The input after the first closing token of a block comment. */
  function BlockEnd(s: Bytes): (r: Parsed<()>)
    ensures r.Ok? ==> |r.rest| < |s|
  {
    if |s| < 2 then Fail(EndInBlockComment)
    else if s[0] == '*' && s[1] == '/' then Ok((), s[2..])
    else BlockEnd(s[1..])
  }

  function SkipComment(s: Bytes): (r: Parsed<()>)
    requires s != [] && s[0] == '/'
    ensures r.Ok? ==> |r.rest| < |s|
  {
    if |s| == 1 then Fail(EndAfterSlash)
    else if s[1] == '/' then Ok((), LineEnd(s[2..]))
    else if s[1] == '*' then BlockEnd(s[2..])
    else Fail(MalformedComment)
  }

  function SkipGarbage(strategy: Strategy, s: Bytes): (r: Parsed<()>)
    ensures r.Ok? ==> |r.rest| <= |s|
    decreases |s|
  {
    var t := SkipWhitespace(s);
    if strategy.Standard? || t == [] || t[0] != '/' then Ok((), t)
    else
      var (_, u) :- SkipComment(t);
      SkipGarbage(strategy, u)
  }

  /** The next token, still unread. */
  function NextToken(strategy: Strategy, s: Bytes): (r: Parsed<Byte>)
    ensures r.Ok? ==> r.rest != [] && r.value == r.rest[0] && |r.rest| <= |s|
  {
    var (_, t) :- SkipGarbage(strategy, s);
    if t == [] then Fail(UnexpectedEnd) else Ok(t[0], t)
  }

  // ----- Strings -----

  /** A pending code point from a `\u` escape, not yet written because a low
      surrogate may follow. */
  datatype Pending = Nothing | Escaped(cp: nat)

  function Flush(pending: Pending, out: Bytes): Bytes
    requires pending.Escaped? ==> pending.cp < 0x10000
  {
    if pending.Escaped? then out + Utf8(pending.cp) else out
  }

  predicate IsShortEscape(c: Byte) {
    c == 'b' || c == 'f' || c == 'n' || c == 'r' || c == 't' || c == '"' || c == '\\' || c == '/'
  }

  function ShortEscape(c: Byte): Byte
    requires IsShortEscape(c)
  {
    if c == 'b' then 8 as char
    else if c == 'f' then 12 as char
    else if c == 'n' then '\n'
    else if c == 'r' then '\r'
    else if c == 't' then '\t'
    else c
  }

  function ParseString(s: Bytes, pending: Pending, out: Bytes): (r: Parsed<Bytes>)
    requires pending.Escaped? ==> pending.cp < 0x10000
    ensures r.Ok? ==> |r.rest| < |s|
    decreases |s|
  {
    if s == [] then Fail(EndInString)
    else if s[0] == '"' then Ok(Flush(pending, out), s[1..])
    else if s[0] as int <= 0x1F then Fail(UnescapedInString(s[0]))
    else if s[0] != '\\' then ParseString(s[1..], Nothing, Flush(pending, out) + [s[0]])
    else if |s| == 1 then Fail(EndInString)
    else if s[1] == 'u' then
      var h := if |s| < 6 then s[2..] else s[2..6];
      if !IsHex4(h) then Fail(BadUnicodeEscape(h))
      else
        var cp := Hex4Value(h);
        if pending.Escaped? && IsHighSurrogate(pending.cp) && IsLowSurrogate(cp) then
          ParseString(s[6..], Nothing, out + Utf8(Astral(pending.cp, cp)))
        else
          ParseString(s[6..], Escaped(cp), Flush(pending, out))
    else if IsShortEscape(s[1]) then
      ParseString(s[2..], Nothing, Flush(pending, out) + [ShortEscape(s[1])])
    else Fail(InvalidEscape(s[1]))
  }

  /** The case of a `\\u` escape by itself. */
  lemma UnicodeStep(s: Bytes, pending: Pending, out: Bytes)
    requires "\\u" <= s && (pending.Escaped? ==> pending.cp < 0x10000)
    ensures var h := if |s| < 6 then s[2..] else s[2..6];
      ParseString(s, pending, out) ==
        if !IsHex4(h) then Fail(BadUnicodeEscape(h))
        else if pending.Escaped? && IsHighSurrogate(pending.cp) && IsLowSurrogate(Hex4Value(h)) then
          ParseString(s[6..], Nothing, out + Utf8(Astral(pending.cp, Hex4Value(h))))
        else
          ParseString(s[6..], Escaped(Hex4Value(h)), Flush(pending, out))
  {
    hide Utf8, Hex4Value, IsHex4, Flush, Astral;
  }

  // ----- Numbers -----

  function DigitsEnd(s: Bytes, k: nat): (j: nat)
    requires k <= |s|
    ensures k <= j <= |s|
    decreases |s| - k
  {
    if k < |s| && IsDigit(s[k]) then DigitsEnd(s, k + 1) else k
  }

  /** Where the sign and the integer part end. */
  function WholeEnd(s: Bytes): (r: Parsed<nat>)
    ensures r.Ok? ==> 1 <= r.value <= |s|
  {
    var k := if At(s, 0) == '-' then 1 else 0;
    if At(s, k) == '0' then
      if IsDigit(At(s, k + 1)) then Fail(LeadingZero) else Ok(k + 1, [])
    else if IsDigit(At(s, k)) then Ok(DigitsEnd(s, k + 1), [])
    else Fail(InvalidInNumber(At(s, k)))
  }

  lemma {:induction false} DigitsEndCovers(s: Bytes, k: nat)
    requires k <= |s|
    ensures AllDigits(s[k..DigitsEnd(s, k)])
    ensures !IsDigit(At(s, DigitsEnd(s, k)))
    decreases |s| - k
  {
    if k < |s| && IsDigit(s[k]) {
      DigitsEndCovers(s, k + 1);
      assert s[k..DigitsEnd(s, k)] == [s[k]] + s[k + 1..DigitsEnd(s, k)];
    }
  }

  lemma WholeIsInteger(s: Bytes)
    requires WholeEnd(s).Ok?
    ensures var k := WholeEnd(s).value; IsIntegerText(s[..k]) && !IsDigit(At(s, k))
  {
    var j := WholeEnd(s).value;
    if At(s, 0) == '-' {
      DigitRun(s, 1, j);
    } else {
      DigitRun(s, 0, j);
    }
  }

  lemma DigitRun(s: Bytes, k: nat, j: nat)
    requires k < |s| && IsDigit(s[k])
    requires j == DigitsEnd(s, k + 1) || (j == k + 1 && !IsDigit(At(s, k + 1)))
    ensures k < j <= |s| && AllDigits(s[..j][k..]) && !IsDigit(At(s, j))
  {
    DigitsEndCovers(s, k + 1);
    assert s[..j][k..] == [s[k]] + s[k + 1..j];
  }

  function FractionEnd(s: Bytes, k: nat): (r: Parsed<nat>)
    requires k <= |s|
    ensures r.Ok? ==> k <= r.value <= |s|
  {
    if At(s, k) != '.' then Ok(k, [])
    else if !IsDigit(At(s, k + 1)) then Fail(NoFractionDigit)
    else Ok(DigitsEnd(s, k + 1), [])
  }

  function ExponentEnd(s: Bytes, k: nat): (r: Parsed<nat>)
    requires k <= |s|
    ensures r.Ok? ==> k <= r.value <= |s|
  {
    if At(s, k) != 'e' && At(s, k) != 'E' then Ok(k, [])
    else
      var j := if At(s, k + 1) == '+' || At(s, k + 1) == '-' then k + 2 else k + 1;
      if !IsDigit(At(s, j)) then Fail(NoExponentDigit)
      else Ok(DigitsEnd(s, j), [])
  }

  function TailEnd(s: Bytes, k: nat): (r: Parsed<nat>)
    requires k <= |s|
    ensures r.Ok? ==> k <= r.value <= |s|
  {
    var (f, _) :- FractionEnd(s, k);
    ExponentEnd(s, f)
  }

  /** Where a number ends, and whether it is a short integer. */
  function NumberEnd(s: Bytes): (r: Parsed<(nat, bool)>)
    ensures r.Ok? ==> 1 <= r.value.0 <= |s|
    ensures r.Ok? && r.value.1 ==> r.value.0 <= 9 && WholeEnd(s) == Ok(r.value.0, [])
  {
    var (k, _) :- WholeEnd(s);
    if At(s, k) != '.' && At(s, k) != 'e' && At(s, k) != 'E' && k <= 9 then Ok((k, true), [])
    else
      var (e, _) :- TailEnd(s, k);
      Ok((e, false), [])
  }

  /** Short integers become ints, everything else goes through `strtod`. */
  function ParseNumber(p: Platform, s: Bytes): (r: Parsed<Json>)
    ensures r.Ok? ==> |r.rest| < |s|
  {
    var (n, _) :- NumberEnd(s);
    Ok(NumberOf(p, s, n.0, n.1), s[n.0..])
  }

  function NumberOf(p: Platform, s: Bytes, k: nat, short: bool): Json
    requires k <= |s| && (short ==> k <= 9 && WholeEnd(s) == Ok(k, []))
  {
    if short then
      WholeIsInteger(s);
      ShortInt(s[..k])
    else Dbl(p.strtod(s[..k]))
  }

  // ----- Values -----

  /** `data[key] = value` on a `std::map`. */
  function Insert(ms: seq<Member>, key: Bytes, value: Json): seq<Member> {
    if ms == [] || LessBytes(key, ms[0].key) then [Member(key, value)] + ms
    else if key == ms[0].key then [Member(key, value)] + ms[1..]
    else [ms[0]] + Insert(ms[1..], key, value)
  }

  function ExpectWord(s: Bytes, word: Bytes, value: Json): (r: Parsed<Json>)
    requires word != []
    ensures r.Ok? ==> |r.rest| < |s|
  {
    if word <= s then Ok(value, s[|word|..])
    else Fail(Expected(word, if |s| < |word| then s else s[..|word|]))
  }

  function ParseValue(d: Dialect, s: Bytes, depth: nat): (r: Parsed<Json>)
    ensures r.Ok? ==> |r.rest| < |s|
    decreases |s|, 0
  {
    if depth > MAX_DEPTH then Fail(TooDeep)
    else
      var (ch, t) :- NextToken(d.strategy, s);
      if ch == '-' || IsDigit(ch) then ParseNumber(d.platform, t)
      else if ch == 't' then ExpectWord(t, "true", Bool(true))
      else if ch == 'f' then ExpectWord(t, "false", Bool(false))
      else if ch == 'n' then ExpectWord(t, "null", Null)
      else if ch == '"' then ParseText(t[1..])
      else if ch == '{' then AfterBrace(d, t[1..], depth)
      else if ch == '[' then AfterBracket(d, t[1..], depth)
      else Fail(ExpectedValue(ch))
  }

  function ParseText(s: Bytes): (r: Parsed<Json>)
    ensures r.Ok? ==> |r.rest| < |s|
  {
    var (text, rest) :- ParseString(s, Nothing, []);
    Ok(Str(text), rest)
  }

  function AfterBracket(d: Dialect, s: Bytes, depth: nat): (r: Parsed<Json>)
    ensures r.Ok? ==> |r.rest| < |s|
    decreases |s|, 3
  {
    var (c, u) :- NextToken(d.strategy, s);
    if c == ']' then Ok(Arr([]), u[1..]) else ParseItems(d, u, depth, [])
  }

  /** The items of a list from the first token of an item on. */
  function ParseItems(d: Dialect, s: Bytes, depth: nat, data: seq<Json>): (r: Parsed<Json>)
    ensures r.Ok? ==> |r.rest| < |s|
    decreases |s|, 1
  {
    var (item, t) :- ParseValue(d, s, depth + 1);
    AfterItem(d, t, depth, data + [item])
  }

  function AfterItem(d: Dialect, s: Bytes, depth: nat, data: seq<Json>): (r: Parsed<Json>)
    ensures r.Ok? ==> |r.rest| < |s|
    decreases |s|, 3
  {
    var (closed, t) :- Separator(d, s, ']');
    if closed then Ok(Arr(data), t) else ParseItems(d, t, depth, data)
  }

  /** What stands after an element: the closing token, which is read, or a comma and
      the next token, which is left unread. */
  function Separator(d: Dialect, s: Bytes, close: Byte): (r: Parsed<bool>)
    ensures r.Ok? ==> |r.rest| < |s|
  {
    var (c, u) :- NextToken(d.strategy, s);
    if c == close then Ok(true, u[1..])
    else if c != ',' then Fail(if close == '}' then ExpectedObjectComma(c) else ExpectedListComma(c))
    else
      var (_, w) :- NextToken(d.strategy, u[1..]);
      Ok(false, w)
  }

  function AfterBrace(d: Dialect, s: Bytes, depth: nat): (r: Parsed<Json>)
    ensures r.Ok? ==> |r.rest| < |s|
    decreases |s|, 3
  {
    var (c, u) :- NextToken(d.strategy, s);
    if c == '}' then Ok(Obj([]), u[1..]) else ParseMembers(d, u, depth, [])
  }

  /** The members of an object from the first token of a key on. */
  function ParseMembers(d: Dialect, s: Bytes, depth: nat, data: seq<Member>): (r: Parsed<Json>)
    ensures r.Ok? ==> |r.rest| < |s|
    decreases |s|, 2
  {
    var (m, x) :- ParseMember(d, s, depth);
    AfterMember(d, x, depth, Insert(data, m.key, m.value))
  }

  function ParseMember(d: Dialect, s: Bytes, depth: nat): (r: Parsed<Member>)
    ensures r.Ok? ==> |r.rest| < |s|
    decreases |s|, 1
  {
    var (key, t) :- ParseKey(d, s);
    var (value, x) :- ParseValue(d, t, depth + 1);
    Ok(Member(key, value), x)
  }

  /** A key with its colon. */
  function ParseKey(d: Dialect, s: Bytes): (r: Parsed<Bytes>)
    ensures r.Ok? ==> |r.rest| < |s|
  {
    if At(s, 0) != '"' then Fail(ExpectedKey(At(s, 0)))
    else
      var (key, t) :- ParseString(s[1..], Nothing, []);
      var (c, u) :- NextToken(d.strategy, t);
      if c != ':' then Fail(ExpectedColon(c)) else Ok(key, u[1..])
  }

  function AfterMember(d: Dialect, s: Bytes, depth: nat, data: seq<Member>): (r: Parsed<Json>)
    ensures r.Ok? ==> |r.rest| < |s|
    decreases |s|, 3
  {
    var (closed, t) :- Separator(d, s, '}');
    if closed then Ok(Obj(data), t) else ParseMembers(d, t, depth, data)
  }

  // ----- Whole texts -----

  /** `Json::parse`: one value, then nothing but layout. */
  function ParseDocument(d: Dialect, s: Bytes): Parsed<Json> {
    var (v, t) :- ParseValue(d, s, 0);
    var (_, u) :- SkipGarbage(d.strategy, t);
    if u != [] then Fail(Trailing(u[0])) else Ok(v, [])
  }

  /** What a value that could not be read is returned as: null, or an empty string when
      the failure is inside or after an opening quote. */
  function Unread(d: Dialect, s: Bytes, depth: nat): Json {
    var n := NextToken(d.strategy, s);
    if depth <= MAX_DEPTH && n.Ok? && n.value == '"' then Str([]) else Null
  }

  /** What `Json::parse_multi` returns: the values, the text after the stop position,
      and the error if there was one. A value that could not be read is still listed. */
  datatype Many = Many(values: seq<Json>, rest: Bytes, failure: Option<Error>)

  function ParseMany(d: Dialect, s: Bytes, values: seq<Json>): (m: Many)
    ensures |m.rest| <= |s|
    decreases |s|
  {
    if s == [] then Many(values, [], None)
    else match ParseValue(d, s, 0)
      case Fail(e) => Many(values + [Unread(d, s, 0)], s, Some(e))
      case Ok(v, t) =>
        match SkipGarbage(d.strategy, t)
        case Fail(e) => Many(values + [v], s, Some(e))
        case Ok(_, u) => ParseMany(d, u, values + [v])
  }
}
