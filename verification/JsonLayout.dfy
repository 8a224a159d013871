/** Texts that carry the same tokens with different layout between them. */
module JsonLayout {
  import opened Common
  import opened JsonValue
  import opened JsonText
  import opened JsonGrammar
  import opened JsonNumbers

  /** What may stand between two tokens. */
  datatype Filler = Blank(c: Byte) | Line(body: Bytes) | Block(body: Bytes) {
    ghost predicate Valid(strategy: Strategy) {
      match this
      case Blank(c) => IsWhitespace(c)
      case Line(body) => strategy.Comments? && forall k :: 0 <= k < |body| ==> body[k] != '\n'
      case Block(body) => strategy.Comments? && NoClosing(body)
    }

    function Text(): (t: Bytes)
      ensures t != []
    {
      match this
      case Blank(c) => [c]
      case Line(body) => "//" + body + "\n"
      case Block(body) => "/*" + body + "*/"
    }
  }

  /** The closing token does not occur inside. */
  ghost predicate NoClosing(body: Bytes) {
    forall k :: 0 <= k < |body| - 1 ==> !(body[k] == '*' && body[k + 1] == '/')
  }

  ghost predicate ValidFill(strategy: Strategy, fs: seq<Filler>) {
    forall k :: 0 <= k < |fs| ==> fs[k].Valid(strategy)
  }

  function FillText(fs: seq<Filler>): Bytes {
    if fs == [] then [] else fs[0].Text() + FillText(fs[1..])
  }

  /** A line comment that runs to the end of the text. */
  ghost predicate OpenLine(strategy: Strategy, text: Bytes) {
    strategy.Comments? && "//" <= text && forall k :: 0 <= k < |text| ==> text[k] != '\n'
  }

  /** The text consists of the tokens, with filler before each and after the last, and
      possibly a line comment without line break at its end. */
  ghost predicate IsLayout(strategy: Strategy, text: Bytes, tokens: seq<Bytes>)
    decreases |tokens|
  {
    exists fs: seq<Filler>, rest: Bytes | ValidFill(strategy, fs) && text == FillText(fs) + rest ::
      StartsTokens(strategy, rest, tokens)
  }

  /** The same, with nothing before the first token. */
  ghost predicate StartsTokens(strategy: Strategy, text: Bytes, tokens: seq<Bytes>)
    decreases |tokens|, 0
  {
    if tokens == [] then text == [] || OpenLine(strategy, text)
    else tokens[0] <= text && IsLayout(strategy, text[|tokens[0]|..], tokens[1..])
  }

  // ----- The parser skips filler -----

  lemma {:induction false} LineSkipped(body: Bytes, s: Bytes)
    requires forall k :: 0 <= k < |body| ==> body[k] != '\n'
    ensures LineEnd(body + (['\n'] + s)) == ['\n'] + s
  {
    if body != [] {
      LineSkipped(body[1..], s);
      assert (body + (['\n'] + s))[1..] == body[1..] + (['\n'] + s);
    } else {
      assert body + (['\n'] + s) == ['\n'] + s;
    }
  }

  lemma {:induction false} BlockSkipped(body: Bytes, s: Bytes)
    requires NoClosing(body)
    ensures BlockEnd(body + (['*', '/'] + s)) == Ok((), s)
  {
    var t := body + (['*', '/'] + s);
    if body != [] {
      assert NoClosing(body[1..]);
      BlockSkipped(body[1..], s);
      assert t[1..] == body[1..] + (['*', '/'] + s);
      assert !(t[0] == '*' && t[1] == '/');
    } else {
      assert t[2..] == s;
    }
  }

  lemma LineFillerSkipped(body: Bytes, s: Bytes)
    requires forall k :: 0 <= k < |body| ==> body[k] != '\n'
    ensures var t := Line(body).Text() + s; t[0] == '/' && SkipComment(t) == Ok((), ['\n'] + s)
  {
    var t := Line(body).Text() + s;
    LineSkipped(body, s);
    assert t[2..] == body + (['\n'] + s);
  }

  lemma BlockFillerSkipped(body: Bytes, s: Bytes)
    requires NoClosing(body)
    ensures var t := Block(body).Text() + s; t[0] == '/' && SkipComment(t) == Ok((), s)
  {
    var t := Block(body).Text() + s;
    BlockSkipped(body, s);
    hide BlockEnd, NoClosing;
    assert t[2..] == body + (['*', '/'] + s);
  }

  lemma BlankSkipped(strategy: Strategy, c: Byte, s: Bytes)
    requires IsWhitespace(c)
    ensures SkipGarbage(strategy, [c] + s) == SkipGarbage(strategy, s)
  {
    assert ([c] + s)[1..] == s;
  }

  lemma FillerSkipped(strategy: Strategy, f: Filler, s: Bytes)
    requires f.Valid(strategy)
    ensures SkipGarbage(strategy, f.Text() + s) == SkipGarbage(strategy, s)
  {
    match f
    case Blank(c) =>
      BlankSkipped(strategy, c, s);
    case Line(body) =>
      LineFillerSkipped(body, s);
      BlankSkipped(strategy, '\n', s);
    case Block(body) =>
      BlockFillerSkipped(body, s);
  }

  lemma FillNothing()
    ensures FillText([]) == []
  {
  }

  lemma FillHead(f: Filler, fs: seq<Filler>)
    ensures FillText([f] + fs) == f.Text() + FillText(fs)
  {
    assert ([f] + fs)[1..] == fs;
  }

  lemma {:induction false} FillSkipped(strategy: Strategy, fs: seq<Filler>, s: Bytes)
    requires ValidFill(strategy, fs)
    ensures SkipGarbage(strategy, FillText(fs) + s) == SkipGarbage(strategy, s)
  {
    hide FillText, Filler.Text, SkipGarbage, Filler.Valid;
    if fs == [] {
      FillNothing();
      assert [] + s == s;
    } else {
      var f, tail := fs[0], fs[1..];
      FillSkipped(strategy, tail, s);
      FillerSkipped(strategy, f, FillText(tail) + s);
      assert fs == [f] + tail;
      FillHead(f, tail);
      Associate(f.Text(), FillText(tail), s);
    }
  }

  // ----- Taking a token -----

  /** A text no filler can start with. */
  predicate IsSolid(s: Bytes) {
    s != [] && !IsWhitespace(s[0]) && s[0] != '/'
  }

  /** The next token of a laid-out text is its first token. */
  lemma NextOfLayout(strategy: Strategy, text: Bytes, tokens: seq<Bytes>) returns (t: Bytes)
    requires IsLayout(strategy, text, tokens) && tokens != [] && IsSolid(tokens[0])
    ensures NextToken(strategy, text) == Ok(tokens[0][0], t)
    ensures StartsTokens(strategy, t, tokens) && t[0] == tokens[0][0]
  {
    var fs: seq<Filler>, rest: Bytes :| ValidFill(strategy, fs) && text == FillText(fs) + rest && StartsTokens(strategy, rest, tokens);
    FillSkipped(strategy, fs, rest);
    t := rest;
  }

  lemma EndOfLayout(strategy: Strategy, text: Bytes)
    requires IsLayout(strategy, text, [])
    ensures SkipGarbage(strategy, text) == Ok((), [])
  {
    var fs: seq<Filler>, rest: Bytes :| ValidFill(strategy, fs) && text == FillText(fs) + rest && StartsTokens(strategy, rest, []);
    FillSkipped(strategy, fs, rest);
    EndSkipped(strategy, rest);
  }

  lemma EndSkipped(strategy: Strategy, s: Bytes)
    requires s == [] || OpenLine(strategy, s)
    ensures SkipGarbage(strategy, s) == Ok((), [])
  {
    if s != [] {
      OpenLineSkipped(s[2..]);
      assert SkipComment(s) == Ok((), []);
    }
  }

  lemma {:induction false} OpenLineSkipped(body: Bytes)
    requires forall k :: 0 <= k < |body| ==> body[k] != '\n'
    ensures LineEnd(body) == []
  {
    if body != [] { OpenLineSkipped(body[1..]); }
  }

  /** A text that starts with its first token is laid out too. */
  lemma StartedIsLayout(strategy: Strategy, text: Bytes, tokens: seq<Bytes>)
    requires StartsTokens(strategy, text, tokens)
    ensures IsLayout(strategy, text, tokens)
  {
    assert ValidFill(strategy, []) && text == FillText([]) + text;
  }

  lemma BlankFill(strategy: Strategy, fs: seq<Filler>)
    requires ValidFill(strategy, fs)
    ensures ValidFill(strategy, [Blank(' ')] + fs) && FillText([Blank(' ')] + fs) == [' '] + FillText(fs)
  {
    assert ([Blank(' ')] + fs)[1..] == fs;
  }

  lemma TakeFill(strategy: Strategy, text: Bytes, tokens: seq<Bytes>) returns (fs: seq<Filler>, rest: Bytes)
    requires IsLayout(strategy, text, tokens)
    ensures ValidFill(strategy, fs) && text == FillText(fs) + rest && StartsTokens(strategy, rest, tokens)
  {
    fs, rest :| ValidFill(strategy, fs) && text == FillText(fs) + rest && StartsTokens(strategy, rest, tokens);
  }

  lemma PutFill(strategy: Strategy, fs: seq<Filler>, rest: Bytes, tokens: seq<Bytes>)
    requires ValidFill(strategy, fs) && StartsTokens(strategy, rest, tokens)
    ensures IsLayout(strategy, FillText(fs) + rest, tokens)
  {
  }

  /** A blank before a laid-out text. */
  lemma BlankBefore(strategy: Strategy, text: Bytes, tokens: seq<Bytes>)
    requires IsLayout(strategy, text, tokens)
    ensures IsLayout(strategy, [' '] + text, tokens)
  {
    hide IsLayout, StartsTokens, FillText, ValidFill;
    var fs, rest := TakeFill(strategy, text, tokens);
    BlankFill(strategy, fs);
    PutFill(strategy, [Blank(' ')] + fs, rest, tokens);
    assert [' '] + text == [' '] + FillText(fs) + rest;
  }

  /** A token before a laid-out text. */
  lemma TokenBefore(strategy: Strategy, token: Bytes, text: Bytes, tokens: seq<Bytes>)
    requires IsLayout(strategy, text, tokens)
    ensures IsLayout(strategy, token + text, [token] + tokens)
  {
    var s, ts := token + text, [token] + tokens;
    assert s[|token|..] == text && ts[1..] == tokens;
    assert ts[0] <= s;
    StartedIsLayout(strategy, s, ts);
  }

  predicate IsPunctuation(token: Bytes) {
    token == "," || token == ":" || token == "]" || token == "}"
  }

  lemma FillerHead(strategy: Strategy, f: Filler)
    requires f.Valid(strategy)
    ensures EndsNumber(f.Text())
  {
  }

  /** Nothing that continues a number follows a value. */
  lemma LayoutEndsNumber(strategy: Strategy, text: Bytes, tokens: seq<Bytes>)
    requires IsLayout(strategy, text, tokens) && (tokens == [] || IsPunctuation(tokens[0]))
    ensures EndsNumber(text)
  {
    var fs: seq<Filler>, rest: Bytes :| ValidFill(strategy, fs) && text == FillText(fs) + rest && StartsTokens(strategy, rest, tokens);
    if fs == [] {
      assert text == rest;
    } else {
      FillerHead(strategy, fs[0]);
      assert At(text, 0) == At(fs[0].Text(), 0);
    }
  }
}
