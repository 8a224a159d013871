/** The inverse of laying out: what the parser skips is layout, and what it reads is laid
    out behind it. */
module JsonCovers {
  import opened Common
  import opened JsonValue
  import opened JsonText
  import opened JsonGrammar
  import opened JsonLayout

  // ----- What the parser skips is filler -----

  lemma {:induction false} FillAppend(fs: seq<Filler>, gs: seq<Filler>)
    ensures FillText(fs + gs) == FillText(fs) + FillText(gs)
  {
    hide FillText, Filler.Text;
    if fs == [] {
      FillNothing();
      assert fs + gs == gs;
      assert [] + FillText(gs) == FillText(gs);
    } else {
      var tail := fs[1..];
      FillAppend(tail, gs);
      assert fs == [fs[0]] + tail;
      Associate([fs[0]], tail, gs);
      FillHead(fs[0], tail + gs);
      FillHead(fs[0], tail);
      Associate(fs[0].Text(), FillText(tail), FillText(gs));
    }
  }

  lemma {:induction false} WhitespaceIsFill(strategy: Strategy, s: Bytes) returns (fs: seq<Filler>)
    ensures ValidFill(strategy, fs) && s == FillText(fs) + SkipWhitespace(s)
  {
    fs := [];
    if s != [] && IsWhitespace(s[0]) {
      var gs := WhitespaceIsFill(strategy, s[1..]);
      fs := PrependFiller(strategy, Blank(s[0]), gs, s, s[1..], SkipWhitespace(s));
    }
  }

  lemma PrependFiller(strategy: Strategy, f: Filler, gs: seq<Filler>, s: Bytes, u: Bytes, rest: Bytes)
    returns (fs: seq<Filler>)
    requires f.Valid(strategy) && ValidFill(strategy, gs) && s == f.Text() + u && u == FillText(gs) + rest
    ensures ValidFill(strategy, fs) && s == FillText(fs) + rest
  {
    fs := [f] + gs;
    assert fs[1..] == gs;
    Associate(f.Text(), FillText(gs), rest);
  }

  lemma {:induction false} LineIsFiller(s: Bytes) returns (body: Bytes)
    ensures s == body + LineEnd(s) && forall k :: 0 <= k < |body| ==> body[k] != '\n'
    ensures LineEnd(s) != [] ==> LineEnd(s)[0] == '\n'
  {
    body := [];
    if s != [] && s[0] != '\n' {
      var b := LineIsFiller(s[1..]);
      body := [s[0]] + b;
      Associate([s[0]], b, LineEnd(s));
    }
  }

  lemma {:induction false} BlockIsFiller(s: Bytes) returns (body: Bytes)
    requires BlockEnd(s).Ok?
    ensures NoClosing(body) && s == body + ("*/" + BlockEnd(s).rest)
    ensures body != [] ==> body[0] == s[0]
  {
    if s[0] == '*' && s[1] == '/' {
      body := [];
    } else {
      var b := BlockIsFiller(s[1..]);
      body := [s[0]] + b;
      assert s == body + ("*/" + BlockEnd(s).rest);
    }
  }

  /** The layout that is skipped is a sequence of fillers, except that a line comment
      may run to the end. */
  lemma {:induction false} GarbageIsFill(strategy: Strategy, s: Bytes) returns (fs: seq<Filler>, t: Bytes)
    requires SkipGarbage(strategy, s).Ok?
    ensures Fills(strategy, s, fs, t, SkipGarbage(strategy, s).rest)
    decreases |s|, 2
  {
    fs := WhitespaceIsFill(strategy, s);
    t := SkipWhitespace(s);
    if strategy.Comments? && t != [] && t[0] == '/' {
      var gs;
      gs, t := CommentIsFill(strategy, t);
      FillAppend(fs, gs);
      Associate(FillText(fs), FillText(gs), t);
      fs := fs + gs;
    }
  }

  /** The fillers and the text that remains, of a text that is skipped up to `rest`. */
  ghost predicate Fills(strategy: Strategy, s: Bytes, fs: seq<Filler>, t: Bytes, rest: Bytes) {
    ValidFill(strategy, fs) && s == FillText(fs) + t && (t == rest || (rest == [] && OpenLine(strategy, t)))
  }

  lemma {:induction false} CommentIsFill(strategy: Strategy, s: Bytes) returns (fs: seq<Filler>, t: Bytes)
    requires strategy.Comments? && s != [] && s[0] == '/' && SkipComment(s).Ok?
    requires SkipGarbage(strategy, SkipComment(s).rest).Ok?
    ensures Fills(strategy, s, fs, t, SkipGarbage(strategy, SkipComment(s).rest).rest)
    decreases |s|, 1
  {
    if s[1] == '*' {
      var body := BlockOf(s);
      fs, t := BlockIsFill(strategy, s, body);
    } else {
      var body := LineIsFiller(s[2..]);
      fs, t := LineIsFill(strategy, s, body);
    }
  }

  lemma BlockOf(s: Bytes) returns (body: Bytes)
    requires "/*" <= s && BlockEnd(s[2..]).Ok?
    ensures NoClosing(body) && s == Block(body).Text() + BlockEnd(s[2..]).rest
  {
    body := BlockIsFiller(s[2..]);
    assert s == "/*" + s[2..];
    Associate4("/*", body, "*/", BlockEnd(s[2..]).rest);
  }

  lemma {:induction false} BlockIsFill(strategy: Strategy, s: Bytes, body: Bytes) returns (fs: seq<Filler>, t: Bytes)
    requires strategy.Comments? && "/*" <= s && SkipComment(s).Ok? && NoClosing(body)
    requires SkipGarbage(strategy, SkipComment(s).rest).Ok? && s == Block(body).Text() + SkipComment(s).rest
    ensures Fills(strategy, s, fs, t, SkipGarbage(strategy, SkipComment(s).rest).rest)
    decreases |s|, 0
  {
    hide SkipGarbage, SkipComment, FillText, Filler.Text, OpenLine;
    var u := SkipComment(s).rest;
    var gs;
    gs, t := GarbageIsFill(strategy, u);
    fs := PrependFiller(strategy, Block(body), gs, s, u, t);
  }

  lemma {:induction false} LineIsFill(strategy: Strategy, s: Bytes, body: Bytes) returns (fs: seq<Filler>, t: Bytes)
    requires strategy.Comments? && "//" <= s && SkipComment(s).Ok?
    requires SkipGarbage(strategy, SkipComment(s).rest).Ok?
    requires s[2..] == body + SkipComment(s).rest && forall k :: 0 <= k < |body| ==> body[k] != '\n'
    requires SkipComment(s).rest != [] ==> SkipComment(s).rest[0] == '\n'
    ensures Fills(strategy, s, fs, t, SkipGarbage(strategy, SkipComment(s).rest).rest)
    decreases |s|, 0
  {
    var u := SkipComment(s).rest;
    assert s == "//" + s[2..];
    if u == [] {
      assert s[2..] == body;
      fs, t := [], s;
    } else {
      var v := u[1..];
      assert u == ['\n'] + v;
      BlankSkipped(strategy, '\n', v);
      assert s == Line(body).Text() + v by {
        Associate4("//", body, ['\n'], v);
      }
      hide SkipGarbage, SkipComment, FillText, Filler.Text, OpenLine;
      var gs;
      gs, t := GarbageIsFill(strategy, v);
      fs := PrependFiller(strategy, Line(body), gs, s, v, t);
    }
  }

  /** Whatever is laid out behind `rest` is laid out behind `s` after the tokens. */
  ghost predicate Covers(strategy: Strategy, s: Bytes, rest: Bytes, tokens: seq<Bytes>) {
    forall more :: IsLayout(strategy, rest, more) ==> IsLayout(strategy, s, tokens + more)
  }

  lemma CoversTrans(strategy: Strategy, s: Bytes, t: Bytes, rest: Bytes, a: seq<Bytes>, b: seq<Bytes>)
    requires Covers(strategy, s, t, a) && Covers(strategy, t, rest, b)
    ensures Covers(strategy, s, rest, a + b)
  {
    hide IsLayout;
    forall more | IsLayout(strategy, rest, more) ensures IsLayout(strategy, s, a + b + more) {
      Associate(a, b, more);
      assert IsLayout(strategy, t, b + more);
    }
  }

  /** What is skipped in front of a token. */
  lemma NextIsFill(strategy: Strategy, s: Bytes) returns (fs: seq<Filler>)
    requires NextToken(strategy, s).Ok?
    ensures ValidFill(strategy, fs) && s == FillText(fs) + NextToken(strategy, s).rest
  {
    hide SkipGarbage, FillText, OpenLine, ValidFill;
    var t;
    fs, t := GarbageIsFill(strategy, s);
  }

  /** Skipping to a token, and reading it. */
  lemma NextCovers(strategy: Strategy, s: Bytes)
    requires NextToken(strategy, s).Ok?
    ensures Covers(strategy, s, NextToken(strategy, s).rest, [])
  {
    var u := NextToken(strategy, s).rest;
    var fs := NextIsFill(strategy, s);
    hide IsLayout, NextToken, FillText, ValidFill;
    forall more | IsLayout(strategy, u, more) ensures IsLayout(strategy, s, [] + more) {
      FillBefore(strategy, fs, u, more);
      assert [] + more == more;
    }
  }

  lemma FillBefore(strategy: Strategy, fs: seq<Filler>, text: Bytes, tokens: seq<Bytes>)
    requires ValidFill(strategy, fs) && IsLayout(strategy, text, tokens)
    ensures IsLayout(strategy, FillText(fs) + text, tokens)
  {
    hide IsLayout, StartsTokens, FillText;
    var gs, rest := TakeFill(strategy, text, tokens);
    FillAppend(fs, gs);
    Associate(FillText(fs), FillText(gs), rest);
    PutFill(strategy, fs + gs, rest, tokens);
  }

  lemma TokenCovers(strategy: Strategy, s: Bytes, token: Bytes, rest: Bytes)
    requires NextToken(strategy, s).Ok? && NextToken(strategy, s).rest == token + rest
    ensures Covers(strategy, s, rest, [token])
  {
    NextCovers(strategy, s);
    hide IsLayout, NextToken;
    forall more | IsLayout(strategy, rest, more) ensures IsLayout(strategy, s, [token] + more) {
      TokenBefore(strategy, token, rest, more);
      assert [] + ([token] + more) == [token] + more;
    }
  }

  /** At the end only layout is left. */
  lemma EndIsLayout(strategy: Strategy, s: Bytes)
    requires SkipGarbage(strategy, s) == Ok((), [])
    ensures IsLayout(strategy, s, [])
  {
    var fs, t := GarbageIsFill(strategy, s);
    assert StartsTokens(strategy, t, []);
  }
}
