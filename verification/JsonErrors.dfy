/** Which error the parser reports: for strings exactly, for numbers, words, comments and
    structure by the text that causes it. */
module JsonErrors {
  import opened Common
  import opened JsonValue
  import opened JsonText
  import opened JsonGrammar
  import opened JsonNumbers
  import opened JsonEscapes
  import opened JsonTables

  // ----- Strings -----

  /** What stands where a string cannot go on, with the message for it. */
  ghost predicate Faulty(tail: Bytes, e: Error) {
    match e
    case EndInString => tail == [] || tail == "\\"
    case UnescapedInString(c) => tail != [] && tail[0] == c && c as int < 0x20
    case BadUnicodeEscape(h) => "\\u" <= tail && h == (if |tail| < 6 then tail[2..] else tail[2..6]) && !IsHex4(h)
    case InvalidEscape(c) => |tail| >= 2 && tail[0] == '\\' && tail[1] == c && c != 'u' && c !in "\"\\/bfnrt"
    case _ => false
  }

  lemma FaultReported(tail: Bytes, e: Error, pending: Pending, out: Bytes)
    requires Faulty(tail, e) && Small(pending)
    ensures ParseString(tail, pending, out) == Fail(e)
  {
    if e.InvalidEscape? { ShortEscapes(e.c); }
    if e.BadUnicodeEscape? { UnicodeStep(tail, pending, out); }
  }

  lemma {:induction false} PiecesThenFault(ps: seq<Piece>, tail: Bytes, e: Error, pending: Pending, out: Bytes)
    requires Valid(ps) && Faulty(tail, e) && Small(pending)
    ensures ParseString(Text(ps) + tail, pending, out) == Fail(e)
    decreases |ps|
  {
    hide ParseString, Faulty;
    if ps == [] {
      assert Text(ps) + tail == tail;
      FaultReported(tail, e, pending, out);
    } else {
      var p := ps[0];
      Associate(p.Text(), Text(ps[1..]), tail);
      PieceStep(p, Text(ps[1..]) + tail, pending, out);
      PiecesThenFault(ps[1..], tail, e, Next(pending, p.Meaning()), Written(pending, p.Meaning(), out));
    }
  }

  /** The string goes on with a piece, or with what is wrong. */
  lemma PieceOrFault(s: Bytes, pending: Pending, out: Bytes) returns (ps: seq<Piece>, tail: Bytes)
    requires Small(pending) && ParseString(s, pending, out).Fail?
    ensures |ps| <= 1 && Valid(ps) && s == Text(ps) + tail
    ensures ps == [] ==> Faulty(tail, ParseString(s, pending, out).error)
  {
    ps, tail := [], s;
    assert [] + s == s;
    if s != [] && s[0] as int > 0x1F {
      if s[0] != '\\' {
        ps, tail := OnePiece(Raw(s[0]), s);
      } else if |s| > 1 {
        ShortEscapes(s[1]);
        if s[1] == 'u' {
          ps, tail := UnicodeOrFault(s, pending, out);
        } else if IsShortEscape(s[1]) {
          ps, tail := OnePiece(Short(s[1]), s);
        }
      }
    }
  }

  lemma UnicodeOrFault(s: Bytes, pending: Pending, out: Bytes) returns (ps: seq<Piece>, tail: Bytes)
    requires Small(pending) && ParseString(s, pending, out).Fail? && "\\u" <= s
    ensures |ps| <= 1 && Valid(ps) && s == Text(ps) + tail
    ensures ps == [] ==> Faulty(tail, ParseString(s, pending, out).error)
  {
    UnicodeStep(s, pending, out);
    hide ParseString;
    ps, tail := [], s;
    assert [] + s == s;
    if |s| >= 6 && IsHex4(s[2..6]) { ps, tail := OnePiece(Unicode(s[2..6]), s); }
  }

  lemma OnePiece(p: Piece, s: Bytes) returns (ps: seq<Piece>, tail: Bytes)
    requires p.Valid() && p.Text() <= s
    ensures ps == [p] && Valid(ps) && s == Text(ps) + tail && |ps| == 1
  {
    ps, tail := [p], s[|p.Text()|..];
    assert [p][1..] == [] && Text([p]) == p.Text() + [];
    assert p.Text() + [] == p.Text() && s == p.Text() + tail;
  }

  lemma {:induction false} PiecesBeforeFault(s: Bytes, pending: Pending, out: Bytes) returns (ps: seq<Piece>, tail: Bytes)
    requires Small(pending) && ParseString(s, pending, out).Fail?
    ensures Valid(ps) && s == Text(ps) + tail && Faulty(tail, ParseString(s, pending, out).error)
    decreases |s|
  {
    hide ParseString, Faulty;
    ps, tail := PieceOrFault(s, pending, out);
    if ps != [] {
      var p := ps[0];
      assert ps == [p] && ps[1..] == [] && Text(ps) == p.Text() + [] == p.Text();
      PieceStep(p, tail, pending, out);
      var qs, t := PiecesBeforeFault(tail, Next(pending, p.Meaning()), Written(pending, p.Meaning(), out));
      PrependPiece(p, qs, t);
      ps, tail := [p] + qs, t;
    }
  }

  /** A string literal fails with a message exactly when it starts with valid pieces and
      then goes on with the fault that the message names. */
  lemma StringsFail(s: Bytes, e: Error)
    ensures ParseString(s, Nothing, []) == Fail(e)
       <==> exists ps: seq<Piece>, tail: Bytes :: Valid(ps) && Faulty(tail, e) && s == Text(ps) + tail
  {
    hide ParseString, Faulty;
    if ParseString(s, Nothing, []) == Fail(e) {
      var ps, tail := PiecesBeforeFault(s, Nothing, []);
    }
    forall ps: seq<Piece>, tail: Bytes | Valid(ps) && Faulty(tail, e) && s == Text(ps) + tail
      ensures ParseString(s, Nothing, []) == Fail(e)
    {
      PiecesThenFault(ps, tail, e, Nothing, []);
    }
  }

  // ----- Numbers -----

  /** A zero with a digit behind it, and no digit at all; `sign` is empty or a minus. */
  lemma NumbersFail(p: Platform, sign: Bytes, t: Bytes)
    requires sign == [] || sign == "-"
    ensures IsDigit(At(t, 0)) ==> ParseNumber(p, sign + ("0" + t)) == Fail(LeadingZero)
    ensures !IsDigit(At(t, 0)) && (sign == [] ==> At(t, 0) != '-') ==> ParseNumber(p, sign + t) == Fail(InvalidInNumber(At(t, 0)))
  {
    if IsDigit(At(t, 0)) { ZeroThenDigit(p, sign, t); }
    if !IsDigit(At(t, 0)) && (sign == [] ==> At(t, 0) != '-') { SignAlone(p, sign, t); }
    hide ParseNumber, IsDigit;
  }

  /** A point without digit behind a whole number, and an exponent without digit behind
      a whole number and a fraction. */
  lemma TailsFail(p: Platform, w: Bytes, f: Bytes, t: Bytes)
    requires IsWhole(w) && IsFraction(f) && !IsDigit(At(t, 0))
    ensures ParseNumber(p, w + (['.'] + t)) == Fail(NoFractionDigit)
    ensures forall e | e == 'e' || e == 'E' ::
      && (At(t, 0) != '+' && At(t, 0) != '-' ==> ParseNumber(p, w + f + ([e] + t)) == Fail(NoExponentDigit))
      && ParseNumber(p, w + f + ([e, '+'] + t)) == Fail(NoExponentDigit)
      && ParseNumber(p, w + f + ([e, '-'] + t)) == Fail(NoExponentDigit)
  {
    hide IsWhole, IsFraction, ParseNumber, IsDigit;
    PointAlone(p, w, t);
    forall e | e == 'e' || e == 'E'
      ensures At(t, 0) != '+' && At(t, 0) != '-' ==> ParseNumber(p, w + f + ([e] + t)) == Fail(NoExponentDigit)
      ensures ParseNumber(p, w + f + ([e, '+'] + t)) == Fail(NoExponentDigit)
      ensures ParseNumber(p, w + f + ([e, '-'] + t)) == Fail(NoExponentDigit)
    {
      if At(t, 0) != '+' && At(t, 0) != '-' { ExponentAlone(p, w, f, [e] + t); }
      ExponentAlone(p, w, f, [e, '+'] + t);
      ExponentAlone(p, w, f, [e, '-'] + t);
    }
  }

  lemma ZeroThenDigit(p: Platform, sign: Bytes, t: Bytes)
    requires (sign == [] || sign == "-") && IsDigit(At(t, 0))
    ensures ParseNumber(p, sign + ("0" + t)) == Fail(LeadingZero)
  {
    var s := sign + ("0" + t);
    assert At(s, |sign|) == '0' && At(s, |sign| + 1) == At(t, 0);
  }

  lemma SignAlone(p: Platform, sign: Bytes, t: Bytes)
    requires (sign == [] || sign == "-") && !IsDigit(At(t, 0)) && (sign == [] ==> At(t, 0) != '-')
    ensures ParseNumber(p, sign + t) == Fail(InvalidInNumber(At(t, 0)))
  {
    var s := sign + t;
    assert At(s, |sign|) == At(t, 0);
  }

  lemma PointAlone(p: Platform, w: Bytes, t: Bytes)
    requires IsWhole(w) && !IsDigit(At(t, 0))
    ensures ParseNumber(p, w + (['.'] + t)) == Fail(NoFractionDigit)
  {
    var s := w + (['.'] + t);
    ScanWhole(w, ['.'] + t);
    hide IsWhole, WholeEnd;
    assert At(s, |w|) == '.' && At(s, |w| + 1) == At(t, 0);
  }

  /** `x` is an exponent sign, with or without plus or minus, and no digit. */
  lemma ExponentAlone(p: Platform, w: Bytes, f: Bytes, x: Bytes)
    requires IsWhole(w) && IsFraction(f) && x != [] && (x[0] == 'e' || x[0] == 'E')
    requires !IsDigit(At(x, if At(x, 1) == '+' || At(x, 1) == '-' then 2 else 1))
    ensures ParseNumber(p, w + f + x) == Fail(NoExponentDigit)
  {
    var s, k := w + f + x, |w| + |f|;
    Associate(w, f, x);
    FirstOf(f, x);
    ScanWhole(w, f + x);
    ScanFraction(w, f, x);
    AtBehind(w + f, x);
    AtBehind(w, f + x);
    hide IsWhole, IsFraction, WholeEnd, FractionEnd, At;
  }

  lemma AtBehind(a: Bytes, x: Bytes)
    ensures forall k: nat :: At(a + x, |a| + k) == At(x, k)
  {
  }

  lemma FirstOf(f: Bytes, x: Bytes)
    requires IsFraction(f) && x != []
    ensures At(f + x, 0) == if f == [] then x[0] else '.'
  {
  }

  // ----- Words, comments and structure -----

  /** A word that starts right and goes wrong is quoted with as many bytes as it has. */
  lemma WordsFail(d: Dialect, s: Bytes, t: Bytes, depth: nat)
    requires depth <= 200 && NextToken(d.strategy, s).Ok? && NextToken(d.strategy, s).rest == t
    ensures t[0] == 't' && !("true" <= t) ==>
      ParseValue(d, s, depth) == Fail(Expected("true", if |t| < 4 then t else t[..4]))
    ensures t[0] == 'f' && !("false" <= t) ==>
      ParseValue(d, s, depth) == Fail(Expected("false", if |t| < 5 then t else t[..5]))
    ensures t[0] == 'n' && !("null" <= t) ==>
      ParseValue(d, s, depth) == Fail(Expected("null", if |t| < 4 then t else t[..4]))
  {
    hide NextToken, ParseNumber, AfterBrace, AfterBracket, ParseText;
  }

  /** No other byte starts a value. */
  lemma OthersFail(d: Dialect, s: Bytes, t: Bytes, depth: nat)
    requires depth <= 200 && NextToken(d.strategy, s).Ok? && NextToken(d.strategy, s).rest == t
    ensures t[0] !in STARTS ==> ParseValue(d, s, depth) == Fail(ExpectedValue(t[0]))
  {
    if t[0] !in STARTS { NotAStart(t[0]); }
    hide NextToken, ParseNumber, AfterBrace, AfterBracket, ParseText, ExpectWord;
  }

  /** The bytes a value can start with. */
  const STARTS: Bytes := "-0123456789tfn\"{["

  lemma NotAStart(c: Byte)
    requires c !in STARTS
    ensures !IsDigit(c) && c != '-' && c != 't' && c != 'f' && c != 'n' && c != '"' && c != '{' && c != '['
  {
    DecimalDigits(c);
    assert forall k :: 0 <= k < 10 ==> DECIMAL[k] == STARTS[k + 1];
    assert STARTS[0] == '-' && STARTS[11] == 't' && STARTS[12] == 'f' && STARTS[13] == 'n';
    assert STARTS[14] == '"' && STARTS[15] == '{' && STARTS[16] == '[';
  }

  /** A slash alone, a slash before anything else, and a block that is never closed. */
  lemma CommentsFail(s: Bytes)
    ensures SkipGarbage(Comments, ['/']) == Fail(EndAfterSlash)
    ensures s != [] && s[0] != '/' && s[0] != '*' ==> SkipGarbage(Comments, ['/'] + s) == Fail(MalformedComment)
    ensures (forall k :: 0 <= k < |s| - 1 ==> !(s[k] == '*' && s[k + 1] == '/')) ==>
      SkipGarbage(Comments, ['/', '*'] + s) == Fail(EndInBlockComment)
  {
    hide SkipGarbage, BlockEnd;
    SlashFirst(['/']);
    if s != [] && s[0] != '/' && s[0] != '*' { SlashFirst(['/'] + s); }
    if forall k :: 0 <= k < |s| - 1 ==> !(s[k] == '*' && s[k + 1] == '/') {
      NeverClosed(s);
      assert (['/', '*'] + s)[2..] == s;
      SlashFirst(['/', '*'] + s);
    }
  }

  lemma SlashFirst(t: Bytes)
    requires t != [] && t[0] == '/' && SkipComment(t).Fail?
    ensures SkipGarbage(Comments, t) == Fail(SkipComment(t).error)
  {
    hide SkipComment;
    assert SkipWhitespace(t) == t;
  }

  lemma {:induction false} NeverClosed(s: Bytes)
    requires forall k :: 0 <= k < |s| - 1 ==> !(s[k] == '*' && s[k + 1] == '/')
    ensures BlockEnd(s) == Fail(EndInBlockComment)
    decreases |s|
  {
    if |s| >= 2 {
      assert !(s[0] == '*' && s[1] == '/');
      forall k | 0 <= k < |s[1..]| - 1 ensures !(s[1..][k] == '*' && s[1..][k + 1] == '/') {
        assert s[1..][k] == s[k + 1] && s[1..][k + 1] == s[k + 2];
      }
      NeverClosed(s[1..]);
    }
  }

  /** A string body ends in front of `rest`. */
  ghost predicate ParsesTo(s: Bytes, rest: Bytes) {
    ParseString(s, Nothing, []).Ok? && ParseString(s, Nothing, []).rest == rest
  }

  /** What is missing between elements, in front of a key, and between key and value;
      the end of the text, and what stands behind a value. */
  lemma StructureFails(d: Dialect, s: Bytes, key: Bytes, rest: Bytes)
    ensures var n := NextToken(d.strategy, s);
      && (n.Ok? && n.value != ',' && n.value != ']' ==> Separator(d, s, ']') == Fail(ExpectedListComma(n.value)))
      && (n.Ok? && n.value != ',' && n.value != '}' ==> Separator(d, s, '}') == Fail(ExpectedObjectComma(n.value)))
      && (s != [] && s[0] != '"' ==> ParseKey(d, s) == Fail(ExpectedKey(s[0])))
      && (SkipGarbage(d.strategy, s) == Ok((), []) ==> n == Fail(UnexpectedEnd))
    ensures var n := NextToken(d.strategy, rest);
      s == ['"'] + key && ParsesTo(key, rest) && n.Ok? && n.value != ':' ==> ParseKey(d, s) == Fail(ExpectedColon(n.value))
    ensures var r := ParseValue(d, s, 0);
      r.Ok? && SkipGarbage(d.strategy, r.rest).Ok? && SkipGarbage(d.strategy, r.rest).rest != [] ==>
        ParseDocument(d, s) == Fail(Trailing(SkipGarbage(d.strategy, r.rest).rest[0]))
  {
    hide ParseValue, ParseString, SkipGarbage;
    if s == ['"'] + key { assert s[1..] == key; }
  }

  /** A failing text gives `Json::parse_multi` one more element: an empty string where a
      quote was open, null otherwise. */
  lemma UnreadIsListed(d: Dialect, s: Bytes, t: Bytes, values: seq<Json>)
    requires s != [] && NextToken(d.strategy, s).Ok? && NextToken(d.strategy, s).rest == t && ParseValue(d, s, 0).Fail?
    ensures ParseMany(d, s, values).values == values + [if t[0] == '"' then Str([]) else Null]
    ensures ParseMany(d, s, values).rest == s && ParseMany(d, s, values).failure == Some(ParseValue(d, s, 0).error)
  {
    hide ParseValue, NextToken;
  }
}
