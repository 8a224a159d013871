/** The parser object: a cursor into the text, a sticky error, and methods that
    advance the one and may set the other. */
module JsonParser {
  import opened Common
  import opened JsonValue
  import opened JsonText
  import opened JsonGrammar

  /** The code point the source keeps in a `long`, with -1 for none. */
  function PendingOf(last: int): Pending
    requires last < 0x10000
  {
    if last < 0 then Nothing else Escaped(last)
  }

  /** The error part of the parser's state. */
  datatype State = State(err: Error, failed: bool)

  class JsonParser {
    const str: Bytes
    const d: Dialect
    var i: nat
    var err: Error
    var failed: bool

    constructor (str: Bytes, d: Dialect, err: Error)
      ensures this.str == str && this.d == d && this.err == err && i == 0 && !failed
    {
      this.str, this.d, this.err := str, d, err;
      i, failed := 0, false;
    }

    /** A method did what the grammar says of the input it found unread. Once failed,
        always failed, with the first message and the method's neutral result; the
        cursor never moves back before `low` and never leaves the text. */
    ghost predicate Follows<T>(before: State, low: int, r: T, neutral: T, expected: Parsed<T>)
      reads this
    {
      && low <= i <= |str|
      && if before.failed then failed && err == before.err && r == neutral
         else match expected
           case Ok(v, rest) => !failed && err == before.err && r == v && str[i..] == rest
           case Fail(e) => failed && err == e && r == neutral
    }

    ghost function Now(): State
      reads this
    {
      State(err, failed)
    }

    /** Stores a message unless one is stored already. */
    method Fail(msg: Error)
      modifies this
      ensures failed && i == old(i)
      ensures err == if old(failed) then old(err) else msg
    {
      if !failed { err := msg; }
      failed := true;
    }

    method ConsumeWhitespace()
      requires i <= |str|
      modifies this`i
      ensures old(i) <= i <= |str|
      ensures str[i..] == SkipWhitespace(str[old(i)..])
    {
      while IsWhitespace(At(str, i))
        invariant old(i) <= i <= |str|
        invariant SkipWhitespace(str[i..]) == SkipWhitespace(str[old(i)..])
        decreases |str| - i
      {
        assert str[i..][1..] == str[i + 1..];
        i := i + 1;
      }
    }

    method ConsumeComment() returns (found: bool)
      requires i <= |str|
      modifies this
      ensures At(str, old(i)) != '/' ==> !found && i == old(i) && Now() == old(Now())
      ensures At(str, old(i)) == '/' ==>
          && old(i) < i <= |str|
          && CommentRead(old(Now()), found, SkipComment(str[old(i)..]))
    {
      found := false;
      if At(str, i) == '/' {
        ghost var s := str[i..];
        i := i + 1;
        if i == |str| {
          Fail(EndAfterSlash);
          return;
        }
        assert s[1] == str[i] && s[2..] == str[i + 1..];
        if str[i] == '/' {
          i := i + 1;
          ConsumeLine();
          found := true;
        } else if str[i] == '*' {
          i := i + 1;
          found := ConsumeBlock();
        } else {
          Fail(MalformedComment);
        }
      }
    }

    ghost predicate CommentRead(before: State, found: bool, expected: Parsed<()>)
      requires i <= |str|
      reads this
    {
      match expected
      case Ok(_, rest) => found && Now() == before && str[i..] == rest
      case Fail(e) => !found && failed && err == if before.failed then before.err else e
    }

    /** The loop over a line comment. */
    method ConsumeLine()
      requires i <= |str|
      modifies this`i
      ensures old(i) <= i <= |str| && str[i..] == LineEnd(str[old(i)..])
    {
      while i < |str| && str[i] != '\n'
        invariant old(i) <= i <= |str|
        invariant LineEnd(str[i..]) == LineEnd(str[old(i)..])
      {
        assert str[i..][1..] == str[i + 1..];
        i := i + 1;
      }
    }

    /** The loop over a block comment. */
    method ConsumeBlock() returns (found: bool)
      requires i <= |str|
      modifies this
      ensures old(i) <= i <= |str|
      ensures CommentRead(old(Now()), found, BlockEnd(str[old(i)..]))
    {
      if i > |str| - 2 {
        Fail(EndInBlockComment);
        return false;
      }
      while !(str[i] == '*' && str[i + 1] == '/')
        invariant old(i) <= i <= |str| - 2
        invariant BlockEnd(str[i..]) == BlockEnd(str[old(i)..])
        invariant Now() == old(Now())
        decreases |str| - i
      {
        assert str[i..][1..] == str[i + 1..];
        i := i + 1;
        if i > |str| - 2 {
          Fail(EndInBlockComment);
          return false;
        }
      }
      assert str[i..][2..] == str[i + 2..];
      i := i + 2;
      return true;
    }

    method ConsumeGarbage()
      requires i <= |str|
      modifies this
      ensures Follows(old(Now()), old(i), (), (), SkipGarbage(d.strategy, str[old(i)..]))
    {
      ghost var s := str[i..];
      ConsumeWhitespace();
      if d.strategy.Comments? {
        var commentFound := true;
        while commentFound
          invariant old(i) <= i <= |str|
          invariant failed == old(failed) && err == old(err)
          invariant SkipWhitespace(str[i..]) == str[i..]
          invariant SkipGarbage(d.strategy, s) ==
                    if commentFound then SkipGarbage(d.strategy, str[i..]) else Ok((), str[i..])
          decreases |str| - i, commentFound
        {
          ghost var before := str[i..];
          commentFound := ConsumeComment();
          if failed { return; }
          ghost var afterComment := str[i..];
          ConsumeWhitespace();
          SkipWhitespaceTwice(afterComment);
          assert commentFound ==> SkipGarbage(d.strategy, before) == SkipGarbage(d.strategy, afterComment);
        }
      }
    }

    lemma SkipWhitespaceTwice(s: Bytes)
      ensures SkipWhitespace(SkipWhitespace(s)) == SkipWhitespace(s)
      ensures SkipGarbage(d.strategy, SkipWhitespace(s)) == SkipGarbage(d.strategy, s)
    {
    }

    /** The unread text with the token just read put back. */
    function Reread(): Bytes
      reads this
    {
      if 0 < i <= |str| then str[i - 1..] else []
    }

    method GetNextToken() returns (ch: Byte)
      requires i <= |str|
      modifies this
      ensures old(i) <= i <= |str|
      ensures old(failed) ==> failed && err == old(err) && ch == NUL
      ensures !old(failed) ==>
          match NextToken(d.strategy, str[old(i)..])
          case Ok(c, t) => !failed && err == old(err) && ch == c && old(i) < i && Reread() == t
          case Fail(e) => failed && err == e && ch == NUL
      ensures !failed ==> str[i - 1] == ch && Reread()[1..] == str[i..]
    {
      ConsumeGarbage();
      if failed { return NUL; }
      if i == |str| {
        Fail(UnexpectedEnd);
        return NUL;
      }
      ch := str[i];
      i := i + 1;
    }

    /** The four digits after `\\u`, with what they do to the pending code point. */
    method ParseUnicodeEscape(last: int, out: Bytes) returns (last': int, out': Bytes)
      requires 2 <= i <= |str| && str[i - 2] == '\\' && str[i - 1] == 'u'
      requires -1 <= last < 0x10000 && !failed
      modifies this
      ensures old(i) <= i <= |str| && -1 <= last' < 0x10000
      ensures Rewritten(old(err), ParseString(str[old(i) - 2..], PendingOf(last), out), last', out')
    {
      last', out' := last, out;
      ghost var t := str[i - 2..];
      var esc := str[i..if i + 4 <= |str| then i + 4 else |str|];
      assert esc == if |t| < 6 then t[2..] else t[2..6];
      assert "\\u" <= t;
      UnicodeStep(t, PendingOf(last), out);
      hide ParseString, Utf8, Hex4Value, IsHex4, Flush, Astral;
      if !IsHex4(esc) {
        Fail(BadUnicodeEscape(esc));
        return;
      }
      var codepoint := Hex4Value(esc);
      if 0xD800 <= last <= 0xDBFF && IsLowSurrogate(codepoint) {
        out' := out + Utf8(Astral(last, codepoint));
        last' := -1;
      } else {
        out' := Flush(PendingOf(last), out);
        last' := codepoint;
      }
      i := i + 4;
      assert t[6..] == str[i..];
    }

    /** The work `due` on a string is certain to fail or continues from the cursor. */
    ghost predicate Rewritten(oldErr: Error, due: Parsed<Bytes>, last: int, out: Bytes)
      requires i <= |str| && last < 0x10000
      reads this
    {
      if failed then due == Parsed<Bytes>.Fail(err)
      else err == oldErr && due == ParseString(str[i..], PendingOf(last), out)
    }

    /** Everything after a backslash. */
    method ParseEscape(last: int, out: Bytes) returns (last': int, out': Bytes)
      requires 0 < i <= |str| && str[i - 1] == '\\'
      requires -1 <= last < 0x10000 && !failed
      modifies this
      ensures old(i) <= i <= |str| && -1 <= last' < 0x10000
      ensures Rewritten(old(err), ParseString(str[old(i) - 1..], PendingOf(last), out), last', out')
    {
      ghost var t := str[i - 1..];
      last', out' := last, out;
      if i == |str| {
        Fail(EndInString);
        return;
      }
      var ch := str[i];
      i := i + 1;
      assert t[1] == ch && t[2..] == str[i..];
      if ch == 'u' {
        last', out' := ParseUnicodeEscape(last, out);
        return;
      }
      out' := Flush(PendingOf(last), out);
      last' := -1;
      if IsShortEscape(ch) {
        out' := out' + [ShortEscape(ch)];
      } else {
        Fail(InvalidEscape(ch));
      }
    }

    method ParseStringBody() returns (r: Bytes)
      requires i <= |str| && !failed
      modifies this
      ensures Follows(old(Now()), old(i), r, [], ParseString(str[old(i)..], Nothing, []))
    {
      ghost var due := ParseString(str[i..], Nothing, []);
      var out: Bytes := [];
      var last: int := -1;
      while true
        invariant old(i) <= i <= |str| && -1 <= last < 0x10000 && !failed
        invariant Rewritten(old(err), due, last, out)
        decreases |str| - i
      {
        if i == |str| {
          Fail(EndInString);
          return [];
        }
        ghost var t := str[i..];
        var ch := str[i];
        i := i + 1;
        assert t[1..] == str[i..];
        if ch == '"' {
          return Flush(PendingOf(last), out);
        }
        if ch as int <= 0x1F {
          Fail(UnescapedInString(ch));
          return [];
        }
        if ch != '\\' {
          out := Flush(PendingOf(last), out) + [ch];
          last := -1;
          continue;
        }
        last, out := ParseEscape(last, out);
        if failed { return []; }
      }
    }

    /** One part of a number was consumed up to the offset `expected` from `start`. */
    ghost predicate Reaches(before: State, low: nat, start: nat, expected: Parsed<nat>)
      reads this
    {
      && low <= i <= |str|
      && match expected
         case Ok(k, _) => !failed && err == before.err && i == start + k
         case Fail(e) => failed && err == e
    }

    method ConsumeWhole()
      requires i <= |str| && !failed
      modifies this
      ensures Reaches(old(Now()), old(i), old(i), WholeEnd(str[old(i)..]))
    {
      ghost var start := i;
      if At(str, i) == '-' {
        i := i + 1;
      }
      if At(str, i) == '0' {
        i := i + 1;
        if IsDigit(At(str, i)) {
          Fail(LeadingZero);
        }
      } else if IsDigit(At(str, i)) {
        i := i + 1;
        ConsumeDigits(start);
      } else {
        Fail(InvalidInNumber(At(str, i)));
      }
    }

    method ConsumeFraction(ghost start: nat)
      requires start <= i <= |str| && !failed
      modifies this
      ensures Reaches(old(Now()), old(i), start, FractionEnd(str[start..], old(i) - start))
    {
      if At(str, i) == '.' {
        i := i + 1;
        if !IsDigit(At(str, i)) {
          Fail(NoFractionDigit);
          return;
        }
        ConsumeDigits(start);
      }
    }

    method ConsumeExponent(ghost start: nat)
      requires start <= i <= |str| && !failed
      modifies this
      ensures Reaches(old(Now()), old(i), start, ExponentEnd(str[start..], old(i) - start))
    {
      if At(str, i) == 'e' || At(str, i) == 'E' {
        i := i + 1;
        if At(str, i) == '+' || At(str, i) == '-' {
          i := i + 1;
        }
        if !IsDigit(At(str, i)) {
          Fail(NoExponentDigit);
          return;
        }
        ConsumeDigits(start);
      }
    }

    method ConsumeTail(ghost start: nat)
      requires start <= i <= |str| && !failed
      modifies this
      ensures Reaches(old(Now()), old(i), start, TailEnd(str[start..], old(i) - start))
    {
      ConsumeFraction(start);
      if !failed { ConsumeExponent(start); }
    }

    /** The scan of a number; `short` when the text is read with `atoi`. */
    method ConsumeNumber() returns (short: bool)
      requires i <= |str| && !failed
      modifies this
      ensures old(i) <= i <= |str|
      ensures match NumberEnd(str[old(i)..])
              case Ok(n, _) => !failed && err == old(err) && i == old(i) + n.0 && short == n.1
              case Fail(e) => failed && err == e
    {
      short := false;
      var startPos := i;
      ConsumeWhole();
      if failed { return; }
      if At(str, i) != '.' && At(str, i) != 'e' && At(str, i) != 'E' && i - startPos <= 9 {
        return true;
      }
      ConsumeTail(startPos);
    }

    method ParseNumberText() returns (r: Json)
      requires i <= |str| && !failed
      modifies this
      ensures Follows(old(Now()), old(i), r, Null, ParseNumber(d.platform, str[old(i)..]))
    {
      var startPos := i;
      var short := ConsumeNumber();
      if failed { return Null; }
      SliceOfSuffix(startPos);
      ShortIsInteger(startPos, short);
      r := if short then ShortInt(str[startPos..i]) else Dbl(d.platform.strtod(str[startPos..i]));
    }

    lemma ShortIsInteger(start: nat, short: bool)
      requires start <= i <= |str| && NumberEnd(str[start..]) == Ok((i - start, short), [])
      ensures short ==> IsIntegerText(str[start..i]) && i - start <= 9
    {
      if short {
        SliceOfSuffix(start);
        WholeIsInteger(str[start..]);
      }
    }

    lemma SliceOfSuffix(start: nat)
      requires start <= i <= |str|
      ensures str[start..][..i - start] == str[start..i]
      ensures str[start..][i - start..] == str[i..]
    {
    }

    /** The digit loops of the number parser. */
    method ConsumeDigits(ghost start: nat)
      requires start <= i <= |str|
      modifies this`i
      ensures old(i) <= i <= |str|
      ensures i - start == DigitsEnd(str[start..], old(i) - start)
    {
      while IsDigit(At(str, i))
        invariant old(i) <= i <= |str|
        invariant DigitsEnd(str[start..], i - start) == DigitsEnd(str[start..], old(i) - start)
        decreases |str| - i
      {
        i := i + 1;
      }
    }

    /** The word starts at the byte that was just read. */
    method Expect(word: Bytes, res: Json) returns (r: Json)
      requires word != [] && 0 < i <= |str| && !failed
      modifies this
      ensures match ExpectWord(str[old(i) - 1..], word, res)
              case Ok(v, rest) => old(i) <= i <= |str| && !failed && err == old(err) && r == v && str[i..] == rest
              case Fail(e) => i == old(i) - 1 && failed && err == e && r == Null
    {
      i := i - 1;
      var got := if i + |word| <= |str| then str[i..i + |word|] else str[i..];
      assert got == if |str[i..]| < |word| then str[i..] else str[i..][..|word|];
      if got == word {
        assert str[i + |word|..] == str[i..][|word|..];
        i := i + |word|;
        return res;
      }
      Fail(Expected(word, got));
      return Null;
    }

    method ParseJson(depth: nat) returns (r: Json)
      requires i <= |str|
      modifies this
      ensures Follows(old(Now()), old(i), r, if old(failed) then Null else Unread(d, str[old(i)..], depth),
                ParseValue(d, str[old(i)..], depth))
      decreases if depth > MAX_DEPTH then 0 else MAX_DEPTH + 1 - depth, 4
    {
      if depth > MAX_DEPTH {
        Fail(TooDeep);
        return Null;
      }
      var ch := GetNextToken();
      if failed { return Null; }
      r := ParseAtToken(depth, ch);
    }

    /** The dispatch on the token just read. */
    method ParseAtToken(depth: nat, ch: Byte) returns (r: Json)
      requires 0 < i <= |str| && !failed && depth <= MAX_DEPTH && ch == str[i - 1]
      modifies this
      ensures Follows(old(Now()), old(i) - 1, r, if ch == '"' then Str([]) else Null,
                if ch == '-' || IsDigit(ch) then ParseNumber(d.platform, str[old(i) - 1..])
                else if ch == 't' then ExpectWord(str[old(i) - 1..], "true", Bool(true))
                else if ch == 'f' then ExpectWord(str[old(i) - 1..], "false", Bool(false))
                else if ch == 'n' then ExpectWord(str[old(i) - 1..], "null", Null)
                else if ch == '"' then ParseText(str[old(i)..])
                else if ch == '{' then AfterBrace(d, str[old(i)..], depth)
                else if ch == '[' then AfterBracket(d, str[old(i)..], depth)
                else Parsed<Json>.Fail(ExpectedValue(ch)))
      decreases MAX_DEPTH + 1 - depth, 3
    {
      if ch == '-' || IsDigit(ch) {
        i := i - 1;
        r := ParseNumberText();
      } else if ch == 't' {
        r := Expect("true", Bool(true));
      } else if ch == 'f' {
        r := Expect("false", Bool(false));
      } else if ch == 'n' {
        r := Expect("null", Null);
      } else if ch == '"' {
        var text := ParseStringBody();
        r := Str(text);
      } else if ch == '{' {
        r := ParseObject(depth);
      } else if ch == '[' {
        r := ParseArray(depth);
      } else {
        Fail(ExpectedValue(ch));
        r := Null;
      }
    }

    /** After an element: `closed` on the closing token, else the token after a comma,
        or `stopped` on any other token. */
    method ParseSeparator(close: Byte) returns (closed: bool, stopped: bool, ch: Byte)
      requires i <= |str| && !failed && close != ',' && close != NUL
      modifies this
      ensures old(i) <= i <= |str| && (stopped ==> failed) && (!closed && !stopped ==> old(i) < i)
      ensures failed && !stopped ==> ch == NUL
      ensures match Separator(d, str[old(i)..], close)
              case Fail(e) => !closed && failed && err == e
              case Ok(c, rest) =>
                && !failed && err == old(err) && closed == c
                && if c then str[i..] == rest else old(i) < i && ch == str[i - 1] && Reread() == rest
    {
      closed, stopped := false, false;
      ch := GetNextToken();
      if ch == close {
        return true, false, ch;
      }
      if ch != ',' {
        Fail(if close == '}' then ExpectedObjectComma(ch) else ExpectedListComma(ch));
        return false, true, ch;
      }
      ch := GetNextToken();
    }

    /** One turn of a container loop: the work that was due is certain to fail, or done,
        or has become the work that is still due. */
    ghost predicate Turned(oldErr: Error, low: nat, ch: Byte, closed: bool, due: Parsed<Json>, done: Json, stillDue: Parsed<Json>)
      reads this
    {
      && low <= i <= |str|
      && if failed then !closed && due == Parsed<Json>.Fail(err)
         else err == oldErr && if closed then due == Ok(done, str[i..])
              else low + 1 < i && ch == str[i - 1] && due == stillDue
    }

    /** How a turn may leave: stopped only by a failure, and at once when entered failed;
        otherwise with the cursor moved on. */
    ghost predicate Left(before: State, start: nat, closed: bool, stopped: bool)
      reads this
    {
      && (stopped ==> failed && !closed) && (!stopped && !closed ==> start < i)
      && (before.failed ==> stopped && err == before.err)
    }

    /** One turn of the array loop, entered with a token read, unless that has failed. */
    method ParseItem(depth: nat, data: seq<Json>) returns (data': seq<Json>, closed: bool, stopped: bool, ch: Byte)
      requires 0 < i <= |str| && depth <= MAX_DEPTH
      modifies this
      ensures old(i) - 1 <= i <= |str| && Left(old(Now()), old(i), closed, stopped)
      ensures !old(failed) ==>
          Turned(old(err), old(i) - 1, ch, closed, ParseItems(d, old(Reread()), depth, data),
            Arr(data'), ParseItems(d, Reread(), depth, data'))
      decreases MAX_DEPTH + 1 - depth, 0
    {
      hide ParseValue, Separator, Unread;
      i := i - 1;
      var item := ParseJson(depth + 1);
      data' := data + [item];
      if failed { return data', false, true, NUL; }
      assert ParseItems(d, old(Reread()), depth, data) == AfterItem(d, str[i..], depth, data');
      closed, stopped, ch := ParseSeparator(']');
    }

    method ParseArray(depth: nat) returns (r: Json)
      requires 0 < i <= |str| && !failed && depth <= MAX_DEPTH
      modifies this
      ensures Follows(old(Now()), old(i) - 1, r, Null, AfterBracket(d, str[old(i)..], depth))
      decreases MAX_DEPTH + 1 - depth, 2
    {
      var data: seq<Json> := [];
      var stopped := false;
      var ch := GetNextToken();
      var closed := ch == ']';
      ghost var due := if closed then Ok(Arr([]), str[i..])
                       else if failed then Parsed<Json>.Fail(err) else ParseItems(d, Reread(), depth, []);
      while !closed
        invariant 0 < i && (closed ==> !failed)
        invariant Turned(old(err), old(i) - 1, ch, closed, due, Arr(data), ParseItems(d, Reread(), depth, data))
        decreases |str| - i, !closed
      {
        data, closed, stopped, ch := ParseItem(depth, data);
        if stopped { return Null; }
      }
      return Arr(data);
    }

    /** One turn of the object loop, entered with a token read, unless that has failed. */
    method ParseMember(depth: nat, token: Byte, data: seq<Member>)
      returns (data': seq<Member>, closed: bool, stopped: bool, ch: Byte)
      requires 0 < i <= |str| && depth <= MAX_DEPTH && token == if failed then NUL else str[i - 1]
      modifies this
      ensures failed && !stopped ==> ch == NUL
      ensures old(i) - 1 <= i <= |str| && Left(old(Now()), old(i), closed, stopped)
      ensures !old(failed) ==>
          Turned(old(err), old(i) - 1, ch, closed, ParseMembers(d, old(Reread()), depth, data),
            Obj(data'), ParseMembers(d, Reread(), depth, data'))
      decreases MAX_DEPTH + 1 - depth, 1
    {
      var key, value := ParseKeyAndValue(depth, token);
      data' := Insert(data, key, value);
      if failed { return data', false, true, NUL; }
      closed, stopped, ch := ParseSeparator('}');
    }

    method ParseKeyAndValue(depth: nat, token: Byte) returns (key: Bytes, value: Json)
      requires 0 < i <= |str| && depth <= MAX_DEPTH && token == if failed then NUL else str[i - 1]
      modifies this
      ensures old(i) <= i <= |str|
      ensures if old(failed) then failed && err == old(err)
              else match JsonGrammar.ParseMember(d, old(Reread()), depth)
              case Ok(m, rest) => !failed && err == old(err) && m == Member(key, value) && str[i..] == rest && old(i) < i
              case Fail(e) => failed && err == e
      decreases MAX_DEPTH + 1 - depth, 0
    {
      hide ParseKey, ParseValue, Unread;
      value := Null;
      key := ParseKeyAndColon(token);
      if failed { return; }
      value := ParseJson(depth + 1);
    }

    method ParseObject(depth: nat) returns (r: Json)
      requires 0 < i <= |str| && !failed && depth <= MAX_DEPTH
      modifies this
      ensures Follows(old(Now()), old(i) - 1, r, Null, AfterBrace(d, str[old(i)..], depth))
      decreases MAX_DEPTH + 1 - depth, 2
    {
      var data: seq<Member> := [];
      var stopped := false;
      var ch := GetNextToken();
      var closed := ch == '}';
      ghost var due := if closed then Ok(Obj([]), str[i..])
                       else if failed then Parsed<Json>.Fail(err) else ParseMembers(d, Reread(), depth, []);
      while !closed
        invariant 0 < i && (closed ==> !failed) && (failed ==> ch == NUL)
        invariant Turned(old(err), old(i) - 1, ch, closed, due, Obj(data), ParseMembers(d, Reread(), depth, data))
        decreases |str| - i, !closed
      {
        data, closed, stopped, ch := ParseMember(depth, ch, data);
        if stopped { return Null; }
      }
      return Obj(data);
    }

    /** The first half of the object loop, entered with the token just read. */
    method ParseKeyAndColon(token: Byte) returns (key: Bytes)
      requires 0 < i <= |str| && token == if failed then NUL else str[i - 1]
      modifies this
      ensures Follows(old(Now()), old(i), key, key, ParseKey(d, old(Reread())))
    {
      key := [];
      assert Reread()[1..] == str[i..];
      if token != '"' {
        Fail(ExpectedKey(token));
        return;
      }
      key := ParseStringBody();
      if failed { return; }
      var ch := GetNextToken();
      if ch != ':' {
        Fail(ExpectedColon(ch));
      }
    }
  }

  /** `Json::parse`. */
  method Parse(text: Bytes, d: Dialect, err: Error) returns (r: Json, err': Error)
    ensures match ParseDocument(d, text)
            case Ok(v, _) => r == v && err' == err
            case Fail(e) => r == Null && err' == e
  {
    var parser := new JsonParser(text, d, err);
    assert text[0..] == text;
    var result := parser.ParseJson(0);
    parser.ConsumeGarbage();
    if parser.failed { return Null, parser.err; }
    if parser.i != |text| {
      parser.Fail(Trailing(text[parser.i]));
      return Null, parser.err;
    }
    return result, parser.err;
  }

  /** `Json::parse_multi`. */
  method ParseMulti(text: Bytes, d: Dialect, err: Error) returns (values: seq<Json>, stop: nat, err': Error)
    ensures var m := ParseMany(d, text, []);
      && values == m.values
      && stop <= |text| && text[stop..] == m.rest
      && err' == if m.failure.Some? then m.failure.value else err
  {
    var parser := new JsonParser(text, d, err);
    stop, values := 0, [];
    assert text[0..] == text;
    while parser.i != |text| && !parser.failed
      invariant parser.str == text && parser.d == d
      invariant stop == parser.i <= |text| && !parser.failed && parser.err == err
      invariant ParseMany(d, text, []) == ParseMany(d, text[stop..], values)
      decreases |text| - parser.i
    {
      var v := parser.ParseJson(0);
      values := values + [v];
      if parser.failed { break; }
      parser.ConsumeGarbage();
      if parser.failed { break; }
      stop := parser.i;
    }
    return values, stop, parser.err;
  }
}
