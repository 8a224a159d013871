/** What a JSON string means: UTF-16 escapes become UTF-8, everything else is copied. */
module JsonEscapes {
  import opened Common
  import opened JsonValue
  import opened JsonText
  import opened JsonGrammar
  import opened JsonPrinter

  /** The pieces a string literal is written with. */
  datatype Piece = Raw(c: Byte) | Short(c: Byte) | Unicode(hex: Bytes) {
    predicate Valid() {
      match this
      case Raw(c) => c != '"' && c != '\\' && c as int > 0x1F
      case Short(c) => IsShortEscape(c)
      case Unicode(h) => IsHex4(h)
    }

    function Text(): (t: Bytes)
      ensures t != []
    {
      match this
      case Raw(c) => [c]
      case Short(c) => ['\\', c]
      case Unicode(h) => ['\\', 'u'] + h
    }

    function Meaning(): Unit
      requires Valid()
    {
      match this
      case Raw(c) => Octet(c)
      case Short(c) => Octet(ShortEscape(c))
      case Unicode(h) => Code(Hex4Value(h))
    }
  }

  /** A byte to copy or a UTF-16 code unit to encode. */
  datatype Unit = Octet(c: Byte) | Code(cp: nat)

  ghost predicate Valid(ps: seq<Piece>) {
    forall k :: 0 <= k < |ps| ==> ps[k].Valid()
  }

  function Text(ps: seq<Piece>): Bytes {
    if ps == [] then [] else ps[0].Text() + Text(ps[1..])
  }

  ghost function Units(ps: seq<Piece>): seq<Unit>
    requires Valid(ps)
  {
    if ps == [] then [] else [ps[0].Meaning()] + Units(ps[1..])
  }

  predicate IsPair(us: seq<Unit>) {
    |us| > 1 && us[0].Code? && us[1].Code? && IsHighSurrogate(us[0].cp) && IsLowSurrogate(us[1].cp)
  }

  /** Surrogates are paired greedily, high then low; a lone one is encoded by itself. */
  function Encode(us: seq<Unit>): Bytes {
    if us == [] then []
    else if us[0].Octet? then [us[0].c] + Encode(us[1..])
    else if IsPair(us) then Utf8(Astral(us[0].cp, us[1].cp)) + Encode(us[2..])
    else if us[0].cp < 0x10000 then Utf8(us[0].cp) + Encode(us[1..])
    else Encode(us[1..])
  }

  function PendingUnits(pending: Pending): seq<Unit> {
    if pending.Escaped? then [Code(pending.cp)] else []
  }

  ghost predicate Small(pending: Pending) {
    pending.Escaped? ==> pending.cp < 0x10000
  }

  predicate Completes(pending: Pending, u: Unit) {
    pending.Escaped? && u.Code? && IsHighSurrogate(pending.cp) && IsLowSurrogate(u.cp)
  }

  /** What one unit leaves pending, and the output it leaves. */
  function Next(pending: Pending, u: Unit): Pending {
    if u.Octet? || Completes(pending, u) then Nothing else Escaped(u.cp)
  }

  function Written(pending: Pending, u: Unit, out: Bytes): Bytes
    requires Small(pending)
  {
    if u.Octet? then Flush(pending, out) + [u.c]
    else if Completes(pending, u) then out + Utf8(Astral(pending.cp, u.cp))
    else Flush(pending, out)
  }

  /** The parser reads one piece. */
  lemma PieceStep(p: Piece, t: Bytes, pending: Pending, out: Bytes)
    requires p.Valid() && Small(pending)
    ensures ParseString(p.Text() + t, pending, out)
         == ParseString(t, Next(pending, p.Meaning()), Written(pending, p.Meaning(), out))
  {
    var s := p.Text() + t;
    assert s[|p.Text()|..] == t;
    if p.Unicode? {
      assert s[2..6] == p.hex;
    }
  }

  lemma EncodeOctet(c: Byte, us: seq<Unit>)
    ensures Encode([Octet(c)] + us) == [c] + Encode(us)
  {
    assert ([Octet(c)] + us)[1..] == us;
  }

  lemma EncodePair(high: nat, low: nat, us: seq<Unit>)
    requires IsHighSurrogate(high) && IsLowSurrogate(low)
    ensures Encode([Code(high)] + ([Code(low)] + us)) == Utf8(Astral(high, low)) + Encode(us)
  {
    assert ([Code(high)] + ([Code(low)] + us))[2..] == us;
  }

  lemma EncodeLone(cp: nat, u: Unit, us: seq<Unit>)
    requires cp < 0x10000 && !Completes(Escaped(cp), u)
    ensures Encode([Code(cp)] + ([u] + us)) == Utf8(cp) + Encode([u] + us)
  {
    assert ([Code(cp)] + ([u] + us))[1..] == [u] + us;
  }

  /** The encoding of the units takes the same step. */
  lemma EncodeStep(pending: Pending, u: Unit, us: seq<Unit>, out: Bytes)
    requires Small(pending) && (u.Code? ==> u.cp < 0x10000)
    ensures out + Encode(PendingUnits(pending) + ([u] + us))
         == Written(pending, u, out) + Encode(PendingUnits(Next(pending, u)) + us)
  {
    hide Utf8, Astral, Encode, IsHighSurrogate, IsLowSurrogate;
    assert [] + us == us && [] + ([u] + us) == [u] + us;
    if u.Octet? { EncodeOctet(u.c, us); }
    if pending.Escaped? {
      if Completes(pending, u) {
        EncodePair(pending.cp, u.cp, us);
        Associate(out, Utf8(Astral(pending.cp, u.cp)), Encode(us));
      } else {
        EncodeLone(pending.cp, u, us);
        Associate(out, Utf8(pending.cp), Encode([u] + us));
      }
    }
    if u.Octet? { Associate(Flush(pending, out), [u.c], Encode(us)); }
  }

  lemma FlushEncodes(pending: Pending, out: Bytes)
    requires Small(pending)
    ensures out + Encode(PendingUnits(pending)) == Flush(pending, out)
  {
    if pending.Escaped? {
      assert PendingUnits(pending)[1..] == [];
    }
  }

  /** Soundness: the parser decodes any valid sequence of pieces to its meaning. */
  lemma {:induction false} DecodePieces(ps: seq<Piece>, rest: Bytes, pending: Pending, out: Bytes)
    requires Valid(ps) && Small(pending)
    ensures ParseString(Text(ps) + (['"'] + rest), pending, out)
         == Ok(out + Encode(PendingUnits(pending) + Units(ps)), rest)
    decreases |ps|
  {
    var tail := ['"'] + rest;
    if ps == [] {
      assert Text(ps) + tail == tail && tail[1..] == rest;
      FlushEncodes(pending, out);
      assert PendingUnits(pending) + Units(ps) == PendingUnits(pending);
    } else {
      var p, u := ps[0], ps[0].Meaning();
      assert Text(ps) + tail == p.Text() + (Text(ps[1..]) + tail);
      PieceStep(p, Text(ps[1..]) + tail, pending, out);
      DecodePieces(ps[1..], rest, Next(pending, u), Written(pending, u, out));
      EncodeStep(pending, u, Units(ps[1..]), out);
    }
  }

  /** The first piece of an accepted literal. */
  lemma FirstPiece(s: Bytes, pending: Pending, out: Bytes) returns (p: Piece, t: Bytes)
    requires Small(pending) && ParseString(s, pending, out).Ok? && s[0] != '"'
    ensures p.Valid() && s == p.Text() + t
  {
    p := if s[0] != '\\' then Raw(s[0])
         else if s[1] == 'u' then Unicode(s[2..6])
         else Short(s[1]);
    t := s[|p.Text()|..];
  }

  /** Completeness: whatever the parser accepts is a valid sequence of pieces. */
  lemma {:induction false} PiecesOf(s: Bytes, pending: Pending, out: Bytes) returns (ps: seq<Piece>)
    requires Small(pending) && ParseString(s, pending, out).Ok?
    ensures Valid(ps) && s == Text(ps) + (['"'] + ParseString(s, pending, out).rest)
    decreases |s|
  {
    if s[0] == '"' {
      ps := [];
      assert s == ['"'] + s[1..];
    } else {
      var p, t := FirstPiece(s, pending, out);
      PieceStep(p, t, pending, out);
      var ps' := PiecesOf(t, Next(pending, p.Meaning()), Written(pending, p.Meaning(), out));
      ps := [p] + ps';
      PrependPiece(p, ps', ['"'] + ParseString(s, pending, out).rest);
    }
  }

  lemma PrependPiece(p: Piece, ps: seq<Piece>, tail: Bytes)
    ensures Text([p] + ps) + tail == p.Text() + (Text(ps) + tail)
  {
    assert ([p] + ps)[1..] == ps;
  }

  /** A string literal is accepted exactly when it is a sequence of pieces and a
      closing quote, and then it means their UTF-8 encoding. */
  lemma StringsDecode(s: Bytes, value: Bytes, rest: Bytes)
    ensures ParseString(s, Nothing, []) == Ok(value, rest)
       <==> exists ps | Valid(ps) :: s == Text(ps) + (['"'] + rest) && value == Encode(Units(ps))
  {
    if ParseString(s, Nothing, []) == Ok(value, rest) {
      var ps := PiecesOf(s, Nothing, []);
      DecodeWhole(ps, rest);
    }
    forall ps | Valid(ps) && s == Text(ps) + (['"'] + rest)
      ensures ParseString(s, Nothing, []) == Ok(Encode(Units(ps)), rest)
    {
      DecodeWhole(ps, rest);
    }
  }

  lemma DecodeWhole(ps: seq<Piece>, rest: Bytes)
    requires Valid(ps)
    ensures ParseString(Text(ps) + (['"'] + rest), Nothing, []) == Ok(Encode(Units(ps)), rest)
  {
    DecodePieces(ps, rest, Nothing, []);
    assert PendingUnits(Nothing) + Units(ps) == Units(ps);
    assert [] + Encode(Units(ps)) == Encode(Units(ps));
  }

  // ----- Printed strings -----

  /** The piece the printer writes first. */
  function HeadPiece(s: Bytes): (p: Piece)
    requires s != []
    ensures p.Valid()
  {
    var ch := s[0];
    if ch == '\\' || ch == '"' then Short(ch)
    else if ch == 8 as char then Short('b')
    else if ch == 12 as char then Short('f')
    else if ch == '\n' then Short('n')
    else if ch == '\r' then Short('r')
    else if ch == '\t' then Short('t')
    else if ch as int <= 0x1F then Unicode(Hex4(ch))
    else if IsLineSeparator(s, 0xA8) then Unicode("2028")
    else if IsLineSeparator(s, 0xA9) then Unicode("2029")
    else Raw(ch)
  }

  function PrintedPieces(s: Bytes): seq<Piece> {
    if s == [] then [] else [HeadPiece(s)] + PrintedPieces(s[HeadLength(s)..])
  }

  /** The unit is encoded as these bytes, whatever comes next. */
  predicate EncodesAlone(u: Unit, head: Bytes) {
    if u.Octet? then head == [u.c] else u.cp < 0x3000 && head == Utf8(u.cp)
  }

  lemma SeparatorDenotes(s: Bytes)
    requires IsLineSeparator(s, 0xA8) || IsLineSeparator(s, 0xA9)
    ensures HeadPiece(s).Text() == EscapeHead(s)
    ensures EncodesAlone(HeadPiece(s).Meaning(), s[..HeadLength(s)])
  {
    SeparatorCodes();
    hide Utf8, Hex4, Hex4Value, IsHex4;
    assert s[..3] == [s[0], s[1], s[2]];
  }

  lemma SeparatorCodes()
    ensures IsHex4("2028") && Hex4Value("2028") == 0x2028 && Utf8(0x2028) == [0xE2 as char, 0x80 as char, 0xA8 as char]
    ensures IsHex4("2029") && Hex4Value("2029") == 0x2029 && Utf8(0x2029) == [0xE2 as char, 0x80 as char, 0xA9 as char]
  {
  }

  lemma ControlDenotes(s: Bytes)
    requires s != [] && s[0] as int <= 0x1F
    ensures HeadPiece(s).Text() == EscapeHead(s)
    ensures EncodesAlone(HeadPiece(s).Meaning(), s[..HeadLength(s)])
  {
    HexOfByte(s[0]);
    hide Hex4, Hex4Value;
    assert s[..1] == [s[0]];
  }

  lemma HeadPieceDenotes(s: Bytes)
    requires s != []
    ensures HeadPiece(s).Text() == EscapeHead(s)
    ensures EncodesAlone(HeadPiece(s).Meaning(), s[..HeadLength(s)])
  {
    if IsLineSeparator(s, 0xA8) || IsLineSeparator(s, 0xA9) {
      SeparatorDenotes(s);
    } else if s[0] as int <= 0x1F {
      ControlDenotes(s);
    } else {
      hide Utf8, Hex4, Hex4Value, IsHex4;
    }
  }

  lemma HexOfByte(c: Byte)
    requires c as int <= 0x1F
    ensures Hex4Value(Hex4(c)) == c as int
  {
  }

  lemma PrependUnit(p: Piece, ps: seq<Piece>, head: Bytes)
    requires p.Valid() && Valid(ps)
    requires EncodesAlone(p.Meaning(), head)
    ensures Valid([p] + ps) && Text([p] + ps) == p.Text() + Text(ps)
    ensures Encode(Units([p] + ps)) == head + Encode(Units(ps))
  {
    hide Utf8, Hex4Value, IsHex4;
    var us := Units([p] + ps);
    assert ([p] + ps)[1..] == ps;
    assert us[1..] == Units(ps);
  }

  lemma PrintedStep(s: Bytes)
    requires s != []
    ensures var n := HeadLength(s);
      PrintedPieces(s) == [HeadPiece(s)] + PrintedPieces(s[n..]) && EscapeString(s) == EscapeHead(s) + EscapeString(s[n..])
  {
  }

  lemma {:induction false} PrintedPiecesDenote(s: Bytes)
    ensures var ps := PrintedPieces(s); Valid(ps) && Text(ps) == EscapeString(s) && Encode(Units(ps)) == s
    decreases |s|
  {
    if s == [] {
      assert Units([]) == [];
    } else {
      var n := HeadLength(s);
      var p, ps := HeadPiece(s), PrintedPieces(s[n..]);
      PrintedStep(s);
      HeadPieceDenotes(s);
      PrintedPiecesDenote(s[n..]);
      PrependUnit(p, ps, s[..n]);
      hide HeadPiece, EscapeHead, HeadLength, Encode, Units, Text, EncodesAlone, PrintedPieces, EscapeString;
      assert s == s[..n] + s[n..];
    }
  }

  /** Parsing undoes printing on every byte string. */
  lemma PrintedStringParses(s: Bytes, rest: Bytes)
    ensures ParseString(EscapeString(s) + (['"'] + rest), Nothing, []) == Ok(s, rest)
  {
    PrintedPiecesDenote(s);
    DecodeWhole(PrintedPieces(s), rest);
  }
}
