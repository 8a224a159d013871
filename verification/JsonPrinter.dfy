/** The serializer: every overload appends to the caller's string. */
module JsonPrinter {
  import opened Common
  import opened JsonValue
  import opened JsonText

  // ----- What is printed -----

  function EscapeString(s: Bytes): Bytes {
    if s == [] then []
    else EscapeHead(s) + EscapeString(s[HeadLength(s)..])
  }

  /** What the first byte, or a whole line or paragraph separator, is printed as. */
  function EscapeHead(s: Bytes): Bytes
    requires s != []
  {
    var ch := s[0];
    if ch == '\\' then "\\\\"
    else if ch == '"' then "\\\""
    else if ch == 8 as char then "\\b"
    else if ch == 12 as char then "\\f"
    else if ch == '\n' then "\\n"
    else if ch == '\r' then "\\r"
    else if ch == '\t' then "\\t"
    else if ch as int <= 0x1F then "\\u" + Hex4(ch)
    else if IsLineSeparator(s, 0xA8) then "\\u2028"
    else if IsLineSeparator(s, 0xA9) then "\\u2029"
    else [ch]
  }

  function HeadLength(s: Bytes): (n: nat)
    requires s != []
    ensures 1 <= n <= |s|
  {
    if IsLineSeparator(s, 0xA8) || IsLineSeparator(s, 0xA9) then 3 else 1
  }

  /** The text starts with U+2028 or U+2029 in UTF-8, told apart by the last byte. */
  predicate IsLineSeparator(s: Bytes, last: nat) {
    |s| >= 3 && s[0] as int == 0xE2 && s[1] as int == 0x80 && s[2] as int == last
  }

  function Quoted(s: Bytes): Bytes {
    ['"'] + EscapeString(s) + ['"']
  }

  function DumpDouble(p: Platform, d: Double): Bytes {
    if d.Finite? then p.format17(d.r) else "null"
  }

  function Dump(p: Platform, v: Json): Bytes
    decreases v, 1
  {
    match v
    case Null => "null"
    case Bool(b) => if b then "true" else "false"
    case Int(n) => SignedDecimal(n)
    case UInt(u) => Decimal(u)
    case Dbl(d) => DumpDouble(p, d)
    case Str(s) => Quoted(s)
    case Arr(xs) => "[" + DumpItems(p, xs, true) + "]"
    case Obj(ms) => "{" + DumpMembers(p, ms, true) + "}"
  }

  function DumpItems(p: Platform, xs: seq<Json>, first: bool): Bytes
    decreases xs, 0
  {
    if xs == [] then []
    else (if first then [] else ", ") + Dump(p, xs[0]) + DumpItems(p, xs[1..], false)
  }

  function DumpMembers(p: Platform, ms: seq<Member>, first: bool): Bytes
    decreases ms, 0
  {
    if ms == [] then []
    else (if first then [] else ", ") + DumpMember(p, ms[0]) + DumpMembers(p, ms[1..], false)
  }

  function DumpMember(p: Platform, m: Member): Bytes
    decreases m, 0
  {
    Quoted(m.key) + ": " + Dump(p, m.value)
  }

  // ----- How it is printed -----

  class Output {
    var text: Bytes

    constructor ()
      ensures text == []
    {
      text := [];
    }
  }

  /** One turn of the loop over a string. */
  method DumpByte(value: Bytes, i: nat, out: Output) returns (i': nat)
    requires i < |value|
    modifies out
    ensures i < i' <= |value|
    ensures out.text == old(out.text) + EscapeHead(value[i..])
    ensures value[i'..] == value[i..][HeadLength(value[i..])..]
  {
    i' := i;
    var ch := value[i];
    if ch == '\\' {
      out.text := out.text + "\\\\";
    } else if ch == '"' {
      out.text := out.text + "\\\"";
    } else if ch == 8 as char {
      out.text := out.text + "\\b";
    } else if ch == 12 as char {
      out.text := out.text + "\\f";
    } else if ch == '\n' {
      out.text := out.text + "\\n";
    } else if ch == '\r' {
      out.text := out.text + "\\r";
    } else if ch == '\t' {
      out.text := out.text + "\\t";
    } else if ch as int <= 0x1F {
      out.text := out.text + ("\\u" + Hex4(ch));
    } else if ch as int == 0xE2 && At(value, i + 1) as int == 0x80 && At(value, i + 2) as int == 0xA8 {
      out.text := out.text + "\\u2028";
      i' := i + 2;
    } else if ch as int == 0xE2 && At(value, i + 1) as int == 0x80 && At(value, i + 2) as int == 0xA9 {
      out.text := out.text + "\\u2029";
      i' := i + 2;
    } else {
      out.text := out.text + [ch];
    }
    i' := i' + 1;
  }

  method DumpString(value: Bytes, out: Output)
    modifies out
    ensures out.text == old(out.text) + Quoted(value)
  {
    hide EscapeHead, HeadLength, EscapeString;
    ghost var start := out.text + ['"'];
    out.text := out.text + ['"'];
    var i := 0;
    assert value[0..] == value;
    while i < |value|
      invariant i <= |value|
      invariant start + EscapeString(value) == out.text + EscapeString(value[i..])
    {
      ghost var before, s := out.text, value[i..];
      EscapeStep(s);
      i := DumpByte(value, i, out);
      Associate(before, EscapeHead(s), EscapeString(value[i..]));
    }
    EscapeNothing(value[i..]);
    assert out.text + [] == out.text;
    QuotedAfter(old(out.text), value);
    out.text := out.text + ['"'];
  }

  lemma EscapeStep(s: Bytes)
    requires s != []
    ensures EscapeString(s) == EscapeHead(s) + EscapeString(s[HeadLength(s)..])
  {
  }

  lemma EscapeNothing(s: Bytes)
    requires s == []
    ensures EscapeString(s) == []
  {
  }

  lemma QuotedAfter(a: Bytes, s: Bytes)
    ensures a + Quoted(s) == a + ['"'] + EscapeString(s) + ['"']
  {
    hide EscapeString;
  }

  /** One turn of the loop over an array. */
  method DumpItem(p: Platform, v: Json, first: bool, out: Output)
    modifies out
    ensures out.text == old(out.text) + ((if first then [] else ", ") + Dump(p, v))
    decreases v, 2
  {
    if !first { out.text := out.text + ", "; }
    DumpJson(p, v, out);
    Associate(old(out.text), if first then [] else ", ", Dump(p, v));
  }

  method DumpArray(p: Platform, values: seq<Json>, out: Output)
    modifies out
    ensures out.text == old(out.text) + Dump(p, Arr(values))
    decreases values, 0
  {
    out.text := out.text + "[";
    ghost var start := out.text;
    assert values[0..] == values;
    for k := 0 to |values|
      invariant start + DumpItems(p, values, true) == out.text + DumpItems(p, values[k..], k == 0)
    {
      ghost var before, comma: Bytes := out.text, if k == 0 then [] else ", ";
      assert values[k..][1..] == values[k + 1..];
      DumpItem(p, values[k], k == 0, out);
      Associate(before, comma + Dump(p, values[k]), DumpItems(p, values[k + 1..], false));
    }
    assert out.text + [] == out.text;
    out.text := out.text + "]";
  }

  /** One turn of the loop over an object. */
  method DumpEntry(p: Platform, m: Member, first: bool, out: Output)
    modifies out
    ensures out.text == old(out.text) + ((if first then [] else ", ") + DumpMember(p, m))
    decreases m, 0
  {
    if !first { out.text := out.text + ", "; }
    DumpString(m.key, out);
    out.text := out.text + ": ";
    DumpJson(p, m.value, out);
    Associate5(old(out.text), if first then [] else ", ", Quoted(m.key), ": ", Dump(p, m.value));
    Associate(Quoted(m.key), ": ", Dump(p, m.value));
  }

  method DumpObject(p: Platform, values: seq<Member>, out: Output)
    modifies out
    ensures out.text == old(out.text) + Dump(p, Obj(values))
    decreases values, 0
  {
    out.text := out.text + "{";
    ghost var start := out.text;
    assert values[0..] == values;
    for k := 0 to |values|
      invariant start + DumpMembers(p, values, true) == out.text + DumpMembers(p, values[k..], k == 0)
    {
      ghost var before, comma: Bytes := out.text, if k == 0 then [] else ", ";
      assert values[k..][1..] == values[k + 1..];
      DumpEntry(p, values[k], k == 0, out);
      Associate(before, comma + DumpMember(p, values[k]), DumpMembers(p, values[k + 1..], false));
    }
    assert out.text + [] == out.text;
    out.text := out.text + "}";
  }

  method DumpJson(p: Platform, v: Json, out: Output)
    modifies out
    ensures out.text == old(out.text) + Dump(p, v)
    decreases v, 1
  {
    match v
    case Str(s) => DumpString(s, out);
    case Arr(xs) => DumpArray(p, xs, out);
    case Obj(ms) => DumpObject(p, ms, out);
    case Null => out.text := out.text + "null";
    case Bool(b) => out.text := out.text + if b then "true" else "false";
    case Int(n) => out.text := out.text + SignedDecimal(n);
    case UInt(u) => out.text := out.text + Decimal(u);
    case Dbl(d) => out.text := out.text + DumpDouble(p, d);
  }
}
