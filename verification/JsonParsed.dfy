/** What the parser can return: a value the C++ types allow, within the depth limit.
    So every text that parses can be printed and parsed again. */
module JsonParsed {
  import opened JsonValue
  import opened JsonOrder
  import opened JsonText
  import opened JsonPrinter
  import opened JsonGrammar
  import opened JsonNumbers
  import opened JsonEscapes
  import opened JsonSyntax
  import opened JsonRoundTrip

  // ----- Objects are maps -----

  function AsMap(ms: seq<Member>): map<Bytes, Json> {
    if ms == [] then map[] else AsMap(ms[1..])[ms[0].key := ms[0].value]
  }

  lemma {:induction false} MapKeys(ms: seq<Member>, key: Bytes)
    ensures key in AsMap(ms) <==> exists i :: 0 <= i < |ms| && ms[i].key == key
  {
    if ms != [] {
      MapKeys(ms[1..], key);
      if key in AsMap(ms[1..]) {
        var i :| 0 <= i < |ms[1..]| && ms[1..][i].key == key;
        assert ms[i + 1].key == key;
      }
      if i :| 0 <= i < |ms| && ms[i].key == key && key != ms[0].key {
        assert ms[1..][i - 1].key == key;
      }
    }
  }

  lemma {:induction false} InsertMembers(ms: seq<Member>, key: Bytes, value: Json, i: nat)
    requires i < |Insert(ms, key, value)|
    ensures var m := Insert(ms, key, value)[i]; m == Member(key, value) || m in ms
  {
    if ms != [] && i > 0 && !LessBytes(key, ms[0].key) && key != ms[0].key {
      InsertMembers(ms[1..], key, value, i - 1);
    }
  }

  /** Keys stay in ascending order, with one member a key, and the value is stored
      under its key alone: a repeated key keeps its last value. */
  lemma {:induction false} InsertIsUpdate(ms: seq<Member>, key: Bytes, value: Json)
    requires Ascending(ms)
    ensures Ascending(Insert(ms, key, value))
    ensures AsMap(Insert(ms, key, value)) == AsMap(ms)[key := value]
  {
    hide LessBytes, Ascending;
    var r := Insert(ms, key, value);
    if ms == [] || LessBytes(key, ms[0].key) {
      InsertFront(ms, key, value);
      assert r[1..] == ms;
    } else if key == ms[0].key {
      InsertSame(ms, value);
      assert r[1..] == ms[1..];
    } else {
      TailAscends(ms);
      InsertIsUpdate(ms[1..], key, value);
      assert r[1..] == Insert(ms[1..], key, value);
      InsertBehind(ms, key, value);
    }
  }

  lemma InsertFront(ms: seq<Member>, key: Bytes, value: Json)
    requires Ascending(ms) && (ms != [] ==> LessBytes(key, ms[0].key))
    ensures Ascending([Member(key, value)] + ms)
  {
    hide LessBytes;
    forall j | 0 <= j < |ms| ensures LessBytes(key, ms[j].key) {
      if j > 0 { LessTransitive(key, ms[0].key, ms[j].key); }
    }
  }

  lemma InsertSame(ms: seq<Member>, value: Json)
    requires Ascending(ms) && ms != []
    ensures Ascending([Member(ms[0].key, value)] + ms[1..])
  {
    hide LessBytes;
    var r := [Member(ms[0].key, value)] + ms[1..];
    assert forall k :: 0 <= k < |r| ==> r[k].key == ms[k].key;
  }

  lemma TailAscends(ms: seq<Member>)
    requires Ascending(ms) && ms != []
    ensures Ascending(ms[1..])
  {
    hide LessBytes;
  }

  /** A greater key goes behind the first member. */
  lemma InsertBehind(ms: seq<Member>, key: Bytes, value: Json)
    requires Ascending(ms) && ms != [] && !LessBytes(key, ms[0].key) && key != ms[0].key
    requires Ascending(Insert(ms[1..], key, value))
    ensures Ascending(Insert(ms, key, value))
  {
    hide LessBytes;
    var r := Insert(ms, key, value);
    assert r[1..] == Insert(ms[1..], key, value);
    GreaterIsLess(ms[0].key, key);
    forall j | 1 <= j < |r| ensures LessBytes(ms[0].key, r[j].key) {
      InsertMembers(ms[1..], key, value, j - 1);
      if r[j] in ms[1..] {
        var k :| 0 <= k < |ms[1..]| && ms[1..][k] == r[j];
        assert LessBytes(ms[0].key, ms[k + 1].key);
      }
    }
    HeadFirst(r);
  }

  lemma GreaterIsLess(x: Bytes, y: Bytes)
    requires !LessBytes(y, x) && x != y
    ensures LessBytes(x, y)
  {
    BytesAntisymmetric(x, y);
    BytesAntisymmetric(y, x);
  }

  /** The last value written under each key. */
  ghost function LastValues(p: Platform, m: map<Bytes, Json>, es: seq<Entry>): map<Bytes, Json>
    requires ProperEntries(es)
    decreases |es|
  {
    if es == [] then m
    else LastValues(p, m[Encode(Units(es[0].key)) := Meaning(p, es[0].value)], es[1..])
  }

  /** What an object text means is a map from its keys, in order and without repetition,
      to the last value written under each. */
  lemma {:induction false} CollectKeepsLast(p: Platform, data: seq<Member>, es: seq<Entry>)
    requires ProperEntries(es) && Ascending(data)
    ensures Ascending(Collect(p, data, es)) && AsMap(Collect(p, data, es)) == LastValues(p, AsMap(data), es)
    decreases |es|
  {
    if es != [] {
      hide AsMap, Insert, LessBytes, Encode, Units, Meaning, Ascending;
      var key, value := Encode(Units(es[0].key)), Meaning(p, es[0].value);
      InsertIsUpdate(data, key, value);
      CollectKeepsLast(p, Insert(data, key, value), es[1..]);
    }
  }

  lemma HeadFirst(ms: seq<Member>)
    requires ms != [] && Ascending(ms[1..])
    requires forall j :: 1 <= j < |ms| ==> LessBytes(ms[0].key, ms[j].key)
    ensures Ascending(ms)
  {
    forall i, j | 0 <= i < j < |ms| ensures LessBytes(ms[i].key, ms[j].key) {
      if i > 0 { assert ms[i] == ms[1..][i - 1] && ms[j] == ms[1..][j - 1]; }
    }
  }

  lemma LessTransitive(x: Bytes, y: Bytes, z: Bytes)
    requires LessBytes(x, y) && LessBytes(y, z)
    ensures LessBytes(x, z)
  {
    BytesAntisymmetric(x, y);
    BytesAntisymmetric(y, z);
    BytesAntisymmetric(x, z);
    BytesTransitive(x, y, z);
  }

  // ----- What parsing returns -----

  /** `strtod` returns doubles. */
  ghost predicate ReturnsDoubles(p: Platform) {
    forall t: Bytes :: p.strtod(t).Finite? ==> p.isDouble(p.strtod(t).r)
  }

  /** A C library whose doubles are the integers. */
  const INTEGRAL := Platform(
    (n: int) => n as real,
    (t: Bytes) => if IsIntegerText(t) then Finite(IntegerValue(t) as real) else Infinite(false),
    (r: real) => r == r.Floor as real,
    (r: real) => SignedDecimal(r.Floor))

  /** The promises asked of the C library are consistent. */
  lemma PromisesCanBeKept()
    ensures Conforms(INTEGRAL) && ReturnsDoubles(INTEGRAL) && INTEGRAL.isDouble(1000000.0)
  {
    forall r: real ensures IsNumberText(SignedDecimal(r.Floor)) && IsIntegerText(SignedDecimal(r.Floor))
                           && IntegerValue(SignedDecimal(r.Floor)) == r.Floor {
      SignedDecimalDenotes(r.Floor);
      DecimalIsNumberText(r.Floor);
    }
  }

  /** The value is one the C++ types allow, and fits below `depth` containers. */
  ghost predicate Fits(p: Platform, v: Json, depth: nat) {
    WellFormed(p, v) && depth + Nest(v) <= MAX_DEPTH
  }

  ghost predicate ItemsFit(p: Platform, xs: seq<Json>, depth: nat) {
    forall i :: 0 <= i < |xs| ==> Fits(p, xs[i], depth)
  }

  ghost predicate MembersFit(p: Platform, ms: seq<Member>, depth: nat) {
    Ascending(ms) && forall i :: 0 <= i < |ms| ==> Fits(p, ms[i].value, depth)
  }

  lemma {:induction false} ItemsFitTogether(p: Platform, xs: seq<Json>, depth: nat)
    requires ItemsFit(p, xs, depth)
    ensures WellFormedItems(p, xs) && (xs != [] ==> depth + NestItems(xs) <= MAX_DEPTH)
  {
    if xs != [] {
      assert Fits(p, xs[0], depth);
      ItemsFitTogether(p, xs[1..], depth);
    }
  }

  lemma {:induction false} MembersFitTogether(p: Platform, ms: seq<Member>, depth: nat)
    requires MembersFit(p, ms, depth)
    ensures WellFormedMembers(p, ms) && (ms != [] ==> depth + NestMembers(ms) <= MAX_DEPTH)
  {
    if ms != [] {
      assert Fits(p, ms[0].value, depth);
      MembersFitTogether(p, ms[1..], depth);
    }
  }

  lemma InsertFits(p: Platform, ms: seq<Member>, key: Bytes, value: Json, depth: nat)
    requires MembersFit(p, ms, depth) && Fits(p, value, depth)
    ensures MembersFit(p, Insert(ms, key, value), depth)
  {
    InsertIsUpdate(ms, key, value);
    forall i | 0 <= i < |Insert(ms, key, value)| ensures Fits(p, Insert(ms, key, value)[i].value, depth) {
      InsertMembers(ms, key, value, i);
    }
  }

  lemma {:induction false} ValueFits(d: Dialect, s: Bytes, depth: nat)
    requires ReturnsDoubles(d.platform) && ParseValue(d, s, depth).Ok?
    ensures Fits(d.platform, ParseValue(d, s, depth).value, depth)
    decreases |s|, 0
  {
    hide AfterBrace, AfterBracket, ParseText, ParseNumber;
    var n := NextToken(d.strategy, s);
    var ch, t := n.value, n.rest;
    if ch == '-' || IsDigit(ch) {
      NumberFits(d.platform, t, depth);
    } else if ch == '"' {
      TextFits(d.platform, t[1..], depth);
    } else if ch == '{' {
      BraceFits(d, t[1..], depth);
    } else if ch == '[' {
      BracketFits(d, t[1..], depth);
    }
  }

  lemma NumberFits(p: Platform, s: Bytes, depth: nat)
    requires ReturnsDoubles(p) && ParseNumber(p, s).Ok? && depth <= MAX_DEPTH
    ensures Fits(p, ParseNumber(p, s).value, depth)
  {
  }

  lemma TextFits(p: Platform, s: Bytes, depth: nat)
    requires ParseText(s).Ok? && depth <= MAX_DEPTH
    ensures Fits(p, ParseText(s).value, depth)
  {
  }

  lemma {:induction false} BracketFits(d: Dialect, s: Bytes, depth: nat)
    requires ReturnsDoubles(d.platform) && AfterBracket(d, s, depth).Ok? && depth <= MAX_DEPTH
    ensures Fits(d.platform, AfterBracket(d, s, depth).value, depth)
    decreases |s|, 3
  {
    var n := NextToken(d.strategy, s);
    if n.value != ']' { ParsedItemsFit(d, n.rest, depth, []); }
  }

  lemma {:induction false} ParsedItemsFit(d: Dialect, s: Bytes, depth: nat, data: seq<Json>)
    requires ReturnsDoubles(d.platform) && ParseItems(d, s, depth, data).Ok?
    requires ItemsFit(d.platform, data, depth + 1)
    ensures Fits(d.platform, ParseItems(d, s, depth, data).value, depth)
    decreases |s|, 1
  {
    hide ParseValue;
    ValueFits(d, s, depth + 1);
    var v := ParseValue(d, s, depth + 1);
    var data' := data + [v.value];
    var c := Separator(d, v.rest, ']');
    if c.value {
      ItemsFitTogether(d.platform, data', depth + 1);
    } else {
      ParsedItemsFit(d, c.rest, depth, data');
    }
  }

  lemma {:induction false} BraceFits(d: Dialect, s: Bytes, depth: nat)
    requires ReturnsDoubles(d.platform) && AfterBrace(d, s, depth).Ok? && depth <= MAX_DEPTH
    ensures Fits(d.platform, AfterBrace(d, s, depth).value, depth)
    decreases |s|, 3
  {
    var n := NextToken(d.strategy, s);
    if n.value != '}' { ParsedMembersFit(d, n.rest, depth, []); }
  }

  lemma {:induction false} ParsedMembersFit(d: Dialect, s: Bytes, depth: nat, data: seq<Member>)
    requires ReturnsDoubles(d.platform) && ParseMembers(d, s, depth, data).Ok?
    requires MembersFit(d.platform, data, depth + 1)
    ensures Fits(d.platform, ParseMembers(d, s, depth, data).value, depth)
    decreases |s|, 2
  {
    hide ParseValue, ParseKey, Insert;
    var key := ParseKey(d, s);
    ValueFits(d, key.rest, depth + 1);
    var v := ParseValue(d, key.rest, depth + 1);
    InsertFits(d.platform, data, key.value, v.value, depth + 1);
    var data' := Insert(data, key.value, v.value);
    var c := Separator(d, v.rest, '}');
    if c.value {
      InsertNonEmpty(data, key.value, v.value);
      MembersFitTogether(d.platform, data', depth + 1);
    } else {
      ParsedMembersFit(d, c.rest, depth, data');
    }
  }

  lemma InsertNonEmpty(ms: seq<Member>, key: Bytes, value: Json)
    ensures Insert(ms, key, value) != []
  {
  }

  /** Whatever text a value was parsed from, printing it gives a text that parses too,
      under either strategy; the value comes back equal exactly when no number text
      was too large for a double. */
  lemma ParsedValueReprints(d: Dialect, s: Bytes, strategy: Strategy)
    requires Conforms(d.platform) && ReturnsDoubles(d.platform) && ParseDocument(d, s).Ok?
    ensures var v := ParseDocument(d, s).value;
      var r := ParseDocument(d.(strategy := strategy), Dump(d.platform, v));
      r.Ok? && (Equals(d.platform, r.value, v) <==> AllFinite(v))
  {
    hide ParseValue, Dump, Equals;
    ValueFits(d, s, 0);
    ParseUndoesPrint(d.(strategy := strategy), ParseDocument(d, s).value);
  }
}
