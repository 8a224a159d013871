/** The BIT STRING encoding bit by bit: which octets a length takes, what stands in front
    of a value, and what a cut encoding decodes to. */
module BitStringForms {
  import opened Common
  import opened BitStream
  import opened BitString
  import opened BitStringPer

  // ----- Bits and numbers -----

  lemma MostSignificantFirst(b: bv8)
    ensures ByteBits(b) == [b & 0x80 != 0, b & 0x40 != 0, b & 0x20 != 0, b & 0x10 != 0,
                            b & 0x08 != 0, b & 0x04 != 0, b & 0x02 != 0, b & 0x01 != 0]
  {
    EachBit(b);
    hide BitIn8;
  }

  lemma EachBit(b: bv8)
    ensures BitIn8(b, 0) == (b & 0x80 != 0) && BitIn8(b, 1) == (b & 0x40 != 0)
    ensures BitIn8(b, 2) == (b & 0x20 != 0) && BitIn8(b, 3) == (b & 0x10 != 0)
    ensures BitIn8(b, 4) == (b & 0x08 != 0) && BitIn8(b, 5) == (b & 0x04 != 0)
    ensures BitIn8(b, 6) == (b & 0x02 != 0) && BitIn8(b, 7) == (b & 0x01 != 0)
  {
  }

  /** A leading bit counts as much as all bits after it and one. */
  lemma {:induction false} LeadingBit(x: bool, r: Bits)
    ensures BitsNat([x] + r) == BitsNat(r) + if x then Pow2(|r|) else 0
    ensures Pow2(0) == 1 && Pow2(|r| + 1) == 2 * Pow2(|r|)
  {
    var s := [x] + r;
    if r == [] {
      assert s[..0] == [];
    } else {
      var m := |r| - 1;
      LeadingBit(x, r[..m]);
      assert s[..|s| - 1] == [x] + r[..m];
    }
  }

  // ----- Lengths -----

  /** The shortest form of a length: one octet up to 127, two octets below 16384, and
      otherwise one octet for up to four blocks of 16384 bits, as many as there are. */
  lemma LengthForms(n: nat)
    ensures n < 128 ==> |PutLengthSpec(n).bits| == 8 && BitsNat(PutLengthSpec(n).bits) == n
    ensures 128 <= n < 16384 ==> |PutLengthSpec(n).bits| == 16 && BitsNat(PutLengthSpec(n).bits) == 0x8000 + n
    ensures n < 16384 ==> PutLengthSpec(n).units == n && !PutLengthSpec(n).needEom
    ensures n >= 16384 ==> |PutLengthSpec(n).bits| == 8
    ensures 16384 <= n < 32768 ==> BitsNat(PutLengthSpec(n).bits) == 0xC1 && PutLengthSpec(n).units == 16384
    ensures 32768 <= n < 49152 ==> BitsNat(PutLengthSpec(n).bits) == 0xC2 && PutLengthSpec(n).units == 32768
    ensures 49152 <= n < 65536 ==> BitsNat(PutLengthSpec(n).bits) == 0xC3 && PutLengthSpec(n).units == 49152
    ensures n >= 65536 ==> BitsNat(PutLengthSpec(n).bits) == 0xC4 && PutLengthSpec(n).units == 65536
    ensures PutLengthSpec(n).needEom <==> n == 16384 || n == 32768 || n == 49152 || n == 65536
  {
    if n < 16384 { OctetForms(n); } else { BlockForms(n); }
    hide NatBits, BitsNat, PutLengthSpec;
  }

  lemma OctetForms(n: nat)
    requires n < 16384
    ensures PutLengthSpec(n).units == n && !PutLengthSpec(n).needEom
    ensures if n < 128 then |PutLengthSpec(n).bits| == 8 && BitsNat(PutLengthSpec(n).bits) == n
            else |PutLengthSpec(n).bits| == 16 && BitsNat(PutLengthSpec(n).bits) == 0x8000 + n
  {
    PowersOfTwo();
    hide NatBits, BitsNat, Pow2;
    if n < 128 { NatBitsRoundTrip(n, 8); } else { NatBitsRoundTrip(n + 0x8000, 16); }
  }

  lemma BlockForms(n: nat)
    requires n >= 16384
    ensures var m := if n >= 65536 then 4 else if n >= 49152 then 3 else if n >= 32768 then 2 else 1;
      && |PutLengthSpec(n).bits| == 8 && BitsNat(PutLengthSpec(n).bits) == 0xC0 + m
      && PutLengthSpec(n).units == 16384 * m && (PutLengthSpec(n).needEom <==> n == 16384 * m)
  {
    PowersOfTwo();
    hide NatBits, BitsNat, Pow2;
    NatBitsRoundTrip(0xC0 + if n / 16384 > 4 then 4 else n / 16384, 8);
  }

  /** Every form of a length that can be read, also those that are not the shortest. */
  lemma LengthsRead(s: Bits, effectiveBits: int, lower: nat)
    requires effectiveBits < 0 || effectiveBits > 16
    ensures |s| < 8 ==> GetLengthSpec(s, effectiveBits, lower).value < 0
    ensures |s| >= 8 && BitsNat(s[..8]) < 0x80 ==>
      GetLengthSpec(s, effectiveBits, lower) == LengthRead(BitsNat(s[..8]), false, 8)
    ensures |s| < 16 && (|s| >= 8 ==> 0x80 <= BitsNat(s[..8]) < 0xC0) ==> GetLengthSpec(s, effectiveBits, lower).value < 0
    ensures |s| >= 16 && 0x8000 <= BitsNat(s[..16]) < 0xC000 ==>
      GetLengthSpec(s, effectiveBits, lower) == LengthRead(BitsNat(s[..16]) - 0x8000, false, 16)
    ensures |s| >= 8 && 0xC1 <= BitsNat(s[..8]) <= 0xC4 ==>
      GetLengthSpec(s, effectiveBits, lower) == LengthRead(16384 * (BitsNat(s[..8]) - 0xC0), true, 8)
    ensures |s| >= 8 && (BitsNat(s[..8]) == 0xC0 || BitsNat(s[..8]) > 0xC4) ==>
      GetLengthSpec(s, effectiveBits, lower).value < 0
  {
    if |s| >= 16 {
      PowersOfTwo();
      assert s[..16] == s[..8] + s[8..16];
      BitsNatConcat(s[..8], s[8..16]);
      ShiftByEight(BitsNat(s[..8]));
    }
    hide BitsNat, Pow2, Shift;
  }

  // ----- Whole values -----

  /** What is written is the value up to its last bit that is set. */
  lemma ContentForm(st: BitStr)
    ensures Content(st) <= Unpack(st.buf)
    ensures Content(st) != [] ==> Content(st)[|Content(st)| - 1]
    ensures forall k :: |Content(st)| <= k < 8 * |st.buf| ==> !Unpack(st.buf)[k]
  {
    hide Unpack;
  }

  /** In the root: a clear extension bit, the length above the lower bound, the value
      and zeros up to the lower bound. */
  lemma RootForm(c: SizeConstraint, st: BitStr) returns (field: Bits)
    requires c.WellFormed() && Accepts(st) && c.effectiveBits >= 0 && |Content(st)| <= c.upper
    ensures |field| == c.effectiveBits
    ensures c.lower + BitsNat(field) == if |Content(st)| < c.lower then c.lower else |Content(st)|
    ensures var zeros := seq(if |Content(st)| < c.lower then c.lower - |Content(st)| else 0, _ => false);
      Encoded(c, st) == Some((if c.extensible then [false] else []) + (field + (Content(st) + zeros)))
  {
    var v := Content(st);
    hide Content;
    RootParts(c, v);
    field := NatBits(|Padded(c, v)| - c.lower, c.effectiveBits);
    NatBitsRoundTrip(|Padded(c, v)| - c.lower, c.effectiveBits);
    hide NatBits, BitsNat, Pow2, RootBits;
    assert Zeros(if |v| < c.lower then c.lower - |v| else 0) == seq(if |v| < c.lower then c.lower - |v| else 0, _ => false);
  }

  /** Outside the root: a set extension bit and fragments; without an upper bound the
      extension bit stays clear. */
  lemma OpenForm(c: SizeConstraint, st: BitStr)
    requires Accepts(st)
    ensures c.effectiveBits >= 0 && c.extensible && |Content(st)| > c.upper ==>
      Encoded(c, st) == Some([true] + Fragments(Content(st)))
    ensures c.effectiveBits < 0 && c.extensible ==> Encoded(c, st) == Some([false] + Fragments(Content(st)))
    ensures c.effectiveBits < 0 && !c.extensible ==> Encoded(c, st) == Some(Fragments(Content(st)))
    ensures c.effectiveBits >= 0 && !c.extensible && |Content(st)| > c.upper ==> Encoded(c, st) == None
  {
    hide Content, Fragments;
    assert [] + Fragments(Content(st)) == Fragments(Content(st));
  }

  /** A first fragment of whole blocks is followed by a zero octet when nothing is left,
      and by the fragments of what is left otherwise. */
  lemma FragmentForms(v: Bits) returns (f: Bits)
    ensures |v| < 128 ==> |f| == 8 && BitsNat(f) == |v| && Fragments(v) == f + v
    ensures 128 <= |v| < 16384 ==> |f| == 16 && BitsNat(f) == 0x8000 + |v| && Fragments(v) == f + v
    ensures |v| >= 16384 ==>
      var m := if |v| >= 65536 then 4 else |v| / 16384;
      |f| == 8 && BitsNat(f) == 0xC0 + m
      && Fragments(v) == f + v[..16384 * m] + if |v| == 16384 * m then seq(8, _ => false) else Fragments(v[16384 * m..])
  {
    f := PutLengthSpec(|v|).bits;
    LengthForms(|v|);
    ZeroLength();
    var n := PutLengthSpec(|v|).units;
    FragmentsStep(v);
    hide PutLengthSpec, BitsNat, Fragments;
    assert |v| < 16384 ==> v[..n] == v && f + v + [] == f + v;
    assert f + v[..n] + [] == f + v[..n];
  }

  lemma ZeroLength()
    ensures PutLengthSpec(0).bits == seq(8, _ => false)
  {
    assert NatBits(0, 3) == [false, false, false];
    assert NatBits(0, 6) == [false, false, false, false, false, false];
  }

  // ----- What is read -----

  /** Bits are kept as they are, with zeros up to a whole byte and so many unused bits. */
  lemma PackedForm(v: Bits)
    ensures Unpack(Packed(v).buf) == v + seq(8 * ((|v| + 7) / 8) - |v|, _ => false)
    ensures Packed(v).unused == 8 * ((|v| + 7) / 8) - |v|
  {
    UnpackPack(v);
    hide Pack, Unpack;
  }

  /** An extension bit that is set lifts the constraint. */
  lemma ExtensionRead(c: SizeConstraint, x: bool, s: Bits)
    ensures c.extensible ==>
      DecodeSpec(c, []) == WantMore
      && DecodeSpec(c, [x] + s) == After(1, ReadBody(if x then SizeConstraint(false, -1, 0, 0) else c, s))
    ensures !c.extensible ==> DecodeSpec(c, s) == ReadBody(c, s)
  {
    hide ReadBody;
    assert ([x] + s)[1..] == s;
  }

  /** A fixed length, and one written above the lower bound: the decoder reads whatever
      length it finds, also one beyond the upper bound. */
  lemma RootRead(c: SizeConstraint, s: Bits)
    requires 0 <= c.effectiveBits <= 16
    ensures |s| < c.effectiveBits ==> ReadBody(c, s) == WantMore
    ensures |s| >= c.effectiveBits ==>
      var t := s[c.effectiveBits..];
      var n := if c.effectiveBits == 0 then c.upper else c.lower + BitsNat(s[..c.effectiveBits]);
      ReadBody(c, s) == if |t| < n then WantMore else Done(Packed(t[..n]), c.effectiveBits + n)
  {
    hide BitsNat;
    if |s| >= c.effectiveBits {
      var t := s[c.effectiveBits..];
      var n := if c.effectiveBits == 0 then c.upper else c.lower + BitsNat(s[..c.effectiveBits]);
      if |t| >= n {
        var w := t[..n];
        assert s == s[..c.effectiveBits] + (w + t[n..]);
        if c.effectiveBits == 0 { FixedRead(c, w, t[n..]); assert s == w + t[n..]; }
        else { BitStringPer.RootRead(c, w, s[..c.effectiveBits], t[n..]); }
      } else {
        ShortRoot(c, s, n);
      }
    }
  }

  lemma ShortRoot(c: SizeConstraint, s: Bits, n: nat)
    requires 0 <= c.effectiveBits <= 16 && c.effectiveBits <= |s| < c.effectiveBits + n
    requires n == if c.effectiveBits == 0 then c.upper else c.lower + BitsNat(s[..c.effectiveBits])
    ensures ReadBody(c, s) == WantMore
  {
    hide BitsNat;
  }

  /** Without a constraint: the first length decides, and a block is followed by more. */
  lemma OpenRead(s: Bits)
    ensures var c := SizeConstraint(false, -1, 0, 0);
      && (|s| >= 8 && BitsNat(s[..8]) < 0x80 && |s| >= 8 + BitsNat(s[..8]) ==>
            ReadBody(c, s) == Done(Packed(s[8..8 + BitsNat(s[..8])]), 8 + BitsNat(s[..8])))
      && (|s| >= 16 && 0x8000 <= BitsNat(s[..16]) < 0xC000 && |s| >= 16 + (BitsNat(s[..16]) - 0x8000) ==>
            ReadBody(c, s) == Done(Packed(s[16..16 + (BitsNat(s[..16]) - 0x8000)]), 16 + (BitsNat(s[..16]) - 0x8000)))
  {
    LengthsRead(s, -1, 0);
    hide BitsNat, GetLengthSpec, Pack, ReadFragments;
    var n := GetLengthSpec(s, -1, 0);
    if n.value >= 0 && !n.repeat && |s| >= n.used + n.value { OneFragment(s); }
  }

  lemma OneFragment(s: Bits)
    requires var n := GetLengthSpec(s, -1, 0); n.value >= 0 && !n.repeat && |s| >= n.used + n.value
    ensures var n := GetLengthSpec(s, -1, 0);
      ReadBody(SizeConstraint(false, -1, 0, 0), s) == Done(Packed(s[n.used..n.used + n.value]), n.used + n.value)
  {
    hide GetLengthSpec, Pack;
    var n := GetLengthSpec(s, -1, 0);
    assert s[n.used..][..n.value] == s[n.used..n.used + n.value];
    assert [] + Pack(s[n.used..n.used + n.value]) == Pack(s[n.used..n.used + n.value]);
    UnusedAfterFirst(n.value);
  }

  // ----- Reading a part -----

  lemma LengthIgnoresRest(s: Bits, t: Bits, effectiveBits: int, lower: nat)
    requires GetLengthSpec(s, effectiveBits, lower).value >= 0
    ensures GetLengthSpec(s + t, effectiveBits, lower) == GetLengthSpec(s, effectiveBits, lower)
  {
    hide BitsNat;
    if 0 <= effectiveBits <= 16 {
      assert (s + t)[..effectiveBits] == s[..effectiveBits];
    } else {
      assert (s + t)[..8] == s[..8];
      if |s| >= 16 { assert (s + t)[8..16] == s[8..16]; }
    }
  }

  lemma {:induction false} FragmentsIgnoreRest(
    s: Bits, t: Bits, effectiveBits: int, lower: nat, buf: Octets, hasBuf: bool, unused: int)
    requires ReadFragments(s, effectiveBits, lower, buf, hasBuf, unused).Done?
    ensures ReadFragments(s + t, effectiveBits, lower, buf, hasBuf, unused)
         == ReadFragments(s, effectiveBits, lower, buf, hasBuf, unused)
    decreases |s|
  {
    hide GetLengthSpec, Pack, UnusedAfter;
    var n := GetLengthSpec(s, effectiveBits, lower);
    LengthIgnoresRest(s, t, effectiveBits, lower);
    if !(n.value == 0 && hasBuf) {
      var u := s[n.used..];
      assert (s + t)[n.used..] == u + t;
      assert (u + t)[..n.value] == u[..n.value] && (u + t)[n.value..] == u[n.value..] + t;
      if n.repeat {
        FragmentsIgnoreRest(u[n.value..], t, effectiveBits, lower, buf + Pack(u[..n.value]), true, UnusedAfter(n.value, unused));
      }
    }
  }

  lemma BodyIgnoresRest(c: SizeConstraint, s: Bits, t: Bits)
    requires ReadBody(c, s).Done?
    ensures ReadBody(c, s + t) == ReadBody(c, s)
  {
    hide ReadFragments, Pack;
    if c.effectiveBits == 0 {
      assert (s + t)[..c.upper] == s[..c.upper];
    } else {
      FragmentsIgnoreRest(s, t, c.effectiveBits, c.lower, [], c.effectiveBits > 0, 0);
    }
  }

  /** Bits that are not read have no influence. */
  lemma DecodeIgnoresRest(c: SizeConstraint, s: Bits, t: Bits)
    requires DecodeSpec(c, s).Done?
    ensures DecodeSpec(c, s + t) == DecodeSpec(c, s)
  {
    hide ReadBody;
    if c.extensible {
      assert (s + t)[1..] == s[1..] + t;
      BodyIgnoresRest(if s[0] then UNCONSTRAINED else c, s[1..], t);
    } else {
      BodyIgnoresRest(c, s, t);
    }
  }

  /** An encoding cut anywhere asks for more: no encoding is the start of another. */
  lemma CutAsksForMore(c: SizeConstraint, st: BitStr, k: nat)
    requires c.WellFormed() && Encoded(c, st).Some? && k < |Encoded(c, st).value|
    ensures DecodeSpec(c, Encoded(c, st).value[..k]) == WantMore
  {
    var e := Encoded(c, st).value;
    RoundTrip(c, st, []);
    assert e + [] == e;
    hide DecodeSpec, Encoded, Expected, SizeConstraint.WellFormed;
    CutAsks(c, e, k);
  }

  lemma CutAsks(c: SizeConstraint, e: Bits, k: nat)
    requires k < |e| && DecodeSpec(c, e).Done? && DecodeSpec(c, e).used == |e|
    ensures DecodeSpec(c, e[..k]) == WantMore
  {
    hide DecodeSpec;
    assert e[..k] + e[k..] == e;
    if DecodeSpec(c, e[..k]).Done? { DecodeIgnoresRest(c, e[..k], e[k..]); }
  }
}
