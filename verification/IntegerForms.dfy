/** The INTEGER encoding byte by byte: what a length looks like, what the bytes denote,
    and what a cut encoding decodes to. */
module IntegerForms {
  import opened Common
  import opened IntegerOer

  // ----- Lengths -----

  /** Below 128 one byte; otherwise the number of bytes plus 128, then the length without
      a leading zero. */
  lemma LengthForms(n: nat) returns (bs: Octets)
    requires n <= SIZE_MAX
    ensures n < 128 ==> LengthBytes(n) == [n]
    ensures n >= 128 ==> 1 <= |bs| <= 8 && bs[0] != 0 && Unsigned(bs) == n && LengthBytes(n) == [128 + |bs|] + bs
  {
    bs := NatBytes(n);
    NatBytesShort(n);
    NatBytesDenote(n);
    hide NatBytes, Unsigned;
  }

  lemma {:induction false} SkipZerosKeepsValue(bs: Octets)
    ensures Unsigned(SkipZeros(bs)) == Unsigned(bs) && |SkipZeros(bs)| <= |bs|
    ensures SkipZeros(bs) != [] ==> SkipZeros(bs)[0] != 0
  {
    if bs != [] && bs[0] == 0 {
      SkipZerosKeepsValue(bs[1..]);
      ScaleUp(1, |bs| - 1);
    }
  }

  /** Every length in the long form is read, with leading zeros or not, unless it
      exceeds half of the size range. */
  lemma LongFormRead(bs: Octets, rest: Octets)
    requires |bs| < 128
    ensures var r := FetchLength([128 + |bs|] + (bs + rest));
      if Unsigned(bs) > 0x7FFF_FFFF_FFFF_FFFF then r == Invalid
      else r.Length? && r.consumed == 1 + |bs| && r.length == Unsigned(bs)
  {
    hide SkipZeros, Unsigned, Pow256, Scale;
    var s := [128 + |bs|] + (bs + rest);
    AfterFirst(128 + |bs|, bs, rest);
    SkipZerosKeepsValue(bs);
    if |SkipZeros(bs)| > 8 { MoreThanEight(SkipZeros(bs)); }
  }

  lemma AfterFirst(b: Octet, bs: Octets, rest: Octets)
    ensures var s := [b] + (bs + rest);
      |s| == 1 + |bs| + |rest| && s[0] == b && s[1..1 + |bs|] == bs
  {
    var s := [b] + (bs + rest);
    assert s[1..] == bs + rest;
  }

  lemma MoreThanEight(b: Octets)
    requires |b| > 8 && b[0] != 0
    ensures Unsigned(b) > RSIZE_MAX
  {
    NotFewer(b, true);
    PowMonotone(8, |b| - 1);
    hide Unsigned;
    assert Pow256(8) == SIZE_MAX + 1;
  }

  // ----- What the bytes denote -----

  /** Big-endian, and negative when the leading bit is set. */
  lemma BytesDenote(bs: Octets, b: Octet)
    ensures Unsigned([]) == 0 && Unsigned(bs + [b]) == 256 * Unsigned(bs) + b
    ensures Signed([b]) == if b >= 128 then b - 256 else b as int
    ensures bs != [] ==> Signed(bs + [b]) == 256 * Signed(bs) + b
  {
    UnsignedAppend(bs, b);
    if bs != [] {
      SignedRange(bs);
      SignedRange(bs + [b]);
    }
  }

  /** With a width, exactly that many bytes are written and they denote the integer. */
  lemma FixedWidthDenotes(ct: Constraint, st: Octets)
    requires 0 < |st| <= SIZE_MAX && ct.width > 0 && Encoded(ct, st).Some?
    ensures |Encoded(ct, st).value| == ct.width
    ensures ValueOf(Encoded(ct, st).value, ct.positive) == Signed(st)
  {
    var u := Stripped(st, ct.positive);
    StrippedKeepsValue(st, ct.positive);
    SignedRange(st);
    hide Stripped, Signed, Unsigned;
    PadKeepsValue(ct.width - |u|, u, ct.positive);
  }

  /** Any bytes of the width are read as the integer they denote, and nothing more; a
      large unsigned one is stored with a zero in front. */
  lemma FixedWidthRead(ct: Constraint, s: Octets, beyond: Octet)
    requires ct.width > 0
    ensures |s| < ct.width ==> DecodeSpec(ct, s, beyond) == WantMore
    ensures |s| >= ct.width ==> var r := DecodeSpec(ct, s, beyond);
      r.Done? && r.consumed == ct.width && r.st != [] && Signed(r.st) == ValueOf(s[..ct.width], ct.positive)
      && r.st == if ct.positive && s[0] >= 128 then [0] + s[..ct.width] else s[..ct.width]
  {
    assert s[0..] == s;
    if |s| >= ct.width {
      StoredDenotes(ct, s[..ct.width]);
      assert [] + s[..ct.width] == s[..ct.width];
    }
    hide Signed, Unsigned;
  }

  /** The same for bytes after a length. With no bytes, the sign test looks at what comes
      next, and a large byte there makes the stored value a single zero. */
  lemma DelimitedRead(ct: Constraint, s: Octets, beyond: Octet)
    requires ct.width == 0
    ensures FetchLength(s) == Starved ==> DecodeSpec(ct, s, beyond) == WantMore
    ensures FetchLength(s) == Invalid ==> DecodeSpec(ct, s, beyond) == Failed
    ensures FetchLength(s).Length? ==>
      var t, n := s[FetchLength(s).consumed..], FetchLength(s).length;
      var r := DecodeSpec(ct, s, beyond);
      if n > |t| then r == WantMore
      else
        r.Done? && r.consumed == |s| - |t| + n
        && (n > 0 ==> Signed(r.st) == ValueOf(t[..n], ct.positive))
        && r.st == if ct.positive && (if t == [] then beyond else t[0]) >= 128 then [0] + t[..n] else t[..n]
  {
    hide FetchLength;
    if FetchLength(s).Length? {
      var t, n := s[FetchLength(s).consumed..], FetchLength(s).length;
      if n <= |t| {
        assert [] + t[..n] == t[..n];
        if n > 0 { StoredDenotes(ct, t[..n]); }
      }
    }
    hide Signed, Unsigned;
  }

  // ----- Reading a part -----

  lemma LengthIgnoresRest(s: Octets, t: Octets)
    requires !FetchLength(s).Starved?
    ensures FetchLength(s + t) == FetchLength(s)
  {
    hide SkipZeros, Unsigned;
    var first: int := s[0];
    if 128 <= first < 128 + |s| { assert (s + t)[1..first - 127] == s[1..first - 127]; }
  }

  /** Bytes that are not read have no influence, except that with no content the sign
      test looks at the first of them. */
  lemma DecodeIgnoresRest(ct: Constraint, s: Octets, t: Octets, beyond: Octet)
    requires !DecodeSpec(ct, s, if t == [] then beyond else t[0]).WantMore?
    ensures DecodeSpec(ct, s + t, beyond) == DecodeSpec(ct, s, if t == [] then beyond else t[0])
  {
    if ct.width == 0 { LengthIgnoresRest(s, t); }
    var head := if ct.width > 0 then Length(0, ct.width) else FetchLength(s);
    hide FetchLength, Stored;
    if head.Length? {
      var u := s[head.consumed..];
      assert (s + t)[head.consumed..] == u + t;
      assert (u + t)[..head.length] == u[..head.length];
    }
  }

  /** An encoding cut anywhere asks for more. */
  lemma CutAsksForMore(ct: Constraint, st: Octets, k: nat, beyond: Octet)
    requires 0 < |st| <= RSIZE_MAX && Encoded(ct, st).Some? && k < |Encoded(ct, st).value|
    ensures DecodeSpec(ct, Encoded(ct, st).value[..k], beyond) == WantMore
  {
    var e := Encoded(ct, st).value;
    hide Stripped;
    RoundTrip(ct, st, [], beyond);
    hide DecodeSpec, Encoded, Signed;
    assert e + [] == e && e[..k] + e[k..] == e;
    Outcome(ct, e[..k], beyond, e[k]);
    if !DecodeSpec(ct, e[..k], e[k]).WantMore? { DecodeIgnoresRest(ct, e[..k], e[k..], beyond); }
  }

  /** Whether more is wanted does not depend on the byte after the input. */
  lemma Outcome(ct: Constraint, s: Octets, a: Octet, b: Octet)
    ensures DecodeSpec(ct, s, a).WantMore? == DecodeSpec(ct, s, b).WantMore?
    ensures DecodeSpec(ct, s, b).Done? ==> DecodeSpec(ct, s, b).consumed <= |s|
  {
    hide FetchLength, Stored;
  }
}
