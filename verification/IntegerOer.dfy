/** The INTEGER codec of the octet encoding rules (sections 10 and 8.6 of X.696). */
module IntegerOer {
  import opened Common

  type Octet = n: int | 0 <= n < 256
  type Octets = seq<Octet>

  /** `width` is 0 when the value is unbounded; `positive` marks an unsigned range. */
  datatype Constraint = Constraint(width: nat, positive: bool)

  const SIZE_MAX := 0xFFFF_FFFF_FFFF_FFFF
  const RSIZE_MAX := SIZE_MAX / 2

  // ----- The integer that bytes denote -----

  /** `x * 256^n`. */
  function Scale(x: int, n: nat): int {
    if n == 0 then x else 256 * Scale(x, n - 1)
  }

  function Pow256(n: nat): int { Scale(1, n) }

  function Unsigned(bs: Octets): int {
    if bs == [] then 0 else Scale(bs[0], |bs| - 1) + Unsigned(bs[1..])
  }

  /** A leading byte with the sign bit counted as negative. */
  function SignedByte(b: Octet): int {
    var n: int := b;
    if n >= 128 then n - 256 else n
  }

  /** Two's complement. */
  function Signed(bs: Octets): int {
    if bs == [] then 0
    else Scale(SignedByte(bs[0]), |bs| - 1) + Unsigned(bs[1..])
  }

  /** 2 to the power 8 n - 1. */
  function Half(n: nat): int
    requires n > 0
  {
    Scale(128, n - 1)
  }

  /** The value can be written in the width the constraint gives. */
  predicate Fits(ct: Constraint, v: int) {
    if ct.width == 0 then ct.positive ==> v >= 0
    else InWidth(ct.width, ct.positive, v)
  }

  predicate InWidth(width: nat, positive: bool, v: int)
    requires width > 0
  {
    if positive then 0 <= v < Pow256(width) else -Half(width) <= v < Half(width)
  }

  lemma {:induction false} ScaleAdd(x: int, y: int, n: nat)
    ensures Scale(x + y, n) == Scale(x, n) + Scale(y, n)
  {
    if n > 0 { ScaleAdd(x, y, n - 1); }
  }

  lemma {:induction false} ScaleMonotone(x: int, y: int, n: nat)
    requires x <= y
    ensures Scale(x, n) <= Scale(y, n)
  {
    if n > 0 { ScaleMonotone(x, y, n - 1); }
  }

  lemma {:induction false} ScaleUp(x: int, n: nat)
    ensures Scale(256 * x, n) == Scale(x, n + 1)
    ensures Scale(0, n) == 0 && Scale(1, n) > 0 && Scale(-x, n) == -Scale(x, n)
  {
    if n > 0 { ScaleUp(x, n - 1); }
  }

  lemma {:induction false} UnsignedBound(bs: Octets)
    ensures 0 <= Unsigned(bs) < Pow256(|bs|)
  {
    if bs != [] {
      var m := |bs| - 1;
      UnsignedBound(bs[1..]);
      ScaleMonotone(0, bs[0], m);
      ScaleMonotone(bs[0], 255, m);
      ScaleAdd(255, 1, m);
      ScaleUp(1, m);
    }
  }

  lemma LeadingByte(bs: Octets)
    requires bs != []
    ensures Unsigned(bs) == Scale(bs[0], |bs| - 1) + Unsigned(bs[1..])
    ensures Signed(bs) == Scale(SignedByte(bs[0]), |bs| - 1) + Unsigned(bs[1..])
  {
  }

  lemma SignedRange(bs: Octets)
    requires bs != []
    ensures -Half(|bs|) <= Signed(bs) < Half(|bs|)
    ensures Signed(bs) < 0 <==> bs[0] >= 128
    ensures Signed(bs) == if bs[0] >= 128 then Unsigned(bs) - Pow256(|bs|) else Unsigned(bs)
  {
    LeadingByte(bs);
    UnsignedBound(bs[1..]);
    ByteRange(bs[0], |bs| - 1, Unsigned(bs[1..]));
  }

  /** A leading byte before `m` bytes that denote `r`, read as signed. */
  lemma ByteRange(b: Octet, m: nat, r: int)
    requires 0 <= r < Pow256(m)
    ensures var v := Scale(SignedByte(b), m) + r;
      && -Scale(128, m) <= v < Scale(128, m)
      && (v < 0 <==> b >= 128)
      && v == if b >= 128 then Scale(b, m) + r - Pow256(m + 1) else Scale(b, m) + r
  {
    var s := SignedByte(b);
    ScaleUp(128, m);
    ScaleUp(1, m);
    ScaleMonotone(-128, s, m);
    ScaleMonotone(s, 127, m);
    ScaleAdd(127, 1, m);
    ScaleAdd(s, 256, m);
    if b >= 128 { ScaleMonotone(s, -1, m); } else { ScaleMonotone(0, s, m); }
  }

  lemma {:induction false} PowMonotone(m: nat, n: nat)
    requires m <= n
    ensures Pow256(m) <= Pow256(n) && Scale(128, m) <= Scale(128, n)
    decreases n
  {
    if m < n {
      PowMonotone(m, n - 1);
      ScaleMonotone(0, 1, n - 1);
      ScaleMonotone(0, 128, n - 1);
      ScaleUp(1, n - 1);
    }
  }

  // ----- Stripping redundant leading bytes -----

  /** The first byte adds nothing to the value. */
  predicate Redundant(bs: Octets, positive: bool) {
    |bs| > 1 &&
    if positive then bs[0] == 0
    else (bs[0] == 0 && bs[1] < 128) || (bs[0] == 0xFF && bs[1] >= 128)
  }

  function Stripped(bs: Octets, positive: bool): (r: Octets)
    ensures |r| <= |bs| && (bs != [] ==> r != [])
    ensures !Redundant(r, positive)
  {
    if Redundant(bs, positive) then Stripped(bs[1..], positive) else bs
  }

  /** The value the codec reads bytes as. */
  function ValueOf(bs: Octets, positive: bool): int {
    if positive then Unsigned(bs) else Signed(bs)
  }

  lemma {:induction false} StrippedKeepsValue(bs: Octets, positive: bool)
    ensures ValueOf(Stripped(bs, positive), positive) == ValueOf(bs, positive)
    ensures !positive && bs != [] ==> (Stripped(bs, positive)[0] >= 128 <==> bs[0] >= 128)
  {
    if Redundant(bs, positive) {
      StrippedKeepsValue(bs[1..], positive);
      ScaleUp(1, |bs| - 1);
      ScaleUp(1, |bs| - 2);
      if !positive {
        SignedRange(bs[1..]);
      }
    }
  }

  /** Without a redundant byte the value does not fit in fewer bytes. */
  lemma NotFewer(bs: Octets, positive: bool)
    requires |bs| > 1 && !Redundant(bs, positive)
    ensures positive ==> Unsigned(bs) >= Pow256(|bs| - 1)
    ensures !positive ==> !(-Half(|bs| - 1) <= Signed(bs) < Half(|bs| - 1))
  {
    var m, b: int, c: int := |bs| - 1, bs[0], bs[1];
    UnsignedBound(bs[1..]);
    UnsignedBound(bs[2..]);
    assert Unsigned(bs[1..]) == Scale(c, m - 1) + Unsigned(bs[2..]);
    ScaleUp(1, m);
    ScaleUp(128, m - 1);
    ScaleUp(1, m - 1);
    ScaleMonotone(128, 256, m - 1);
    if 0 < b < 128 {
      ScaleMonotone(1, b, m);
    } else if 128 <= b < 255 {
      ScaleMonotone(1, b, m);
      ScaleMonotone(-256 + b, -2, m);
      ScaleAdd(-1, -1, m);
    } else if c >= 128 {
      ScaleMonotone(128, c, m - 1);
      ScaleMonotone(1, 255, m);
    } else {
      ScaleMonotone(c, 127, m - 1);
      ScaleAdd(127, 1, m - 1);
      ScaleAdd(-256, 128, m - 1);
      ScaleUp(256, m - 1);
      ScaleMonotone(1, 255, m);
    }
  }

  /** The stripped value needs its bytes: it fits in a width exactly when they do. */
  lemma FitsIffShort(bs: Octets, positive: bool, width: nat)
    requires bs != [] && width > 0
    ensures InWidth(width, positive, ValueOf(bs, positive)) <==> |Stripped(bs, positive)| <= width
  {
    var u := Stripped(bs, positive);
    StrippedKeepsValue(bs, positive);
    SignedRange(u);
    UnsignedBound(u);
    if |u| <= width {
      PowMonotone(|u|, width);
      PowMonotone(|u| - 1, width - 1);
    } else {
      NotFewer(u, positive);
      PowMonotone(width, |u| - 1);
      PowMonotone(width - 1, |u| - 2);
    }
  }

  /** No shorter string of bytes denotes the same value. */
  lemma StrippedIsShortest(bs: Octets, positive: bool, other: Octets)
    requires bs != [] && other != [] && ValueOf(other, positive) == ValueOf(bs, positive)
    ensures |Stripped(bs, positive)| <= |other|
  {
    UnsignedBound(other);
    SignedRange(other);
    FitsIffShort(bs, positive, |other|);
  }

  // ----- Length determinants (section 8.6 of X.696) -----

  /** Big-endian bytes without leading zeros. */
  function NatBytes(n: nat): (r: Octets)
    ensures r != []
  {
    if n < 256 then [n] else NatBytes(n / 256) + [n % 256]
  }

  /** `oer_serialize_length`. */
  function LengthBytes(n: nat): (r: Octets)
    requires n <= SIZE_MAX
    ensures r != []
  {
    if n <= 127 then [n]
    else
      NatBytesShort(n);
      [0x80 + |NatBytes(n)|] + NatBytes(n)
  }

  lemma {:induction false} NatBytesLength(n: nat, k: nat)
    requires k > 0 && n < Pow256(k)
    ensures |NatBytes(n)| <= k
  {
    if n >= 256 {
      assert Pow256(1) == 256;
      NatBytesLength(n / 256, k - 1);
    }
  }

  lemma NatBytesShort(n: nat)
    requires n <= SIZE_MAX
    ensures |NatBytes(n)| <= 8
  {
    assert Pow256(8) == SIZE_MAX + 1;
    NatBytesLength(n, 8);
  }

  lemma {:induction false} UnsignedAppend(bs: Octets, b: Octet)
    ensures Unsigned(bs + [b]) == 256 * Unsigned(bs) + b
  {
    if bs == [] {
      assert [] + [b] == [b];
    } else {
      UnsignedAppend(bs[1..], b);
      assert (bs + [b])[1..] == bs[1..] + [b];
    }
  }

  lemma {:induction false} NatBytesDenote(n: nat)
    ensures Unsigned(NatBytes(n)) == n
    ensures n > 0 ==> NatBytes(n)[0] != 0
  {
    if n >= 256 {
      NatBytesDenote(n / 256);
      UnsignedAppend(NatBytes(n / 256), n % 256);
    }
  }

  datatype Fetched = Starved | Invalid | Length(consumed: nat, length: nat)

  function SkipZeros(bs: Octets): Octets {
    if bs != [] && bs[0] == 0 then SkipZeros(bs[1..]) else bs
  }

  /** `oer_fetch_length`. */
  function FetchLength(s: Octets): (r: Fetched)
    ensures r.Length? ==> 0 < r.consumed <= |s|
  {
    if s == [] then Starved
    else if s[0] < 128 then Length(1, s[0])
    else
      var n := s[0] - 128;
      if 1 + n > |s| then Starved
      else
        var b := SkipZeros(s[1..1 + n]);
        UnsignedBound(b);
        if |b| > 8 || Unsigned(b) > RSIZE_MAX then Invalid
        else Length(1 + n, Unsigned(b))
  }

  /** A written length is read back when the platform can hold it. */
  lemma LengthRoundTrip(n: nat, rest: Octets)
    requires n <= SIZE_MAX
    ensures FetchLength(LengthBytes(n) + rest)
         == if n <= RSIZE_MAX then Length(|LengthBytes(n)|, n) else Invalid
  {
    if n > 127 {
      NatBytesShort(n);
      NatBytesDenote(n);
      var s := LengthBytes(n) + rest;
      assert s[1..1 + |NatBytes(n)|] == NatBytes(n);
    }
  }

  // ----- The codec -----

  function Pad(n: nat, b: Octet): (r: Octets)
    ensures |r| == n
  {
    seq(n, _ => b)
  }

  /** What `INTEGER_encode_oer` writes. */
  function Encoded(ct: Constraint, st: Octets): Option<Octets>
    requires |st| <= SIZE_MAX
  {
    if st == [] || (ct.positive && st[0] >= 128) then None
    else
      var u := Stripped(st, ct.positive);
      if ct.width == 0 then Some(LengthBytes(|u|) + u)
      else if |u| > ct.width then None
      else Some(Pad(ct.width - |u|, if st[0] >= 128 then 0xFF else 0) + u)
  }

  /** `INTEGER_encode_oer`: the bytes handed to the callback and their number. */
  method EncodeOer(ct: Constraint, st: Octets) returns (ok: bool, output: Octets, encoded: nat)
    requires |st| <= SIZE_MAX
    ensures ok <==> Encoded(ct, st).Some?
    ensures ok ==> output == Encoded(ct, st).value && encoded == |output|
  {
    output, encoded := [], 0;
    if |st| == 0 { return false, output, encoded; }
    var sign := st[0] >= 128;
    if ct.positive && sign { return false, output, encoded; }
    var buf := SkipRedundant(st, ct.positive);
    var usefulBytes := |st| - buf;
    var reqBytes := ct.width;
    EncodedParts(ct, st, st[buf..]);
    hide Stripped, LengthBytes, Pad, Encoded;
    if ct.width == 0 {
      output := LengthBytes(usefulBytes);
      encoded := |output|;
      reqBytes := usefulBytes;
    }
    if reqBytes < usefulBytes { return false, output, encoded; }
    encoded := encoded + reqBytes;
    var padding := WritePadding(reqBytes, usefulBytes, sign);
    output := output + padding + st[buf..];
    ok := true;
  }

  /** The output is made of a length, padding and the stripped bytes. */
  lemma EncodedParts(ct: Constraint, st: Octets, u: Octets)
    requires 0 < |st| <= SIZE_MAX && !(ct.positive && st[0] >= 128) && u == Stripped(st, ct.positive)
    ensures var head := if ct.width == 0 then LengthBytes(|u|) else [];
      var n := if ct.width == 0 then |u| else ct.width;
      Encoded(ct, st) == if n < |u| then None else Some(head + Pad(n - |u|, if st[0] >= 128 then 0xFF else 0) + u)
  {
    hide Stripped, LengthBytes, Pad;
    var b := if st[0] >= 128 then 0xFF else 0;
    if ct.width == 0 {
      EmptyMiddle(LengthBytes(|u|), Pad(0, b), u);
    } else if |u| <= ct.width {
      EmptyFirst(Pad(ct.width - |u|, b), u);
    }
  }

  /** The loop over redundant leading bytes. */
  method SkipRedundant(st: Octets, positive: bool) returns (buf: nat)
    requires st != []
    ensures buf < |st| && st[buf..] == Stripped(st, positive)
  {
    buf := 0;
    assert st[0..] == st;
    while buf + 1 < |st|
      invariant buf < |st|
      invariant Stripped(st[buf..], positive) == Stripped(st, positive)
    {
      if positive {
        if st[buf] != 0 { break; }
      } else {
        if !((st[buf] == 0 && st[buf + 1] < 128) || (st[buf] == 0xFF && st[buf + 1] >= 128)) { break; }
      }
      assert st[buf..][1..] == st[buf + 1..];
      buf := buf + 1;
    }
  }

  /** The padding loop: one callback per byte. */
  method WritePadding(required: nat, usefulBytes: nat, sign: bool) returns (output: Octets)
    requires usefulBytes <= required
    ensures output == Pad(required - usefulBytes, if sign then 0xFF else 0)
  {
    output := [];
    var reqBytes := required;
    while reqBytes > usefulBytes
      invariant usefulBytes <= reqBytes <= required
      invariant output == Pad(required - reqBytes, if sign then 0xFF else 0)
    {
      output := output + [if sign then 0xFF else 0];
      reqBytes := reqBytes - 1;
    }
  }

  datatype Decoded = WantMore | Failed | Done(st: Octets, consumed: nat)

  /** The bytes of an integer, with a zero in front of a large unsigned one. `first`
      is the byte the sign test looks at. */
  function Stored(ct: Constraint, first: Octet, bytes: Octets): Octets {
    (if ct.positive && first >= 128 then [0] else []) + bytes
  }

  /** What `INTEGER_decode_oer` returns. With no content bytes the sign test reads the
      byte after them, which is `beyond` when the input ends there. */
  function DecodeSpec(ct: Constraint, s: Octets, beyond: Octet): Decoded {
    var head := if ct.width > 0 then Length(0, ct.width) else FetchLength(s);
    match head
    case Starved => WantMore
    case Invalid => Failed
    case Length(consumed, n) =>
      var t := s[consumed..];
      if n > |t| then WantMore
      else Done(Stored(ct, if t == [] then beyond else t[0], t[..n]), consumed + n)
  }

  /** `INTEGER_decode_oer`. */
  method DecodeOer(ct: Constraint, input: Octets, beyond: Octet) returns (r: Decoded)
    ensures r == DecodeSpec(ct, input, beyond)
  {
    var consumed, reqBytes, ptr := 0, ct.width, input;
    if ct.width == 0 {
      var fetched := FetchLength(input);
      if fetched.Starved? { return WantMore; }
      if fetched.Invalid? { return Failed; }
      consumed, reqBytes := fetched.consumed, fetched.length;
      ptr := input[consumed..];
    }
    assert ptr == input[consumed..];
    if reqBytes > |ptr| { return WantMore; }
    if ct.positive {
      var first := if ptr == [] then beyond else ptr[0];
      var msb := first / 128;
      var st := if msb == 1 then [0] + ptr[..reqBytes] else ptr[..reqBytes];
      assert msb == 0 ==> [] + ptr[..reqBytes] == ptr[..reqBytes];
      return Done(st, consumed + reqBytes);
    }
    assert [] + ptr[..reqBytes] == ptr[..reqBytes];
    return Done(ptr[..reqBytes], consumed + reqBytes);
  }

  // ----- Main results -----

  /** Padding with the sign byte keeps the value. */
  lemma {:induction false} PadKeepsValue(n: nat, u: Octets, positive: bool)
    requires u != []
    ensures var b := if !positive && u[0] >= 128 then 0xFF else 0;
      ValueOf(Pad(n, b) + u, positive) == ValueOf(u, positive)
  {
    var b := if !positive && u[0] >= 128 then 0xFF else 0;
    var w := Pad(n, b) + u;
    if n == 0 {
      assert w == u;
    } else {
      PadKeepsValue(n - 1, u, positive);
      assert w[1..] == Pad(n - 1, b) + u;
      assert Redundant(w, positive);
      OneLess(w, positive);
    }
  }

  lemma OneLess(bs: Octets, positive: bool)
    requires Redundant(bs, positive)
    ensures ValueOf(bs[1..], positive) == ValueOf(bs, positive)
  {
    StrippedKeepsValue(bs, positive);
    StrippedKeepsValue(bs[1..], positive);
  }

  /** Encoding succeeds exactly when the integer fits the constraint. */
  lemma EncodesIffFits(ct: Constraint, st: Octets)
    requires 0 < |st| <= SIZE_MAX
    ensures Encoded(ct, st).Some? <==> Fits(ct, Signed(st))
  {
    SignedRange(st);
    if ct.width > 0 { FitsIffShort(st, ct.positive, ct.width); }
  }

  /** Without a width, the content is the shortest that denotes the integer. */
  lemma UnboundedIsShortest(ct: Constraint, st: Octets, other: Octets)
    requires 0 < |st| <= SIZE_MAX && ct.width == 0 && Encoded(ct, st).Some?
    requires other != [] && ValueOf(other, ct.positive) == Signed(st)
    ensures exists u :: 0 < |u| <= SIZE_MAX && Encoded(ct, st) == Some(LengthBytes(|u|) + u) && |u| <= |other| && ValueOf(u, ct.positive) == Signed(st)
  {
    var u := Stripped(st, ct.positive);
    SignedRange(st);
    StrippedKeepsValue(st, ct.positive);
    StrippedIsShortest(st, ct.positive, other);
    assert Encoded(ct, st) == Some(LengthBytes(|u|) + u);
  }

  /** Decoding what was encoded, followed by anything, gives back the integer and
      consumes what was written. The one exception is a length the decoder's check on
      `RSIZE_MAX` refuses, which no object in memory can have. */
  lemma RoundTrip(ct: Constraint, st: Octets, rest: Octets, beyond: Octet)
    requires 0 < |st| <= SIZE_MAX && Encoded(ct, st).Some?
    ensures var e := Encoded(ct, st).value;
      var r := DecodeSpec(ct, e + rest, beyond);
      if ct.width == 0 && |Stripped(st, ct.positive)| > RSIZE_MAX then r == Failed
      else r.Done? && r.consumed == |e| && r.st != [] && Signed(r.st) == Signed(st)
  {
    var u := Stripped(st, ct.positive);
    StrippedKeepsValue(st, ct.positive);
    SignedRange(st);
    hide Stripped, LengthBytes, Unsigned, Signed, Stored, FetchLength;
    if ct.width == 0 {
      LengthDelimited(ct, u, rest, beyond);
      StoredDenotes(ct, u);
    } else {
      var w := Pad(ct.width - |u|, if st[0] >= 128 then 0xFF else 0) + u;
      PadKeepsValue(ct.width - |u|, u, ct.positive);
      FixedWidth(ct, w, rest, beyond);
      StoredDenotes(ct, w);
    }
  }

  lemma LengthDelimited(ct: Constraint, u: Octets, rest: Octets, beyond: Octet)
    requires ct.width == 0 && 0 < |u| <= SIZE_MAX
    ensures DecodeSpec(ct, LengthBytes(|u|) + u + rest, beyond)
         == if |u| > RSIZE_MAX then Failed else Done(Stored(ct, u[0], u), |LengthBytes(|u|)| + |u|)
  {
    var l := LengthBytes(|u|);
    LengthRoundTrip(|u|, u + rest);
    hide LengthBytes, FetchLength, Stored;
    var s := l + u + rest;
    assert s == l + (u + rest);
    assert s[|l|..] == u + rest;
    assert (u + rest)[..|u|] == u;
  }

  lemma FixedWidth(ct: Constraint, w: Octets, rest: Octets, beyond: Octet)
    requires |w| == ct.width > 0
    ensures DecodeSpec(ct, w + rest, beyond) == Done(Stored(ct, w[0], w), |w|)
  {
    var s := w + rest;
    assert s[0..] == s && s[..|w|] == w;
  }

  lemma StoredDenotes(ct: Constraint, w: Octets)
    requires w != []
    ensures var st := Stored(ct, w[0], w); st != [] && Signed(st) == ValueOf(w, ct.positive)
  {
    SignedRange(w);
    if ct.positive && w[0] >= 128 {
      var st := [0] + w;
      ScaleUp(1, |w|);
      assert st[1..] == w;
    } else {
      assert [] + w == w;
    }
  }
}
