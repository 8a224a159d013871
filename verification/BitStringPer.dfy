/** BIT STRING in the unaligned PER encoding (section 16 of X.691). */
module BitStringPer {
  import opened Common
  import opened BitStream
  import opened BitString

  /** A size constraint; `effectiveBits` is negative when there is no usable upper bound. */
  datatype SizeConstraint = SizeConstraint(extensible: bool, effectiveBits: int, lower: nat, upper: nat) {
    /** What the generated tables guarantee: a length field, if there is one, has at
        most 16 bits and can hold every length in the range. */
    ghost predicate WellFormed() {
      effectiveBits >= 0 ==>
        effectiveBits <= 16 && lower <= upper && upper - lower < Pow2(effectiveBits)
    }
  }

  const UNCONSTRAINED := SizeConstraint(false, -1, 0, 0)

  // ----- What is written -----

  /** The value without its trailing zeros. */
  function Content(st: BitStr): Bits {
    Unpack(st.buf)[..Significant(Unpack(st.buf))]
  }

  /** Blocks of at most 64K bits, each after its length; a last block of whole 16K
      units is followed by a zero length. */
  function Fragments(v: Bits): Bits
    decreases |v|
  {
    var n := PutLengthSpec(|v|).units;
    FirstFragment(v) + (if n < |v| then Fragments(v[n..]) else [])
  }

  function FirstFragment(v: Bits): Bits {
    var p := PutLengthSpec(|v|);
    p.bits + v[..p.units] + (if p.needEom then PutLengthSpec(0).bits else [])
  }

  predicate Accepts(st: BitStr) {
    st.Sane() && 0 <= st.unused < 8
  }

  /** Whether the length lies in the root of the constraint. */
  predicate InRoot(c: SizeConstraint, n: nat) {
    c.effectiveBits >= 0 && n <= c.upper
  }

  function Encoded(c: SizeConstraint, st: BitStr): Option<Bits> {
    var v := Content(st);
    if !Accepts(st) then None
    else if InRoot(c, |v|) then
      if c.effectiveBits >= 32 then None
      else Some((if c.extensible then [false] else []) + RootBits(c, v))
    else if c.effectiveBits >= 0 && !c.extensible then None
    else Some((if c.extensible then [c.effectiveBits >= 0] else []) + Fragments(v))
  }

  /** The length field, the value, and zeros up to the lower bound. */
  function RootBits(c: SizeConstraint, v: Bits): Bits
    requires c.effectiveBits >= 0
  {
    NatBits(if |v| < c.lower then 0 else |v| - c.lower, c.effectiveBits) + Padded(c, v)
  }

  function Padded(c: SizeConstraint, v: Bits): Bits {
    v + Zeros(if |v| < c.lower then c.lower - |v| else 0)
  }

  /** `BIT_STRING_encode_uper`; without a constraint the length is unconstrained. */
  method EncodeUper(c: Option<SizeConstraint>, st: BitStr, po: BitOut) returns (ok: bool)
    modifies po
    ensures var e := Encoded(if c.Some? then c.value else UNCONSTRAINED, st);
      (ok <==> e.Some?) && (ok ==> po.bits == old(po.bits) + e.value)
  {
    if !st.Sane() || st.unused < 0 || st.unused > 7 {
      return false;
    }
    hide RootBits, Fragments, Unpack, Significant;
    var csiz := if c.Some? then c.value else UNCONSTRAINED;
    var extensible := csiz.extensible;
    var size, unused := Compactify(st);
    var sizeInBits := 8 * size - unused;
    var inext := false;
    if csiz.effectiveBits >= 0 {
      if sizeInBits > csiz.upper {
        if extensible {
          csiz := UNCONSTRAINED;
          inext := true;
        } else {
          return false;
        }
      }
    }
    ghost var prefix: Bits := [];
    if extensible {
      var put := po.PutFewBits(if inext then 1 else 0, 1);
      OneBit(inext);
      prefix := [inext];
    }
    assert po.bits == old(po.bits) + prefix;
    ghost var body;
    if csiz.effectiveBits >= 0 && !inext {
      ok := PutRoot(csiz, st, sizeInBits, po);
      body := RootBits(csiz, Content(st));
    } else {
      PutFragments(st, sizeInBits, po);
      ok, body := true, Fragments(Content(st));
    }
    Associate(old(po.bits), prefix, body);
  }

  lemma OneBit(b: bool)
    ensures NatBits(if b then 1 else 0, 1) == [b]
  {
    assert NatBits(0, 0) == [];
    assert [] + [b] == [b];
  }

  method PutRoot(c: SizeConstraint, st: BitStr, sizeInBits: nat, po: BitOut) returns (ok: bool)
    requires 0 <= c.effectiveBits && sizeInBits == |Content(st)|
    modifies po
    ensures ok <==> c.effectiveBits < 32
    ensures ok ==> po.bits == old(po.bits) + RootBits(c, Content(st))
  {
    var addTrailer := sizeInBits < c.lower;
    ghost var field := NatBits(if addTrailer then 0 else sizeInBits - c.lower, c.effectiveBits);
    ok := po.PutFewBits(if addTrailer then 0 else sizeInBits - c.lower, c.effectiveBits);
    if !ok { return; }
    po.PutManyBits(st.buf, sizeInBits);
    ghost var start := po.bits;
    assert start == old(po.bits) + field + Content(st);
    if addTrailer {
      var trailing := c.lower - sizeInBits;
      var zeros: Octets := seq(16, _ => 0);
      while trailing > 0
        invariant 0 <= trailing <= c.lower - sizeInBits
        invariant po.bits == start + Zeros(c.lower - sizeInBits - trailing)
      {
        var n := if trailing > 128 then 128 else trailing;
        ZeroBytes(16);
        po.PutManyBits(zeros, n);
        assert Unpack(zeros)[..n] == Zeros(n);
        trailing := trailing - n;
      }
    }
    var n := if addTrailer then c.lower - sizeInBits else 0;
    if !addTrailer { assert start + Zeros(0) == start; }
    assert po.bits == start + Zeros(n);
    Associate(old(po.bits), field, Content(st));
    Associate(old(po.bits), field + Content(st), Zeros(n));
    Associate(field, Content(st), Zeros(n));
    assert Padded(c, Content(st)) == Content(st) + Zeros(n);
  }

  lemma {:induction false} ZeroBytes(n: nat)
    ensures Unpack(seq(n, _ => 0)) == Zeros(8 * n)
  {
    var zeros: Octets := seq(n, _ => 0);
    forall k: nat | k < 8 * n ensures !Unpack(zeros)[k] {
      UnpackAt(zeros, k / 8, k % 8);
      ZeroByte(k % 8);
    }
  }

  method PutFragments(st: BitStr, size: nat, po: BitOut)
    requires size == |Content(st)|
    modifies po
    ensures po.bits == old(po.bits) + Fragments(Content(st))
  {
    var sizeInBits, buf := size, st.buf;
    ghost var all := Content(st);
    ghost var rest := all;
    assert StartsWith(buf, all);
    hide Content, FirstFragment, PutLengthSpec, Unpack, Fragments, StartsWith;
    while true
      invariant sizeInBits == |rest| && StartsWith(buf, rest)
      invariant po.bits + Fragments(rest) == old(po.bits) + Fragments(all)
      decreases sizeInBits
    {
      ghost var v, before := rest, po.bits;
      var maySave := PutFragment(buf, sizeInBits, po, v);
      NextFragment(buf, v);
      FragmentsStep(v);
      buf := buf[maySave / 8..];
      sizeInBits := sizeInBits - maySave;
      rest := v[maySave..];
      if sizeInBits == 0 { break; }
      Associate(before, FirstFragment(v), Fragments(rest));
    }
  }

  /** The bytes hold these bits first. */
  ghost predicate StartsWith(buf: Octets, v: Bits) {
    |v| <= 8 * |buf| && Unpack(buf)[..|v|] == v
  }

  lemma NextFragment(buf: Octets, v: Bits)
    requires StartsWith(buf, v)
    ensures var n := PutLengthSpec(|v|).units;
      n <= |v| && n / 8 <= |buf| && (n < |v| ==> n > 0 && StartsWith(buf[n / 8..], v[n..]))
  {
    hide Unpack, PutLengthSpec;
    var n := PutLengthSpec(|v|).units;
    if n < |v| {
      var m := n / 8;
      assert n == 8 * m;
      UnpackDrop(buf, m);
      assert Unpack(buf[m..])[..|v| - n] == v[n..];
    }
  }

  lemma FragmentsStep(v: Bits)
    ensures var n := PutLengthSpec(|v|).units;
      Fragments(v) == if n < |v| then FirstFragment(v) + Fragments(v[n..]) else FirstFragment(v)
  {
  }

  /** One turn of the fragment loop. */
  method PutFragment(buf: Octets, sizeInBits: nat, po: BitOut, ghost v: Bits) returns (maySave: nat)
    requires sizeInBits == |v| && StartsWith(buf, v)
    modifies po
    ensures po.bits == old(po.bits) + FirstFragment(v)
    ensures maySave == PutLengthSpec(sizeInBits).units
  {
    hide Unpack, PutLengthSpec;
    ghost var p := PutLengthSpec(sizeInBits);
    var needEom;
    maySave, needEom := PutLength(po, sizeInBits);
    po.PutManyBits(buf, maySave);
    assert Unpack(buf)[..maySave] == v[..maySave];
    Associate(old(po.bits), p.bits, v[..maySave]);
    if needEom {
      var none, dummy := PutLength(po, 0);
      Associate(old(po.bits), p.bits + v[..maySave], PutLengthSpec(0).bits);
    } else {
      assert p.bits + v[..maySave] + [] == p.bits + v[..maySave];
    }
  }

  lemma {:induction false} UnpackDrop(buf: Octets, k: nat)
    requires k <= |buf|
    ensures Unpack(buf[k..]) == Unpack(buf)[8 * k..]
  {
    if k > 0 { UnpackDrop(buf[1..], k - 1); }
  }

  // ----- What is read -----

  /** The outcome of decoding: the structure and the number of bits read. */
  datatype Decoded = WantMore | Done(st: BitStr, used: nat)

  /** The unused bits of a string of `n` bits. */
  function UnusedFor(n: nat): int { (8 - n % 8) % 8 }

  /** The unused bits after a fragment of `n` bits: they are only written by a fragment
      that does not end on a byte boundary. */
  function UnusedAfter(n: nat, unused: int): int {
    if n % 8 != 0 then 8 - n % 8 else unused
  }

  /** Fragments are appended until one does not announce another. */
  function ReadFragments(s: Bits, effectiveBits: int, lower: nat, buf: Octets, hasBuf: bool, unused: int): (r: Decoded)
    ensures r.Done? ==> r.used <= |s|
    decreases |s|
  {
    var n := GetLengthSpec(s, effectiveBits, lower);
    if n.value < 0 then WantMore
    else if n.value == 0 && hasBuf then Done(BitStr(buf, unused), n.used)
    else
      var t := s[n.used..];
      if n.value > |t| then WantMore
      else
        var buf' := buf + Pack(t[..n.value]);
        var unused' := UnusedAfter(n.value, unused);
        if !n.repeat then Done(BitStr(buf', unused'), n.used + n.value)
        else After(n.used + n.value, ReadFragments(t[n.value..], effectiveBits, lower, buf', true, unused'))
  }

  /** The same outcome with more bits already read. */
  function After(n: nat, r: Decoded): Decoded {
    match r
    case WantMore => WantMore
    case Done(st, used) => Done(st, n + used)
  }

  function ReadBody(c: SizeConstraint, s: Bits): (r: Decoded)
    ensures r.Done? ==> r.used <= |s|
  {
    if c.effectiveBits == 0 then
      if c.upper > |s| then WantMore
      else Done(BitStr(Pack(s[..c.upper]), UnusedFor(c.upper)), c.upper)
    else ReadFragments(s, c.effectiveBits, c.lower, [], c.effectiveBits > 0, 0)
  }

  /** Decoding into a fresh structure. */
  function DecodeSpec(c: SizeConstraint, s: Bits): (r: Decoded)
    ensures r.Done? ==> r.used <= |s|
  {
    if !c.extensible then ReadBody(c, s)
    else if s == [] then WantMore
    else
      After(1, ReadBody(if s[0] then UNCONSTRAINED else c, s[1..]))
  }

  /** `BIT_STRING_decode_uper` into a fresh structure. */
  method DecodeUper(c: Option<SizeConstraint>, pd: BitIn) returns (ok: bool, st: BitStr)
    requires pd.pos <= |pd.bits|
    modifies pd
    ensures old(pd.pos) <= pd.pos <= |pd.bits|
    ensures match DecodeSpec(if c.Some? then c.value else UNCONSTRAINED, old(pd.Unread()))
            case WantMore => !ok
            case Done(value, used) => ok && st == value && pd.pos == old(pd.pos) + used
  {
    st := BitStr([], 0);
    var csiz := if c.Some? then c.value else UNCONSTRAINED;
    if csiz.extensible {
      var inext := pd.GetFewBits(1);
      if inext < 0 { return false, st; }
      OneBitRead(old(pd.Unread())[..1]);
      if inext != 0 {
        csiz := UNCONSTRAINED;
      }
    }
    if csiz.effectiveBits == 0 {
      var ret, buf := pd.GetManyBits(csiz.upper);
      if !ret { return false, st; }
      return true, BitStr(buf, UnusedFor(csiz.upper));
    }
    ok, st := GetFragments(csiz, pd);
  }

  lemma OneBitRead(r: Bits)
    requires |r| == 1
    ensures BitsNat(r) == if r[0] then 1 else 0
  {
    assert r[..0] == [];
  }

  method GetFragments(c: SizeConstraint, pd: BitIn) returns (ok: bool, st: BitStr)
    requires pd.pos <= |pd.bits|
    modifies pd
    ensures old(pd.pos) <= pd.pos <= |pd.bits|
    ensures match ReadFragments(old(pd.Unread()), c.effectiveBits, c.lower, [], c.effectiveBits > 0, 0)
            case WantMore => !ok
            case Done(value, used) => ok && st == value && pd.pos == old(pd.pos) + used
  {
    ok, st := true, BitStr([], 0);
    var hasBuf := c.effectiveBits > 0;
    ghost var all := ReadFragments(pd.Unread(), c.effectiveBits, c.lower, [], hasBuf, 0);
    var repeat := true;
    while repeat
      invariant old(pd.pos) <= pd.pos <= |pd.bits| && ok
      invariant all == if repeat
                then After(pd.pos - old(pd.pos), ReadFragments(pd.Unread(), c.effectiveBits, c.lower, st.buf, hasBuf, st.unused))
                else Done(st, pd.pos - old(pd.pos))
      decreases |pd.bits| - pd.pos, repeat
    {
      ok, st, repeat := GetFragment(c, pd, st, hasBuf);
      if !ok { return; }
      hasBuf := true;
    }
  }

  /** One turn of the fragment loop. */
  method GetFragment(c: SizeConstraint, pd: BitIn, st: BitStr, hasBuf: bool) returns (ok: bool, st': BitStr, repeat: bool)
    requires pd.pos <= |pd.bits|
    modifies pd
    ensures old(pd.pos) <= pd.pos <= |pd.bits| && (ok && repeat ==> old(pd.pos) < pd.pos)
    ensures ReadFragments(old(pd.Unread()), c.effectiveBits, c.lower, st.buf, hasBuf, st.unused)
         == if !ok then WantMore
            else if !repeat then Done(st', pd.pos - old(pd.pos))
            else After(pd.pos - old(pd.pos), ReadFragments(pd.Unread(), c.effectiveBits, c.lower, st'.buf, true, st'.unused))
  {
    hide GetLengthSpec, Pack, UnusedAfter;
    st' := st;
    var rawLen;
    rawLen, repeat := GetLength(pd, c.effectiveBits, c.lower);
    if rawLen < 0 { return false, st, false; }
    if rawLen == 0 && hasBuf { return true, st, false; }
    var bytes;
    ok, bytes := pd.GetManyBits(rawLen);
    st' := BitStr(st.buf + bytes, UnusedAfter(rawLen, st.unused));
  }

  // ----- Reading back what was written -----

  /** The structure that holds exactly these bits. */
  function Packed(v: Bits): BitStr {
    BitStr(Pack(v), UnusedFor(|v|))
  }

  lemma SliceAfter(a: Bits, b: Bits)
    ensures (a + b)[..|a|] == a && (a + b)[|a|..] == b
  {
  }

  lemma UnusedAfterFirst(n: nat)
    ensures UnusedAfter(n, 0) == UnusedFor(n)
    ensures n % 8 == 0 ==> UnusedFor(n) == 0
  {
  }

  /** Reading one length that was written, and the bits announced by it. */
  lemma ReadOne(v: Bits, tail: Bits, eb: int, lower: nat, buf: Octets, hasBuf: bool)
    requires eb < 0 && (hasBuf ==> |v| > 0)
    ensures var p := PutLengthSpec(|v|);
      ReadFragments(p.bits + (v[..p.units] + tail), eb, lower, buf, hasBuf, 0)
      == if |v| < 16384 then Done(BitStr(buf + Pack(v), UnusedFor(|v|)), |p.bits| + |v|)
         else After(|p.bits| + p.units, ReadFragments(tail, eb, lower, buf + Pack(v[..p.units]), true, 0))
  {
    var p := PutLengthSpec(|v|);
    var s := p.bits + (v[..p.units] + tail);
    LengthRoundTrip(|v|, v[..p.units] + tail, eb, lower);
    UnusedAfterFirst(p.units);
    hide PutLengthSpec, GetLengthSpec, Pack, UnusedAfter, UnusedFor;
    SliceAfter(p.bits, v[..p.units] + tail);
    SliceAfter(v[..p.units], tail);
    if |v| < 16384 { assert v[..p.units] == v; }
  }

  lemma ReadEom(rest: Bits, eb: int, lower: nat, buf: Octets)
    requires eb < 0
    ensures ReadFragments(PutLengthSpec(0).bits + rest, eb, lower, buf, true, 0) == Done(BitStr(buf, 0), |PutLengthSpec(0).bits|)
  {
    LengthRoundTrip(0, rest, eb, lower);
  }

  /** The parts of the first fragment and what comes after it. */
  lemma FragmentsParts(v: Bits, rest: Bits) returns (head: Bits, tail: Bits, after: Bits)
    ensures var p := PutLengthSpec(|v|);
      && head == v[..p.units] && tail == v[p.units..]
      && Fragments(v) + rest == p.bits + (head + after)
      && (|v| < 16384 ==> after == rest && |Fragments(v)| == |p.bits| + |v|)
      && (p.needEom ==> after == PutLengthSpec(0).bits + rest && |Fragments(v)| == |p.bits| + |v| + |PutLengthSpec(0).bits|)
      && (|v| >= 16384 && !p.needEom ==> after == Fragments(tail) + rest && |Fragments(v)| == |p.bits| + p.units + |Fragments(tail)|)
  {
    var p := PutLengthSpec(|v|);
    head, tail := v[..p.units], v[p.units..];
    var eom := if p.needEom then PutLengthSpec(0).bits else [];
    var more := if p.units < |v| then Fragments(tail) else [];
    after := eom + (more + rest);
    assert Fragments(v) == p.bits + head + eom + more;
    hide Fragments, PutLengthSpec;
    Associate5(p.bits, head, eom, more, rest);
    assert [] + rest == rest;
    assert [] + (more + rest) == more + rest;
  }

  lemma {:induction false} FragmentsRoundTrip(v: Bits, rest: Bits, eb: int, lower: nat, buf: Octets, hasBuf: bool)
    requires eb < 0 && (hasBuf ==> |v| > 0)
    ensures ReadFragments(Fragments(v) + rest, eb, lower, buf, hasBuf, 0)
         == Done(BitStr(buf + Pack(v), Packed(v).unused), |Fragments(v)|)
    decreases |v|
  {
    hide ReadFragments, PutLengthSpec, Fragments, Pack, UnusedFor;
    var p := PutLengthSpec(|v|);
    var head, tail, after := FragmentsParts(v, rest);
    ReadOne(v, after, eb, lower, buf, hasBuf);
    UnusedAfterFirst(|v|);
    if |v| >= 16384 {
      if p.needEom {
        assert head == v && |v| % 8 == 0;
        ReadEom(rest, eb, lower, buf + Pack(v));
      } else {
        FragmentsRoundTrip(tail, rest, eb, lower, buf + Pack(head), true);
        AppendPacked(buf, v, p.units);
        SameUnused(|v|, p.units);
      }
    }
  }

  lemma SameUnused(n: nat, m: nat)
    requires m <= n && m % 8 == 0
    ensures UnusedFor(n - m) == UnusedFor(n)
  {
  }

  lemma AppendPacked(buf: Octets, v: Bits, n: nat)
    requires n <= |v| && n % 8 == 0
    ensures buf + Pack(v[..n]) + Pack(v[n..]) == buf + Pack(v)
  {
    hide Pack;
    var a, b := v[..n], v[n..];
    assert a + b == v;
    PackAppend(a, b);
    Associate(buf, Pack(a), Pack(b));
  }

  lemma RootRoundTrip(c: SizeConstraint, v: Bits, rest: Bits)
    requires c.WellFormed() && InRoot(c, |v|)
    ensures ReadBody(c, RootBits(c, v) + rest) == Done(Packed(Padded(c, v)), |RootBits(c, v)|)
  {
    var w := Padded(c, v);
    RootParts(c, v);
    var field := NatBits(|w| - c.lower, c.effectiveBits);
    NatBitsRoundTrip(|w| - c.lower, c.effectiveBits);
    hide RootBits, Pack, NatBits, BitsNat, ReadFragments, ReadBody, Packed, Padded, UnusedFor, Pow2, SizeConstraint.WellFormed, InRoot;
    if c.effectiveBits == 0 {
      assert field == [] && [] + w == w;
      FixedRead(c, w, rest);
    } else {
      Associate(field, w, rest);
      RootRead(c, w, field, rest);
    }
  }

  lemma RootParts(c: SizeConstraint, v: Bits)
    requires c.WellFormed() && InRoot(c, |v|)
    ensures var n := |Padded(c, v)| - c.lower;
      && 0 <= c.effectiveBits <= 16 && 0 <= n < Pow2(c.effectiveBits)
      && RootBits(c, v) == NatBits(n, c.effectiveBits) + Padded(c, v)
      && (c.effectiveBits == 0 ==> |Padded(c, v)| == c.upper)
  {
    hide NatBits;
    assert Pow2(0) == 1;
  }

  /** A fixed length has no length field. */
  lemma FixedRead(c: SizeConstraint, w: Bits, rest: Bits)
    requires c.effectiveBits == 0 && c.upper == |w|
    ensures ReadBody(c, w + rest) == Done(Packed(w), |w|)
  {
    hide Pack, UnusedFor, ReadFragments;
    SliceAfter(w, rest);
  }

  lemma RootRead(c: SizeConstraint, w: Bits, field: Bits, rest: Bits)
    requires 0 < c.effectiveBits <= 16 && |field| == c.effectiveBits && BitsNat(field) + c.lower == |w|
    ensures ReadBody(c, field + (w + rest)) == Done(Packed(w), |field + w|)
  {
    SliceAfter(field, w + rest);
    SliceAfter(w, rest);
    UnusedAfterFirst(|w|);
    hide Pack, UnusedFor, UnusedAfter, BitsNat;
    assert [] + Pack(w) == Pack(w);
    assert |w| == 0 ==> w == [];
    EmptyPacked();
  }

  lemma EmptyPacked()
    ensures Pack([]) == [] && UnusedFor(0) == 0
  {
  }

  /** What decoding yields for an encoded value: its bits, filled with zeros up to the
      lower bound when the length lies in the root. */
  function Expected(c: SizeConstraint, st: BitStr): BitStr {
    var v := Content(st);
    Packed(if InRoot(c, |v|) then Padded(c, v) else v)
  }

  /** The decoder inverts the encoder, whatever bits follow, and reads exactly what
      was written. */
  lemma RoundTrip(c: SizeConstraint, st: BitStr, rest: Bits)
    requires c.WellFormed() && Encoded(c, st).Some?
    ensures var e := Encoded(c, st).value;
      DecodeSpec(c, e + rest) == Done(Expected(c, st), |e|)
  {
    var v := Content(st);
    var body := Body(c, v);
    hide Body, ReadBody, Content, Encoded, Packed, Padded, DecodeSpec;
    var prefix := EncodedParts(c, st);
    BodyRoundTrip(c, v, rest);
    DecodeParts(c, v, prefix, body + rest);
    Associate(prefix, body, rest);
  }

  /** What is written after the extension bit. */
  function Body(c: SizeConstraint, v: Bits): Bits {
    if InRoot(c, |v|) then RootBits(c, v) else Fragments(v)
  }

  /** The constraint under which the body is written and read. */
  function Effective(c: SizeConstraint, n: nat): SizeConstraint {
    if InRoot(c, n) || c.effectiveBits < 0 then c else UNCONSTRAINED
  }

  lemma EncodedParts(c: SizeConstraint, st: BitStr) returns (prefix: Bits)
    requires Encoded(c, st).Some?
    ensures var v := Content(st);
      && prefix == (if c.extensible then [Effective(c, |v|) != c] else [])
      && Encoded(c, st).value == prefix + Body(c, v)
      && (!c.extensible ==> Effective(c, |v|) == c)
  {
    hide RootBits, Fragments, Content;
    prefix := if c.extensible then [Effective(c, |Content(st)|) != c] else [];
  }

  lemma DecodeParts(c: SizeConstraint, v: Bits, prefix: Bits, s: Bits)
    requires prefix == if c.extensible then [Effective(c, |v|) != c] else []
    requires !c.extensible ==> Effective(c, |v|) == c
    ensures DecodeSpec(c, prefix + s) == After(|prefix|, ReadBody(Effective(c, |v|), s))
  {
    hide ReadBody;
    SliceAfter(prefix, s);
    assert prefix == [] ==> prefix + s == s;
  }

  lemma BodyRoundTrip(c: SizeConstraint, v: Bits, rest: Bits)
    requires c.WellFormed()
    ensures ReadBody(Effective(c, |v|), Body(c, v) + rest)
         == Done(Packed(if InRoot(c, |v|) then Padded(c, v) else v), |Body(c, v)|)
  {
    hide RootBits, Fragments, ReadFragments, Pack;
    if InRoot(c, |v|) {
      RootRoundTrip(c, v, rest);
    } else {
      var e := Effective(c, |v|);
      FragmentsRoundTrip(v, rest, e.effectiveBits, e.lower, [], false);
      assert [] + Pack(v) == Pack(v);
    }
  }

  /** The expected structure holds the value's bits and otherwise zeros, so the two
      compare equal, and its length is the value's, or the lower bound if that is longer. */
  lemma ExpectedIsSame(c: SizeConstraint, st: BitStr)
    ensures SameBits(Unpack(Expected(c, st).buf), Unpack(st.buf))
    ensures Accepts(Expected(c, st))
    ensures 8 * |Expected(c, st).buf| - Expected(c, st).unused
         == if InRoot(c, |Content(st)|) && |Content(st)| < c.lower then c.lower else |Content(st)|
  {
    hide Pack, Unpack, UnusedFor, Content, SameBits, Accepts;
    var v := Content(st);
    var w := if InRoot(c, |v|) then Padded(c, v) else v;
    PackedLength(w);
    PackedIsSame(w);
    assert w == v + Zeros(|w| - |v|);
    ZerosAreSame(v, |w| - |v|);
    ContentIsSame(st);
    SameBitsTransitive(Unpack(Pack(w)), w, v);
    SameBitsTransitive(Unpack(Pack(w)), v, Unpack(st.buf));
  }

  lemma SameBitsTransitive(a: Bits, b: Bits, c: Bits)
    requires SameBits(a, b) && SameBits(b, c)
    ensures SameBits(a, c)
  {
    forall j: nat ensures BitOf(a, j) == BitOf(c, j) {
      assert BitOf(a, j) == BitOf(b, j);
    }
  }

  lemma PackedIsSame(w: Bits)
    ensures SameBits(Unpack(Pack(w)), w)
  {
    UnpackPack(w);
    hide Pack, Unpack, SameBits;
    ZerosAreSame(w, 8 * |Pack(w)| - |w|);
  }

  lemma PackedLength(w: Bits)
    ensures Accepts(Packed(w)) && 8 * |Packed(w).buf| - Packed(w).unused == |w|
  {
  }

  lemma ZerosAreSame(v: Bits, n: nat)
    ensures SameBits(v + Zeros(n), v)
  {
  }

  lemma ContentIsSame(st: BitStr)
    ensures SameBits(Content(st), Unpack(st.buf))
  {
    hide Unpack;
    var v, b := Content(st), Unpack(st.buf);
    forall j: nat ensures BitOf(v, j) == BitOf(b, j) {
    }
  }

  /** Encoding accepts every sane value that fits: it refuses exactly the values that
      are too long for an upper bound that cannot be exceeded. */
  lemma EncodingDefined(c: SizeConstraint, st: BitStr)
    requires c.WellFormed() && Accepts(st)
    ensures Encoded(c, st).Some? <==> c.effectiveBits < 0 || c.extensible || |Content(st)| <= c.upper
  {
  }
}
