/** Bits, bytes, and the unaligned PER stream operations. */
module BitStream {

  type Bits = seq<bool>
  type Octets = seq<bv8>

  // ----- Bytes as bits, most significant first -----

  /** The mask of bit `k`, counted from the most significant. */
  function Mask(k: nat): bv8 {
    if k == 0 then 0x80
    else if k == 1 then 0x40
    else if k == 2 then 0x20
    else if k == 3 then 0x10
    else if k == 4 then 0x08
    else if k == 5 then 0x04
    else if k == 6 then 0x02
    else 0x01
  }

  predicate BitIn8(b: bv8, k: nat) {
    b & Mask(k) != 0
  }

  function ByteBits(b: bv8): (r: Bits)
    ensures |r| == 8
  {
    seq(8, k requires 0 <= k < 8 => BitIn8(b, k))
  }

  function BitAt(on: bool, mask: bv8): bv8 { if on then mask else 0 }

  function ByteOf(r: Bits): bv8
    requires |r| == 8
  {
    BitAt(r[0], 0x80) | BitAt(r[1], 0x40) | BitAt(r[2], 0x20) | BitAt(r[3], 0x10)
    | BitAt(r[4], 0x08) | BitAt(r[5], 0x04) | BitAt(r[6], 0x02) | BitAt(r[7], 0x01)
  }

  lemma ByteOfBits(r: Bits)
    requires |r| == 8
    ensures ByteBits(ByteOf(r)) == r
  {
  }

  function Unpack(bytes: Octets): (r: Bits)
    ensures |r| == 8 * |bytes|
  {
    if bytes == [] then [] else ByteBits(bytes[0]) + Unpack(bytes[1..])
  }

  function Zeros(n: nat): (r: Bits)
    ensures |r| == n && forall k :: 0 <= k < n ==> !r[k]
  {
    seq(n, _ => false)
  }

  /** Bits in as few bytes as needed, left-aligned, the last byte padded with zeros. */
  function Pack(bits: Bits): (bytes: Octets)
    ensures |bytes| == (|bits| + 7) / 8
  {
    if bits == [] then []
    else if |bits| <= 8 then [ByteOf(bits + Zeros(8 - |bits|))]
    else [ByteOf(bits[..8])] + Pack(bits[8..])
  }

  lemma {:induction false} UnpackPack(bits: Bits)
    ensures Unpack(Pack(bits)) == bits + Zeros(8 * |Pack(bits)| - |bits|)
  {
    if 0 < |bits| <= 8 {
      var r := bits + Zeros(8 - |bits|);
      ByteOfBits(r);
      assert Unpack([ByteOf(r)]) == r + Unpack([]);
    } else if |bits| > 8 {
      UnpackPack(bits[8..]);
      ByteOfBits(bits[..8]);
      assert Pack(bits)[1..] == Pack(bits[8..]);
      assert Unpack(Pack(bits)) == bits[..8] + (bits[8..] + Zeros(8 * |Pack(bits[8..])| - |bits[8..]|));
    }
  }

  /** Whole bytes pack independently of what follows. */
  lemma {:induction false} PackAppend(a: Bits, b: Bits)
    requires |a| % 8 == 0
    ensures Pack(a + b) == Pack(a) + Pack(b)
  {
    hide Pack, ByteOf;
    if a == [] {
      PackNothing();
      assert a + b == b;
    } else {
      PackAppend(a[8..], b);
      PackFirst(a);
      PackFirst(a + b);
      assert (a + b)[..8] == a[..8] && (a + b)[8..] == a[8..] + b;
    }
  }

  lemma PackNothing()
    ensures Pack([]) == []
  {
  }

  lemma PackFirst(a: Bits)
    requires |a| >= 8
    ensures Pack(a) == [ByteOf(a[..8])] + Pack(a[8..])
  {
    if |a| == 8 {
      assert a + Zeros(0) == a[..8] && a[8..] == [];
    }
  }

  // ----- Numbers -----

  function Pow2(n: nat): (r: nat)
    ensures r > 0
  {
    if n == 0 then 1 else 2 * Pow2(n - 1)
  }

  /** The `n` low bits of a number, most significant first. */
  function NatBits(v: nat, n: nat): (r: Bits)
    ensures |r| == n
  {
    if n == 0 then [] else NatBits(v / 2, n - 1) + [v % 2 == 1]
  }

  function BitsNat(r: Bits): (v: nat)
    ensures v < Pow2(|r|)
  {
    if r == [] then 0
    else 2 * BitsNat(r[..|r| - 1]) + (if r[|r| - 1] then 1 else 0)
  }

  lemma {:induction false} NatBitsRoundTrip(v: nat, n: nat)
    requires v < Pow2(n)
    ensures BitsNat(NatBits(v, n)) == v
  {
    if n > 0 {
      NatBitsRoundTrip(v / 2, n - 1);
      assert NatBits(v, n)[..n - 1] == NatBits(v / 2, n - 1);
    }
  }

  // ----- The two ends of a stream -----

  /** Bits written so far. */
  class BitOut {
    var bits: Bits

    constructor ()
      ensures bits == []
    {
      bits := [];
    }

    /** `per_put_few_bits`: the low `n` bits of a value. */
    method PutFewBits(value: nat, n: int) returns (ok: bool)
      modifies this
      ensures ok <==> 0 <= n < 32
      ensures bits == old(bits) + if ok then NatBits(value, n) else []
    {
      if n <= 0 || n >= 32 {
        assert n == 0 ==> bits + NatBits(value, 0) == bits;
        assert n != 0 ==> bits + [] == bits;
        return n == 0;
      }
      bits := bits + NatBits(value, n);
      return true;
    }

    /** `per_put_many_bits`: the leading bits of a buffer. */
    method PutManyBits(src: Octets, n: nat)
      requires n <= 8 * |src|
      modifies this
      ensures bits == old(bits) + Unpack(src)[..n]
    {
      bits := bits + Unpack(src)[..n];
    }
  }

  /** Bits still to be read, from `pos` on. */
  class BitIn {
    const bits: Bits
    var pos: nat

    constructor (bits: Bits)
      ensures this.bits == bits && pos == 0
    {
      this.bits, pos := bits, 0;
    }

    function Unread(): Bits
      requires pos <= |bits|
      reads this
    {
      bits[pos..]
    }

    /** `per_get_few_bits`: a number of `n` bits; -1 when the stream is too short or `n`
        is out of range. */
    method GetFewBits(n: int) returns (value: int)
      requires pos <= |bits|
      modifies this
      ensures old(pos) <= pos <= |bits|
      ensures if 0 <= n < 32 && n <= |old(Unread())|
              then value == BitsNat(old(Unread())[..n]) && Unread() == old(Unread())[n..]
              else value == -1 && pos == old(pos)
    {
      if n < 0 || n > 31 || n > |bits| - pos { return -1; }
      value := BitsNat(bits[pos..][..n]);
      pos := pos + n;
    }

    /** `per_get_many_bits` without right alignment. */
    method GetManyBits(n: nat) returns (ok: bool, dst: Octets)
      requires pos <= |bits|
      modifies this
      ensures old(pos) <= pos <= |bits|
      ensures ok <==> n <= |old(Unread())|
      ensures ok ==> dst == Pack(old(Unread())[..n]) && Unread() == old(Unread())[n..]
    {
      if n > |bits| - pos { return false, []; }
      dst := Pack(bits[pos..][..n]);
      pos := pos + n;
      return true, dst;
    }
  }

  // ----- Length determinants (section 11.9 of X.691) -----

  /** What one call of `uper_put_length` writes, how many units may follow it, and
      whether a final zero length is due after them. */
  datatype LengthPart = LengthPart(bits: Bits, units: nat, needEom: bool)

  function PutLengthSpec(length: nat): (p: LengthPart)
    ensures p.units <= length
    ensures length < 16384 ==> p.units == length && !p.needEom
    ensures length >= 16384 ==> p.units > 0 && p.units % 8 == 0 && (p.needEom <==> p.units == length)
  {
    if length <= 127 then LengthPart(NatBits(length, 8), length, false)
    else if length < 16384 then LengthPart(NatBits(length + 0x8000, 16), length, false)
    else
      var m := if length / 16384 > 4 then 4 else length / 16384;
      LengthPart(NatBits(0xC0 + m, 8), 16384 * m, length % 16384 == 0 && length / 16384 <= 4)
  }

  method PutLength(po: BitOut, length: nat) returns (maySave: nat, needEom: bool)
    modifies po
    ensures var p := PutLengthSpec(length);
      po.bits == old(po.bits) + p.bits && maySave == p.units && needEom == p.needEom
  {
    if length <= 127 {
      var ok := po.PutFewBits(length, 8);
      return length, false;
    } else if length < 16384 {
      var ok := po.PutFewBits(length + 0x8000, 16);
      return length, false;
    }
    needEom := length % 16384 == 0;
    var m := length / 16384;
    if m > 4 {
      needEom := false;
      m := 4;
    }
    var ok := po.PutFewBits(0xC0 + m, 8);
    maySave := m * 16384;
  }

  /** A length read from the unread bits; `value` is negative on failure. */
  datatype LengthRead = LengthRead(value: int, repeat: bool, used: nat)

  /** `uper_get_length`. With at most 16 effective bits the length is an offset from
      the lower bound; otherwise it is self-delimiting. */
  function GetLengthSpec(s: Bits, effectiveBits: int, lowerBound: nat): (r: LengthRead)
    ensures r.value >= 0 ==> r.used <= |s| && (r.repeat ==> r.used == 8)
  {
    if 0 <= effectiveBits <= 16 then
      if effectiveBits > |s| then LengthRead(-1, false, 0)
      else LengthRead(BitsNat(s[..effectiveBits]) + lowerBound, false, effectiveBits)
    else if |s| < 8 then LengthRead(-1, false, 0)
    else
      var first := BitsNat(s[..8]);
      if first < 0x80 then LengthRead(first, false, 8)
      else if first < 0xC0 then
        if |s| < 16 then LengthRead(-1, false, 0)
        else LengthRead((first - 0x80) * 256 + BitsNat(s[8..16]), false, 16)
      else if first == 0xC0 || first > 0xC4 then LengthRead(-1, false, 0)
      else LengthRead(16384 * (first - 0xC0), true, 8)
  }

  method GetLength(pd: BitIn, effectiveBits: int, lowerBound: nat) returns (value: int, repeat: bool)
    requires pd.pos <= |pd.bits|
    modifies pd
    ensures old(pd.pos) <= pd.pos <= |pd.bits|
    ensures var r := GetLengthSpec(old(pd.Unread()), effectiveBits, lowerBound);
      (value < 0 <==> r.value < 0)
      && (value >= 0 ==> value == r.value && repeat == r.repeat && pd.Unread() == old(pd.Unread())[r.used..])
  {
    repeat := false;
    if 0 <= effectiveBits <= 16 {
      value := pd.GetFewBits(effectiveBits);
      if value >= 0 { value := value + lowerBound; }
      return;
    }
    value := pd.GetFewBits(8);
    if value < 0 { return; }
    assert Pow2(8) == 256;
    if value < 0x80 {
      return;
    } else if value < 0xC0 {
      var low := pd.GetFewBits(8);
      if low < 0 { return -1, false; }
      assert old(pd.Unread())[8..][..8] == old(pd.Unread())[8..16];
      value := (value - 0x80) * 256 + low;
      return;
    }
    value := value - 0xC0;
    if value < 1 || value > 4 { return -1, false; }
    repeat := true;
    value := 16384 * value;
  }

  /** Reading back one written length, whatever follows. */
  lemma LengthRoundTrip(length: nat, rest: Bits, effectiveBits: int, lowerBound: nat)
    requires effectiveBits < 0
    ensures var p := PutLengthSpec(length);
      GetLengthSpec(p.bits + rest, effectiveBits, lowerBound) == LengthRead(p.units, length >= 16384, |p.bits|)
  {
    var p := PutLengthSpec(length);
    var s := p.bits + rest;
    assert Pow2(8) == 256;
    if length <= 127 {
      NatBitsRoundTrip(length, 8);
      assert s[..8] == p.bits;
    } else if length < 16384 {
      SixteenBits(length + 0x8000);
      assert s[..8] == p.bits[..8] && s[8..16] == p.bits[8..];
    } else {
      NatBitsRoundTrip(0xC0 + p.units / 16384, 8);
      assert s[..8] == p.bits;
    }
  }

  /** `v << n`. */
  function Shift(v: nat, n: nat): nat {
    if n == 0 then v else 2 * Shift(v, n - 1)
  }

  lemma {:induction false} BitsNatConcat(a: Bits, b: Bits)
    ensures BitsNat(a + b) == Shift(BitsNat(a), |b|) + BitsNat(b)
  {
    if b == [] {
      assert a + b == a;
    } else {
      BitsNatConcat(a, b[..|b| - 1]);
      assert (a + b)[..|a + b| - 1] == a + b[..|b| - 1];
    }
  }

  lemma ShiftByEight(v: nat)
    ensures Shift(v, 8) == 256 * v
  {
    assert Shift(v, 1) == 2 * v;
    assert Shift(v, 3) == 8 * v;
    assert Shift(v, 5) == 32 * v;
    assert Shift(v, 7) == 128 * v;
  }

  lemma SixteenBits(v: nat)
    requires v < 0x10000
    ensures BitsNat(NatBits(v, 16)[..8]) == v / 256 && BitsNat(NatBits(v, 16)[8..]) == v % 256
  {
    var hi, lo := NatBits(v, 16)[..8], NatBits(v, 16)[8..];
    PowersOfTwo();
    NatBitsRoundTrip(v, 16);
    BitsNatConcat(hi, lo);
    ShiftByEight(BitsNat(hi));
    assert hi + lo == NatBits(v, 16);
  }

  lemma PowersOfTwo()
    ensures Pow2(8) == 256 && Pow2(16) == 0x10000
  {
    assert Pow2(8) == 256;
    assert Pow2(12) == 16 * Pow2(8);
    assert Pow2(16) == 16 * Pow2(12);
  }
}
