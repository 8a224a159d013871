/** The BIT STRING type: stripping of trailing zeros and the order it induces. */
module BitString {
  import opened BitStream

  /** The bytes and the number of unused bits in the last one. */
  datatype BitStr = BitStr(buf: Octets, unused: int) {
    /** The structure is one the C assertions accept. */
    predicate Sane() { buf == [] ==> unused == 0 }
  }

  // ----- Trailing zeros -----

  /** The length up to the last bit that is set. */
  function Significant(bits: Bits): (n: nat)
    ensures n <= |bits| && (n > 0 ==> bits[n - 1])
    ensures forall k :: n <= k < |bits| ==> !bits[k]
  {
    if bits == [] then 0
    else if bits[|bits| - 1] then |bits|
    else Significant(bits[..|bits| - 1])
  }

  lemma SignificantIs(bits: Bits, n: nat)
    requires n <= |bits| && (n > 0 ==> bits[n - 1]) && forall k :: n <= k < |bits| ==> !bits[k]
    ensures Significant(bits) == n
  {
    var m := Significant(bits);
    var x, y := n > 0 && bits[n - 1], m > 0 && bits[m - 1];
  }

  lemma {:induction false} UnpackAt(bytes: Octets, i: nat, k: nat)
    requires i < |bytes| && k < 8
    ensures Unpack(bytes)[8 * i + k] == BitIn8(bytes[i], k)
  {
    if i > 0 { UnpackAt(bytes[1..], i - 1, k); }
  }

  /** The three masks find the lowest set bit. */
  function LowestBit(b: bv8): (unused: nat)
    ensures unused < 8
  {
    var v := b & (0 - b);
    7 - (if v & 0x0F != 0 then 4 else 0) - (if v & 0x33 != 0 then 2 else 0) - (if v & 0x55 != 0 then 1 else 0)
  }

  lemma LowestBitIsLowest(b: bv8)
    requires b != 0
    ensures BitIn8(b, 7 - LowestBit(b))
    ensures forall k :: 7 - LowestBit(b) < k < 8 ==> !BitIn8(b, k)
  {
  }

  /** `BIT_STRING__compactify`: the size and the unused bits without trailing zeros. */
  method Compactify(st: BitStr) returns (size: nat, unused: nat)
    requires st.Sane()
    ensures size <= |st.buf| && unused < 8 && (size == 0 ==> unused == 0)
    ensures 8 * size - unused == Significant(Unpack(st.buf))
  {
    if |st.buf| == 0 {
      return 0, 0;
    }
    var b := |st.buf| - 1;
    while b > 0 && st.buf[b] == 0
      invariant 0 <= b < |st.buf|
      invariant forall i :: b < i < |st.buf| ==> st.buf[i] == 0
    {
      b := b - 1;
    }
    if st.buf[b] != 0 {
      size, unused := b + 1, LowestBit(st.buf[b]);
      LowestBitIsLowest(st.buf[b]);
      SignificantOfBytes(st.buf, b, 7 - unused);
    } else {
      size, unused := b, 0;
      forall k | 0 <= k < 8 ensures !BitIn8(st.buf[b], k) { ZeroByte(k); }
      SignificantOfBytes(st.buf, b, -1);
    }
  }

  lemma SignificantOfBytes(buf: Octets, b: nat, last: int)
    requires b < |buf| && -1 <= last < 8 && forall i :: b < i < |buf| ==> buf[i] == 0
    requires forall k :: last < k < 8 ==> !BitIn8(buf[b], k)
    requires if last >= 0 then BitIn8(buf[b], last) else b == 0
    ensures Significant(Unpack(buf)) == 8 * b + last + 1
  {
    hide BitIn8, Unpack, Significant;
    var bits, n := Unpack(buf), 8 * b + last + 1;
    assert n <= |bits| && (n > 0 ==> bits[n - 1]) by {
      if last >= 0 { UnpackAt(buf, b, last); }
    }
    assert forall k :: n <= k < |bits| ==> !bits[k] by {
      LastByteDecides(buf, b, last, n);
    }
    SignificantIs(bits, n);
  }

  /** Nothing is set after the last bit that is set in the last non-zero byte. */
  lemma LastByteDecides(buf: Octets, b: nat, last: int, n: nat)
    requires b < |buf| && -1 <= last < 8 && forall i :: b < i < |buf| ==> buf[i] == 0
    requires forall k :: last < k < 8 ==> !BitIn8(buf[b], k)
    requires n == 8 * b + last + 1
    ensures forall k :: n <= k < |Unpack(buf)| ==> !Unpack(buf)[k]
  {
    hide Unpack, BitIn8;
    forall k | n <= k < |Unpack(buf)| ensures !Unpack(buf)[k] {
      var i, j := k / 8, k % 8;
      UnpackAt(buf, i, j);
      if i > b { ZeroByte(j); }
    }
  }

  lemma ZeroByte(k: nat)
    requires k < 8
    ensures !BitIn8(0, k)
  {
  }

  // ----- The order: bit strings extended by infinitely many zeros -----

  predicate BitOf(a: Bits, i: nat) { i < |a| && a[i] }

  ghost predicate SameUpTo(a: Bits, b: Bits, n: nat) {
    forall j: nat :: j < n ==> BitOf(a, j) == BitOf(b, j)
  }

  /** The first bit that differs is set in `b`. */
  ghost predicate Precedes(a: Bits, b: Bits) {
    exists i: nat :: SameUpTo(a, b, i) && !BitOf(a, i) && BitOf(b, i)
  }

  ghost predicate SameBits(a: Bits, b: Bits) {
    forall j: nat :: BitOf(a, j) == BitOf(b, j)
  }

  /** Two strings are the same exactly when they differ in trailing zeros only. */
  lemma SameBitsIffSamePrefix(a: Bits, b: Bits)
    ensures SameBits(a, b) <==> a[..Significant(a)] == b[..Significant(b)]
  {
    var m, n := Significant(a), Significant(b);
    if SameBits(a, b) {
      if m > 0 { assert BitOf(a, m - 1) == BitOf(b, m - 1); }
      if n > 0 { assert BitOf(a, n - 1) == BitOf(b, n - 1); }
      forall j | 0 <= j < m ensures a[j] == b[j] { assert BitOf(a, j) == BitOf(b, j); }
    }
    if a[..m] == b[..n] {
      forall j: nat ensures BitOf(a, j) == BitOf(b, j) {
        if j < m { assert a[..m][j] == b[..n][j]; }
      }
    }
  }

  lemma PrecedesTransitive(a: Bits, b: Bits, c: Bits)
    requires Precedes(a, b) && Precedes(b, c)
    ensures Precedes(a, c)
  {
    var i: nat :| SameUpTo(a, b, i) && !BitOf(a, i) && BitOf(b, i);
    var k: nat :| SameUpTo(b, c, k) && !BitOf(b, k) && BitOf(c, k);
    var n := if i < k then i else k;
    assert SameUpTo(a, c, n) && !BitOf(a, n) && BitOf(c, n);
  }

  /** Exactly one of the three holds. */
  lemma PrecedesTrichotomy(a: Bits, b: Bits)
    ensures Precedes(a, b) || Precedes(b, a) || SameBits(a, b)
    ensures !(Precedes(a, b) && SameBits(a, b))
    ensures !(Precedes(a, b) && Precedes(b, a))
  {
    if !SameBits(a, b) {
      var j: nat :| BitOf(a, j) != BitOf(b, j);
      var i := FirstDifference(a, b, j);
      assert SameUpTo(b, a, i);
    }
  }

  lemma {:induction false} FirstDifference(a: Bits, b: Bits, j: nat) returns (i: nat)
    requires BitOf(a, j) != BitOf(b, j)
    ensures i <= j && SameUpTo(a, b, i) && BitOf(a, i) != BitOf(b, i)
  {
    i := j;
    if k: nat :| k < j && BitOf(a, k) != BitOf(b, k) {
      i := FirstDifference(a, b, k);
    }
  }

  // ----- Comparison -----

  /** `memcmp` on the first `n` bytes. */
  function Memcmp(x: Octets, y: Octets, n: nat): int
    requires n <= |x| && n <= |y|
  {
    if n == 0 then 0
    else if x[0] < y[0] then -1
    else if x[0] > y[0] then 1
    else Memcmp(x[1..], y[1..], n - 1)
  }

  /** The smaller byte is the one whose first differing bit is clear. */
  lemma ByteOrder(x: bv8, y: bv8) returns (k: nat)
    requires x < y
    ensures k < 8 && !BitIn8(x, k) && BitIn8(y, k)
    ensures forall j :: 0 <= j < k ==> BitIn8(x, j) == BitIn8(y, j)
  {
    k := 0;
    while k < 7 && BitIn8(x, k) == BitIn8(y, k)
      invariant k < 8
      invariant forall j :: 0 <= j < k ==> BitIn8(x, j) == BitIn8(y, j)
    {
      k := k + 1;
    }
    FirstDifferenceRises(x, y, k);
  }

  lemma FirstDifferenceRises(x: bv8, y: bv8, k: nat)
    requires x < y && k < 8 && (k < 7 ==> BitIn8(x, k) != BitIn8(y, k))
    requires forall j :: 0 <= j < k ==> BitIn8(x, j) == BitIn8(y, j)
    ensures !BitIn8(x, k) && BitIn8(y, k)
  {
    var m := Mask(k);
    SameAbove(x, y, k);
    MaskedBitDecides(x, y, m);
  }

  /** The bytes agree on every bit above bit `k`. */
  lemma {:induction false} SameAbove(x: bv8, y: bv8, k: nat)
    requires k < 8 && forall j :: 0 <= j < k ==> BitIn8(x, j) == BitIn8(y, j)
    ensures x & (0 - (Mask(k) << 1)) == y & (0 - (Mask(k) << 1))
  {
    if k > 0 {
      SameAbove(x, y, k - 1);
      MaskShift(k);
      assert BitIn8(x, k - 1) == BitIn8(y, k - 1);
      OneMoreBit(x, y, Mask(k - 1));
    }
  }

  lemma MaskShift(k: nat)
    requires 0 < k < 8
    ensures Mask(k) << 1 == Mask(k - 1) && Mask(k - 1) & (Mask(k - 1) - 1) == 0
  {
  }

  lemma OneMoreBit(x: bv8, y: bv8, m: bv8)
    requires m & (m - 1) == 0 && x & (0 - (m << 1)) == y & (0 - (m << 1)) && (x & m != 0) == (y & m != 0)
    ensures x & (0 - m) == y & (0 - m)
  {
  }

  lemma MaskedBitDecides(x: bv8, y: bv8, m: bv8)
    requires m != 0 && m & (m - 1) == 0 && x < y
    requires x & (0 - (m << 1)) == y & (0 - (m << 1)) && (m != 1 ==> x & m != y & m)
    ensures x & m == 0 && y & m != 0
  {
  }

  lemma {:induction false} PrependByte(x: Octets, y: Octets)
    requires x != [] && y != [] && x[0] == y[0]
    ensures Precedes(Unpack(x[1..]), Unpack(y[1..])) ==> Precedes(Unpack(x), Unpack(y))
  {
    var a, b := Unpack(x[1..]), Unpack(y[1..]);
    if i: nat :| SameUpTo(a, b, i) && !BitOf(a, i) && BitOf(b, i) {
      forall j: nat ensures j >= 8 ==> BitOf(Unpack(x), j) == BitOf(a, j - 8) && BitOf(Unpack(y), j) == BitOf(b, j - 8) {
      }
      forall j: nat | j < i + 8 ensures BitOf(Unpack(x), j) == BitOf(Unpack(y), j) {
        if j >= 8 { assert BitOf(a, j - 8) == BitOf(b, j - 8); }
      }
      assert SameUpTo(Unpack(x), Unpack(y), i + 8);
    }
  }

  lemma SmallerFirstByte(x: Octets, y: Octets)
    requires x != [] && y != [] && x[0] < y[0]
    ensures Precedes(Unpack(x), Unpack(y))
  {
    var k := ByteOrder(x[0], y[0]);
    assert SameUpTo(Unpack(x), Unpack(y), k) && !BitOf(Unpack(x), k) && BitOf(Unpack(y), k);
  }

  lemma {:induction false} MemcmpOrders(x: Octets, y: Octets, n: nat)
    requires n <= |x| && n <= |y|
    ensures Memcmp(x, y, n) < 0 ==> Precedes(Unpack(x), Unpack(y))
    ensures Memcmp(x, y, n) > 0 ==> Precedes(Unpack(y), Unpack(x))
  {
    if n > 0 {
      if x[0] < y[0] {
        SmallerFirstByte(x, y);
      } else if x[0] > y[0] {
        SmallerFirstByte(y, x);
      } else {
        MemcmpOrders(x[1..], y[1..], n - 1);
        PrependByte(x, y);
        PrependByte(y, x);
      }
    }
  }

  lemma {:induction false} MemcmpEqual(x: Octets, y: Octets, n: nat)
    requires n <= |x| && n <= |y| && Memcmp(x, y, n) == 0
    ensures x[..n] == y[..n]
  {
    if n > 0 {
      MemcmpEqual(x[1..], y[1..], n - 1);
      assert x[..n] == [x[0]] + x[1..][..n - 1];
      assert y[..n] == [y[0]] + y[1..][..n - 1];
    }
  }

  lemma SamePrefixSameBits(x: Octets, y: Octets, n: nat)
    requires n <= |x| && n <= |y| && x[..n] == y[..n]
    ensures SameUpTo(Unpack(x), Unpack(y), 8 * n)
  {
    hide Unpack, BitIn8;
    forall j: nat | j < 8 * n ensures BitOf(Unpack(x), j) == BitOf(Unpack(y), j) {
      UnpackAt(x, j / 8, j % 8);
      UnpackAt(y, j / 8, j % 8);
      assert x[..n][j / 8] == y[..n][j / 8];
    }
  }

  /** Same bits up to `m`, nothing set in `a` from there on, something set in `b`. */
  lemma LongerFollows(a: Bits, b: Bits, m: nat)
    requires SameUpTo(a, b, m) && Significant(a) <= m < Significant(b)
    ensures Precedes(a, b)
  {
    var n := Significant(b) - 1;
    assert BitOf(b, n) && !BitOf(a, n);
    var i := FirstDifference(a, b, n);
    assert i >= m && !BitOf(a, i);
  }

  /** Same bits up to `m` and none set beyond: the strings are the same. */
  lemma SameSignificant(a: Bits, b: Bits, m: nat)
    requires SameUpTo(a, b, m) && Significant(a) <= m && Significant(b) <= m
    ensures SameBits(a, b) && Significant(a) == Significant(b)
  {
    var n := Significant(b);
    if n > 0 { assert BitOf(a, n - 1) == BitOf(b, n - 1); }
    forall k: nat | n <= k < |a| ensures !a[k] {
      if k < m { assert BitOf(a, k) == BitOf(b, k); }
    }
    SignificantIs(a, n);
  }

  /** `BIT_STRING_compare`: the sign tells the order of the zero-extended bits, and
      values that differ in trailing zeros only are equal. */
  method Compare(a: BitStr, b: BitStr) returns (r: int)
    requires a.Sane() && b.Sane()
    ensures r < 0 <==> Precedes(Unpack(a.buf), Unpack(b.buf))
    ensures r > 0 <==> Precedes(Unpack(b.buf), Unpack(a.buf))
    ensures r == 0 <==> SameBits(Unpack(a.buf), Unpack(b.buf))
  {
    hide Unpack, BitIn8, Significant, Memcmp;
    var aSize, aUnused := Compactify(a);
    var bSize, bUnused := Compactify(b);
    ghost var x, y := Unpack(a.buf), Unpack(b.buf);
    var common := if aSize <= bSize then aSize else bSize;
    r := Memcmp(a.buf, b.buf, common);
    MemcmpOrders(a.buf, b.buf, common);
    PrecedesTrichotomy(x, y);
    PrecedesTrichotomy(y, x);
    if r == 0 {
      MemcmpEqual(a.buf, b.buf, common);
      SamePrefixSameBits(a.buf, b.buf, common);
      if aSize < bSize {
        LongerFollows(x, y, 8 * common);
        r := -1;
      } else if aSize > bSize {
        LongerFollows(y, x, 8 * common);
        r := 1;
      } else {
        SameSignificant(x, y, 8 * common);
        r := if aUnused > bUnused then -1 else if aUnused < bUnused then 1 else 0;
      }
    }
  }
}
