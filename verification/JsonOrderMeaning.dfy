/** What the two operators say of values, type by type: the order of the types, of
    numbers, and lexicographic order without recursion. */
module JsonOrderMeaning {
  import opened JsonValue
  import opened JsonOrder

  /** Null, then numbers, Booleans, strings, arrays, objects. */
  lemma TypesInOrder(p: Platform, a: Json, b: Json)
    ensures a.Null? && !b.Null? ==> Less(p, a, b)
    ensures IsNumber(a) && (b.Bool? || b.Str? || b.Arr? || b.Obj?) ==> Less(p, a, b)
    ensures a.Bool? && (b.Str? || b.Arr? || b.Obj?) ==> Less(p, a, b)
    ensures a.Str? && (b.Arr? || b.Obj?) ==> Less(p, a, b)
    ensures a.Arr? && b.Obj? ==> Less(p, a, b)
    ensures a.Null? != b.Null? || IsNumber(a) != IsNumber(b) || a.Bool? != b.Bool? ==> !Equals(p, a, b)
    ensures a.Str? != b.Str? || a.Arr? != b.Arr? || a.Obj? != b.Obj? ==> !Equals(p, a, b)
    ensures Equals(p, Null, Null) && !Less(p, Null, Null)
    ensures a.Str? && b.Str? ==> (Equals(p, a, b) <==> a.s == b.s) && (Less(p, a, b) <==> LessBytes(a.s, b.s))
  {
  }

  /** Numbers of any representation are ordered as doubles: an int as itself, a uint64
      as the double it converts to; NaN is neither less than nor equal to any. */
  lemma NumbersInOrder(p: Platform, m: Int32, n: UInt64, r: real, s: real, b: Json)
    ensures Less(p, Int(m), Dbl(Finite(r))) <==> m as real < r
    ensures Less(p, Dbl(Finite(r)), Int(m)) <==> r < m as real
    ensures Less(p, UInt(n), Dbl(Finite(r))) <==> p.toDouble(n) < r
    ensures Less(p, Int(m), UInt(n)) <==> m as real < p.toDouble(n)
    ensures Less(p, Dbl(Finite(r)), Dbl(Finite(s))) <==> r < s
    ensures Equals(p, Int(m), Dbl(Finite(r))) <==> m as real == r
    ensures Equals(p, UInt(n), Dbl(Finite(r))) <==> p.toDouble(n) == r
    ensures Equals(p, Int(m), UInt(n)) <==> m as real == p.toDouble(n)
    ensures Equals(p, Dbl(Finite(r)), Dbl(Finite(s))) <==> r == s
    ensures Less(p, Dbl(Infinite(true)), Dbl(Finite(r))) && Less(p, Dbl(Finite(r)), Dbl(Infinite(false)))
    ensures Less(p, Dbl(Infinite(true)), Dbl(Infinite(false)))
    ensures IsNumber(b) ==> !Less(p, Dbl(NaN), b) && !Less(p, b, Dbl(NaN)) && !Equals(p, Dbl(NaN), b)
  {
  }

  lemma BooleansInOrder(p: Platform, x: bool, y: bool)
    ensures Less(p, Bool(x), Bool(y)) <==> !x && y
    ensures Equals(p, Bool(x), Bool(y)) <==> x == y
  {
  }

  /** The texts agree up to a place where `x` ends, or has the smaller byte. */
  ghost predicate FirstSmaller(x: Bytes, y: Bytes, k: nat) {
    k <= |x| && k < |y| && x[..k] == y[..k] && (k == |x| || x[k] < y[k])
  }

  lemma {:induction false} BytesInOrder(x: Bytes, y: Bytes)
    ensures LessBytes(x, y) <==> exists k: nat :: FirstSmaller(x, y, k)
  {
    if x == [] || y == [] {
      if y != [] { assert FirstSmaller(x, y, 0); }
    } else {
      BytesInOrder(x[1..], y[1..]);
      if x[0] < y[0] { assert FirstSmaller(x, y, 0); }
      if x[0] == y[0] {
        if k: nat :| FirstSmaller(x[1..], y[1..], k) {
          assert x[..k + 1] == [x[0]] + x[1..][..k] && y[..k + 1] == [y[0]] + y[1..][..k];
          assert FirstSmaller(x, y, k + 1);
        }
      }
      if k: nat :| FirstSmaller(x, y, k) {
        if k > 0 {
          assert x[0] == x[..k][0] && y[0] == y[..k][0];
          assert x[1..][..k - 1] == x[..k][1..] && y[1..][..k - 1] == y[..k][1..];
          assert FirstSmaller(x[1..], y[1..], k - 1);
        }
      }
    }
  }

  /** Neither is less than the other. */
  ghost predicate Tied(p: Platform, a: Json, b: Json) {
    !Less(p, a, b) && !Less(p, b, a)
  }

  ghost predicate FirstLess(p: Platform, xs: seq<Json>, ys: seq<Json>, k: nat) {
    && k <= |xs| && k < |ys|
    && (forall j :: 0 <= j < k ==> Tied(p, xs[j], ys[j]))
    && (k == |xs| || Less(p, xs[k], ys[k]))
  }

  /** Arrays are ordered by their first elements that are not tied, a shorter one first. */
  lemma {:induction false} ArraysInOrder(p: Platform, xs: seq<Json>, ys: seq<Json>)
    ensures Less(p, Arr(xs), Arr(ys)) <==> exists k: nat :: FirstLess(p, xs, ys, k)
    decreases |xs|
  {
    hide Less;
    ArraysStep(p, xs, ys);
    if xs == [] || ys == [] {
      if ys != [] { assert FirstLess(p, xs, ys, 0); }
    } else {
      ArraysInOrder(p, xs[1..], ys[1..]);
      if Less(p, xs[0], ys[0]) { assert FirstLess(p, xs, ys, 0); }
      if Tied(p, xs[0], ys[0]) {
        if k: nat :| FirstLess(p, xs[1..], ys[1..], k) {
          forall j | 0 <= j < k + 1 ensures Tied(p, xs[j], ys[j]) {
            if j > 0 { assert Tied(p, xs[1..][j - 1], ys[1..][j - 1]); }
          }
          assert FirstLess(p, xs, ys, k + 1);
        }
      }
      if k: nat :| FirstLess(p, xs, ys, k) {
        if k > 0 {
          assert Tied(p, xs[0], ys[0]);
          forall j | 0 <= j < k - 1 ensures Tied(p, xs[1..][j], ys[1..][j]) { assert Tied(p, xs[j + 1], ys[j + 1]); }
          assert FirstLess(p, xs[1..], ys[1..], k - 1);
        }
      }
    }
  }

  lemma ArraysStep(p: Platform, xs: seq<Json>, ys: seq<Json>)
    ensures Less(p, Arr(xs), Arr(ys)) <==>
      (ys != [] && (xs == [] || Less(p, xs[0], ys[0]) || (Tied(p, xs[0], ys[0]) && Less(p, Arr(xs[1..]), Arr(ys[1..])))))
  {
    if xs != [] && ys != [] { assert Less(p, Arr(xs[1..]), Arr(ys[1..])) == LessItems(p, xs[1..], ys[1..]); }
    ArraysCompared(p, xs, ys);
  }

  lemma ArraysCompared(p: Platform, xs: seq<Json>, ys: seq<Json>)
    ensures Less(p, Arr(xs), Arr(ys)) == LessItems(p, xs, ys)
  {
  }

  /** The order of `std::pair`: by key, and by value where the keys are the same. */
  ghost predicate PairLess(p: Platform, m: Member, n: Member) {
    LessBytes(m.key, n.key) || (m.key == n.key && Less(p, m.value, n.value))
  }

  ghost predicate PairTied(p: Platform, m: Member, n: Member) {
    !PairLess(p, m, n) && !PairLess(p, n, m)
  }

  ghost predicate FirstPairLess(p: Platform, xs: seq<Member>, ys: seq<Member>, k: nat) {
    && k <= |xs| && k < |ys|
    && (forall j :: 0 <= j < k ==> PairTied(p, xs[j], ys[j]))
    && (k == |xs| || PairLess(p, xs[k], ys[k]))
  }

  /** Objects are ordered by their first members that are not tied. */
  lemma {:induction false} ObjectsInOrder(p: Platform, xs: seq<Member>, ys: seq<Member>)
    ensures Less(p, Obj(xs), Obj(ys)) <==> exists k: nat :: FirstPairLess(p, xs, ys, k)
    decreases |xs|
  {
    hide Less, PairLess;
    ObjectsStep(p, xs, ys);
    if xs == [] || ys == [] {
      if ys != [] { assert FirstPairLess(p, xs, ys, 0); }
    } else {
      ObjectsInOrder(p, xs[1..], ys[1..]);
      if PairLess(p, xs[0], ys[0]) { assert FirstPairLess(p, xs, ys, 0); }
      if PairTied(p, xs[0], ys[0]) {
        if k: nat :| FirstPairLess(p, xs[1..], ys[1..], k) {
          forall j | 0 <= j < k + 1 ensures PairTied(p, xs[j], ys[j]) {
            if j > 0 { assert PairTied(p, xs[1..][j - 1], ys[1..][j - 1]); }
          }
          assert FirstPairLess(p, xs, ys, k + 1);
        }
      }
      if k: nat :| FirstPairLess(p, xs, ys, k) {
        if k > 0 {
          assert PairTied(p, xs[0], ys[0]);
          forall j | 0 <= j < k - 1 ensures PairTied(p, xs[1..][j], ys[1..][j]) { assert PairTied(p, xs[j + 1], ys[j + 1]); }
          assert FirstPairLess(p, xs[1..], ys[1..], k - 1);
        }
      }
    }
  }

  lemma ObjectsStep(p: Platform, xs: seq<Member>, ys: seq<Member>)
    ensures Less(p, Obj(xs), Obj(ys)) <==>
      (ys != [] &&
        (xs == [] || PairLess(p, xs[0], ys[0]) || (PairTied(p, xs[0], ys[0]) && Less(p, Obj(xs[1..]), Obj(ys[1..])))))
  {
    if xs != [] && ys != [] {
      assert Less(p, Obj(xs[1..]), Obj(ys[1..])) == LessMembers(p, xs[1..], ys[1..]);
      PairOrder(p, xs, ys);
      PairOrder(p, ys, xs);
    }
    assert Less(p, Obj(xs), Obj(ys)) == LessMembers(p, xs, ys);
  }

  lemma PairOrder(p: Platform, xs: seq<Member>, ys: seq<Member>)
    requires xs != [] && ys != []
    ensures LessMember(p, xs, ys) <==> PairLess(p, xs[0], ys[0])
  {
    BytesAntisymmetric(xs[0].key, ys[0].key);
    BytesAntisymmetric(ys[0].key, xs[0].key);
  }

  /** Arrays are equal element by element, objects member by member. */
  lemma {:induction false} ArraysEqual(p: Platform, xs: seq<Json>, ys: seq<Json>)
    ensures Equals(p, Arr(xs), Arr(ys)) <==> |xs| == |ys| && forall k :: 0 <= k < |xs| ==> Equals(p, xs[k], ys[k])
    decreases |xs|
  {
    assert Equals(p, Arr(xs), Arr(ys)) == EqualItems(p, xs, ys);
    if xs != [] && ys != [] {
      assert Equals(p, Arr(xs[1..]), Arr(ys[1..])) == EqualItems(p, xs[1..], ys[1..]);
      ArraysEqual(p, xs[1..], ys[1..]);
      hide Equals;
      if |xs| == |ys| && Equals(p, xs[0], ys[0]) && forall k :: 0 <= k < |xs[1..]| ==> Equals(p, xs[1..][k], ys[1..][k]) {
        forall k | 0 <= k < |xs| ensures Equals(p, xs[k], ys[k]) {
          if k > 0 { assert Equals(p, xs[1..][k - 1], ys[1..][k - 1]); }
        }
      }
    }
  }

  lemma {:induction false} ObjectsEqual(p: Platform, xs: seq<Member>, ys: seq<Member>)
    ensures Equals(p, Obj(xs), Obj(ys)) <==>
      (|xs| == |ys| && forall k :: 0 <= k < |xs| ==> xs[k].key == ys[k].key && Equals(p, xs[k].value, ys[k].value))
    decreases |xs|
  {
    assert Equals(p, Obj(xs), Obj(ys)) == EqualMembers(p, xs, ys);
    if xs != [] && ys != [] {
      assert Equals(p, Obj(xs[1..]), Obj(ys[1..])) == EqualMembers(p, xs[1..], ys[1..]);
      ObjectsEqual(p, xs[1..], ys[1..]);
      hide Equals;
      if |xs| == |ys| && xs[0].key == ys[0].key && Equals(p, xs[0].value, ys[0].value)
         && forall k :: 0 <= k < |xs[1..]| ==> xs[1..][k].key == ys[1..][k].key && Equals(p, xs[1..][k].value, ys[1..][k].value) {
        forall k | 0 <= k < |xs| ensures xs[k].key == ys[k].key && Equals(p, xs[k].value, ys[k].value) {
          if k > 0 { assert xs[1..][k - 1].key == ys[1..][k - 1].key && Equals(p, xs[1..][k - 1].value, ys[1..][k - 1].value); }
        }
      }
    }
  }
}
