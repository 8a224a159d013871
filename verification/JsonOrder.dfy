/** `operator<` and `operator==` on NaN-free values form a strict weak order. */
module JsonOrder {
  import opened JsonValue

  // ----- A three-way comparison that both operators are read off from -----

  function CompareBytes(x: Bytes, y: Bytes): int {
    if x == [] then (if y == [] then 0 else -1)
    else if y == [] then 1
    else if x[0] < y[0] then -1
    else if y[0] < x[0] then 1
    else CompareBytes(x[1..], y[1..])
  }

  function CompareReal(r: real, s: real): int {
    if r < s then -1 else if r == s then 0 else 1
  }

  function CompareDouble(x: Double, y: Double): int {
    match (x, y)
    case (Finite(r), Finite(s)) => CompareReal(r, s)
    case (Infinite(m), Infinite(n)) => if m == n then 0 else if m then -1 else 1
    case (Infinite(m), _) => if m then -1 else 1
    case (_, Infinite(n)) => if n then 1 else -1
    case _ => 0
  }

  function Compare(p: Platform, a: Json, b: Json): int
    decreases a, 1
  {
    if TypeRank(a) != TypeRank(b) then TypeRank(a) - TypeRank(b)
    else match a
      case Null => 0
      case Bool(x) => if x == b.b then 0 else if x then 1 else -1
      case Str(s) => CompareBytes(s, b.s)
      case Arr(xs) => CompareItems(p, xs, b.items)
      case Obj(ms) => CompareMembers(p, ms, b.members)
      case _ => CompareDouble(NumberValue(p, a), NumberValue(p, b))
  }

  function CompareItems(p: Platform, xs: seq<Json>, ys: seq<Json>): int
    decreases xs, 0
  {
    if xs == [] then (if ys == [] then 0 else -1)
    else if ys == [] then 1
    else
      var c := Compare(p, xs[0], ys[0]);
      if c != 0 then c else CompareItems(p, xs[1..], ys[1..])
  }

  function CompareMembers(p: Platform, xs: seq<Member>, ys: seq<Member>): int
    decreases xs, 0
  {
    if xs == [] then (if ys == [] then 0 else -1)
    else if ys == [] then 1
    else
      var k := CompareBytes(xs[0].key, ys[0].key);
      if k != 0 then k else
      var c := Compare(p, xs[0].value, ys[0].value);
      if c != 0 then c else CompareMembers(p, xs[1..], ys[1..])
  }

  // ----- The comparison is antisymmetric and transitive -----

  lemma {:induction false} BytesAntisymmetric(x: Bytes, y: Bytes)
    ensures CompareBytes(y, x) == -CompareBytes(x, y)
    ensures CompareBytes(x, y) == 0 <==> x == y
    ensures CompareBytes(x, y) < 0 <==> LessBytes(x, y)
  {
    if x != [] && y != [] {
      BytesAntisymmetric(x[1..], y[1..]);
      assert x == [x[0]] + x[1..] && y == [y[0]] + y[1..];
    }
  }

  /** What a chain x <= y <= z says about x and z. */
  ghost predicate Chains(xy: int, yz: int, xz: int) {
    xy <= 0 && yz <= 0 ==> xz <= 0 && (xz == 0 <==> xy == 0 && yz == 0)
  }

  lemma {:induction false} BytesTransitive(x: Bytes, y: Bytes, z: Bytes)
    ensures Chains(CompareBytes(x, y), CompareBytes(y, z), CompareBytes(x, z))
  {
    if x != [] && y != [] && z != [] {
      BytesTransitive(x[1..], y[1..], z[1..]);
    }
  }

  lemma {:induction false} CompareAntisymmetric(p: Platform, a: Json, b: Json)
    ensures Compare(p, b, a) == -Compare(p, a, b)
    decreases a, 1
  {
    if TypeRank(a) == TypeRank(b) {
      match a
      case Str(s) => BytesAntisymmetric(s, b.s);
      case Arr(xs) => CompareItemsAntisymmetric(p, xs, b.items);
      case Obj(ms) => CompareMembersAntisymmetric(p, ms, b.members);
      case _ =>
    }
  }

  lemma {:induction false} CompareItemsAntisymmetric(p: Platform, xs: seq<Json>, ys: seq<Json>)
    ensures CompareItems(p, ys, xs) == -CompareItems(p, xs, ys)
    decreases xs, 0
  {
    if xs != [] && ys != [] {
      CompareAntisymmetric(p, xs[0], ys[0]);
      CompareItemsAntisymmetric(p, xs[1..], ys[1..]);
    }
  }

  lemma {:induction false} CompareMembersAntisymmetric(p: Platform, xs: seq<Member>, ys: seq<Member>)
    ensures CompareMembers(p, ys, xs) == -CompareMembers(p, xs, ys)
    decreases xs, 0
  {
    if xs != [] && ys != [] {
      BytesAntisymmetric(xs[0].key, ys[0].key);
      CompareAntisymmetric(p, xs[0].value, ys[0].value);
      CompareMembersAntisymmetric(p, xs[1..], ys[1..]);
    }
  }

  lemma {:induction false} CompareTransitive(p: Platform, a: Json, b: Json, c: Json)
    requires NaNFree(a) && NaNFree(b) && NaNFree(c)
    ensures Chains(Compare(p, a, b), Compare(p, b, c), Compare(p, a, c))
    decreases a, 1
  {
    if TypeRank(a) == TypeRank(b) == TypeRank(c) {
      match a
      case Str(s) => BytesTransitive(s, b.s, c.s);
      case Arr(xs) => CompareItemsTransitive(p, xs, b.items, c.items);
      case Obj(ms) => CompareMembersTransitive(p, ms, b.members, c.members);
      case _ =>
    }
  }

  lemma {:induction false} CompareItemsTransitive(p: Platform, xs: seq<Json>, ys: seq<Json>, zs: seq<Json>)
    requires NaNFreeItems(xs) && NaNFreeItems(ys) && NaNFreeItems(zs)
    ensures Chains(CompareItems(p, xs, ys), CompareItems(p, ys, zs), CompareItems(p, xs, zs))
    decreases xs, 0
  {
    if xs != [] && ys != [] && zs != [] {
      CompareTransitive(p, xs[0], ys[0], zs[0]);
      CompareItemsTransitive(p, xs[1..], ys[1..], zs[1..]);
    }
  }

  lemma {:induction false} CompareMembersTransitive(p: Platform, xs: seq<Member>, ys: seq<Member>, zs: seq<Member>)
    requires NaNFreeMembers(xs) && NaNFreeMembers(ys) && NaNFreeMembers(zs)
    ensures Chains(CompareMembers(p, xs, ys), CompareMembers(p, ys, zs), CompareMembers(p, xs, zs))
    decreases xs, 0
  {
    if xs != [] && ys != [] && zs != [] {
      BytesTransitive(xs[0].key, ys[0].key, zs[0].key);
      CompareTransitive(p, xs[0].value, ys[0].value, zs[0].value);
      CompareMembersTransitive(p, xs[1..], ys[1..], zs[1..]);
    }
  }

  // ----- Both operators agree with it -----

  lemma {:induction false} OperatorsAgree(p: Platform, a: Json, b: Json)
    requires NaNFree(a) && NaNFree(b)
    ensures Less(p, a, b) <==> Compare(p, a, b) < 0
    ensures Equals(p, a, b) <==> Compare(p, a, b) == 0
    decreases Weight(a) + Weight(b)
  {
    if TypeRank(a) == TypeRank(b) {
      match a
      case Str(s) => BytesAntisymmetric(s, b.s);
      case Arr(xs) => OperatorsAgreeItems(p, xs, b.items);
      case Obj(ms) => OperatorsAgreeMembers(p, ms, b.members);
      case _ =>
    }
  }

  lemma {:induction false} OperatorsAgreeItems(p: Platform, xs: seq<Json>, ys: seq<Json>)
    requires NaNFreeItems(xs) && NaNFreeItems(ys)
    ensures LessItems(p, xs, ys) <==> CompareItems(p, xs, ys) < 0
    ensures EqualItems(p, xs, ys) <==> CompareItems(p, xs, ys) == 0
    decreases WeightItems(xs) + WeightItems(ys)
  {
    if xs != [] && ys != [] {
      OperatorsAgree(p, xs[0], ys[0]);
      OperatorsAgree(p, ys[0], xs[0]);
      CompareAntisymmetric(p, xs[0], ys[0]);
      OperatorsAgreeItems(p, xs[1..], ys[1..]);
    }
  }

  lemma {:induction false} OperatorsAgreeMembers(p: Platform, xs: seq<Member>, ys: seq<Member>)
    requires NaNFreeMembers(xs) && NaNFreeMembers(ys)
    ensures LessMembers(p, xs, ys) <==> CompareMembers(p, xs, ys) < 0
    ensures EqualMembers(p, xs, ys) <==> CompareMembers(p, xs, ys) == 0
    decreases WeightMembers(xs) + WeightMembers(ys)
  {
    if xs != [] && ys != [] {
      BytesAntisymmetric(xs[0].key, ys[0].key);
      BytesAntisymmetric(ys[0].key, xs[0].key);
      OperatorsAgree(p, xs[0].value, ys[0].value);
      OperatorsAgree(p, ys[0].value, xs[0].value);
      CompareAntisymmetric(p, xs[0].value, ys[0].value);
      OperatorsAgreeMembers(p, xs[1..], ys[1..]);
    }
  }

  // ----- Main results -----

  /** Exactly one of a < b, a == b, b < a holds. */
  lemma Trichotomy(p: Platform, a: Json, b: Json)
    requires NaNFree(a) && NaNFree(b)
    ensures Less(p, a, b) || Equals(p, a, b) || Less(p, b, a)
    ensures !(Less(p, a, b) && Equals(p, a, b))
    ensures !(Less(p, b, a) && Equals(p, a, b))
    ensures !(Less(p, a, b) && Less(p, b, a))
  {
    OperatorsAgree(p, a, b);
    OperatorsAgree(p, b, a);
    CompareAntisymmetric(p, a, b);
  }

  /** `<` is transitive, `==` is an equivalence, and `<` respects it. */
  lemma OrderIsTransitive(p: Platform, a: Json, b: Json, c: Json)
    requires NaNFree(a) && NaNFree(b) && NaNFree(c)
    ensures Less(p, a, b) && Less(p, b, c) ==> Less(p, a, c)
    ensures Less(p, a, b) && Equals(p, b, c) ==> Less(p, a, c)
    ensures Equals(p, a, b) && Less(p, b, c) ==> Less(p, a, c)
    ensures Equals(p, a, b) && Equals(p, b, c) ==> Equals(p, a, c)
    ensures Equals(p, a, b) <==> Equals(p, b, a)
  {
    OperatorsAgree(p, a, b);
    OperatorsAgree(p, b, c);
    OperatorsAgree(p, a, c);
    OperatorsAgree(p, b, a);
    CompareAntisymmetric(p, a, b);
    CompareTransitive(p, a, b, c);
  }

  /** Compared by content with itself, a value is equal exactly when it holds no NaN;
      this is why the identity test in front of the comparison is invisible without NaNs. */
  lemma {:induction false} ReflexiveIffNaNFree(p: Platform, a: Json)
    ensures Equals(p, a, a) <==> NaNFree(a)
    ensures !Less(p, a, a)
    decreases a, 1
  {
    match a
    case Str(s) => BytesAntisymmetric(s, s);
    case Arr(xs) => ReflexiveIffNaNFreeItems(p, xs);
    case Obj(ms) => ReflexiveIffNaNFreeMembers(p, ms);
    case _ =>
  }

  lemma {:induction false} ReflexiveIffNaNFreeItems(p: Platform, xs: seq<Json>)
    ensures EqualItems(p, xs, xs) <==> NaNFreeItems(xs)
    ensures !LessItems(p, xs, xs)
    decreases xs, 0
  {
    if xs != [] {
      ReflexiveIffNaNFree(p, xs[0]);
      ReflexiveIffNaNFreeItems(p, xs[1..]);
    }
  }

  lemma {:induction false} ReflexiveIffNaNFreeMembers(p: Platform, ms: seq<Member>)
    ensures EqualMembers(p, ms, ms) <==> NaNFreeMembers(ms)
    ensures !LessMembers(p, ms, ms)
    decreases ms, 0
  {
    if ms != [] {
      BytesAntisymmetric(ms[0].key, ms[0].key);
      ReflexiveIffNaNFree(p, ms[0].value);
      ReflexiveIffNaNFreeMembers(p, ms[1..]);
    }
  }
}
