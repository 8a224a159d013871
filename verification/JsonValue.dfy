/** json11 values, the C library functions they rely on, and the order that
    `operator==` and `operator<` induce on them. */
module JsonValue {

  /** A C++ `char`, read as the unsigned byte it stores. */
  type Byte = c: char | c as int < 256 witness ' '
  type Bytes = seq<Byte>

  type Int32 = n: int | -0x8000_0000 <= n < 0x8000_0000
  type UInt64 = n: int | 0 <= n < 0x1_0000_0000_0000_0000

  /** An IEEE double whose finite values are the reals they denote (-0.0 is 0.0). */
  datatype Double = NaN | Infinite(negative: bool) | Finite(r: real)

  datatype Member = Member(key: Bytes, value: Json)

  /** An object lists its members in ascending key order, as `std::map` iterates them. */
  datatype Json =
    | Null
    | Bool(b: bool)
    | Int(n: Int32)
    | UInt(u: UInt64)
    | Dbl(d: Double)
    | Str(s: Bytes)
    | Arr(items: seq<Json>)
    | Obj(members: seq<Member>)

  /** The C library functions json11 calls but does not define. `toDouble` is the
      conversion of an integer to the nearest double, `strtod` reads a decimal
      literal, `format17` is the conversion `%.17g` of a finite double. */
  datatype Platform = Platform(
    toDouble: int -> real,
    strtod: Bytes -> Double,
    isDouble: real -> bool,
    format17: real -> Bytes)

  // ----- Comparison -----

  predicate LessBytes(x: Bytes, y: Bytes) {
    if y == [] then false
    else if x == [] then true
    else x[0] < y[0] || (x[0] == y[0] && LessBytes(x[1..], y[1..]))
  }

  predicate LessDouble(x: Double, y: Double) {
    match (x, y)
    case (NaN, _) => false
    case (_, NaN) => false
    case (Infinite(m), Infinite(n)) => m && !n
    case (Infinite(m), Finite(_)) => m
    case (Finite(_), Infinite(n)) => !n
    case (Finite(r), Finite(s)) => r < s
  }

  predicate EqualDouble(x: Double, y: Double) {
    !x.NaN? && x == y
  }

  predicate IsNumber(a: Json) {
    a.Int? || a.UInt? || a.Dbl?
  }

  function NumberValue(p: Platform, a: Json): Double
    requires IsNumber(a)
  {
    match a
    case Int(n) => Finite(n as real)
    case UInt(u) => Finite(p.toDouble(u))
    case Dbl(d) => d
  }

  /** The enumeration order of `Json::Type`. */
  function TypeRank(a: Json): nat {
    match a
    case Null => 0
    case Int(_) => 1
    case UInt(_) => 1
    case Dbl(_) => 1
    case Bool(_) => 2
    case Str(_) => 3
    case Arr(_) => 4
    case Obj(_) => 5
  }

  predicate Equals(p: Platform, a: Json, b: Json)
    decreases a, 1
  {
    if TypeRank(a) != TypeRank(b) then false
    else match a
      case Null => true
      case Bool(x) => x == b.b
      case Str(s) => s == b.s
      case Arr(xs) => EqualItems(p, xs, b.items)
      case Obj(ms) => EqualMembers(p, ms, b.members)
      case _ => EqualDouble(NumberValue(p, a), NumberValue(p, b))
  }

  predicate EqualItems(p: Platform, xs: seq<Json>, ys: seq<Json>)
    decreases xs, 0
  {
    if xs == [] || ys == [] then xs == ys
    else Equals(p, xs[0], ys[0]) && EqualItems(p, xs[1..], ys[1..])
  }

  predicate EqualMembers(p: Platform, xs: seq<Member>, ys: seq<Member>)
    decreases xs, 0
  {
    if xs == [] || ys == [] then xs == ys
    else
      && xs[0].key == ys[0].key
      && Equals(p, xs[0].value, ys[0].value)
      && EqualMembers(p, xs[1..], ys[1..])
  }

  /** Number of nodes; the measure on which the comparisons terminate. */
  ghost function Weight(a: Json): nat
    decreases a, 1
  {
    match a
    case Arr(xs) => 1 + WeightItems(xs)
    case Obj(ms) => 1 + WeightMembers(ms)
    case _ => 1
  }

  ghost function WeightItems(xs: seq<Json>): nat
    decreases xs, 0
  {
    if xs == [] then 0 else 1 + Weight(xs[0]) + WeightItems(xs[1..])
  }

  ghost function WeightMembers(ms: seq<Member>): nat
    decreases ms, 0
  {
    if ms == [] then 0 else 1 + Weight(ms[0].value) + WeightMembers(ms[1..])
  }

  predicate Less(p: Platform, a: Json, b: Json)
    decreases Weight(a) + Weight(b), 0
  {
    if TypeRank(a) != TypeRank(b) then TypeRank(a) < TypeRank(b)
    else match a
      case Null => false
      case Bool(x) => !x && b.b
      case Str(s) => LessBytes(s, b.s)
      case Arr(xs) => LessItems(p, xs, b.items)
      case Obj(ms) => LessMembers(p, ms, b.members)
      case _ => LessDouble(NumberValue(p, a), NumberValue(p, b))
  }

  /** `std::lexicographical_compare` on two vectors. */
  predicate LessItems(p: Platform, xs: seq<Json>, ys: seq<Json>)
    decreases WeightItems(xs) + WeightItems(ys), 0
  {
    if ys == [] then false
    else if xs == [] then true
    else if Less(p, xs[0], ys[0]) then true
    else if Less(p, ys[0], xs[0]) then false
    else LessItems(p, xs[1..], ys[1..])
  }

  /** The same on two maps, whose elements are ordered as `std::pair`. */
  predicate LessMembers(p: Platform, xs: seq<Member>, ys: seq<Member>)
    decreases WeightMembers(xs) + WeightMembers(ys), 0
  {
    if ys == [] then false
    else if xs == [] then true
    else if LessMember(p, xs, ys) then true
    else if LessMember(p, ys, xs) then false
    else LessMembers(p, xs[1..], ys[1..])
  }

  /** `std::pair` order on the two leading members. */
  predicate LessMember(p: Platform, xs: seq<Member>, ys: seq<Member>)
    requires xs != [] && ys != []
    decreases Weight(xs[0].value) + Weight(ys[0].value), 1
  {
    || LessBytes(xs[0].key, ys[0].key)
    || (!LessBytes(ys[0].key, xs[0].key) && Less(p, xs[0].value, ys[0].value))
  }

  /** No double anywhere inside is a NaN. */
  predicate NaNFree(a: Json)
    decreases a, 1
  {
    match a
    case Dbl(d) => !d.NaN?
    case Arr(xs) => NaNFreeItems(xs)
    case Obj(ms) => NaNFreeMembers(ms)
    case _ => true
  }

  predicate NaNFreeItems(xs: seq<Json>)
    decreases xs, 0
  {
    xs == [] || (NaNFree(xs[0]) && NaNFreeItems(xs[1..]))
  }

  predicate NaNFreeMembers(ms: seq<Member>)
    decreases ms, 0
  {
    ms == [] || (NaNFree(ms[0].value) && NaNFreeMembers(ms[1..]))
  }
}
