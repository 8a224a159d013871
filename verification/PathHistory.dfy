/** The path history of a vehicle: a ring of points with distance-driven eviction. */
module PathHistory {
  import opened Vehicle

  /** A stored point, with the distance recorded for it when it was inserted. */
  datatype Point = Point(lat: real, lon: real, elev: real, heading: real, dist: real)

  const BLANK := Point(0.0, 0.0, 0.0, 0.0, 0.0)

  /** The settings of one history. `distance` stands for the haversine formula. */
  datatype Params = Params(
    limit: real,
    minDist: real,
    maxDist: real,
    maxHeading: real,
    removeOnlyOne: bool,
    distance: (real, real, real, real) -> real)

  /** The ring: slots, the index written next, the index of the oldest live point,
      the number of live points and the distance they are said to cover. */
  datatype Ring = Ring(slots: seq<Point>, next: nat, oldest: nat, size: nat, stored: real) {
    /** Indices are in range; the capacity is the number of slots. */
    predicate Valid() {
      |slots| > 0 && next < |slots| && oldest < |slots| && size <= |slots|
    }
  }

  datatype Outcome = Inserted | Skipped

  function Wrap(i: nat, n: nat): (r: nat)
    requires i < 2 * n
    ensures r < n
  {
    if i < n then i else i - n
  }

  /** `(i + 1) % n`. */
  lemma StepIsModulo(i: nat, n: nat)
    requires i < n
    ensures (i + 1) % n == Wrap(i + 1, n)
  {
    if i + 1 == n { assert n % n == 0; }
  }

  // ----- One insertion -----

  function AngDiff(a: real, b: real): real {
    var d := a - b;
    if d > 180.0 then d - 360.0 else if d < -180.0 then d + 360.0 else d
  }

  function Abs(x: real): real { if x < 0.0 then -x else x }

  /** The turn from one heading to another, so many times round. */
  function Turn(a: real, b: real, rounds: int): real {
    a - b + 360.0 * rounds as real
  }

  /** The result is always a turn between the two headings; up to one and a half turns
      apart it is the shortest one, and only then of at most 180 degrees. */
  lemma AngDiffIsShortest(a: real, b: real, rounds: int)
    ensures exists k: int :: AngDiff(a, b) == Turn(a, b, k)
    ensures -180.0 <= AngDiff(a, b) <= 180.0 <==> -540.0 <= a - b <= 540.0
    ensures -540.0 <= a - b <= 540.0 ==> Abs(AngDiff(a, b)) <= Abs(Turn(a, b, rounds))
  {
    var d, t := a - b, 360.0 * rounds as real;
    var k := if d > 180.0 then -1 else if d < -180.0 then 1 else 0;
    assert AngDiff(a, b) == Turn(a, b, k);
    if rounds <= -2 { assert t <= -720.0; }
    if rounds >= 2 { assert t >= 720.0; }
  }

  /** For headings up to one and a half turns apart, a report is skipped exactly when it
      is nearer than the maximum to the point looked back at, and either nearer than the
      minimum or some turn between the two headings is below the threshold. */
  lemma SkipsIff(p: Params, r: Ring, v: VehicleData)
    requires r.Valid() && r.size >= 1
    requires var prev := r.slots[if r.next == 0 then r.size - 1 else r.next - 1];
      -540.0 <= prev.heading - v.heading <= 540.0
    ensures var prev := r.slots[if r.next == 0 then r.size - 1 else r.next - 1];
      var gap := p.distance(prev.lat, prev.lon, v.lat, v.lon);
      Skips(p, r, v) <==>
        gap < p.maxDist &&
        (gap < p.minDist || exists k: int :: -p.maxHeading < Turn(prev.heading, v.heading, k) < p.maxHeading)
  {
    var prev := r.slots[LookBack(r)];
    AngDiffIsShortest(prev.heading, v.heading, 0);
    if k: int :| -p.maxHeading < Turn(prev.heading, v.heading, k) < p.maxHeading {
      AngDiffIsShortest(prev.heading, v.heading, k);
    }
  }

  /** The slot looked back at, taken to hold the previous point. */
  function LookBack(r: Ring): (i: nat)
    requires r.Valid() && r.size >= 1
    ensures i < |r.slots|
  {
    if r.next == 0 then r.size - 1 else r.next - 1
  }

  function Gap(p: Params, r: Ring, v: VehicleData): real
    requires r.Valid()
  {
    if r.size >= 1 then
      var prev := r.slots[LookBack(r)];
      p.distance(prev.lat, prev.lon, v.lat, v.lon)
    else 0.0
  }

  /** Too close, or not far and hardly turned. */
  predicate Skips(p: Params, r: Ring, v: VehicleData)
    requires r.Valid()
  {
    && r.size >= 1
    && var gap := Gap(p, r, v);
       gap < p.maxDist && (gap < p.minDist || Abs(AngDiff(r.slots[LookBack(r)].heading, v.heading)) < p.maxHeading)
  }

  function DropOldest(r: Ring): (r': Ring)
    requires r.Valid() && r.size >= 1
    ensures r'.Valid()
  {
    r.(stored := r.stored - r.slots[r.oldest].dist, size := r.size - 1, oldest := Wrap(r.oldest + 1, |r.slots|))
  }

  /** The loop of the default policy. */
  function DropMany(p: Params, r: Ring): (r': Ring)
    requires r.Valid()
    ensures r'.Valid() && r'.slots == r.slots && r'.next == r.next
    decreases r.size
  {
    if r.stored >= p.limit && r.size > 1 then DropMany(p, DropOldest(r)) else r
  }

  /** What the removal policy leaves of a non-empty ring. */
  function Evicted(p: Params, r: Ring): (r': Ring)
    requires r.Valid()
    ensures r'.Valid() && r'.slots == r.slots && r'.next == r.next
  {
    if r.size == 0 then r
    else if !p.removeOnlyOne then DropMany(p, r)
    else if r.stored >= p.limit then DropOldest(r)
    else r
  }

  function NewPoint(v: VehicleData, gap: real): Point {
    Point(v.lat, v.lon, v.elevation, v.heading, gap)
  }

  function Write(r: Ring, point: Point): (r': Ring)
    requires r.Valid()
    ensures r'.Valid() && |r'.slots| == |r.slots|
  {
    Ring(r.slots[r.next := point], Wrap(r.next + 1, |r.slots|), r.oldest,
         if r.size < |r.slots| then r.size + 1 else r.size, r.stored + point.dist)
  }

  /** `PHpoints::insert`. */
  function Insert(p: Params, r: Ring, v: VehicleData): (r': Ring)
    requires r.Valid()
    ensures r'.Valid() && |r'.slots| == |r.slots|
  {
    if Skips(p, r, v) then r else Write(Evicted(p, r), NewPoint(v, Gap(p, r, v)))
  }

  /** An accepted report is stored, field by field, in the slot written next, with its
      distance from the point looked back at, or 0 when there was no point yet. */
  lemma InsertStores(p: Params, r: Ring, v: VehicleData)
    requires r.Valid()
    ensures r.size == 0 ==> !Skips(p, r, v)
    ensures !Skips(p, r, v) ==>
      var prev := r.slots[if r.next == 0 then (if r.size == 0 then 0 else r.size - 1) else r.next - 1];
      var gap := if r.size == 0 then 0.0 else p.distance(prev.lat, prev.lon, v.lat, v.lon);
      Insert(p, r, v).slots == r.slots[r.next := Point(v.lat, v.lon, v.elevation, v.heading, gap)]
    ensures Skips(p, r, v) ==> Insert(p, r, v) == r
    ensures !Skips(p, r, v) && r.next + 1 < |r.slots| ==> Insert(p, r, v).next == r.next + 1
    ensures !Skips(p, r, v) && r.next + 1 == |r.slots| ==> Insert(p, r, v).next == 0
  {
    hide AngDiff, Abs;
  }

  /** The slots after an accepted report. */
  lemma InsertWrites(p: Params, r: Ring, v: VehicleData)
    requires r.Valid() && !Skips(p, r, v)
    ensures Insert(p, r, v).slots == r.slots[r.next := Point(v.lat, v.lon, v.elevation, v.heading, Gap(p, r, v))]
  {
    hide Skips, Gap;
  }

  // ----- The queue inside the ring -----

  /** The live points, oldest first. */
  function Live(r: Ring): (q: seq<Point>)
    requires r.Valid()
    ensures |q| == r.size
  {
    seq(r.size, k requires 0 <= k < r.size => r.slots[Wrap(r.oldest + k, |r.slots|)])
  }

  function Covered(q: seq<Point>): real {
    if q == [] then 0.0 else q[0].dist + Covered(q[1..])
  }

  /** The next index closes the live region, and the stored distance is the sum of the
      distances in it. */
  ghost predicate Ordered(r: Ring) {
    r.Valid() && r.next == Wrap(r.oldest + r.size, |r.slots|) && r.stored == Covered(Live(r))
  }

  lemma {:induction false} CoveredAppend(q: seq<Point>, x: Point)
    ensures Covered(q + [x]) == Covered(q) + x.dist
  {
    if q == [] {
      assert q + [x] == [x];
    } else {
      CoveredAppend(q[1..], x);
      assert (q + [x])[1..] == q[1..] + [x];
    }
  }

  lemma DropIsTail(r: Ring)
    requires Ordered(r) && r.size >= 1
    ensures Ordered(DropOldest(r)) && Live(DropOldest(r)) == Live(r)[1..]
  {
    var r' := DropOldest(r);
    assert Wrap(r.oldest + 0, |r.slots|) == r.oldest;
    assert Live(r)[0] == r.slots[Wrap(r.oldest + 0, |r.slots|)];
    forall k | 0 <= k < r'.size ensures Live(r')[k] == Live(r)[k + 1] {
      assert Wrap(r'.oldest + k, |r.slots|) == Wrap(r.oldest + (k + 1), |r.slots|);
    }
    assert Live(r') == Live(r)[1..];
  }

  /** Exactly the shortest prefix is dropped that brings the rest below the limit or
      leaves one point. */
  ghost predicate IsShortestDrop(p: Params, q: seq<Point>, k: nat) {
    && k <= |q|
    && (Covered(q[k..]) < p.limit || |q| - k <= 1)
    && forall j :: 0 <= j < k ==> Covered(q[j..]) >= p.limit && |q| - j > 1
  }

  lemma {:induction false} DropManyIsShortest(p: Params, r: Ring) returns (k: nat)
    requires Ordered(r)
    ensures IsShortestDrop(p, Live(r), k)
    ensures Ordered(DropMany(p, r)) && Live(DropMany(p, r)) == Live(r)[k..]
    decreases r.size
  {
    var q := Live(r);
    assert q[0..] == q;
    if r.stored >= p.limit && r.size > 1 {
      DropIsTail(r);
      var n := DropManyIsShortest(p, DropOldest(r));
      k := n + 1;
      forall j | 0 <= j < k ensures Covered(q[j..]) >= p.limit && |q| - j > 1 {
        if j > 0 { assert q[1..][j - 1..] == q[j..]; }
      }
      assert q[1..][n..] == q[k..];
    } else {
      k := 0;
    }
  }

  /** How many points an accepted insertion drops. */
  ghost predicate IsDrop(p: Params, q: seq<Point>, k: nat) {
    if p.removeOnlyOne then k == if q != [] && Covered(q) >= p.limit then 1 else 0
    else IsShortestDrop(p, q, k)
  }

  lemma EvictedIsSuffix(p: Params, r: Ring) returns (k: nat)
    requires Ordered(r)
    ensures k <= r.size && IsDrop(p, Live(r), k)
    ensures Ordered(Evicted(p, r)) && Live(Evicted(p, r)) == Live(r)[k..]
  {
    k := 0;
    assert Live(r)[0..] == Live(r);
    if r.size > 0 && !p.removeOnlyOne {
      k := DropManyIsShortest(p, r);
    } else if r.size > 0 && r.stored >= p.limit {
      DropIsTail(r);
      k := 1;
    }
  }

  /** A write with room appends; a write onto a full ring loses the order. */
  lemma WriteAppends(r: Ring, x: Point)
    requires Ordered(r)
    ensures r.size < |r.slots| ==> Ordered(Write(r, x)) && Live(Write(r, x)) == Live(r) + [x]
    ensures r.size == |r.slots| > 1 ==> !Ordered(Write(r, x))
  {
    if r.size < |r.slots| {
      var r' := Write(r, x);
      forall k | 0 <= k < r.size ensures Live(r')[k] == Live(r)[k] {
        assert Wrap(r.oldest + k, |r.slots|) != r.next;
      }
      assert Live(r') == Live(r) + [x];
      CoveredAppend(Live(r), x);
    }
  }

  /** The ring refines a queue: an accepted report drops a prefix and appends one
      point, and that keeps the ring in order exactly when a slot is free. */
  lemma InsertRefinesQueue(p: Params, r: Ring, v: VehicleData) returns (k: nat)
    requires Ordered(r)
    ensures Skips(p, r, v) ==> Insert(p, r, v) == r
    ensures k <= r.size && IsDrop(p, Live(r), k) && Evicted(p, r).size == r.size - k
    ensures !Skips(p, r, v) && r.size - k < |r.slots| ==>
        Ordered(Insert(p, r, v))
        && Live(Insert(p, r, v)) == Live(r)[k..] + [Point(v.lat, v.lon, v.elevation, v.heading, Gap(p, r, v))]
    ensures |r.slots| > 1 ==> (Ordered(Insert(p, r, v)) <==> Skips(p, r, v) || r.size - k < |r.slots|)
  {
    k := EvictedIsSuffix(p, r);
    WriteAppends(Evicted(p, r), NewPoint(v, Gap(p, r, v)));
  }

  // ----- The points in the order they are returned -----

  /** The slot so many places before the slot written last. */
  function Ago(r: Ring, j: nat): (i: nat)
    requires r.Valid() && j < r.size
    ensures i < |r.slots|
  {
    if j < r.next then r.next - 1 - j else |r.slots| + r.next - 1 - j
  }

  /** The points written last, as many as are live, newest first. */
  function Recent(r: Ring): (q: seq<Point>)
    requires r.Valid()
    ensures |q| == r.size
  {
    seq(r.size, j requires 0 <= j < r.size => r.slots[Ago(r, j)])
  }

  function Reversed(q: seq<Point>): (r: seq<Point>)
    ensures |r| == |q|
  {
    seq(|q|, k requires 0 <= k < |q| => q[|q| - 1 - k])
  }

  /** In an ordered ring they are the live points, backwards. */
  lemma RecentIsLive(r: Ring)
    requires Ordered(r)
    ensures Recent(r) == Reversed(Live(r))
  {
    forall j | 0 <= j < r.size ensures Recent(r)[j] == Reversed(Live(r))[j] {
      assert Ago(r, j) == Wrap(r.oldest + (r.size - 1 - j), |r.slots|);
    }
  }

  // ----- The look-back -----

  function Newest(r: Ring): Point
    requires r.Valid() && r.size >= 1
  {
    Live(r)[r.size - 1]
  }

  /** The look-back reaches the slot of the newest point exactly when the ring has not
      just wrapped, or is full; then the recorded distance is that from the newest point. */
  lemma LookBackIsNewest(p: Params, r: Ring, v: VehicleData)
    requires Ordered(r) && r.size >= 1
    ensures LookBack(r) == Wrap(r.oldest + (r.size - 1), |r.slots|) <==> r.next > 0 || r.size == |r.slots|
    ensures r.next > 0 || r.size == |r.slots| ==> Gap(p, r, v) == TrueGap(p, r, v)
  {
    var newest := Wrap(r.oldest + (r.size - 1), |r.slots|);
    assert r.next == Wrap(newest + 1, |r.slots|);
  }

  /** The distance of a report from the newest point. */
  function TrueGap(p: Params, r: Ring, v: VehicleData): real
    requires r.Valid() && r.size >= 1
  {
    p.distance(Newest(r).lat, Newest(r).lon, v.lat, v.lon)
  }

  /** Every live point but the oldest records its distance from the one before it. */
  ghost predicate Linked(p: Params, q: seq<Point>) {
    forall k :: 1 <= k < |q| ==> q[k].dist == p.distance(q[k - 1].lat, q[k - 1].lon, q[k].lat, q[k].lon)
  }

  /** The report is skipped, or starts a history, or the look-back gives the distance
      from the newest point. */
  ghost predicate SeesNewest(p: Params, r: Ring, v: VehicleData)
    requires r.Valid()
  {
    Skips(p, r, v) || Evicted(p, r).size == 0 || Gap(p, r, v) == TrueGap(p, r, v)
  }

  /** An insertion with room keeps the recorded distances true exactly when the
      look-back sees the newest point. */
  lemma LinkedIffSeen(p: Params, r: Ring, v: VehicleData)
    requires Ordered(r) && Linked(p, Live(r)) && (Skips(p, r, v) || Evicted(p, r).size < |r.slots|)
    ensures Ordered(Insert(p, r, v)) && (Linked(p, Live(Insert(p, r, v))) <==> SeesNewest(p, r, v))
  {
    var k := InsertRefinesQueue(p, r, v);
    if !Skips(p, r, v) && k < r.size {
      var q, x := Live(r)[k..], NewPoint(v, Gap(p, r, v));
      assert Live(Insert(p, r, v)) == q + [x];
      assert (q + [x])[|q| - 1] == Newest(r) && (q + [x])[|q|] == x;
      forall j | 1 <= j < |q|
        ensures (q + [x])[j].dist == p.distance((q + [x])[j - 1].lat, (q + [x])[j - 1].lon, (q + [x])[j].lat, (q + [x])[j].lon)
      {
        assert (q + [x])[j] == Live(r)[k + j] && (q + [x])[j - 1] == Live(r)[k + j - 1];
      }
    }
  }

  // ----- Capacity -----

  function Ceil(x: real): int {
    if x.Floor as real == x then x.Floor else x.Floor + 1
  }

  /** The capacity is the number of shortest gaps that cover the limit. */
  ghost predicate Sized(p: Params, n: nat) {
    0.0 < p.minDist <= p.maxDist && p.minDist < p.limit && n == Ceil(p.limit / p.minDist)
  }

  /** The product of a count and a distance. */
  function Times(n: real, b: real): real { n * b }

  /** The capacity is the least number of shortest gaps that cover the limit. */
  lemma CeilBounds(a: real, b: real)
    requires 0.0 < b < a
    ensures var n := Ceil(a / b); n > 1 && Times(n as real - 1.0, b) < a <= Times(n as real, b)
  {
    CeilIsNext(a / b);
    AtMost(a, b, a / b, Ceil(a / b) as real);
    MoreThan(a, b, a / b, Ceil(a / b) as real - 1.0);
    AboveOne(a / b, b);
  }

  lemma CeilIsNext(x: real)
    ensures Ceil(x) as real - 1.0 < x <= Ceil(x) as real
  {
  }

  lemma AboveOne(x: real, b: real)
    requires 0.0 < b < x * b
    ensures x > 1.0
  {
  }

  lemma AtMost(a: real, b: real, x: real, n: real)
    requires 0.0 < b && x * b == a && x <= n
    ensures a <= Times(n, b)
  {
    assert n * b == x * b + (n - x) * b && (n - x) * b >= 0.0;
  }

  lemma MoreThan(a: real, b: real, x: real, n: real)
    requires 0.0 < b && x * b == a && n < x
    ensures Times(n, b) < a
  {
    assert x * b == n * b + (x - n) * b && (x - n) * b > 0.0;
  }

  /** Every live point except possibly the oldest records at least the minimum
      distance; in a settled history the oldest does, too. */
  ghost predicate Spaced(p: Params, q: seq<Point>) {
    forall k :: 1 <= k < |q| ==> q[k].dist >= p.minDist
  }

  ghost predicate Settled(p: Params, q: seq<Point>) {
    forall k :: 0 <= k < |q| ==> q[k].dist >= p.minDist
  }

  /** Where recorded distances are true, neighbours really are the minimum apart. */
  lemma LinkedIsApart(p: Params, q: seq<Point>, k: nat)
    requires Linked(p, q) && Spaced(p, q) && 1 <= k < |q|
    ensures p.distance(q[k - 1].lat, q[k - 1].lon, q[k].lat, q[k].lon) >= p.minDist
  {
    assert q[k].dist >= p.minDist;
  }

  lemma AcceptedIsFar(p: Params, r: Ring, v: VehicleData)
    requires r.Valid() && r.size >= 1 && p.minDist <= p.maxDist && !Skips(p, r, v)
    ensures Gap(p, r, v) >= p.minDist
  {
  }

  lemma {:induction false} SettledCovers(p: Params, q: seq<Point>)
    requires Settled(p, q)
    ensures Covered(q) >= Times(|q| as real, p.minDist)
  {
    if q != [] {
      SettledCovers(p, q[1..]);
      OneMore(|q[1..]| as real, p.minDist);
    }
  }

  lemma OneMore(n: real, b: real)
    ensures Times(n + 1.0, b) == Times(n, b) + b
  {
  }

  /** A settled history never writes onto a full ring, under either policy, and stays
      settled and in order. */
  lemma SettledHasRoom(p: Params, r: Ring, v: VehicleData)
    requires Ordered(r) && Sized(p, |r.slots|) && Settled(p, Live(r)) && r.size >= 1
    ensures Skips(p, r, v) || Evicted(p, r).size < |r.slots|
    ensures Ordered(Insert(p, r, v)) && Settled(p, Live(Insert(p, r, v)))
    ensures Insert(p, r, v).size >= 1
  {
    var k := InsertRefinesQueue(p, r, v);
    if r.size == |r.slots| { FullSettledReachesLimit(p, r); }
    DropsSome(p, Live(r), k);
    if !Skips(p, r, v) { AcceptedIsFar(p, r, v); }
  }

  lemma FullSettledReachesLimit(p: Params, r: Ring)
    requires Ordered(r) && Sized(p, |r.slots|) && Settled(p, Live(r)) && r.size == |r.slots|
    ensures Covered(Live(r)) >= p.limit && r.size > 1
  {
    CeilBounds(p.limit, p.minDist);
    SettledCovers(p, Live(r));
  }

  /** At the limit something is dropped. */
  lemma DropsSome(p: Params, q: seq<Point>, k: nat)
    requires IsDrop(p, q, k)
    ensures |q| > 1 && Covered(q) >= p.limit ==> k > 0
  {
    assert q[0..] == q;
  }

  /** In a spaced history an accepted report meets a full ring exactly when every slot
      holds a live point and they still cover less than the limit; then the first point
      ever, which has no distance of its own, is among them. */
  lemma FullWriteIff(p: Params, r: Ring, v: VehicleData)
    requires Ordered(r) && Sized(p, |r.slots|) && Spaced(p, Live(r)) && r.size >= 1 && !Skips(p, r, v)
    ensures Evicted(p, r).size == |r.slots| <==> r.size == |r.slots| && r.stored < p.limit
    ensures Evicted(p, r).size == |r.slots| ==> Live(r)[0].dist < p.minDist
  {
    CeilBounds(p.limit, p.minDist);
    var k := InsertRefinesQueue(p, r, v);
    DropsSome(p, Live(r), k);
    DropsNone(p, Live(r), k);
    if r.size == |r.slots| && Settled(p, Live(r)) { FullSettledReachesLimit(p, r); }
  }

  lemma DropsNone(p: Params, q: seq<Point>, k: nat)
    requires IsDrop(p, q, k)
    ensures Covered(q) < p.limit ==> k == 0
  {
    assert q[0..] == q;
  }

  /** Once a point has been dropped every live point records at least the minimum. */
  lemma EvictionSettles(p: Params, r: Ring, v: VehicleData)
    requires Ordered(r) && Spaced(p, Live(r)) && p.minDist <= p.maxDist && !Skips(p, r, v)
    requires Evicted(p, r).size < r.size
    ensures Ordered(Insert(p, r, v)) && Settled(p, Live(Insert(p, r, v))) && Insert(p, r, v).size >= 1
  {
    var k := InsertRefinesQueue(p, r, v);
    AcceptedIsFar(p, r, v);
  }

  /** A write with room keeps the recorded distances at least the minimum. */
  lemma InsertKeepsSpacing(p: Params, r: Ring, v: VehicleData)
    requires Ordered(r) && Spaced(p, Live(r)) && p.minDist <= p.maxDist
    requires Skips(p, r, v) || Evicted(p, r).size < |r.slots|
    ensures Ordered(Insert(p, r, v)) && Spaced(p, Live(Insert(p, r, v)))
  {
    var k := InsertRefinesQueue(p, r, v);
    if !Skips(p, r, v) && r.size > 0 { AcceptedIsFar(p, r, v); }
  }

  // ----- Whole runs -----

  /** What can happen to a history. */
  datatype Event = Report(v: VehicleData) | SwitchPolicy | SetMaxDist(d: real) | SetMaxHeading(h: real)

  function Step(p: Params, r: Ring, e: Event): (s: (Params, Ring))
    requires r.Valid()
    ensures s.1.Valid() && |s.1.slots| == |r.slots|
  {
    match e
    case Report(v) => (p, Insert(p, r, v))
    case SwitchPolicy => (p.(removeOnlyOne := !p.removeOnlyOne), r)
    case SetMaxDist(d) => (p.(maxDist := d), r)
    case SetMaxHeading(h) => (p.(maxHeading := h), r)
  }

  function Run(p: Params, r: Ring, es: seq<Event>): (s: (Params, Ring))
    requires r.Valid()
    ensures s.1.Valid() && |s.1.slots| == |r.slots|
    decreases |es|
  {
    if es == [] then (p, r) else var s := Step(p, r, es[0]); Run(s.0, s.1, es[1..])
  }

  /** Every write of the run finds a free slot. */
  ghost predicate RoomThroughout(p: Params, r: Ring, es: seq<Event>)
    requires r.Valid()
    decreases |es|
  {
    es != [] ==>
      && (es[0].Report? ==> Skips(p, r, es[0].v) || Evicted(p, r).size < |r.slots|)
      && var s := Step(p, r, es[0]); RoomThroughout(s.0, s.1, es[1..])
  }

  /** The ring is in order after every event of the run. */
  ghost predicate OrderedThroughout(p: Params, r: Ring, es: seq<Event>)
    requires r.Valid()
    decreases |es|
  {
    Ordered(r) && (es == [] || var s := Step(p, r, es[0]); OrderedThroughout(s.0, s.1, es[1..]))
  }

  /** Over any run of reports and changes of policy, the ring is a queue all along
      exactly when no write ever meets a full ring. */
  lemma {:induction false} OrderIffRoom(p: Params, r: Ring, es: seq<Event>)
    requires Ordered(r) && |r.slots| > 1
    ensures OrderedThroughout(p, r, es) <==> RoomThroughout(p, r, es)
    decreases |es|
  {
    if es != [] {
      var s := Step(p, r, es[0]);
      if es[0].Report? {
        var k := InsertRefinesQueue(p, r, es[0].v);
      }
      if Ordered(s.1) { OrderIffRoom(s.0, s.1, es[1..]); }
    }
  }

  /** The settings never let through gaps below the minimum. */
  ghost predicate KeepsSettings(p: Params, es: seq<Event>) {
    forall k :: 0 <= k < |es| && es[k].SetMaxDist? ==> es[k].d >= p.minDist
  }

  /** From a settled history on, no run whatever writes onto a full ring. */
  lemma {:induction false} SettledRunHasRoom(p: Params, r: Ring, es: seq<Event>)
    requires Ordered(r) && Sized(p, |r.slots|) && Settled(p, Live(r)) && r.size >= 1 && KeepsSettings(p, es)
    ensures RoomThroughout(p, r, es)
    decreases |es|
  {
    if es != [] {
      var s := Step(p, r, es[0]);
      if es[0].Report? { SettledHasRoom(p, r, es[0].v); }
      assert KeepsSettings(s.0, es[1..]);
      SettledRunHasRoom(s.0, s.1, es[1..]);
    }
  }

  /** Some accepted report of the run drops a point. */
  ghost predicate DropsInRun(p: Params, r: Ring, es: seq<Event>)
    requires r.Valid()
    decreases |es|
  {
    es != [] &&
      ((es[0].Report? && !Skips(p, r, es[0].v) && Evicted(p, r).size < r.size)
       || var s := Step(p, r, es[0]); DropsInRun(s.0, s.1, es[1..]))
  }

  /** A run with room keeps a spaced history spaced, the empty one included, and its
      settings in force. */
  lemma {:induction false} RunKeepsSpacing(p: Params, r: Ring, es: seq<Event>)
    requires Ordered(r) && Spaced(p, Live(r)) && Sized(p, |r.slots|) && KeepsSettings(p, es) && RoomThroughout(p, r, es)
    ensures var s := Run(p, r, es); Ordered(s.1) && Spaced(s.0, Live(s.1)) && Sized(s.0, |s.1.slots|)
    decreases |es|
  {
    if es != [] {
      var s := Step(p, r, es[0]);
      if es[0].Report? { InsertKeepsSpacing(p, r, es[0].v); }
      assert KeepsSettings(s.0, es[1..]);
      RunKeepsSpacing(s.0, s.1, es[1..]);
    }
  }

  /** A settled history stays settled over any run. */
  lemma {:induction false} SettledRunStays(p: Params, r: Ring, es: seq<Event>)
    requires Ordered(r) && Sized(p, |r.slots|) && Settled(p, Live(r)) && r.size >= 1 && KeepsSettings(p, es)
    ensures var s := Run(p, r, es);
      Ordered(s.1) && Sized(s.0, |s.1.slots|) && Settled(s.0, Live(s.1)) && s.1.size >= 1 && s.0.minDist == p.minDist
    decreases |es|
  {
    if es != [] {
      var s := Step(p, r, es[0]);
      if es[0].Report? { SettledHasRoom(p, r, es[0].v); }
      assert KeepsSettings(s.0, es[1..]);
      SettledRunStays(s.0, s.1, es[1..]);
    }
  }

  /** The first drop of a run with room settles the history for good. */
  lemma {:induction false} DropSettlesRun(p: Params, r: Ring, es: seq<Event>)
    requires Ordered(r) && Spaced(p, Live(r)) && Sized(p, |r.slots|) && KeepsSettings(p, es) && RoomThroughout(p, r, es)
    requires DropsInRun(p, r, es)
    ensures var s := Run(p, r, es);
      Ordered(s.1) && Sized(s.0, |s.1.slots|) && Settled(s.0, Live(s.1)) && s.1.size >= 1 && s.0.minDist == p.minDist
    decreases |es|
  {
    var s := Step(p, r, es[0]);
    assert KeepsSettings(s.0, es[1..]);
    if es[0].Report? && !Skips(p, r, es[0].v) && Evicted(p, r).size < r.size {
      EvictionSettles(p, r, es[0].v);
      SettledRunStays(s.0, s.1, es[1..]);
    } else {
      if es[0].Report? { InsertKeepsSpacing(p, r, es[0].v); }
      DropSettlesRun(s.0, s.1, es[1..]);
    }
  }

  /** The capacity bound: from the empty history on, once a run with room has dropped
      its first point, no continuation whatever writes onto a full ring. */
  lemma CapacitySuffices(p: Params, n: nat, es: seq<Event>, more: seq<Event>)
    requires n > 0 && Sized(p, n) && KeepsSettings(p, es) && KeepsSettings(p, more)
    requires RoomThroughout(p, EmptyRing(n), es) && DropsInRun(p, EmptyRing(n), es)
    ensures var s := Run(p, EmptyRing(n), es);
      Ordered(s.1) && Settled(s.0, Live(s.1)) && RoomThroughout(s.0, s.1, more)
  {
    EmptyIsOrdered(n);
    DropSettlesRun(p, EmptyRing(n), es);
    var s := Run(p, EmptyRing(n), es);
    assert KeepsSettings(s.0, more);
    SettledRunHasRoom(s.0, s.1, more);
  }

  /** The look-back sees the newest point at every accepted report of the run. */
  ghost predicate SeesThroughout(p: Params, r: Ring, es: seq<Event>)
    requires r.Valid()
    decreases |es|
  {
    es != [] ==>
      && (es[0].Report? ==> SeesNewest(p, r, es[0].v))
      && var s := Step(p, r, es[0]); SeesThroughout(s.0, s.1, es[1..])
  }

  ghost predicate LinkedThroughout(p: Params, r: Ring, es: seq<Event>)
    requires r.Valid()
    decreases |es|
  {
    Linked(p, Live(r)) && (es == [] || var s := Step(p, r, es[0]); LinkedThroughout(s.0, s.1, es[1..]))
  }

  /** Over any run with room the recorded distances are the true ones all along
      exactly when no look-back misses the newest point. */
  lemma {:induction false} LinkedIffSeenThroughout(p: Params, r: Ring, es: seq<Event>)
    requires Ordered(r) && Linked(p, Live(r)) && RoomThroughout(p, r, es)
    ensures LinkedThroughout(p, r, es) <==> SeesThroughout(p, r, es)
    decreases |es|
  {
    if es != [] {
      var s := Step(p, r, es[0]);
      if es[0].Report? { LinkedIffSeen(p, r, es[0].v); }
      if Linked(s.0, Live(s.1)) { LinkedIffSeenThroughout(s.0, s.1, es[1..]); }
    }
  }

  function EmptyRing(n: nat): Ring {
    Ring(seq(n, _ => BLANK), 0, 0, 0, 0.0)
  }

  /** The empty history is in order. */
  lemma EmptyIsOrdered(n: nat)
    requires n > 0
    ensures Ordered(EmptyRing(n)) && Live(EmptyRing(n)) == []
  {
  }

  /** `PHpoints::clear`: the stored distance is not reset. */
  function Cleared(r: Ring): (r': Ring)
    requires r.Valid()
    ensures r'.Valid()
  {
    r.(next := 0, oldest := 0, size := 0)
  }

  /** So a cleared history is in order exactly when nothing was covered before. */
  lemma ClearedIsOrderedIff(r: Ring)
    requires Ordered(r)
    ensures Ordered(Cleared(r)) <==> Covered(Live(r)) == 0.0
  {
    assert Live(Cleared(r)) == [];
  }

  // ----- Inputs on which the code falls short -----

  /** A distance that is 0 between equal positions only, as the true one is. */
  function Manhattan(latA: real, lonA: real, latB: real, lonB: real): real {
    Abs(latA - latB) + Abs(lonA - lonB)
  }

  function At(lat: real): VehicleData {
    VehicleData(1, lat, 0.0, 0.0, 0.0, 0.0, 0, 0, Unavailable)
  }

  const TIGHT := Params(2.0, 1.0, 1.0, 10.0, false, Manhattan)

  lemma TwoReports()
    ensures Insert(TIGHT, EmptyRing(2), At(0.0)) == Ring([NewPoint(At(0.0), 0.0), BLANK], 1, 0, 1, 0.0)
    ensures Insert(TIGHT, Insert(TIGHT, EmptyRing(2), At(0.0)), At(1.0))
         == Ring([NewPoint(At(0.0), 0.0), NewPoint(At(1.0), 1.0)], 0, 0, 2, 1.0)
  {
    assert EmptyRing(2).slots == [BLANK, BLANK];
  }

  lemma ThirdReportMeetsFullRing()
    ensures var r := Insert(TIGHT, Insert(TIGHT, EmptyRing(2), At(0.0)), At(1.0));
      !Skips(TIGHT, r, At(2.0)) && Evicted(TIGHT, r).size == 2
  {
    TwoReports();
    var r := Ring([NewPoint(At(0.0), 0.0), NewPoint(At(1.0), 1.0)], 0, 0, 2, 1.0);
    assert !Skips(TIGHT, r, At(2.0)) && Evicted(TIGHT, r) == r;
  }

  /** Three points one minimum apart fill a ring for two: the first has no distance of
      its own, so nothing is dropped in time and the order is lost. */
  lemma FirstRoundOverflows()
    ensures Sized(TIGHT, 2)
    ensures var es := [Report(At(0.0)), Report(At(1.0)), Report(At(2.0))];
      !RoomThroughout(TIGHT, EmptyRing(2), es) && !OrderedThroughout(TIGHT, EmptyRing(2), es)
  {
    assert 2.0 / 1.0 == 2.0;
    ThirdReportMeetsFullRing();
    EmptyIsOrdered(2);
    hide Insert, Evicted, Skips, EmptyRing, At;
    var r0 := EmptyRing(2);
    var r1 := Insert(TIGHT, r0, At(0.0));
    var r2 := Insert(TIGHT, r1, At(1.0));
    var es := [Report(At(0.0)), Report(At(1.0)), Report(At(2.0))];
    assert es[1..] == [Report(At(1.0)), Report(At(2.0))] && es[1..][1..] == [Report(At(2.0))];
    assert !RoomThroughout(TIGHT, r2, es[1..][1..]);
    assert !RoomThroughout(TIGHT, r1, es[1..]);
    OrderIffRoom(TIGHT, r0, es);
  }

  /** Clearing after two reports leaves a distance with no points to cover it. */
  lemma ClearingKeepsDistance()
    ensures var r := Cleared(Insert(TIGHT, Insert(TIGHT, EmptyRing(2), At(0.0)), At(1.0)));
      r.size == 0 && r.stored == 1.0 && !Ordered(r)
  {
    TwoReports();
  }

  const WIDE := Params(3.0, 1.0, 1.0, 10.0, false, Manhattan)

  /** Three reports that end on a wrapped ring which is not full: the next look-back
      reaches the point before the newest. */
  lemma ThreeReports()
    ensures var a, b, c := NewPoint(At(0.0), 0.0), NewPoint(At(5.0), 5.0), NewPoint(At(10.0), 5.0);
      Run(WIDE, EmptyRing(3), [Report(At(0.0)), Report(At(5.0)), Report(At(10.0))])
        == (WIDE, Ring([a, b, c], 0, 1, 2, 10.0))
  {
    var a, b, c := NewPoint(At(0.0), 0.0), NewPoint(At(5.0), 5.0), NewPoint(At(10.0), 5.0);
    var r0 := EmptyRing(3);
    assert r0.slots == [BLANK, BLANK, BLANK];
    var r1 := Insert(WIDE, r0, At(0.0));
    assert r1 == Ring([a, BLANK, BLANK], 1, 0, 1, 0.0);
    var r2 := Insert(WIDE, r1, At(5.0));
    assert r2 == Ring([a, b, BLANK], 2, 0, 2, 5.0);
    var r3 := Insert(WIDE, r2, At(10.0));
    assert DropMany(WIDE, r2) == DropOldest(r2);
    assert r3 == Ring([a, b, c], 0, 1, 2, 10.0);
    var es := [Report(At(0.0)), Report(At(5.0)), Report(At(10.0))];
    assert es[1..] == [Report(At(5.0)), Report(At(10.0))] && es[1..][1..] == [Report(At(10.0))];
    assert Run(WIDE, r2, [Report(At(10.0))]) == (WIDE, r3);
    assert Run(WIDE, r1, es[1..]) == (WIDE, r3);
  }

  /** So a report from the very position of the newest point is accepted, and two
      neighbours recorded five apart are at the same place. */
  lemma LookBackMisses()
    ensures var r := Run(WIDE, EmptyRing(3), [Report(At(0.0)), Report(At(5.0)), Report(At(10.0))]).1;
      && Ordered(r) && !SeesNewest(WIDE, r, At(10.0))
      && var q := Live(Insert(WIDE, r, At(10.0)));
         Settled(WIDE, q) && |q| == 2 && q[1].dist == 5.0 && Manhattan(q[0].lat, q[0].lon, q[1].lat, q[1].lon) == 0.0
  {
    ThreeReports();
    var a, b, c := NewPoint(At(0.0), 0.0), NewPoint(At(5.0), 5.0), NewPoint(At(10.0), 5.0);
    var r := Ring([a, b, c], 0, 1, 2, 10.0);
    assert Live(r) == [b, c];
    CoveredPair(b, c);
    assert DropOldest(r) == r.(stored := 5.0, size := 1, oldest := 2);
    assert DropMany(WIDE, r) == DropOldest(r);
    var r' := Insert(WIDE, r, At(10.0));
    assert r' == Ring([NewPoint(At(10.0), 5.0), b, c], 1, 2, 2, 10.0);
    assert Live(r') == [c, NewPoint(At(10.0), 5.0)];
  }

  lemma CoveredPair(x: Point, y: Point)
    ensures Covered([x, y]) == x.dist + y.dist
  {
    assert [x, y][1..] == [y] && [y][1..] == [];
    assert Covered([y]) == y.dist + Covered([]);
  }
}
