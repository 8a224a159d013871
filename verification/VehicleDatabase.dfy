/** The two-level index as a flat map, and what the database keeps of a run: for each
    vehicle the reports since its entry was last created. */
module VehicleDatabase {
  import opened Vehicle
  import PathHistory
  import PathHistoryObject

  // ----- Split keys -----

  const HALF := 0x1_0000
  const IDS := 0x1_0000_0000

  /** The part of a station ID the database tells apart. */
  function Id32(id: UInt64): (n: nat)
    ensures n < IDS
  {
    id % IDS
  }

  function KeyLower(id: UInt64): (k: nat)
    ensures k < HALF
  {
    id % HALF
  }

  function KeyUpper(id: UInt64): (k: nat)
    ensures k < HALF
  {
    id % IDS / HALF
  }

  function Compose(u: nat, l: nat): nat {
    u * HALF + l
  }

  lemma ComposeSplits(u: nat, l: nat)
    requires u < HALF && l < HALF
    ensures Compose(u, l) < IDS && Compose(u, l) / HALF == u && Compose(u, l) % HALF == l
  {
  }

  lemma LowHalf(id: UInt64)
    ensures id % IDS % HALF == id % HALF
  {
  }

  lemma KeysCompose(id: UInt64)
    ensures Compose(KeyUpper(id), KeyLower(id)) == Id32(id)
    ensures KeyUpper(id) == Id32(id) / HALF && KeyLower(id) == Id32(id) % HALF
  {
    LowHalf(id);
  }

  /** The keys are the two 16-bit halves of the low 32 bits of the ID. */
  lemma KeysAreHalves(id: UInt64)
    ensures KeyLower(id) == id % 0x1_0000
    ensures 0x1_0000 * KeyUpper(id) + KeyLower(id) == Id32(id) == id % 0x1_0000_0000
  {
    LowHalf(id);
  }

  /** Two stations share them exactly when their IDs agree modulo 2^32. */
  lemma KeysIdentify(a: UInt64, b: UInt64)
    ensures Compose(KeyUpper(a), KeyLower(a)) == Id32(a)
    ensures KeyUpper(a) == KeyUpper(b) && KeyLower(a) == KeyLower(b) <==> Id32(a) == Id32(b)
  {
    hide KeyUpper, KeyLower, Id32, Compose;
    KeysCompose(a);
    KeysCompose(b);
  }

  // ----- The flat map -----

  ghost predicate WellKeyed<E>(db: map<nat, map<nat, E>>) {
    forall u :: u in db ==> u < HALF && forall l :: l in db[u] ==> l < HALF
  }

  ghost function Flat<E>(db: map<nat, map<nat, E>>): map<nat, E> {
    map id: nat | id < IDS && id / HALF in db && id % HALF in db[id / HALF] :: db[id / HALF][id % HALF]
  }

  lemma FlatAt<E>(db: map<nat, map<nat, E>>, u: nat, l: nat)
    requires u < HALF && l < HALF
    ensures Compose(u, l) in Flat(db) <==> u in db && l in db[u]
    ensures u in db && l in db[u] ==> Flat(db)[Compose(u, l)] == db[u][l]
  {
    ComposeSplits(u, l);
  }

  /** `db[u][l] = e`, whether or not the inner map exists. */
  function Put<E>(db: map<nat, map<nat, E>>, u: nat, l: nat, e: E): map<nat, map<nat, E>> {
    db[u := (if u in db then db[u] else map[])[l := e]]
  }

  lemma FlatHas<E>(db: map<nat, map<nat, E>>, id: nat)
    requires id < IDS
    ensures id in Flat(db) <==> id / HALF in db && id % HALF in db[id / HALF]
    ensures id in Flat(db) ==> Flat(db)[id] == db[id / HALF][id % HALF]
  {
  }

  lemma ComposeIs(id: nat, u: nat, l: nat)
    requires id < IDS && u < HALF && l < HALF
    ensures id == Compose(u, l) <==> id / HALF == u && id % HALF == l
  {
  }

  /** Storing under both keys is storing in the flat map. */
  lemma FlatPut<E>(db: map<nat, map<nat, E>>, u: nat, l: nat, e: E)
    requires u < HALF && l < HALF
    ensures Flat(Put(db, u, l, e)) == Flat(db)[Compose(u, l) := e]
  {
    var x, y := Flat(Put(db, u, l, e)), Flat(db)[Compose(u, l) := e];
    ComposeSplits(u, l);
    forall id: nat ensures (id in x <==> id in y) && (id in x && id in y ==> x[id] == y[id]) {
      hide Flat, Compose;
      if id < IDS {
        FlatHas(db, id);
        FlatHas(Put(db, u, l, e), id);
        ComposeIs(id, u, l);
      } else {
        FlatBelow(db, id);
        FlatBelow(Put(db, u, l, e), id);
      }
    }
  }

  lemma FlatBelow<E>(db: map<nat, map<nat, E>>, id: nat)
    ensures id in Flat(db) ==> id < IDS
  {
  }

  lemma FlatErase<E>(db: map<nat, map<nat, E>>, u: nat, l: nat)
    requires u in db && u < HALF && l < HALF
    ensures Flat(db[u := db[u] - {l}]) == Flat(db) - {Compose(u, l)}
  {
    var x, y := Flat(db[u := db[u] - {l}]), Flat(db) - {Compose(u, l)};
    ComposeSplits(u, l);
    forall id: nat ensures (id in x <==> id in y) && (id in x && id in y ==> x[id] == y[id]) {
      hide Flat, Compose;
      if id < IDS {
        FlatHas(db, id);
        FlatHas(db[u := db[u] - {l}], id);
        ComposeIs(id, u, l);
      } else {
        FlatBelow(db, id);
        FlatBelow(db[u := db[u] - {l}], id);
      }
    }
  }

  /** There are no more entries than 32-bit IDs, so the counter cannot run full. */
  lemma FlatIsSmall<E>(db: map<nat, map<nat, E>>)
    ensures |Flat(db)| <= IDS
  {
    BelowIsSmall(Flat(db).Keys, IDS);
  }

  lemma {:induction false} BelowIsSmall(s: set<nat>, n: nat)
    requires forall x :: x in s ==> x < n
    ensures |s| <= n
    decreases n
  {
    if n == 0 {
      assert s == {};
    } else {
      BelowIsSmall(s - {n - 1}, n - 1);
    }
  }

  // ----- Sweeps: the nested loops over all entries -----

  /** The IDs that share an upper key. */
  ghost function Under<E>(flat: map<nat, E>, u: nat): set<nat> {
    set id | id in flat && id / HALF == u
  }

  /** In the outer loop: exactly the entries under the upper keys not in `todo` have
      been seen. */
  ghost predicate Swept<E>(db: map<nat, map<nat, E>>, todo: set<nat>, seen: set<nat>) {
    seen <= Flat(db).Keys && forall id :: id in Flat(db) ==> (id in seen <==> id / HALF !in todo)
  }

  /** In the inner loop: besides those seen before, exactly the entries under `u` and
      the lower keys not in `todo` have been seen. */
  ghost predicate SweptLower<E>(db: map<nat, map<nat, E>>, u: nat, todo: set<nat>, before: set<nat>, seen: set<nat>)
    requires u in db
  {
    && todo <= db[u].Keys && before <= seen <= Flat(db).Keys
    && (forall l :: l in db[u] ==> (l in todo <==> Compose(u, l) !in seen))
    && (forall id :: id in seen && id !in before ==> id / HALF == u)
  }

  lemma SweepStarts<E>(db: map<nat, map<nat, E>>)
    ensures Swept(db, db.Keys, {})
  {
  }

  lemma SweepEnds<E>(db: map<nat, map<nat, E>>, seen: set<nat>)
    requires Swept(db, {}, seen)
    ensures seen == Flat(db).Keys
  {
  }

  lemma SweepsUpper<E>(db: map<nat, map<nat, E>>, todo: set<nat>, seen: set<nat>, u: nat)
    requires Swept(db, todo, seen) && u in todo
    ensures Swept(db, todo - {u}, seen + Under(Flat(db), u))
    ensures forall id :: id in seen ==> id / HALF != u
  {
    hide Flat;
  }

  lemma LowerStarts<E>(db: map<nat, map<nat, E>>, u: nat, seen: set<nat>)
    requires WellKeyed(db) && u in db && seen <= Flat(db).Keys
    requires forall id :: id in seen ==> id / HALF != u
    ensures SweptLower(db, u, db[u].Keys, seen, seen)
  {
    forall l | l in db[u] ensures Compose(u, l) !in seen { ComposeSplits(u, l); }
  }

  lemma SweepsLower<E>(db: map<nat, map<nat, E>>, u: nat, todo: set<nat>, before: set<nat>, seen: set<nat>, l: nat)
    requires WellKeyed(db) && u in db && SweptLower(db, u, todo, before, seen) && l in todo
    ensures Compose(u, l) in Flat(db) && Flat(db)[Compose(u, l)] == db[u][l] && Compose(u, l) !in seen
    ensures SweptLower(db, u, todo - {l}, before, seen + {Compose(u, l)})
  {
    FlatAt(db, u, l);
    ComposeSplits(u, l);
    hide Flat;
  }

  lemma LowerEnds<E>(db: map<nat, map<nat, E>>, u: nat, before: set<nat>, seen: set<nat>)
    requires WellKeyed(db) && u in db && SweptLower(db, u, {}, before, seen)
    ensures seen == before + Under(Flat(db), u)
  {
    forall id | id in Under(Flat(db), u) ensures id in seen {
      ComposeIs(id, u, id % HALF);
    }
  }

  /** Erasing entries under other upper keys leaves an inner map alone. */
  lemma SameLower<E>(db: map<nat, map<nat, E>>, db': map<nat, map<nat, E>>, gone: set<nat>, u: nat)
    requires WellKeyed(db) && WellKeyed(db') && u in db && u in db' && Flat(db') == Flat(db) - gone
    requires forall id :: id in gone ==> id / HALF != u
    ensures db'[u] == db[u]
  {
    forall l: nat ensures (l in db[u] <==> l in db'[u]) && (l in db[u] && l in db'[u] ==> db[u][l] == db'[u][l]) {
      if l < HALF {
        FlatAt(db, u, l);
        FlatAt(db', u, l);
        ComposeSplits(u, l);
      }
    }
  }

  /** Two-level maps with the same upper keys and the same flat map are the same. */
  lemma SameDatabase<E>(db: map<nat, map<nat, E>>, db': map<nat, map<nat, E>>)
    requires WellKeyed(db) && WellKeyed(db') && db.Keys == db'.Keys && Flat(db) == Flat(db')
    ensures db == db'
  {
    forall u | u in db ensures db[u] == db'[u] {
      assert Flat(db') == Flat(db) - {};
      SameLower(db, db', {}, u);
    }
  }

  // ----- Lists of what a map holds -----

  /** The list holds the values of the map, one for each key, in some order. */
  ghost predicate Lists<T>(q: seq<T>, m: map<nat, T>)
    decreases |q|
  {
    if q == [] then m == map[]
    else exists k :: k in m && m[k] == q[|q| - 1] && Lists(q[..|q| - 1], m - {k})
  }

  lemma ListsAdd<T>(q: seq<T>, m: map<nat, T>, k: nat, x: T)
    requires Lists(q, m) && k !in m
    ensures Lists(q + [x], m[k := x])
  {
    assert (q + [x])[..|q|] == q;
    assert m[k := x] - {k} == m;
  }

  lemma {:induction false} ListsCount<T>(q: seq<T>, m: map<nat, T>)
    requires Lists(q, m)
    ensures |q| == |m|
    ensures (forall k :: k in m ==> m[k] in q) && (forall j :: 0 <= j < |q| ==> exists k :: k in m && m[k] == q[j])
    decreases |q|
  {
    if q != [] {
      var k :| k in m && m[k] == q[|q| - 1] && Lists(q[..|q| - 1], m - {k});
      var r := q[..|q| - 1];
      ListsCount(r, m - {k});
      assert m == (m - {k})[k := m[k]];
      assert q == r + [m[k]];
      forall j | j in m ensures m[j] in q {
        if j != k { assert j in m - {k} && (m - {k})[j] == m[j]; }
      }
      forall j | 0 <= j < |q| ensures exists i :: i in m && m[i] == q[j] {
        if j < |r| {
          assert r[j] == q[j];
          var i :| i in m - {k} && (m - {k})[i] == r[j];
          assert i in m && m[i] == q[j];
        }
      }
    }
  }

  // ----- Ages -----

  /** Microseconds between two unsigned clock values, as the code subtracts them. */
  function Elapsed(now: UInt64, since: UInt64): UInt64 {
    (now - since) % (UINT64_MAX + 1)
  }

  predicate TooOld(v: VehicleData, now: UInt64, limitMs: real) {
    Elapsed(now, v.timestampUs) as real / 1000.0 > limitMs
  }

  /** The age in milliseconds, negative for a time still to come. */
  function AgeMs(v: VehicleData, now: UInt64): real {
    (now - v.timestampUs) as real / 1000.0
  }

  /** An entry is deleted exactly when it is older than the limit, unless its time lies
      ahead of the clock: then the subtraction wraps round, and the outcome is still
      right exactly when the wrapped age is within the limit, or even a negative age
      is beyond it. */
  lemma AgeingIsExactIff(v: VehicleData, now: UInt64, limitMs: real)
    ensures (TooOld(v, now, limitMs) <==> AgeMs(v, now) > limitMs)
       <==> (v.timestampUs <= now
             || (UINT64_MAX + 1 + now - v.timestampUs) as real / 1000.0 <= limitMs
             || AgeMs(v, now) > limitMs)
    ensures AgeMs(v, now) * 1000.0 == now as real - v.timestampUs as real
  {
    var d := now - v.timestampUs;
    if v.timestampUs <= now {
      assert Elapsed(now, v.timestampUs) == d;
    } else {
      assert Elapsed(now, v.timestampUs) == UINT64_MAX + 1 + d;
    }
  }

  /** A record one microsecond ahead of the clock is deleted whatever the usual limit. */
  lemma AheadIsDeleted(v: VehicleData, now: UInt64, limitMs: real)
    requires v.timestampUs == now + 1 && 0.0 <= limitMs <= 1000000000.0
    ensures TooOld(v, now, limitMs) && AgeMs(v, now) < 0.0
  {
    assert Elapsed(now, v.timestampUs) == UINT64_MAX;
  }

  /** `m_card--`, on 64 bits. */
  function Decrement(n: UInt64): UInt64 {
    if n == 0 then UINT64_MAX else n - 1
  }

  /** The counter after so many decrements. */
  function Lowered(card: UInt64, n: nat): UInt64 {
    if n == 0 then card else Decrement(Lowered(card, n - 1))
  }

  lemma {:induction false} LoweredIsMinus(card: UInt64, n: nat)
    requires n <= card
    ensures Lowered(card, n) == card - n
  {
    if n > 0 { LoweredIsMinus(card, n - 1); }
  }

  // ----- What the database keeps -----

  /** For each 32-bit ID with an entry, the reports since the entry was created. */
  type Reports = map<nat, seq<VehicleData>>

  function Last<T>(q: seq<T>): T
    requires q != []
  {
    q[|q| - 1]
  }

  /** Every entry comes from a report, and only from reports of its vehicle. */
  ghost predicate Sane(a: Reports) {
    forall id :: id in a ==> a[id] != [] && forall k :: 0 <= k < |a[id]| ==> Id32(a[id][k].stationID) == id
  }

  function Reported(a: Reports, v: VehicleData): Reports {
    var id := Id32(v.stationID);
    a[id := (if id in a then a[id] else []) + [v]]
  }

  ghost function Aged(a: Reports, now: UInt64, limitMs: real): Reports
    requires Sane(a)
  {
    map id | id in a && !TooOld(Last(a[id]), now, limitMs) :: a[id]
  }

  /** The path history after a series of reports: the insertions one after another,
      from the empty history on. */
  function History(distance: (real, real, real, real) -> real, rs: seq<VehicleData>): (r: PathHistory.Ring)
    ensures r.Valid() && |r.slots| == 300
    decreases |rs|
  {
    if rs == [] then PathHistory.EmptyRing(300)
    else
      PathHistory.Insert(PathHistoryObject.Defaults(distance), History(distance, rs[..|rs| - 1]), Last(rs))
  }

  lemma HistoryExtends(distance: (real, real, real, real) -> real, rs: seq<VehicleData>, v: VehicleData)
    ensures History(distance, rs + [v])
         == PathHistory.Insert(PathHistoryObject.Defaults(distance), History(distance, rs), v)
  {
    assert (rs + [v])[..|rs|] == rs;
  }

  ghost function At(a: Reports, id: nat): seq<VehicleData> {
    if id in a then a[id] else []
  }
}
