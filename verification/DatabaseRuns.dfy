/** Runs of database operations on a flat map from vehicles to their reports, with the
    counter kept beside it. */
module DatabaseRuns {
  import opened Vehicle
  import opened VehicleDatabase

  /** What the database amounts to. */
  datatype Store = Store(reports: Reports, card: UInt64)

  datatype Event = Report(v: VehicleData) | Remove(id: UInt64) | Age(now: UInt64, limitMs: real) | Clear

  ghost function Step(s: Store, e: Event): (s': Store)
    requires Sane(s.reports)
    ensures Sane(s'.reports)
  {
    match e
    case Report(v) =>
      if s.card == UINT64_MAX then s
      else Store(Reported(s.reports, v), if Id32(v.stationID) in s.reports then s.card else s.card + 1)
    case Remove(id) =>
      if Id32(id) !in s.reports then s
      else Store(if KeyUpper(id) == 0 then s.reports - {Id32(id)} else s.reports, Decrement(s.card))
    case Age(now, limitMs) =>
      var a := Aged(s.reports, now, limitMs);
      AgedIsSmaller(s.reports, now, limitMs);
      Store(a, Lowered(s.card, |s.reports| - |a|))
    case Clear => Store(map[], 0)
  }

  lemma AgedIsSmaller(a: Reports, now: UInt64, limitMs: real)
    requires Sane(a)
    ensures |Aged(a, now, limitMs)| <= |a|
  {
    hide TooOld;
    var b := Aged(a, now, limitMs);
    assert b.Keys <= a.Keys;
    SubsetIsSmaller(b.Keys, a.Keys);
  }

  lemma SubsetIsSmaller(s: set<nat>, t: set<nat>)
    requires s <= t
    ensures |s| <= |t|
  {
    assert t == s + (t - s);
  }

  ghost function Run(s: Store, es: seq<Event>): (s': Store)
    requires Sane(s.reports)
    ensures Sane(s'.reports)
    decreases |es|
  {
    if es == [] then s else Run(Step(s, es[0]), es[1..])
  }

  // ----- The counter -----

  ghost predicate Counted(s: Store) {
    s.card == |s.reports|
  }

  /** The removal finds nothing, or the vehicle's upper key is 0. */
  ghost predicate Removes(s: Store, e: Event) {
    e.Remove? ==> Id32(e.id) !in s.reports || KeyUpper(e.id) == 0
  }

  ghost predicate RemovesThroughout(s: Store, es: seq<Event>)
    requires Sane(s.reports)
    decreases |es|
  {
    es != [] ==> Removes(s, es[0]) && RemovesThroughout(Step(s, es[0]), es[1..])
  }

  ghost predicate CountedThroughout(s: Store, es: seq<Event>)
    requires Sane(s.reports)
    decreases |es|
  {
    Counted(s) && (es != [] ==> CountedThroughout(Step(s, es[0]), es[1..]))
  }

  lemma SaneIsSmall(a: Reports)
    requires Sane(a)
    ensures |a| <= IDS
  {
    forall id | id in a ensures id < IDS { assert Id32(a[id][0].stationID) == id; }
    BelowIsSmall(a.Keys, IDS);
  }

  lemma StepStaysCountedIff(s: Store, e: Event)
    requires Sane(s.reports) && Counted(s)
    ensures Counted(Step(s, e)) <==> Removes(s, e)
    ensures s.card != UINT64_MAX
  {
    hide Sane, TooOld, Id32, KeyUpper;
    SaneIsSmall(s.reports);
    match e
    case Report(_) =>
    case Remove(id) =>
      var i := Id32(id);
      if i in s.reports { assert s.reports == (s.reports - {i})[i := s.reports[i]]; }
    case Age(now, limitMs) =>
      AgedIsSmaller(s.reports, now, limitMs);
      LoweredIsMinus(s.card, |s.reports| - |Aged(s.reports, now, limitMs)|);
    case Clear =>
  }

  /** Over every run that starts with the right count, the counter is right all along
      exactly when every removal that finds its vehicle has upper key 0. */
  lemma {:induction false} CountedIffRemoves(s: Store, es: seq<Event>)
    requires Sane(s.reports) && Counted(s)
    ensures CountedThroughout(s, es) <==> RemovesThroughout(s, es)
    decreases |es|
  {
    if es != [] {
      StepStaysCountedIff(s, es[0]);
      if Removes(s, es[0]) { CountedIffRemoves(Step(s, es[0]), es[1..]); }
    }
  }

  // ----- One vehicle alone -----

  /** Its reports since its entry was created; none without entry. */
  function Follow(rs: seq<VehicleData>, id: nat, e: Event): seq<VehicleData> {
    match e
    case Report(v) => if Id32(v.stationID) == id then rs + [v] else rs
    case Remove(i) => if Id32(i) == id && KeyUpper(i) == 0 then [] else rs
    case Age(now, limitMs) => if rs != [] && TooOld(Last(rs), now, limitMs) then [] else rs
    case Clear => []
  }

  function FollowAll(rs: seq<VehicleData>, id: nat, es: seq<Event>): seq<VehicleData>
    decreases |es|
  {
    if es == [] then rs else FollowAll(Follow(rs, id, es[0]), id, es[1..])
  }

  /** No report of the run meets a counter at its end. */
  ghost predicate NeverFull(s: Store, es: seq<Event>)
    requires Sane(s.reports)
    decreases |es|
  {
    es != [] ==> (es[0].Report? ==> s.card != UINT64_MAX) && NeverFull(Step(s, es[0]), es[1..])
  }

  /** Vehicles do not disturb each other: over every run without a refused report, what
      is kept of one vehicle is what its own reports, its own removals, the deletions
      and the clearings leave of it. */
  lemma {:induction false} RunFollowsEach(s: Store, es: seq<Event>, id: nat)
    requires Sane(s.reports) && NeverFull(s, es)
    ensures At(Run(s, es).reports, id) == FollowAll(At(s.reports, id), id, es)
    decreases |es|
  {
    if es != [] {
      RunFollowsEach(Step(s, es[0]), es[1..], id);
      assert At(Step(s, es[0]).reports, id) == Follow(At(s.reports, id), id, es[0]);
    }
  }

  /** While the counter is right no report is refused. */
  lemma {:induction false} CountedIsNeverFull(s: Store, es: seq<Event>)
    requires Sane(s.reports) && CountedThroughout(s, es)
    ensures NeverFull(s, es)
    decreases |es|
  {
    if es != [] {
      StepStaysCountedIff(s, es[0]);
      CountedIsNeverFull(Step(s, es[0]), es[1..]);
    }
  }

  const EMPTY := Store(map[], 0)

  /** Inserting a vehicle with a large ID, and two removals that find but miss it. */
  lemma RemovalMisses(v: VehicleData)
    requires v.stationID == 0x1_0000
    ensures var a: Reports := map[0x1_0000 := [v]];
      && Sane(a)
      && Step(EMPTY, Report(v)) == Store(a, 1)
      && Step(Store(a, 1), Remove(0x1_0000)) == Store(a, 0)
      && Step(Store(a, 0), Remove(0x1_0000)) == Store(a, UINT64_MAX)
  {
    assert Id32(0x1_0000) == 0x1_0000 && KeyUpper(0x1_0000) == 1;
    assert [] + [v] == [v];
  }

  /** A vehicle with a large ID, removed twice, takes the counter below zero: then the
      database refuses every report, although it holds a single vehicle. */
  lemma RemovingTwiceFills(v: VehicleData, w: VehicleData)
    requires v.stationID == 0x1_0000
    ensures var es := [Report(v), Remove(0x1_0000), Remove(0x1_0000), Report(w)];
      Run(EMPTY, es) == Store(map[0x1_0000 := [v]], UINT64_MAX) && !NeverFull(EMPTY, es)
  {
    var a: Reports := map[0x1_0000 := [v]];
    var s0, s1, s2, s3 := EMPTY, Store(a, 1), Store(a, 0), Store(a, UINT64_MAX);
    RemovalMisses(v);
    var es := [Report(v), Remove(0x1_0000), Remove(0x1_0000), Report(w)];
    assert es[1..] == [Remove(0x1_0000), Remove(0x1_0000), Report(w)];
    assert es[1..][1..] == [Remove(0x1_0000), Report(w)] && es[1..][1..][1..] == [Report(w)];
    hide Step, Sane;
    FullRefuses(s3, w);
    assert !NeverFull(s2, es[1..][1..]) && Run(s2, es[1..][1..]) == s3;
    assert !NeverFull(s1, es[1..]) && Run(s1, es[1..]) == s3;
  }

  lemma FullRefuses(s: Store, w: VehicleData)
    requires Sane(s.reports) && s.card == UINT64_MAX
    ensures Run(s, [Report(w)]) == s && !NeverFull(s, [Report(w)])
  {
    assert [Report(w)][1..] == [];
  }
}
