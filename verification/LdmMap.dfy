/** The vehicle database: a two-level map whose entries own their path histories. */
module LdmMap {
  import opened Common
  import PathHistory
  import opened Vehicle
  import opened PathHistoryObject
  import opened VehicleDatabase
  import DatabaseRuns

  /** What the database stores and returns for a vehicle. */
  datatype Entry = Entry(veh: VehicleData, ph: PHpoints)

  datatype Status = Done | Updated | NotFound | Full

  type Distance = (real, real, real, real) -> real

  /** A history object holds exactly what the reports leave in it. */
  ghost predicate Faithful(distance: Distance, ph: PHpoints, rs: seq<VehicleData>)
    reads ph, ph.data
  {
    ph.Valid() && ph.Settings() == Defaults(distance) && !ph.iterateFull && ph.State() == History(distance, rs)
  }

  /** No two entries share a history. */
  ghost predicate Apart(flat: map<nat, Entry>) {
    forall i, j :: i in flat && j in flat && i != j ==> flat[i].ph != flat[j].ph && flat[i].ph.data != flat[j].ph.data
  }

  ghost predicate Owned(flat: map<nat, Entry>, repr: set<object>) {
    forall i :: i in flat ==> flat[i].ph in repr && flat[i].ph.data in repr
  }

  /** Each entry stores the latest of its reports. */
  ghost predicate Latest(flat: map<nat, Entry>, reports: Reports) {
    Sane(reports) && flat.Keys == reports.Keys && forall i :: i in flat ==> flat[i].veh == Last(reports[i])
  }

  ghost predicate AllFaithful(distance: Distance, flat: map<nat, Entry>, reports: Reports, repr: set<object>)
    requires Owned(flat, repr) && flat.Keys <= reports.Keys
    reads repr
  {
    forall i :: i in flat ==> Faithful(distance, flat[i].ph, reports[i])
  }

  class LDMMap {
    var db: map<nat, map<nat, Entry>>
    var card: UInt64
    const distance: Distance
    ghost var reports: Reports
    ghost var Repr: set<object>

    ghost predicate Valid()
      reads this, Repr
    {
      && this !in Repr && WellKeyed(db) && Apart(Flat(db)) && Owned(Flat(db), Repr) && Latest(Flat(db), reports)
      && AllFaithful(distance, Flat(db), reports, Repr)
    }

    /** The counter is right. */
    ghost predicate Counted()
      reads this
    {
      card == |Flat(db)|
    }

    constructor (distance: Distance)
      ensures Valid() && Counted() && Kept() == DatabaseRuns.EMPTY && fresh(Repr)
    {
      db, card, this.distance, reports, Repr := map[], 0, distance, map[], {};
      new;
      hide Flat, WellKeyed, Apart, Owned, Latest, AllFaithful;
      NothingStored<Entry>();
      NothingOwned(distance, Repr);
    }

    /** Creates or overwrites the entry, without telling its history. */
    method Place(v: VehicleData) returns (r: Status)
      requires WellKeyed(db) && card != UINT64_MAX
      modifies this
      ensures WellKeyed(db) && reports == old(reports)
      ensures r == if Id32(v.stationID) in old(Flat(db)) then Updated else Done
      ensures card == if r.Done? then old(card) + 1 else old(card)
      ensures Id32(v.stationID) in Flat(db)
      ensures var e := Flat(db)[Id32(v.stationID)]; e.veh == v && Flat(db) == old(Flat(db))[Id32(v.stationID) := e]
      ensures var ph := Flat(db)[Id32(v.stationID)].ph;
        if r.Done? then fresh(ph) && fresh(ph.data) && Faithful(distance, ph, []) && Repr == old(Repr) + {ph, ph.data}
        else ph == old(Flat(db))[Id32(v.stationID)].ph && Repr == old(Repr)
    {
      hide Flat, Id32, KeyUpper, KeyLower, Faithful;
      var keyUpper, keyLower := KeyUpper(v.stationID), KeyLower(v.stationID);
      ghost var db0 := db;
      KeysIdentify(v.stationID, v.stationID);
      FlatAt(db, keyUpper, keyLower);
      if keyUpper !in db {
        var ph := NewHistory();
        db := db[keyUpper := map[keyLower := Entry(v, ph)]];
        card := card + 1;
        r := Done;
      } else {
        if keyLower !in db[keyUpper] {
          card := card + 1;
          r := Done;
        } else {
          r := Updated;
        }
        if r == Done {
          var ph := NewHistory();
          db := db[keyUpper := db[keyUpper][keyLower := Entry(v, ph)]];
        } else {
          db := db[keyUpper := db[keyUpper][keyLower := db[keyUpper][keyLower].(veh := v)]];
        }
      }
      assert db == Put(db0, keyUpper, keyLower, db[keyUpper][keyLower]);
      FlatPut(db0, keyUpper, keyLower, db[keyUpper][keyLower]);
    }

    /** A history for a new entry. */
    method NewHistory() returns (ph: PHpoints)
      modifies this`Repr
      ensures fresh(ph) && fresh(ph.data) && Faithful(distance, ph, []) && Repr == old(Repr) + {ph, ph.data}
    {
      ph := new PHpoints(distance);
      Repr := Repr + {ph, ph.data};
    }

    /** Extends one history; the others stay as they are. */
    method Extend(ph: PHpoints, ghost rs: seq<VehicleData>, v: VehicleData, ghost others: map<nat, Entry>)
      requires Owned(others, Repr) && others.Keys <= reports.Keys && AllFaithful(distance, others, reports, Repr)
      requires forall i :: i in others ==> others[i].ph != ph && others[i].ph.data != ph.data
      requires Faithful(distance, ph, rs)
      modifies ph, ph.data
      ensures Faithful(distance, ph, rs + [v]) && AllFaithful(distance, others, reports, Repr)
    {
      hide PathHistory.Insert, History, Faithful;
      ExtendOne(ph, rs, v);
    }

    method ExtendOne(ph: PHpoints, ghost rs: seq<VehicleData>, v: VehicleData)
      requires Faithful(distance, ph, rs)
      modifies ph, ph.data
      ensures Faithful(distance, ph, rs + [v])
    {
      hide PathHistory.Insert, History;
      var _ := ph.Insert(v);
      HistoryExtends(distance, rs, v);
    }

    /** Inserts or updates one vehicle and extends its path history. */
    method Insert(v: VehicleData) returns (r: Status)
      requires Valid()
      modifies this, Repr
      ensures Valid() && fresh(Repr - old(Repr))
      ensures r == if old(card) == UINT64_MAX then Full
                   else if Id32(v.stationID) in old(reports) then Updated else Done
      ensures reports == if r.Full? then old(reports) else Reported(old(reports), v)
      ensures card == if r.Done? then old(card) + 1 else old(card)
      ensures old(Counted()) ==> Counted() && !r.Full?
      ensures forall i :: i in old(Flat(db)) ==> i in Flat(db) && Flat(db)[i].ph == old(Flat(db))[i].ph
    {
      hide Flat, Faithful, WellKeyed, Sane, Id32, Owned, Apart, Latest, AllFaithful, Compose, KeyUpper, KeyLower;
      FlatIsSmall(db);
      if card == UINT64_MAX {
        return Full;
      }
      ghost var id, flat, repr := Id32(v.stationID), Flat(db), Repr;
      SameKeys(flat, reports);
      ghost var rs := At(reports, id);
      OwnHistory(distance, flat, reports, repr, id);
      r := Place(v);
      KeysIdentify(v.stationID, v.stationID);
      FlatAt(db, KeyUpper(v.stationID), KeyLower(v.stationID));
      var ph := db[KeyUpper(v.stationID)][KeyLower(v.stationID)].ph;
      Tell(ph, v, rs, flat, repr);
    }

    /** Adds the report just placed to the vehicle's history. */
    method Tell(ph: PHpoints, v: VehicleData, ghost rs: seq<VehicleData>, ghost flat: map<nat, Entry>, ghost repr: set<object>)
      requires this !in Repr && WellKeyed(db) && repr <= Repr && Apart(flat) && Owned(flat, repr) && Latest(flat, reports)
      requires AllFaithful(distance, flat, reports, repr) && Faithful(distance, ph, rs)
      requires rs == At(reports, Id32(v.stationID)) && Flat(db) == flat[Id32(v.stationID) := Entry(v, ph)]
      requires if Id32(v.stationID) in flat then ph == flat[Id32(v.stationID)].ph
               else ph !in repr && ph.data !in repr && ph in Repr && ph.data in Repr
      modifies this`reports, ph, ph.data
      ensures Valid() && reports == Reported(old(reports), v)
    {
      hide Flat, Faithful, WellKeyed, Sane, Id32, Owned, Apart, Latest, AllFaithful;
      ghost var id, e := Id32(v.stationID), Entry(v, ph);
      SameKeys(flat, reports);
      PlaceKeeps(flat, repr, Repr, id, e);
      OthersFaithful(distance, flat, reports, repr, Repr, id);
      Extend(ph, rs, v, flat - {id});
      LatestReported(flat, reports, v, e);
      PutFaithful(distance, flat, id, e, reports, Reported(reports, v), Repr);
      reports := Reported(reports, v);
    }

    method Lookup(id: UInt64) returns (r: Status, e: Option<Entry>)
      requires Valid()
      ensures r == if Id32(id) in reports then Done else NotFound
      ensures r.NotFound? ==> e.None?
      ensures r.Done? ==> Id32(id) in Flat(db) && e == Some(Flat(db)[Id32(id)])
      ensures r.Done? ==> e.value.veh == Last(reports[Id32(id)]) && Faithful(distance, e.value.ph, reports[Id32(id)])
    {
      hide Flat, Faithful, Id32, KeyUpper, KeyLower;
      var keyUpper, keyLower := KeyUpper(id), KeyLower(id);
      KeysIdentify(id, id);
      FlatAt(db, keyUpper, keyLower);
      SameKeys(Flat(db), reports);
      if keyUpper !in db {
        return NotFound, None;
      } else if keyLower !in db[keyUpper] {
        return NotFound, None;
      }
      return Done, Some(db[keyUpper][keyLower]);
    }

    /** Erases the entry when its lower key equals the 32-bit ID, and counts it off. */
    method Remove(id: UInt64) returns (r: Status)
      requires Valid()
      modifies this`db, this`card, this`reports
      ensures Valid()
      ensures r == if Id32(id) in old(reports) then Done else NotFound
      ensures r.NotFound? ==> db == old(db) && card == old(card) && reports == old(reports)
      ensures r.Done? ==> card == Decrement(old(card))
      ensures r.Done? ==> reports == if KeyUpper(id) == 0 then old(reports) - {Id32(id)} else old(reports)
      ensures r.Done? && old(Counted()) ==> (Counted() <==> KeyUpper(id) == 0)
    {
      hide Flat, WellKeyed, Faithful, Apart, Owned, Latest, AllFaithful;
      var keyUpper, keyLower := KeyUpper(id), KeyLower(id);
      ghost var flat := Flat(db);
      KeysIdentify(id, id);
      FlatAt(db, keyUpper, keyLower);
      SameKeys(flat, reports);
      if keyUpper !in db {
        return NotFound;
      } else if keyLower !in db[keyUpper] {
        return NotFound;
      }
      EraseWhole(db, keyUpper, keyLower, Id32(id));
      db := db[keyUpper := db[keyUpper] - {Id32(id)}];
      card := Decrement(card);
      r := Done;
      if keyUpper == 0 {
        Shrinks(distance, flat, reports, Repr, {Id32(id)});
        reports := reports - {Id32(id)};
      }
    }

    // ----- Selection -----

    /** Appends the entries of one inner map that lie in range. */
    method SelectLower(u: nat, range: real, lat: real, lon: real, selected: seq<Entry>, ghost before: set<nat>)
      returns (selected': seq<Entry>)
      requires WellKeyed(db) && u in db && before <= Flat(db).Keys && forall id :: id in before ==> id / HALF != u
      requires Lists(selected, Near(distance, Flat(db), before, range, lat, lon))
      ensures Lists(selected', Near(distance, Flat(db), before + Under(Flat(db), u), range, lat, lon))
    {
      hide Lists, Near, Flat, Under, SweptLower, Compose;
      ghost var flat, seen := Flat(db), before;
      LowerStarts(db, u, before);
      var todo := db[u].Keys;
      selected' := selected;
      while todo != {}
        invariant todo <= db[u].Keys && SweptLower(db, u, todo, before, seen)
        invariant Lists(selected', Near(distance, flat, seen, range, lat, lon))
        decreases todo
      {
        var l :| l in todo;
        SweepsLower(db, u, todo, before, seen, l);
        NearStep(distance, flat, seen, Compose(u, l), range, lat, lon);
        if distance(lat, lon, db[u][l].veh.lat, db[u][l].veh.lon) <= range {
          ListsAdd(selected', Near(distance, flat, seen, range, lat, lon), Compose(u, l), db[u][l]);
          selected' := selected' + [db[u][l]];
        }
        seen := seen + {Compose(u, l)};
        todo := todo - {l};
      }
      LowerEnds(db, u, before, seen);
    }

    /** The entries within range of a position, each once. */
    method RangeSelect(range: real, lat: real, lon: real) returns (r: Status, selected: seq<Entry>)
      requires Valid()
      ensures r == Done
      ensures Lists(selected, Near(distance, Flat(db), Flat(db).Keys, range, lat, lon))
      ensures forall i :: i in Flat(db) ==>
        (Flat(db)[i] in selected <==> distance(lat, lon, Flat(db)[i].veh.lat, Flat(db)[i].veh.lon) <= range)
      ensures forall k :: 0 <= k < |selected| ==> Stored(Flat(db), selected[k])
    {
      hide Lists, Near, Flat, Under, Swept, WellKeyed, Faithful, Apart, Owned, Latest, AllFaithful;
      ghost var seen: set<nat> := {};
      SweepStarts(db);
      NearNothing(distance, Flat(db), range, lat, lon);
      var todo := db.Keys;
      selected := [];
      while todo != {}
        invariant todo <= db.Keys && seen <= Flat(db).Keys && Swept(db, todo, seen)
        invariant Lists(selected, Near(distance, Flat(db), seen, range, lat, lon))
        decreases todo
      {
        var u :| u in todo;
        SweepsUpper(db, todo, seen, u);
        selected := SelectLower(u, range, lat, lon, selected, seen);
        seen := seen + Under(Flat(db), u);
        todo := todo - {u};
        SweptSeen(db, todo, seen);
      }
      SweepEnds(db, seen);
      SelectedMeans(distance, Flat(db), reports, selected, range, lat, lon);
      r := Done;
    }

    /** What the JSON server reads for one request: the entries in range, and for each
        the points its history iterates over. */
    method ServePaths(range: real, lat: real, lon: real) returns (selected: seq<Entry>, paths: seq<seq<PathHistory.Point>>)
      requires Valid()
      ensures forall i :: i in Flat(db) ==>
        (Flat(db)[i] in selected <==> distance(lat, lon, Flat(db)[i].veh.lat, Flat(db)[i].veh.lon) <= range)
      ensures |paths| == |selected|
      ensures forall k :: 0 <= k < |selected| ==>
        Id32(selected[k].veh.stationID) in reports && IsPath(distance, reports[Id32(selected[k].veh.stationID)], paths[k])
    {
      hide Lists, Near, Flat, WellKeyed, Apart, Latest, Faithful, IsPath, Owned, AllFaithful;
      var r;
      r, selected := RangeSelect(range, lat, lon);
      SameKeys(Flat(db), reports);
      paths := [];
      for k := 0 to |selected|
        invariant |paths| == k
        invariant forall j :: 0 <= j < k ==>
          Id32(selected[j].veh.stationID) in reports && IsPath(distance, reports[Id32(selected[j].veh.stationID)], paths[j])
      {
        ghost var i := Id32(selected[k].veh.stationID);
        OwnHistory(distance, Flat(db), reports, Repr, i);
        var path := IteratePath(selected[k].ph, reports[i]);
        paths := paths + [path];
      }
    }

    method IteratePath(ph: PHpoints, ghost rs: seq<VehicleData>) returns (path: seq<PathHistory.Point>)
      requires Faithful(distance, ph, rs)
      ensures IsPath(distance, rs, path)
    {
      hide History;
      path := ph.IterateAll();
    }

    /** The entries within range of a vehicle, which is one of them if its distance
        from itself is in range. */
    method RangeSelectAround(range: real, id: UInt64) returns (r: Status, selected: seq<Entry>)
      requires Valid()
      ensures r == if Id32(id) in reports then Done else NotFound
      ensures r.NotFound? ==> selected == []
      ensures r.Done? ==> var v := Last(reports[Id32(id)]);
        Lists(selected, Near(distance, Flat(db), Flat(db).Keys, range, v.lat, v.lon))
    {
      hide Lists, Near, Flat, WellKeyed, Faithful, Apart, Owned, Latest, AllFaithful;
      var found, e := Lookup(id);
      if found != Done {
        return NotFound, [];
      }
      r, selected := RangeSelect(range, e.value.veh.lat, e.value.veh.lon);
    }

    // ----- Ageing -----

    method AgeLower(u: nat, now: UInt64, limitMs: real,
                    ghost db0: map<nat, map<nat, Entry>>, ghost card0: UInt64, ghost before: set<nat>)
      requires WellKeyed(db0) && u in db0 && before <= Flat(db0).Keys && forall id :: id in before ==> id / HALF != u
      requires Progress(db, card, db0, card0, before, now, limitMs)
      modifies this`db, this`card
      ensures Progress(db, card, db0, card0, before + Under(Flat(db0), u), now, limitMs)
    {
      hide Flat, Under, SweptLower, Compose, WellKeyed, Progress, TooOld, Decrement;
      ghost var seen := before;
      LowerStarts(db0, u, before);
      StillWhole(db, card, db0, card0, before, u, now, limitMs);
      var todo := db[u].Keys;
      while todo != {}
        invariant todo <= db0[u].Keys && SweptLower(db0, u, todo, before, seen)
        invariant Progress(db, card, db0, card0, seen, now, limitMs) && Untouched(db, db0, u, todo)
        decreases todo
      {
        var l :| l in todo;
        SweepsLower(db0, u, todo, before, seen, l);
        if TooOld(db[u][l].veh, now, limitMs) {
          EraseProgress(db, card, db0, card0, seen, u, l, now, limitMs);
          db := db[u := db[u] - {l}];
          card := Decrement(card);
        } else {
          KeepProgress(db, card, db0, card0, seen, Compose(u, l), now, limitMs);
        }
        seen := seen + {Compose(u, l)};
        todo := todo - {l};
      }
      LowerEnds(db0, u, before, seen);
    }

    /** Deletes the entries that are too old; the inner maps stay, even when empty. */
    method DeleteOlderThan(limitMs: real, now: UInt64)
      requires Valid()
      modifies this
      ensures Valid() && Repr == old(Repr) && reports == Aged(old(reports), now, limitMs)
      ensures Aftermath(db, card, old(db), old(card), now, limitMs)
      ensures |reports| <= old(|reports|) && card == Lowered(old(card), old(|reports|) - |reports|)
      ensures old(Counted()) ==> Counted()
    {
      hide Flat, Under, Swept, WellKeyed, Faithful, Apart, Owned, Latest, AllFaithful, Progress, TooOld, Sane;
      ghost var db0, card0, seen := db, card, {};
      SweepStarts(db);
      NothingGone(db, card, now, limitMs);
      var todo := db.Keys;
      while todo != {}
        invariant todo <= db0.Keys && Swept(db0, todo, seen) && Progress(db, card, db0, card0, seen, now, limitMs)
        invariant reports == old(reports) && Repr == old(Repr)
        decreases todo
      {
        var u :| u in todo;
        SweepsUpper(db0, todo, seen, u);
        SweptSeen(db0, todo, seen);
        AgeLower(u, now, limitMs, db0, card0, seen);
        seen := seen + Under(Flat(db0), u);
        todo := todo - {u};
      }
      SweepEnds(db0, seen);
      Settle(distance, db, card, db0, card0, reports, Repr, now, limitMs);
      reports := Aged(reports, now, limitMs);
    }

    method AgeLowerAndExecute(
      u: nat, now: UInt64, limitMs: real, calls: seq<UInt64>,
      ghost db0: map<nat, map<nat, Entry>>, ghost card0: UInt64, ghost before: set<nat>)
      returns (calls': seq<UInt64>)
      requires WellKeyed(db0) && u in db0 && before <= Flat(db0).Keys && forall id :: id in before ==> id / HALF != u
      requires Progress(db, card, db0, card0, before, now, limitMs) && Lists(calls, Gone(Flat(db0), before, now, limitMs))
      modifies this`db, this`card
      ensures Progress(db, card, db0, card0, before + Under(Flat(db0), u), now, limitMs)
      ensures Lists(calls', Gone(Flat(db0), before + Under(Flat(db0), u), now, limitMs))
    {
      hide Flat, Under, SweptLower, Compose, WellKeyed, Progress, TooOld, Gone, Lists, Decrement;
      ghost var seen := before;
      LowerStarts(db0, u, before);
      StillWhole(db, card, db0, card0, before, u, now, limitMs);
      var todo := db[u].Keys;
      calls' := calls;
      while todo != {}
        invariant todo <= db0[u].Keys && SweptLower(db0, u, todo, before, seen)
        invariant Progress(db, card, db0, card0, seen, now, limitMs) && Untouched(db, db0, u, todo)
        invariant Lists(calls', Gone(Flat(db0), seen, now, limitMs))
        decreases todo
      {
        var l :| l in todo;
        SweepsLower(db0, u, todo, before, seen, l);
        GoneStep(Flat(db0), seen, Compose(u, l), now, limitMs);
        if TooOld(db[u][l].veh, now, limitMs) {
          ListsAdd(calls', Gone(Flat(db0), seen, now, limitMs), Compose(u, l), db[u][l].veh.stationID);
          calls' := calls' + [db[u][l].veh.stationID];
          EraseProgress(db, card, db0, card0, seen, u, l, now, limitMs);
          db := db[u := db[u] - {l}];
          card := Decrement(card);
        } else {
          KeepProgress(db, card, db0, card0, seen, Compose(u, l), now, limitMs);
        }
        seen := seen + {Compose(u, l)};
        todo := todo - {l};
      }
      LowerEnds(db0, u, before, seen);
    }

    /** The same pass, calling back with the station ID of each entry it deletes, once
        for each; `calls` records the calls. */
    method DeleteOlderThanAndExecute(limitMs: real, now: UInt64) returns (calls: seq<UInt64>)
      requires Valid()
      modifies this
      ensures Valid() && Repr == old(Repr) && reports == Aged(old(reports), now, limitMs)
      ensures Aftermath(db, card, old(db), old(card), now, limitMs)
      ensures |reports| <= old(|reports|) && card == Lowered(old(card), old(|reports|) - |reports|)
      ensures old(Counted()) ==> Counted()
      ensures Lists(calls, Gone(old(Flat(db)), old(Flat(db).Keys), now, limitMs))
      ensures |calls| == old(|reports|) - |reports|
      ensures forall i :: i in old(reports) && i !in reports ==>
        old(reports)[i] != [] && Last(old(reports)[i]).stationID in calls
    {
      hide Flat, Under, Swept, WellKeyed, Faithful, Apart, Owned, Latest, AllFaithful, Progress, TooOld, Sane, Gone, Lists;
      ghost var db0, card0, seen := db, card, {};
      SweepStarts(db);
      NothingGone(db, card, now, limitMs);
      var todo := db.Keys;
      calls := [];
      while todo != {}
        invariant todo <= db0.Keys && Swept(db0, todo, seen) && Progress(db, card, db0, card0, seen, now, limitMs)
        invariant Lists(calls, Gone(Flat(db0), seen, now, limitMs))
        invariant reports == old(reports) && Repr == old(Repr)
        decreases todo
      {
        var u :| u in todo;
        SweepsUpper(db0, todo, seen, u);
        SweptSeen(db0, todo, seen);
        calls := AgeLowerAndExecute(u, now, limitMs, calls, db0, card0, seen);
        seen := seen + Under(Flat(db0), u);
        todo := todo - {u};
      }
      SweepEnds(db0, seen);
      Settle(distance, db, card, db0, card0, reports, Repr, now, limitMs);
      CallsMean(Flat(db0), reports, calls, now, limitMs);
      reports := Aged(reports, now, limitMs);
    }

    // ----- Clearing -----

    method ClearLower(u: nat, ghost db0: map<nat, map<nat, Entry>>, ghost before: set<nat>)
      requires this !in Repr && WellKeyed(db0) && u in db0 && u in db && db[u] == db0[u]
      requires Apart(Flat(db0)) && Owned(Flat(db0), Repr)
      requires before <= Flat(db0).Keys && forall id :: id in before ==> id / HALF != u
      requires Emptied(Flat(db0), before, Repr)
      modifies Repr
      ensures Emptied(Flat(db0), before + Under(Flat(db0), u), Repr)
    {
      hide Flat, Under, SweptLower, Compose, WellKeyed, Apart, Owned, Emptied;
      ghost var seen := before;
      LowerStarts(db0, u, before);
      var todo := db[u].Keys;
      while todo != {}
        invariant todo <= db0[u].Keys && SweptLower(db0, u, todo, before, seen)
        invariant Emptied(Flat(db0), seen, Repr)
        decreases todo
      {
        var l :| l in todo;
        SweepsLower(db0, u, todo, before, seen, l);
        ClearOne(db[u][l].ph, Flat(db0), seen, Compose(u, l));
        seen := seen + {Compose(u, l)};
        todo := todo - {l};
      }
      LowerEnds(db0, u, before, seen);
    }

    method ClearOne(ph: PHpoints, ghost flat: map<nat, Entry>, ghost seen: set<nat>, ghost id: nat)
      requires id in flat && flat[id].ph == ph && Apart(flat) && Owned(flat, Repr) && this !in Repr
      requires Emptied(flat, seen, Repr)
      modifies Repr
      ensures Emptied(flat, seen + {id}, Repr)
    {
      ph.Clear();
    }

    /** Clears every history, then both levels of the map and the counter. */
    method Clear()
      requires Valid()
      modifies this, Repr
      ensures Valid() && Counted() && reports == map[] && db == map[] && Repr == old(Repr)
      ensures old(Owned(Flat(db), Repr)) && Emptied(old(Flat(db)), old(Flat(db).Keys), Repr)
    {
      hide Flat, WellKeyed, Faithful, Apart, Owned, Latest, AllFaithful, Swept, Under, Emptied;
      ghost var db0, seen: set<nat> := db, {};
      SameKeys(Flat(db), reports);
      NothingEmptied(distance, Flat(db), reports, Repr);
      SweepStarts(db);
      var todo := db.Keys;
      while todo != {}
        invariant todo <= db.Keys && todo <= db0.Keys && Swept(db0, todo, seen) && Repr == old(Repr)
        invariant Emptied(Flat(db0), seen, Repr)
        invariant forall u :: u in todo ==> db[u] == db0[u]
        decreases todo
      {
        var u :| u in todo;
        SweepsUpper(db0, todo, seen, u);
        SweptSeen(db0, todo, seen);
        ClearLower(u, db0, seen);
        db := db[u := map[]];
        seen := seen + Under(Flat(db0), u);
        todo := todo - {u};
      }
      SweepEnds(db0, seen);
      db, card := map[], 0;
      reports := map[];
      NothingStored<Entry>();
      NothingOwned(distance, Repr);
    }

    // ----- Runs -----

    /** The database as a flat map from vehicles to reports, with its counter. */
    ghost function Kept(): DatabaseRuns.Store
      reads this
    {
      DatabaseRuns.Store(reports, card)
    }

    /** One operation, as the message receiver, the cleaner and the owner call it. */
    method Operate(e: DatabaseRuns.Event)
      requires Valid()
      modifies this, Repr
      ensures Valid() && fresh(Repr - old(Repr))
      ensures Sane(old(reports)) && Kept() == DatabaseRuns.Step(old(Kept()), e)
    {
      hide Flat, WellKeyed, Faithful, Apart, Owned, AllFaithful, Aftermath, Emptied, Lists, Lowered, Decrement, Reported, Gone, TooOld;
      match e
      case Report(v) => var _ := Insert(v);
      case Remove(id) => var _ := Remove(id);
      case Age(now, limitMs) => var _ := DeleteOlderThanAndExecute(limitMs, now);
      case Clear => Clear();
    }

    /** Any run of operations takes the database where the run takes the flat map; it
        stays valid throughout, so every history is that of its own vehicle. */
    method Replay(es: seq<DatabaseRuns.Event>)
      requires Valid()
      modifies this, Repr
      ensures Valid() && fresh(Repr - old(Repr))
      ensures Sane(old(reports)) && Kept() == DatabaseRuns.Run(old(Kept()), es)
    {
      hide Flat, WellKeyed, Faithful, Apart, Owned, AllFaithful, Sane, DatabaseRuns.Step;
      ghost var s0 := Kept();
      assert es[0..] == es;
      for k := 0 to |es|
        invariant Valid() && fresh(Repr - old(Repr))
        invariant DatabaseRuns.Run(Kept(), es[k..]) == DatabaseRuns.Run(s0, es)
      {
        assert es[k..][0] == es[k] && es[k..][1..] == es[k + 1..];
        Operate(es[k]);
      }
    }
  }

  lemma NothingStored<E>()
    ensures Flat<E>(map[]) == map[] && WellKeyed<E>(map[])
  {
  }

  lemma SameKeys(flat: map<nat, Entry>, reports: Reports)
    requires Latest(flat, reports)
    ensures flat.Keys == reports.Keys
    ensures forall i :: i in flat <==> i in reports
  {
  }

  /** Ownership after an entry is overwritten, or created with a history of its own. */
  lemma PlaceKeeps(flat: map<nat, Entry>, repr: set<object>, repr': set<object>, id: nat, e: Entry)
    requires Apart(flat) && Owned(flat, repr) && repr <= repr'
    requires if id in flat then e.ph == flat[id].ph
             else e.ph !in repr && e.ph.data !in repr && e.ph in repr' && e.ph.data in repr'
    ensures Apart(flat[id := e]) && Owned(flat[id := e], repr') && Owned(flat - {id}, repr')
    ensures forall i :: i in flat - {id} ==> (flat - {id})[i].ph != e.ph && (flat - {id})[i].ph.data != e.ph.data
    ensures id in flat ==> e.ph in repr && e.ph.data in repr
  {
  }

  lemma OthersFaithful(
    distance: Distance, flat: map<nat, Entry>, reports: Reports, repr: set<object>, repr': set<object>, id: nat)
    requires Owned(flat, repr) && Owned(flat - {id}, repr') && flat.Keys == reports.Keys
    requires AllFaithful(distance, flat, reports, repr)
    ensures AllFaithful(distance, flat - {id}, reports, repr')
    ensures id in flat ==> Faithful(distance, flat[id].ph, reports[id])
  {
    hide Faithful;
  }

  lemma OwnHistory(distance: Distance, flat: map<nat, Entry>, reports: Reports, repr: set<object>, id: nat)
    requires Owned(flat, repr) && flat.Keys == reports.Keys && AllFaithful(distance, flat, reports, repr)
    ensures id in flat ==> flat[id].ph in repr && flat[id].ph.data in repr && Faithful(distance, flat[id].ph, reports[id])
  {
    hide Faithful;
  }

  lemma PutFaithful(
    distance: Distance, flat: map<nat, Entry>, id: nat, e: Entry, reports: Reports, reports': Reports, repr: set<object>)
    requires Owned(flat - {id}, repr) && flat.Keys == reports.Keys && AllFaithful(distance, flat - {id}, reports, repr)
    requires Owned(flat[id := e], repr) && flat.Keys + {id} == reports'.Keys && Faithful(distance, e.ph, reports'[id])
    requires forall i :: i in flat && i != id ==> reports'[i] == reports[i]
    ensures AllFaithful(distance, flat[id := e], reports', repr)
  {
    hide Faithful;
  }

  lemma LatestReported(flat: map<nat, Entry>, reports: Reports, v: VehicleData, e: Entry)
    requires Latest(flat, reports) && e.veh == v
    ensures Latest(flat[Id32(v.stationID) := e], Reported(reports, v))
  {
  }

  /** The entries among those seen that lie in range of a position. */
  ghost function Near(
    distance: Distance, flat: map<nat, Entry>, seen: set<nat>, range: real, lat: real, lon: real): map<nat, Entry>
  {
    map id | id in flat && id in seen && distance(lat, lon, flat[id].veh.lat, flat[id].veh.lon) <= range :: flat[id]
  }

  /** The entry is the one stored for its vehicle. */
  ghost predicate Stored(flat: map<nat, Entry>, e: Entry) {
    var id := Id32(e.veh.stationID);
    id in flat && flat[id] == e
  }

  /** Iterating a history in the mode entries have: the recent points without the newest,
      which in an ordered history are the live points from newest to oldest. */
  ghost predicate IsPath(distance: Distance, rs: seq<VehicleData>, path: seq<PathHistory.Point>) {
    var h := History(distance, rs);
    && |path| == (if h.size > 0 then h.size - 1 else 0)
    && (forall j :: 0 <= j < |path| ==> path[j] == PathHistory.Recent(h)[j + 1])
    && (PathHistory.Ordered(h) ==> forall j :: 0 <= j < |path| ==> path[j] == PathHistory.Live(h)[h.size - 2 - j])
  }

  lemma SelectedMeans(
    distance: Distance, flat: map<nat, Entry>, reports: Reports, selected: seq<Entry>, range: real, lat: real, lon: real)
    requires Lists(selected, Near(distance, flat, flat.Keys, range, lat, lon)) && Apart(flat) && Latest(flat, reports)
    ensures forall i :: i in flat ==>
      (flat[i] in selected <==> distance(lat, lon, flat[i].veh.lat, flat[i].veh.lon) <= range)
    ensures forall k :: 0 <= k < |selected| ==> Stored(flat, selected[k])
  {
    hide Lists;
    var near := Near(distance, flat, flat.Keys, range, lat, lon);
    ListsCount(selected, near);
    forall i | i in flat && flat[i] in selected ensures i in near {
      var k :| 0 <= k < |selected| && selected[k] == flat[i];
      var j :| j in near && near[j] == selected[k];
    }
    forall i | i in near ensures flat[i] in selected {
      assert near[i] in selected;
    }
  }

  lemma CallsMean(flat: map<nat, Entry>, reports: Reports, calls: seq<UInt64>, now: UInt64, limitMs: real)
    requires Latest(flat, reports) && Lists(calls, Gone(flat, flat.Keys, now, limitMs))
    ensures var left := Aged(reports, now, limitMs);
      && |calls| == |reports| - |left|
      && forall i :: i in reports && i !in left ==> reports[i] != [] && Last(reports[i]).stationID in calls
  {
    hide Lists, TooOld, Gone, Aged, Latest;
    ListsCount(calls, Gone(flat, flat.Keys, now, limitMs));
    GoneCount(flat, reports, now, limitMs);
    GoneIsGone(flat, reports, now, limitMs);
  }

  lemma GoneCount(flat: map<nat, Entry>, reports: Reports, now: UInt64, limitMs: real)
    requires Latest(flat, reports)
    ensures |Gone(flat, flat.Keys, now, limitMs)| == |reports| - |Aged(reports, now, limitMs)|
  {
    hide TooOld;
    var gone := Gone(flat, flat.Keys, now, limitMs);
    AgedLosesGone(flat, reports, now, limitMs);
    hide Gone, Aged;
    PartsAddUp(flat, gone);
    SameSize(flat, reports);
    SameSize(flat - gone.Keys, Aged(reports, now, limitMs));
  }

  lemma GoneIsGone(flat: map<nat, Entry>, reports: Reports, now: UInt64, limitMs: real)
    requires Latest(flat, reports)
    ensures var gone := Gone(flat, flat.Keys, now, limitMs);
      forall i :: i in reports && i !in Aged(reports, now, limitMs) ==>
        reports[i] != [] && i in gone && gone[i] == Last(reports[i]).stationID
  {
    hide TooOld;
  }

  lemma NearNothing(distance: Distance, flat: map<nat, Entry>, range: real, lat: real, lon: real)
    ensures Lists([], Near(distance, flat, {}, range, lat, lon))
  {
    assert Near(distance, flat, {}, range, lat, lon) == map[];
  }

  lemma NearStep(
    distance: Distance, flat: map<nat, Entry>, seen: set<nat>, id: nat, range: real, lat: real, lon: real)
    requires id in flat && id !in seen
    ensures id !in Near(distance, flat, seen, range, lat, lon)
    ensures Near(distance, flat, seen + {id}, range, lat, lon)
         == if distance(lat, lon, flat[id].veh.lat, flat[id].veh.lon) <= range
            then Near(distance, flat, seen, range, lat, lon)[id := flat[id]]
            else Near(distance, flat, seen, range, lat, lon)
  {
  }

  lemma SweptSeen<E>(db: map<nat, map<nat, E>>, todo: set<nat>, seen: set<nat>)
    requires Swept(db, todo, seen)
    ensures seen <= Flat(db).Keys
  {
    hide Flat;
  }

  /** The entries among those seen that are too old, with their station IDs. */
  ghost function Gone(flat: map<nat, Entry>, seen: set<nat>, now: UInt64, limitMs: real): map<nat, UInt64> {
    map id | id in flat && id in seen && TooOld(flat[id].veh, now, limitMs) :: flat[id].veh.stationID
  }

  lemma LoweredMore(card: UInt64, n: nat)
    ensures Lowered(card, n + 1) == Decrement(Lowered(card, n))
  {
  }

  lemma GoneSeen(flat: map<nat, Entry>, seen: set<nat>, now: UInt64, limitMs: real)
    ensures Gone(flat, seen, now, limitMs).Keys <= seen
  {
  }

  lemma GoneStep(flat: map<nat, Entry>, seen: set<nat>, id: nat, now: UInt64, limitMs: real)
    requires id in flat && id !in seen
    ensures id !in Gone(flat, seen, now, limitMs)
    ensures Gone(flat, seen + {id}, now, limitMs)
         == if TooOld(flat[id].veh, now, limitMs)
            then Gone(flat, seen, now, limitMs)[id := flat[id].veh.stationID]
            else Gone(flat, seen, now, limitMs)
  {
  }

  lemma OneMoreGone(flat: map<nat, Entry>, seen: set<nat>, id: nat, now: UInt64, limitMs: real)
    requires id in flat && id !in seen && TooOld(flat[id].veh, now, limitMs)
    ensures var gone, gone' := Gone(flat, seen, now, limitMs), Gone(flat, seen + {id}, now, limitMs);
      |gone'| == |gone| + 1 && flat - gone.Keys - {id} == flat - gone'.Keys
  {
    hide Gone;
    GoneStep(flat, seen, id, now, limitMs);
    DropOne(flat, Gone(flat, seen, now, limitMs).Keys, id);
  }

  lemma ErasesOne(db: map<nat, map<nat, Entry>>, u: nat, l: nat)
    requires WellKeyed(db) && u in db && l in db[u]
    ensures WellKeyed(db[u := db[u] - {l}]) && Flat(db[u := db[u] - {l}]) == Flat(db) - {Compose(u, l)}
  {
    hide Flat;
    FlatErase(db, u, l);
  }

  lemma DropOne<T>(m: map<nat, T>, keys: set<nat>, k: nat)
    ensures m - keys - {k} == m - (keys + {k})
  {
  }

  // ----- Deletion passes -----

  /** Where a deletion pass from `db0` stands: of the entries seen exactly those too
      old are gone, and counted off; the upper keys stay. */
  ghost predicate Progress(
    db: map<nat, map<nat, Entry>>, card: UInt64, db0: map<nat, map<nat, Entry>>, card0: UInt64, seen: set<nat>,
    now: UInt64, limitMs: real)
  {
    && WellKeyed(db) && db.Keys == db0.Keys
    && Flat(db) == Flat(db0) - Gone(Flat(db0), seen, now, limitMs).Keys
    && card == Lowered(card0, |Gone(Flat(db0), seen, now, limitMs)|)
  }

  /** What a deletion pass leaves: exactly the entries not too old, the same upper
      keys, and a counter lowered by the number of the others. */
  ghost predicate Aftermath(
    db: map<nat, map<nat, Entry>>, card: UInt64, db0: map<nat, map<nat, Entry>>, card0: UInt64,
    now: UInt64, limitMs: real)
  {
    Progress(db, card, db0, card0, Flat(db0).Keys, now, limitMs)
  }

  /** The entries still to be visited are untouched. */
  ghost predicate Untouched(db: map<nat, map<nat, Entry>>, db0: map<nat, map<nat, Entry>>, u: nat, todo: set<nat>)
    requires u in db0 && todo <= db0[u].Keys
  {
    u in db && forall l :: l in todo ==> l in db[u] && db[u][l] == db0[u][l]
  }

  lemma EraseProgress(
    db: map<nat, map<nat, Entry>>, card: UInt64, db0: map<nat, map<nat, Entry>>, card0: UInt64, seen: set<nat>,
    u: nat, l: nat, now: UInt64, limitMs: real)
    requires Progress(db, card, db0, card0, seen, now, limitMs) && u in db && l in db[u]
    requires Compose(u, l) in Flat(db0) && Compose(u, l) !in seen
    requires TooOld(Flat(db0)[Compose(u, l)].veh, now, limitMs)
    ensures Progress(db[u := db[u] - {l}], Decrement(card), db0, card0, seen + {Compose(u, l)}, now, limitMs)
  {
    hide Flat, Gone, Lowered, Compose, TooOld, WellKeyed, Decrement;
    ErasesOne(db, u, l);
    OneMoreGone(Flat(db0), seen, Compose(u, l), now, limitMs);
    LoweredMore(card0, |Gone(Flat(db0), seen, now, limitMs)|);
  }

  lemma KeepProgress(
    db: map<nat, map<nat, Entry>>, card: UInt64, db0: map<nat, map<nat, Entry>>, card0: UInt64, seen: set<nat>,
    id: nat, now: UInt64, limitMs: real)
    requires Progress(db, card, db0, card0, seen, now, limitMs) && id in Flat(db0) && id !in seen
    requires !TooOld(Flat(db0)[id].veh, now, limitMs)
    ensures Progress(db, card, db0, card0, seen + {id}, now, limitMs)
  {
    hide Flat, Gone, Lowered, TooOld, WellKeyed;
    GoneStep(Flat(db0), seen, id, now, limitMs);
  }

  /** At the start of an inner loop its inner map is still whole. */
  lemma StillWhole(
    db: map<nat, map<nat, Entry>>, card: UInt64, db0: map<nat, map<nat, Entry>>, card0: UInt64, before: set<nat>,
    u: nat, now: UInt64, limitMs: real)
    requires WellKeyed(db0) && u in db0 && forall id :: id in before ==> id / HALF != u
    requires Progress(db, card, db0, card0, before, now, limitMs)
    ensures u in db && db[u] == db0[u]
  {
    hide Flat, Gone, Lowered;
    GoneSeen(Flat(db0), before, now, limitMs);
    SameLower(db0, db, Gone(Flat(db0), before, now, limitMs).Keys, u);
  }

  lemma NothingGone(db: map<nat, map<nat, Entry>>, card: UInt64, now: UInt64, limitMs: real)
    requires WellKeyed(db)
    ensures Progress(db, card, db, card, {}, now, limitMs) && Lists([], Gone(Flat(db), {}, now, limitMs))
  {
    hide Flat;
    assert Gone(Flat(db), {}, now, limitMs) == map[];
  }

  /** After a complete pass the database is valid for the reports that remain. */
  lemma Settle(
    distance: Distance, db: map<nat, map<nat, Entry>>, card: UInt64, db0: map<nat, map<nat, Entry>>, card0: UInt64,
    reports: Reports, repr: set<object>, now: UInt64, limitMs: real)
    requires Aftermath(db, card, db0, card0, now, limitMs) && Latest(Flat(db0), reports)
    requires Apart(Flat(db0)) && Owned(Flat(db0), repr) && AllFaithful(distance, Flat(db0), reports, repr)
    ensures Sane(reports) && Latest(Flat(db), Aged(reports, now, limitMs)) && WellKeyed(db)
    ensures Apart(Flat(db)) && Owned(Flat(db), repr)
    ensures AllFaithful(distance, Flat(db), Aged(reports, now, limitMs), repr)
    ensures card0 == |Flat(db0)| ==> card == |Flat(db)|
    ensures |Aged(reports, now, limitMs)| <= |reports|
    ensures card == Lowered(card0, |reports| - |Aged(reports, now, limitMs)|)
  {
    hide Flat, Lowered, Faithful, TooOld, Gone, WellKeyed, Aged;
    var flat := Flat(db0);
    var gone := Gone(flat, flat.Keys, now, limitMs);
    GoneSeen(flat, flat.Keys, now, limitMs);
    Shrinks(distance, flat, reports, repr, gone.Keys);
    AgedLosesGone(flat, reports, now, limitMs);
    PartsAddUp(flat, gone);
    SameSize(flat, reports);
    SameSize(flat - gone.Keys, Aged(reports, now, limitMs));
    if card0 == |flat| { LoweredIsMinus(card0, |gone|); }
  }

  /** Erasing by a key that no inner map of that upper half can hold does nothing. */
  lemma EraseWhole(db: map<nat, map<nat, Entry>>, u: nat, l: nat, id: nat)
    requires WellKeyed(db) && u < HALF && l < HALF && u in db && l in db[u] && id == Compose(u, l)
    ensures WellKeyed(db[u := db[u] - {id}])
    ensures Flat(db[u := db[u] - {id}]) == if u == 0 then Flat(db) - {id} else Flat(db)
    ensures id in Flat(db) && |Flat(db) - {id}| == |Flat(db)| - 1
  {
    FlatAt(db, u, l);
    assert Flat(db) == (Flat(db) - {id})[id := db[u][l]];
    if u == 0 {
      FlatErase(db, u, l);
    } else {
      assert db[u] - {id} == db[u];
      assert db[u := db[u]] == db;
    }
  }

  /** What is left of a valid database when entries are erased. */
  lemma Shrinks(distance: Distance, flat: map<nat, Entry>, reports: Reports, repr: set<object>, gone: set<nat>)
    requires Apart(flat) && Owned(flat, repr) && Latest(flat, reports) && AllFaithful(distance, flat, reports, repr)
    ensures Apart(flat - gone) && Owned(flat - gone, repr) && Latest(flat - gone, reports - gone)
    ensures AllFaithful(distance, flat - gone, reports - gone, repr)
  {
    hide Faithful;
  }

  lemma SameSize(flat: map<nat, Entry>, reports: Reports)
    requires Latest(flat, reports)
    ensures |flat| == |reports|
  {
    assert |flat.Keys| == |reports.Keys|;
  }

  lemma AgedLosesGone(flat: map<nat, Entry>, reports: Reports, now: UInt64, limitMs: real)
    requires Latest(flat, reports)
    ensures Aged(reports, now, limitMs) == reports - Gone(flat, flat.Keys, now, limitMs).Keys
  {
    hide TooOld;
  }

  lemma PartsAddUp(flat: map<nat, Entry>, gone: map<nat, UInt64>)
    requires gone.Keys <= flat.Keys
    ensures |flat - gone.Keys| + |gone| == |flat|
  {
    assert (flat - gone.Keys).Keys + gone.Keys == flat.Keys && (flat - gone.Keys).Keys !! gone.Keys;
  }

  /** All histories are in order, and those seen are empty. */
  ghost predicate Emptied(flat: map<nat, Entry>, seen: set<nat>, repr: set<object>)
    requires Owned(flat, repr)
    reads repr
  {
    && (forall i :: i in flat ==> flat[i].ph.Valid())
    && (forall i :: i in flat && i in seen ==> flat[i].ph.State() == PathHistory.Cleared(flat[i].ph.State()))
  }

  lemma NothingEmptied(distance: Distance, flat: map<nat, Entry>, reports: Reports, repr: set<object>)
    requires Owned(flat, repr) && flat.Keys <= reports.Keys && AllFaithful(distance, flat, reports, repr)
    ensures Emptied(flat, {}, repr)
  {
  }

  lemma NothingOwned(distance: Distance, repr: set<object>)
    ensures Apart(map[]) && Owned(map[], repr) && Latest(map[], map[]) && AllFaithful(distance, map[], map[], repr)
  {
  }

  /** Both deletion passes leave the same database and counter. */
  lemma DeletionsAgree(
    db: map<nat, map<nat, Entry>>, card: UInt64, db': map<nat, map<nat, Entry>>, card': UInt64,
    db0: map<nat, map<nat, Entry>>, card0: UInt64, now: UInt64, limitMs: real)
    requires Aftermath(db, card, db0, card0, now, limitMs) && Aftermath(db', card', db0, card0, now, limitMs)
    ensures db == db' && card == card'
  {
    hide Flat, Gone, Lowered, WellKeyed;
    SameDatabase(db, db');
  }

  /** While no stored time lies ahead of the clock, a pass keeps exactly the entries
      that are not older than the limit, as they were, and takes the others off the
      counter. */
  lemma DeletionIsExact(
    db: map<nat, map<nat, Entry>>, card: UInt64, db0: map<nat, map<nat, Entry>>, card0: UInt64, now: UInt64, limitMs: real)
    requires Aftermath(db, card, db0, card0, now, limitMs) && card0 == |Flat(db0)|
    requires forall id :: id in Flat(db0) ==> Flat(db0)[id].veh.timestampUs <= now
    ensures forall id :: id in Flat(db) <==> id in Flat(db0) && AgeMs(Flat(db0)[id].veh, now) <= limitMs
    ensures forall id :: id in Flat(db) ==> Flat(db)[id] == Flat(db0)[id]
    ensures card == |Flat(db)|
  {
    hide Flat, Lowered, TooOld, AgeMs, WellKeyed;
    var flat := Flat(db0);
    var gone := Gone(flat, flat.Keys, now, limitMs);
    forall id | id in flat ensures id in gone <==> AgeMs(flat[id].veh, now) > limitMs {
      AgeingIsExactIff(flat[id].veh, now, limitMs);
    }
    PartsAddUp(flat, gone);
    LoweredIsMinus(card0, |gone|);
  }
}
