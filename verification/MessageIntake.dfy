/** How a received CAM reaches the database: the freshness check and the exterior
    lights carried over from earlier messages. */
module MessageIntake {
  import opened Common
  import opened Vehicle
  import opened VehicleDatabase
  import opened LdmMap

  type UInt32 = n: int | 0 <= n < 0x1_0000_0000

  /** The low-frequency container of a CAM; its exterior lights may be missing. */
  datatype LowFrequency = Absent | Present(lights: Option<Byte8>)

  /** A decoded CAM, with positions in tenths of a microdegree, altitude in centimetres,
      heading in tenths of a degree and speed in centimetres per second; without
      GeoNetworking header it has no GN timestamp. */
  datatype Cam = Cam(
    stationID: UInt64,
    latitude: int,
    longitude: int,
    altitude: int,
    heading: int,
    speed: int,
    lowFrequency: LowFrequency,
    gnTimestamp: Option<UInt32>)

  datatype Options = Options(ageCheck: bool, logFile: bool)

  const WRAP := 0x1_0000_0000
  const FIVE_MINUTES := 300000

  // ----- The two decisions -----

  /** The GN timestamp stored for a CAM. */
  function Stamp(c: Cam): UInt64 {
    if c.gnTimestamp.Some? then c.gnTimestamp.value else UINT64_MAX
  }

  /** `static_cast<long long int>`. */
  function AsSigned(n: UInt64): int {
    if n < 0x8000_0000_0000_0000 then n else n - 0x1_0000_0000_0000_0000
  }

  /** The age check finds the received timestamp too old. */
  predicate Stale(rx: UInt64, stored: UInt64) {
    var gap := AsSigned(rx) - AsSigned(stored);
    (rx > stored && gap > FIVE_MINUTES) || (rx < stored && gap > -FIVE_MINUTES)
  }

  /** The message is dropped. The check runs only with a timestamp and an entry to
      compare with, and drops the message only when a log file is configured. */
  predicate Discards(o: Options, c: Cam, stored: Option<VehicleData>) {
    o.ageCheck && Stamp(c) != UINT64_MAX && stored.Some? && Stale(Stamp(c), stored.value.gnTimestamp) && o.logFile
  }

  /** The lights to be stored: those of the message's container, if it has one, else
      those stored before. */
  function LightsFor(c: Cam, stored: Option<VehicleData>): Lights {
    match c.lowFrequency
    case Present(Some(bits)) => Lights(bits)
    case Present(None) => Unavailable
    case Absent => if stored.Some? then stored.value.exteriorLights else Unavailable
  }

  function Record(c: Cam, lights: Lights, nowUs: UInt64): VehicleData {
    VehicleData(
      c.stationID,
      c.latitude as real / 10000000.0,
      c.longitude as real / 10000000.0,
      c.altitude as real / 100.0,
      c.heading as real / 10.0,
      c.speed as real / 100.0,
      Stamp(c), nowUs, lights)
  }

  /** The record says what the message said, in degrees, metres and metres per second. */
  predicate Carries(v: VehicleData, c: Cam, nowUs: UInt64) {
    && v.stationID == c.stationID && v.timestampUs == nowUs
    && v.lat * 10000000.0 == c.latitude as real && v.lon * 10000000.0 == c.longitude as real
    && v.elevation * 100.0 == c.altitude as real
    && v.heading * 10.0 == c.heading as real
    && v.speed * 100.0 == c.speed as real
    && v.gnTimestamp == if c.gnTimestamp == None then 0xFFFF_FFFF_FFFF_FFFF else c.gnTimestamp.value
  }

  /** The latest report kept under the message's station says what the message said. */
  ghost predicate SaysLast(a: Reports, c: Cam, nowUs: UInt64) {
    var id := Id32(c.stationID);
    id in a && a[id] != [] && Carries(Last(a[id]), c, nowUs)
  }

  lemma ReportedSaysLast(a: Reports, c: Cam, lights: Lights, nowUs: UInt64)
    ensures SaysLast(Reported(a, Record(c, lights, nowUs)), c, nowUs)
  {
    RecordCarries(c, lights, nowUs);
    hide Carries;
  }

  lemma RecordCarries(c: Cam, lights: Lights, nowUs: UInt64)
    ensures Carries(Record(c, lights, nowUs), c, nowUs) && Record(c, lights, nowUs).exteriorLights == lights
  {
  }

  ghost function StoredIn(a: Reports, id: nat): Option<VehicleData>
    requires Sane(a)
  {
    if id in a then Some(Last(a[id])) else None
  }

  /** What one CAM does to the database. */
  ghost function Intake(o: Options, a: Reports, c: Cam, nowUs: UInt64): Reports
    requires Sane(a)
  {
    var stored := StoredIn(a, Id32(c.stationID));
    if Discards(o, c, stored) then a else Reported(a, Record(c, LightsFor(c, stored), nowUs))
  }

  /** An accepted message appends one report, with these lights. */
  lemma IntakeAppends(o: Options, a: Reports, c: Cam, nowUs: UInt64)
    requires Sane(a) && !Discards(o, c, StoredIn(a, Id32(c.stationID)))
    ensures var id := Id32(c.stationID);
      var v := Record(c, LightsFor(c, StoredIn(a, id)), nowUs);
      && Intake(o, a, c, nowUs) == a[id := (if id in a then a[id] else []) + [v]]
      && v.exteriorLights == LightsFor(c, StoredIn(a, id))
  {
    hide Discards, Id32;
  }

  /** `manage_LowfreqContainer`, which is handed the station ID cut to 32 bits. */
  method ManageLowFrequency(db: LDMMap, c: Cam, stationID: UInt32) returns (lights: Lights)
    requires db.Valid() && stationID == Id32(c.stationID)
    ensures forall bits :: c.lowFrequency == Present(Some(bits)) ==> lights == Lights(bits)
    ensures c.lowFrequency == Present(None) ==> lights == Unavailable
    ensures c.lowFrequency == Absent ==>
      lights == if stationID in db.reports then Last(db.reports[stationID]).exteriorLights else Unavailable
    ensures lights == LightsFor(c, StoredIn(db.reports, stationID))
  {
    hide LDMMap.Valid, Flat, Faithful, Sane;
    match c.lowFrequency
    case Present(Some(bits)) => lights := Lights(bits);
    case Present(None) => lights := Unavailable;
    case Absent =>
      var r, e := db.Lookup(stationID);
      if r == Done {
        lights := e.value.veh.exteriorLights;
      } else {
        lights := Unavailable;
      }
  }

  /** The part of `manageMessage` that updates the database. */
  method ManageMessage(db: LDMMap, o: Options, c: Cam, nowUs: UInt64) returns (stored: bool)
    requires db.Valid()
    modifies db, db.Repr
    ensures db.Valid() && fresh(db.Repr - old(db.Repr))
    ensures old(db.Counted()) ==> db.Counted() && old(db.card) != UINT64_MAX
    ensures db.reports == if old(db.card) == UINT64_MAX then old(db.reports) else Intake(o, old(db.reports), c, nowUs)
    ensures stored ==> SaysLast(db.reports, c, nowUs)
    ensures stored <==> old(db.card) != UINT64_MAX && !Discards(o, c, StoredIn(old(db.reports), Id32(c.stationID)))
  {
    hide LDMMap.Valid, Flat, Faithful, Sane, LightsFor, Record, Reported, AsSigned, Stamp;
    FlatIsSmall(db.db);
    var lights := ManageLowFrequency(db, c, Id32(c.stationID));
    var stamp := Stamp(c);
    if o.ageCheck && stamp != UINT64_MAX {
      var r, e := db.Lookup(c.stationID);
      if r == Done {
        var was := e.value.veh.gnTimestamp;
        var gap := AsSigned(stamp) - AsSigned(was);
        if (stamp > was && gap > FIVE_MINUTES) || (stamp < was && gap > -FIVE_MINUTES) {
          if o.logFile {
            return false;
          }
        }
      }
    }
    ReportedSaysLast(db.reports, c, lights, nowUs);
    hide SaysLast;
    var r := db.Insert(Record(c, lights, nowUs));
    return r != Full;
  }

  // ----- One freshness decision -----

  /** The reduced timestamps are ordered the other way round than the true times. */
  predicate Wrapped(received: nat, stored: nat) {
    || (received > stored && received % WRAP < stored % WRAP)
    || (received < stored && received % WRAP > stored % WRAP)
  }

  /** For true times less than a cycle apart, the check is right exactly when they are
      at most five minutes apart, or, across a reset of the timestamps, no closer than
      five minutes to a whole cycle apart. */
  lemma FreshnessIff(received: nat, stored: nat)
    requires -WRAP < received - stored < WRAP
    ensures (Stale(received % WRAP, stored % WRAP) <==> received < stored)
       <==> var d := received - stored;
            if Wrapped(received, stored) then 300000 - 0x1_0000_0000 < d <= 0x1_0000_0000 - 300000
            else -300000 < d <= 300000
  {
    Residues(received, stored);
  }

  lemma Residues(x: nat, y: nat)
    requires -WRAP < x - y < WRAP
    ensures var d := x % WRAP - y % WRAP; d == x - y || d == x - y - WRAP || d == x - y + WRAP
  {
    assert x == x / WRAP * WRAP + x % WRAP && y == y / WRAP * WRAP + y % WRAP;
  }

  /** Within five minutes it is always right, reset or not. */
  lemma FreshNear(received: nat, stored: nat)
    requires -300000 < received - stored <= 300000
    ensures Stale(received % WRAP, stored % WRAP) <==> received < stored
  {
    FreshnessIff(received, stored);
    Residues(received, stored);
  }

  // ----- Runs -----

  /** A message with its true sending time in milliseconds, or a deletion of any entries. */
  datatype Event = Arrival(cam: Cam, nowUs: UInt64, time: nat) | Forget(gone: set<nat>)

  /** The database, and beside it the accepted messages of each vehicle since its entry
      was created. */
  datatype World = World(a: Reports, accepted: map<nat, seq<Event>>)

  ghost predicate Consistent(w: World) {
    && Sane(w.a) && w.a.Keys == w.accepted.Keys
    && (forall id :: id in w.a ==> |w.accepted[id]| == |w.a[id]|)
    && (forall id, k :: id in w.a && 0 <= k < |w.accepted[id]| ==>
          w.accepted[id][k].Arrival? && Stamp(w.accepted[id][k].cam) == w.a[id][k].gnTimestamp)
  }

  ghost function Step(o: Options, w: World, e: Event): (w': World)
    requires Consistent(w)
    ensures Consistent(w')
  {
    match e
    case Forget(gone) => World(w.a - gone, w.accepted - gone)
    case Arrival(c, nowUs, _) =>
      var id := Id32(c.stationID);
      var stored := StoredIn(w.a, id);
      if Discards(o, c, stored) then w
      else
        World(Intake(o, w.a, c, nowUs), w.accepted[id := (if id in w.accepted then w.accepted[id] else []) + [e]])
  }

  ghost function Run(o: Options, w: World, es: seq<Event>): (w': World)
    requires Consistent(w)
    ensures Consistent(w')
    decreases |es|
  {
    if es == [] then w else Run(o, Step(o, w, es[0]), es[1..])
  }

  const NOTHING := World(map[], map[])

  /** A deletion pass is one of the deletions. */
  lemma AgeingForgets(o: Options, w: World, now: UInt64, limitMs: real)
    requires Consistent(w)
    ensures var gone := set id | id in w.a && TooOld(Last(w.a[id]), now, limitMs);
      Step(o, w, Forget(gone)).a == Aged(w.a, now, limitMs)
  {
  }

  // ----- Lights -----

  /** The lights in the latest message that had a container, with or without lights. */
  function LatestLights(es: seq<Event>): Lights
    requires forall k :: 0 <= k < |es| ==> es[k].Arrival?
  {
    if es == [] then Unavailable
    else
      match es[|es| - 1].cam.lowFrequency
      case Present(Some(bits)) => Lights(bits)
      case Present(None) => Unavailable
      case Absent => LatestLights(es[..|es| - 1])
  }

  ghost predicate LightsCarried(w: World)
    requires Consistent(w)
  {
    forall id :: id in w.a ==> Last(w.a[id]).exteriorLights == LatestLights(w.accepted[id])
  }

  /** The lights stored with a message go with the messages up to it. */
  lemma LatestWithMessage(w: World, e: Event)
    requires Consistent(w) && LightsCarried(w) && e.Arrival?
    ensures var id := Id32(e.cam.stationID);
      LightsFor(e.cam, StoredIn(w.a, id)) == LatestLights((if id in w.accepted then w.accepted[id] else []) + [e])
  {
    var id := Id32(e.cam.stationID);
    var old_ := if id in w.accepted then w.accepted[id] else [];
    assert (old_ + [e])[..|old_|] == old_;
    hide Id32, Stamp;
  }

  lemma StepCarriesLights(o: Options, w: World, e: Event)
    requires Consistent(w) && LightsCarried(w)
    ensures LightsCarried(Step(o, w, e))
  {
    if e.Arrival? && !Discards(o, e.cam, StoredIn(w.a, Id32(e.cam.stationID))) {
      LatestWithMessage(w, e);
      IntakeAppends(o, w.a, e.cam, e.nowUs);
    }
    hide LightsFor, LatestLights, Record, Discards, Stamp, Intake, Id32;
  }

  /** After any run from the empty database, a vehicle's stored lights are those of the
      latest accepted message with a low-frequency container since its entry was
      created, and unavailable when there was none. */
  lemma {:induction false} LightsOverRuns(o: Options, w: World, es: seq<Event>)
    requires Consistent(w) && LightsCarried(w)
    ensures LightsCarried(Run(o, w, es)) && LightsCarried(NOTHING)
    decreases |es|
  {
    if es != [] {
      StepCarriesLights(o, w, es[0]);
      LightsOverRuns(o, Step(o, w, es[0]), es[1..]);
    }
  }

  // ----- Positions and the other fields -----

  /** Every report that is kept says what its accepted message said. */
  ghost predicate AllCarried(w: World)
    requires Consistent(w)
  {
    forall id, k :: id in w.a && 0 <= k < |w.a[id]| ==>
      Carries(w.a[id][k], w.accepted[id][k].cam, w.accepted[id][k].nowUs)
  }

  lemma StepCarriesFields(o: Options, w: World, e: Event)
    requires Consistent(w) && AllCarried(w)
    ensures AllCarried(Step(o, w, e))
  {
    if e.Arrival? {
      var stored := StoredIn(w.a, Id32(e.cam.stationID));
      RecordCarries(e.cam, LightsFor(e.cam, stored), e.nowUs);
      hide Carries, Record, LightsFor, Discards;
    }
  }

  /** After any run from the empty database, a vehicle's stored position, and its
      altitude, heading, speed and times, are those of the latest message accepted since
      its entry was created, and so were those of every report before it. */
  lemma {:induction false} FieldsOverRuns(o: Options, w: World, es: seq<Event>)
    requires Consistent(w) && AllCarried(w)
    ensures AllCarried(Run(o, w, es)) && AllCarried(NOTHING)
    ensures forall id :: id in Run(o, w, es).a ==>
      var e := Last(Run(o, w, es).accepted[id]); Carries(Last(Run(o, w, es).a[id]), e.cam, e.nowUs)
    decreases |es|
  {
    if es != [] {
      StepCarriesFields(o, w, es[0]);
      FieldsOverRuns(o, Step(o, w, es[0]), es[1..]);
    }
  }

  // ----- Freshness over runs -----

  /** The true time of the message a vehicle's entry holds. */
  ghost function TimeOf(w: World, id: nat): nat
    requires Consistent(w) && id in w.a
  {
    Last(w.accepted[id]).time
  }

  /** The message carries its true time, reduced. */
  predicate Stamped(e: Event) {
    e.Arrival? ==> e.cam.gnTimestamp == Some(e.time % 0x1_0000_0000)
  }

  ghost predicate AllStamped(w: World)
    requires Consistent(w)
  {
    forall id, k :: id in w.a && 0 <= k < |w.accepted[id]| ==> Stamped(w.accepted[id][k])
  }

  /** The message is within five minutes of the one stored for its vehicle, if any. */
  ghost predicate Near(w: World, e: Event)
    requires Consistent(w)
  {
    e.Arrival? && Id32(e.cam.stationID) in w.a ==>
      -300000 < e.time - TimeOf(w, Id32(e.cam.stationID)) <= 300000
  }

  ghost predicate NearRun(o: Options, w: World, es: seq<Event>)
    requires Consistent(w)
    decreases |es|
  {
    es != [] ==> Stamped(es[0]) && Near(w, es[0]) && NearRun(o, Step(o, w, es[0]), es[1..])
  }

  /** Exactly the older messages are dropped, provided the check is on and a log file
      is configured; otherwise none is. */
  lemma DropsOlder(o: Options, w: World, e: Event)
    requires Consistent(w) && AllStamped(w) && e.Arrival? && Stamped(e) && Near(w, e)
    ensures var id := Id32(e.cam.stationID);
      Discards(o, e.cam, StoredIn(w.a, id)) <==> o.ageCheck && o.logFile && id in w.a && e.time < TimeOf(w, id)
    ensures AllStamped(Step(o, w, e))
  {
    var id := Id32(e.cam.stationID);
    if id in w.a {
      assert Stamped(Last(w.accepted[id]));
      FreshNear(e.time, TimeOf(w, id));
    }
  }

  datatype Newest = Nothing | At(time: nat)

  /** The newest true time among all messages of one vehicle, dropped or not, since its
      entry was last deleted. */
  function FollowNewest(n: Newest, id: nat, e: Event): Newest {
    match e
    case Forget(gone) => if id in gone then Nothing else n
    case Arrival(c, _, time) =>
      if Id32(c.stationID) != id then n
      else if n.At? && n.time > time then n
      else At(time)
  }

  function NewestOf(n: Newest, id: nat, es: seq<Event>): Newest
    decreases |es|
  {
    if es == [] then n else NewestOf(FollowNewest(n, id, es[0]), id, es[1..])
  }

  ghost function StoredTime(w: World, id: nat): Newest
    requires Consistent(w)
  {
    if id in w.a then At(TimeOf(w, id)) else Nothing
  }

  lemma StepStoresNewest(o: Options, w: World, e: Event, id: nat)
    requires o.ageCheck && o.logFile && Consistent(w) && AllStamped(w) && Stamped(e) && Near(w, e)
    ensures StoredTime(Step(o, w, e), id) == FollowNewest(StoredTime(w, id), id, e)
    ensures AllStamped(Step(o, w, e))
  {
    if e.Arrival? { DropsOlder(o, w, e); }
  }

  /** With the check on and a log file configured, over every run of messages each
      within five minutes of the stored one, what is stored of a vehicle is the newest
      of all its messages since its entry was created: the stored true time never
      decreases, across any number of timestamp resets. */
  lemma {:induction false} NewestIsStored(o: Options, w: World, es: seq<Event>, id: nat)
    requires o.ageCheck && o.logFile && Consistent(w) && AllStamped(w) && NearRun(o, w, es)
    ensures StoredTime(Run(o, w, es), id) == NewestOf(StoredTime(w, id), id, es)
    decreases |es|
  {
    if es != [] {
      StepStoresNewest(o, w, es[0], id);
      NewestIsStored(o, Step(o, w, es[0]), es[1..], id);
    }
  }

  /** An older message of a stored vehicle goes back in time exactly when the check is
      off or no log file is configured. */
  lemma GoesBackIff(o: Options, w: World, e: Event)
    requires Consistent(w) && AllStamped(w) && e.Arrival? && Stamped(e) && Near(w, e)
    requires Id32(e.cam.stationID) in w.a && e.time < TimeOf(w, Id32(e.cam.stationID))
    ensures TimeOf(Step(o, w, e), Id32(e.cam.stationID)) < TimeOf(w, Id32(e.cam.stationID)) <==> !(o.ageCheck && o.logFile)
  {
    DropsOlder(o, w, e);
  }

  // ----- Messages without GN timestamp -----

  /** The vehicle's entry comes from a message without GN timestamp. */
  ghost predicate NoStamp(w: World, id: nat)
    requires Consistent(w)
  {
    id in w.a && Last(w.a[id]).gnTimestamp == UINT64_MAX
  }

  /** Messages with a GN timestamp only. */
  predicate GnOnly(es: seq<Event>) {
    forall k :: 0 <= k < |es| ==> es[k].Arrival? && es[k].cam.gnTimestamp.Some?
  }

  /** Against such an entry every message with a GN timestamp, however new, is dropped
      exactly when the check is on and a log file is configured. */
  lemma NoStampDropsIff(o: Options, w: World, e: Event)
    requires Consistent(w) && e.Arrival? && e.cam.gnTimestamp.Some? && NoStamp(w, Id32(e.cam.stationID))
    ensures Step(o, w, e) == w <==> o.ageCheck && o.logFile
  {
    var id := Id32(e.cam.stationID);
    assert Stale(Stamp(e.cam), UINT64_MAX);
    if !(o.ageCheck && o.logFile) {
      assert |Step(o, w, e).a[id]| == |w.a[id]| + 1;
    }
  }

  /** Once a message without GN timestamp is stored, every later message with one is
      found too old, however new: with the check on and a log file configured the entry
      stays as it is until it is deleted. */
  lemma {:induction false} NoStampBlocks(o: Options, w: World, es: seq<Event>, id: nat)
    requires o.ageCheck && o.logFile && Consistent(w) && NoStamp(w, id) && GnOnly(es)
    ensures id in Run(o, w, es).a && Run(o, w, es).a[id] == w.a[id]
    decreases |es|
  {
    if es != [] {
      assert Stale(Stamp(es[0].cam), UINT64_MAX);
      NoStampBlocks(o, Step(o, w, es[0]), es[1..], id);
    }
  }
}
