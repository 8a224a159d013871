/** The history object that insertions and clearing update in place, and its
    backwards iterator. */
module PathHistoryObject {
  import opened Vehicle
  import opened PathHistory

  /** The point after the current one, if it is announced. */
  datatype LookAhead = NotAsked | Invalid | Next(p: Point)

  /** `PHDataIter_t`; `started` tells that the iteration has begun. */
  class PHDataIter {
    var started: bool
    var data: Point
    var idx: nat
    var cyclicIdx: nat
    var arraySize: nat

    constructor ()
      ensures !started
    {
      started, data, idx, cyclicIdx, arraySize := false, BLANK, 0, 0, 0;
    }
  }

  class PHpoints {
    var distanceLimit: real
    var minDist: real
    var maxDist: real
    var maxHeading: real
    var nextIdx: nat
    var oldestIdx: nat
    var storedDistance: real
    var size: nat
    const data: array<Point>
    var removeOnlyOne: bool
    var iterateFull: bool
    const distance: (real, real, real, real) -> real

    ghost predicate Valid()
      reads this, data
    {
      State().Valid()
    }

    function Settings(): Params
      reads this
    {
      Params(distanceLimit, minDist, maxDist, maxHeading, removeOnlyOne, distance)
    }

    ghost function State(): Ring
      reads this, data
    {
      Ring(data[..], nextIdx, oldestIdx, size, storedDistance)
    }

    /** The constructor with parameters; the stored distance starts from 0. The limits
        must give a capacity, and one of 0 makes a history nothing can be inserted into. */
    constructor WithLimits(
      distanceLimit: real, minDist: real, maxDist: real, maxHeading: real, distance: (real, real, real, real) -> real)
      requires minDist != 0.0 && Ceil(distanceLimit / minDist) >= 0
      ensures State() == EmptyRing(Ceil(distanceLimit / minDist)) && fresh(data)
      ensures Valid() <==> Ceil(distanceLimit / minDist) > 0
      ensures Settings() == Params(distanceLimit, minDist, maxDist, maxHeading, false, distance) && !iterateFull
    {
      this.distanceLimit, this.minDist, this.maxDist, this.maxHeading := distanceLimit, minDist, maxDist, maxHeading;
      this.distance := distance;
      nextIdx, oldestIdx, storedDistance, size := 0, 0, 0.0, 0;
      removeOnlyOne, iterateFull := false, false;
      data := new Point[Ceil(distanceLimit / minDist)](_ => BLANK);
      new;
      assert data[..] == EmptyRing(data.Length).slots;
    }

    /** The default constructor: the last 300 m, points 1 to 20 m apart, 10 degrees. */
    constructor (distance: (real, real, real, real) -> real)
      ensures Valid() && State() == EmptyRing(300) && fresh(data)
      ensures Settings() == Params(300.0, 1.0, 20.0, 10.0, false, distance) == Defaults(distance) && !iterateFull
    {
      distanceLimit, minDist, maxDist, maxHeading := 300.0, 1.0, 20.0, 10.0;
      this.distance := distance;
      nextIdx, oldestIdx, storedDistance, size := 0, 0, 0.0, 0;
      removeOnlyOne, iterateFull := false, false;
      data := new Point[300](_ => BLANK);
      new;
      assert data[..] == EmptyRing(300).slots;
    }

    method SwitchRemoveOnlyOne() returns (now: bool)
      modifies this`removeOnlyOne
      ensures removeOnlyOne == now == !old(removeOnlyOne)
    {
      if removeOnlyOne {
        removeOnlyOne := false;
      } else {
        removeOnlyOne := true;
      }
      now := removeOnlyOne;
    }

    method DropOldestPoint()
      requires Valid() && size >= 1
      modifies this`storedDistance, this`size, this`oldestIdx
      ensures Valid() && State() == DropOldest(old(State()))
    {
      storedDistance := storedDistance - data[oldestIdx].dist;
      size := size - 1;
      StepIsModulo(oldestIdx, data.Length);
      oldestIdx := (oldestIdx + 1) % data.Length;
    }

    /** Makes room before an accepted point is written, by either policy. */
    method EvictPoints()
      requires Valid() && size >= 1
      modifies this`storedDistance, this`size, this`oldestIdx
      ensures Valid() && State() == Evicted(old(Settings()), old(State()))
    {
      ghost var p, r := Settings(), State();
      if removeOnlyOne {
        if storedDistance >= distanceLimit {
          DropOldestPoint();
        }
      } else {
        while storedDistance >= distanceLimit && size > 1
          invariant Valid() && Settings() == p
          invariant DropMany(p, State()) == DropMany(p, r)
          decreases size
        {
          DropOldestPoint();
        }
      }
    }

    method WritePoint(v: VehicleData, pointDist: real)
      requires Valid()
      modifies this`size, this`nextIdx, data
      ensures Valid()
      ensures State() == Write(old(State()), NewPoint(v, pointDist)).(stored := old(storedDistance))
    {
      if size < data.Length {
        size := size + 1;
      }
      data[nextIdx] := NewPoint(v, pointDist);
      StepIsModulo(nextIdx, data.Length);
      nextIdx := (nextIdx + 1) % data.Length;
    }

    method Insert(v: VehicleData) returns (r: Outcome)
      requires Valid()
      modifies this`storedDistance, this`size, this`oldestIdx, this`nextIdx, data
      ensures Valid() && State() == PathHistory.Insert(Settings(), old(State()), v)
      ensures r == if Skips(Settings(), old(State()), v) then Skipped else Inserted
      ensures r.Skipped? ==> State() == old(State())
      ensures r.Inserted? ==> data[..] == old(data[..])[old(nextIdx) :=
          Point(v.lat, v.lon, v.elevation, v.heading, Gap(Settings(), old(State()), v))]
    {
      hide DropMany, Write;
      var pointDist := 0.0;
      ghost var was := State();
      if size >= 1 {
        var prev := if nextIdx == 0 then size - 1 else nextIdx - 1;
        pointDist := distance(data[prev].lat, data[prev].lon, v.lat, v.lon);
        if pointDist < maxDist {
          if pointDist < minDist || Abs(AngDiff(data[prev].heading, v.heading)) < maxHeading {
            return Skipped;
          }
        }
        EvictPoints();
        storedDistance := storedDistance + pointDist;
      }
      ghost var e := Evicted(Settings(), was);
      assert State() == e.(stored := e.stored + pointDist);
      WritePoint(v, pointDist);
      WriteAfterAdding(e, NewPoint(v, pointDist));
      InsertWrites(Settings(), was, v);
      r := Inserted;
    }

    method Clear()
      requires Valid()
      modifies this`size, this`nextIdx, this`oldestIdx
      ensures Valid() && State() == Cleared(old(State()))
      ensures size == 0 && nextIdx == 0 && oldestIdx == 0
    {
      size, nextIdx, oldestIdx := 0, 0, 0;
    }

    // ----- Iteration -----

    /** The iterator stands `idx` points behind the newest. */
    ghost predicate InStep(it: PHDataIter)
      requires Valid()
      reads this, data, it
    {
      it.started ==> it.arraySize == size && Behind(State(), it.cyclicIdx, it.idx)
    }

    /** How many of the points, newest first, count as returned. */
    ghost function Done(it: PHDataIter): nat
      reads this, it
    {
      if it.started then it.idx else if iterateFull then 0 else 1
    }

    /** The points still to be returned, newest first. */
    ghost function Remaining(it: PHDataIter): seq<Point>
      requires Valid()
      reads this, data, it
    {
      After(Recent(State()), Done(it))
    }

    /** The slot before a given one. */
    function Back(i: nat): (j: nat)
      requires i < data.Length
      ensures j < data.Length
    {
      if i == 0 then data.Length - 1 else i - 1
    }

    method StartIteration(it: PHDataIter)
      requires Valid() && !it.started
      modifies it
      ensures it.started && InStep(it) && Done(it) == old(Done(it))
    {
      if iterateFull {
        it.cyclicIdx, it.idx := nextIdx, 0;
      } else {
        it.cyclicIdx, it.idx := Back(nextIdx), 1;
      }
      it.started := true;
      it.arraySize := size;
    }

    /** `PHpoints::iterate`: returns the next older point, and announces the one after
        it unless at most one is left. */
    method Iterate(it: PHDataIter, wantNext: bool) returns (more: bool, next: LookAhead)
      requires Valid() && InStep(it)
      modifies it
      ensures InStep(it) && it.started
      ensures more <==> old(Remaining(it)) != []
      ensures more ==> it.data == old(Remaining(it))[0] && Remaining(it) == old(Remaining(it))[1..]
      ensures !more ==> Remaining(it) == []
      ensures next == if !more || !wantNext then NotAsked
                      else if |Remaining(it)| >= 2 then Next(Remaining(it)[0]) else Invalid
    {
      hide Recent, Behind;
      ghost var r := State();
      if !it.started {
        StartIteration(it);
      }
      next := NotAsked;
      more := it.idx < it.arraySize;
      if more {
        BehindBounds(r, it.cyclicIdx, it.idx);
        StepBack(r, it.cyclicIdx, it.idx);
        BehindHolds(r, Back(it.cyclicIdx), it.idx);
        it.cyclicIdx := Back(it.cyclicIdx);
        it.idx := it.idx + 1;
        it.data := data[it.cyclicIdx];
        if wantNext {
          if it.idx < it.arraySize - 1 {
            StepBack(r, it.cyclicIdx, it.idx);
            BehindHolds(r, Back(it.cyclicIdx), it.idx);
            next := Next(data[Back(it.cyclicIdx)]);
          } else {
            next := Invalid;
          }
        }
      }
    }

    /** Iterating until it ends, as the JSON server does: all points from newest to
        oldest in full mode, and all but the newest otherwise; in an ordered ring these
        are the live points backwards. */
    method IterateAll() returns (points: seq<Point>)
      requires Valid()
      ensures points == After(Recent(State()), if iterateFull then 0 else 1)
      ensures Ordered(State()) ==> points == After(Reversed(Live(State())), if iterateFull then 0 else 1)
      ensures |points| == if iterateFull then size else if size > 0 then size - 1 else 0
    {
      hide Recent, Live, Reversed, Ordered, Behind, After;
      ghost var r := State();
      if Ordered(r) { RecentIsLive(r); }
      AfterLength(Recent(r), if iterateFull then 0 else 1);
      var it := new PHDataIter();
      points := [];
      ghost var all := Remaining(it);
      var more, next := Iterate(it, false);
      while more
        invariant fresh(it) && State() == r && InStep(it) && it.started
        invariant !more ==> Remaining(it) == [] && points == all
        invariant more ==> points + [it.data] + Remaining(it) == all
        decreases |Remaining(it)|, more
      {
        points := points + [it.data];
        ghost var rest := Remaining(it);
        assert points + rest == all;
        more, next := Iterate(it, false);
        assert more ==> [it.data] + Remaining(it) == rest;
      }
    }
  }

  /** Drops up to `n` points from the front. */
  function After(q: seq<Point>, n: nat): seq<Point> {
    if n <= |q| then q[n..] else []
  }

  /** Index `c` lies `n` slots before the slot written next. */
  ghost predicate Behind(r: Ring, c: nat, n: nat)
    requires r.Valid()
  {
    c < |r.slots| && n <= (if r.size == 0 then 1 else r.size) && r.next == Wrap(c + n, |r.slots|)
  }

  lemma AfterLength(q: seq<Point>, n: nat)
    ensures |After(q, n)| == if n <= |q| then |q| - n else 0
  {
  }

  lemma BehindBounds(r: Ring, c: nat, n: nat)
    requires r.Valid() && Behind(r, c, n)
    ensures c < |r.slots| && n <= (if r.size == 0 then 1 else r.size)
  {
  }

  lemma StepBack(r: Ring, c: nat, n: nat)
    requires r.Valid() && Behind(r, c, n) && n < r.size
    ensures Behind(r, if c == 0 then |r.slots| - 1 else c - 1, n + 1)
  {
  }

  /** The slot `n + 1` before the next one holds the point `n` behind the newest. */
  lemma BehindHolds(r: Ring, c: nat, n: nat)
    requires r.Valid() && Behind(r, c, n + 1) && n < r.size
    ensures Recent(r)[n] == r.slots[c]
  {
    assert c == Ago(r, n);
  }

  lemma WriteAfterAdding(r: Ring, point: Point)
    requires r.Valid()
    ensures var s := r.stored + point.dist; Write(r.(stored := s), point).(stored := s) == Write(r, point)
  {
  }

  function Defaults(distance: (real, real, real, real) -> real): Params {
    Params(300.0, 1.0, 20.0, 10.0, false, distance)
  }

  /** The built-in settings have the capacity their limits call for. */
  lemma DefaultsAreSized(distance: (real, real, real, real) -> real)
    ensures Sized(Defaults(distance), 300)
  {
    assert 300.0 / 1.0 == 300.0;
  }
}
