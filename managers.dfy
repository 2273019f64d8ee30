/** The three airport managers. Each guards the same scan-and-claim body with
    a different primitive (an `NSLock`, a barrier on a concurrent dispatch
    queue, a `DispatchSemaphore` of value 1); those primitives only make the
    body atomic, so each `GetAirstrip` here is that one body run as a single
    step, and all three share one postcondition. */
module Managers {
  import opened Entities

  /** What one claim does to a pool: the result is the airstrip at the first
      free position of the pool as it was, and exactly that airstrip's entry
      for `date` becomes `true`; every other airstrip, and every other date,
      keeps its record. */
  twostate predicate Claimed(strips: seq<Airstrip>, date: Date, new r: Option<Airstrip>)
    reads strips
  {
    (match FirstFree(old(Snapshot(strips)), date)
     case None => r == None
     case Some(k) => k < |strips| && r == Some(strips[k]))
    && (forall s :: s in strips ==>
          s.availabilityDict == if r == Some(s) then old(s.availabilityDict)[date := true]
                                else old(s.availabilityDict))
  }

  /** The critical section of `getAirstrip(for:)`: walk the airstrips in
      order, claim the first one not booked for `date` and return it, or
      return nil after touching nothing. */
  method ScanAndClaim(strips: seq<Airstrip>, date: Date) returns (r: Option<Airstrip>)
    modifies strips
    ensures Claimed(strips, date, r)
    ensures r.Some? ==> r.value in strips && old(IsFree(r.value.availabilityDict, date))
    ensures r.Some? ==> Lookup(r.value.availabilityDict, date) == Some(true)
    ensures r.None? <==> forall s :: s in strips ==> !old(IsFree(s.availabilityDict, date))
    ensures r.None? ==> forall s :: s in strips ==> s.availabilityDict == old(s.availabilityDict)
    ensures forall s, d :: s in strips && d != date ==>
              Lookup(s.availabilityDict, d) == old(Lookup(s.availabilityDict, d))
  {
    ghost var before := Snapshot(strips);
    var i := 0;
    while i < |strips|
      invariant 0 <= i <= |strips|
      invariant forall j :: 0 <= j < i ==> !IsFree(before[j], date)
      invariant forall s :: s in strips ==> s.availabilityDict == old(s.availabilityDict)
    {
      var strip := strips[i];
      if IsFree(strip.availabilityDict, date) {
        strip.availabilityDict := strip.availabilityDict[date := true];
        r := Some(strip);
        assert FirstFree(before, date) == Some(i);
        return;
      }
      i := i + 1;
    }
    r := None;
  }

  /** The shape every initialiser builds and nothing later changes: five
      positions that all hold one and the same airstrip reference. */
  ghost predicate OneSharedAirstrip(airport: Airport)
    ensures OneSharedAirstrip(airport) ==>
              |airport.airstrips| == 5 && (set s | s in airport.airstrips) == {airport.airstrips[0]}
  {
    |airport.airstrips| == 5 &&
    forall i :: 0 <= i < |airport.airstrips| ==> airport.airstrips[i] == airport.airstrips[0]
  }

  /** `AirportManager`, guarded by an `NSLock`. */
  class AirportManager {
    var airport: Airport

    ghost predicate Valid()
      reads this
    {
      OneSharedAirstrip(airport)
    }

    /** `Array(repeating: Airstrip(), count: 5)` evaluates `Airstrip()` once:
        one new airstrip, stored at all five positions. */
    constructor ()
      ensures Valid()
      ensures fresh(airport.airstrips[0]) && airport.airstrips[0].availabilityDict == map[]
    {
      var strip := new Airstrip();
      airport := Airport(seq(5, _ => strip));
    }

    method GetAirstrip(date: Date) returns (r: Option<Airstrip>)
      requires Valid()
      modifies airport.airstrips
      ensures Valid() && airport == old(airport)
      ensures Claimed(airport.airstrips, date, r)
      ensures r.Some? <==> old(IsFree(airport.airstrips[0].availabilityDict, date))
      ensures forall s :: s in airport.airstrips ==> !IsFree(s.availabilityDict, date)
      ensures airport.airstrips[0].availabilityDict
                == old(airport.airstrips[0].availabilityDict)[date := true]
    {
      UniformPoolFirstFree(Snapshot(airport.airstrips), date);
      ghost var before := airport.airstrips[0].availabilityDict;
      r := ScanAndClaim(airport.airstrips, date);
      if r.None? {
        BookingBookedIsNoop(before, date);
      }
    }
  }

  /** `BarrierAirportManager`, guarded by a barrier block on a concurrent queue. */
  class BarrierAirportManager {
    var airport: Airport

    ghost predicate Valid()
      reads this
    {
      OneSharedAirstrip(airport)
    }

    constructor ()
      ensures Valid()
      ensures fresh(airport.airstrips[0]) && airport.airstrips[0].availabilityDict == map[]
    {
      var strip := new Airstrip();
      airport := Airport(seq(5, _ => strip));
    }

    method GetAirstrip(date: Date) returns (r: Option<Airstrip>)
      requires Valid()
      modifies airport.airstrips
      ensures Valid() && airport == old(airport)
      ensures Claimed(airport.airstrips, date, r)
      ensures r.Some? <==> old(IsFree(airport.airstrips[0].availabilityDict, date))
      ensures forall s :: s in airport.airstrips ==> !IsFree(s.availabilityDict, date)
      ensures airport.airstrips[0].availabilityDict
                == old(airport.airstrips[0].availabilityDict)[date := true]
    {
      UniformPoolFirstFree(Snapshot(airport.airstrips), date);
      ghost var before := airport.airstrips[0].availabilityDict;
      r := ScanAndClaim(airport.airstrips, date);
      if r.None? {
        BookingBookedIsNoop(before, date);
      }
    }
  }

  /** `SemaphoreAirportManager`, guarded by a semaphore of initial value 1. */
  class SemaphoreAirportManager {
    var airport: Airport

    ghost predicate Valid()
      reads this
    {
      OneSharedAirstrip(airport)
    }

    constructor ()
      ensures Valid()
      ensures fresh(airport.airstrips[0]) && airport.airstrips[0].availabilityDict == map[]
    {
      var strip := new Airstrip();
      airport := Airport(seq(5, _ => strip));
    }

    method GetAirstrip(date: Date) returns (r: Option<Airstrip>)
      requires Valid()
      modifies airport.airstrips
      ensures Valid() && airport == old(airport)
      ensures Claimed(airport.airstrips, date, r)
      ensures r.Some? <==> old(IsFree(airport.airstrips[0].availabilityDict, date))
      ensures forall s :: s in airport.airstrips ==> !IsFree(s.availabilityDict, date)
      ensures airport.airstrips[0].availabilityDict
                == old(airport.airstrips[0].availabilityDict)[date := true]
    {
      UniformPoolFirstFree(Snapshot(airport.airstrips), date);
      ghost var before := airport.airstrips[0].availabilityDict;
      r := ScanAndClaim(airport.airstrips, date);
      if r.None? {
        BookingBookedIsNoop(before, date);
      }
    }
  }
}
