/** What a sequence of bookings against one freshly built manager yields.
    Every `getAirstrip(for:)` runs atomically, so any set of concurrent
    requests against one manager is served in some serial order; the methods
    below take that order as their input. */
module Bookings {
  import opened Entities
  import opened Managers

  /** Requests for one date, made against a fresh `AirportManager`: because
      its five positions hold a single airstrip, the first request is granted
      and every later one gets nil. */
  method BookSameDate(date: Date, requests: nat) returns (granted: seq<Airstrip>)
    ensures |granted| == if requests == 0 then 0 else 1
  {
    var manager := new AirportManager();
    ghost var strip := manager.airport.airstrips[0];
    granted := [];
    var i := 0;
    while i < requests
      invariant 0 <= i <= requests
      invariant manager.Valid() && manager.airport.airstrips[0] == strip && fresh(strip)
      invariant IsFree(strip.availabilityDict, date) <==> i == 0
      invariant |granted| == if i == 0 then 0 else 1
    {
      var r := manager.GetAirstrip(date);
      if r.Some? {
        granted := granted + [r.value];
      }
      i := i + 1;
    }
  }

  /** Requests for pairwise different dates, made against a fresh
      `AirportManager`: every request is granted, and every grant is the
      same airstrip. */
  method BookDistinctDates(dates: seq<Date>) returns (granted: seq<Airstrip>)
    requires forall i, j :: 0 <= i < j < |dates| ==> dates[i] != dates[j]
    ensures |granted| == |dates|
    ensures forall i :: 0 <= i < |granted| ==> granted[i] == granted[0]
  {
    var manager := new AirportManager();
    ghost var strip := manager.airport.airstrips[0];
    granted := [];
    var i := 0;
    while i < |dates|
      invariant 0 <= i <= |dates|
      invariant manager.Valid() && manager.airport.airstrips[0] == strip && fresh(strip)
      invariant forall j :: i <= j < |dates| ==> IsFree(strip.availabilityDict, dates[j])
      invariant |granted| == i
      invariant forall j :: 0 <= j < i ==> granted[j] == strip
    {
      var r := manager.GetAirstrip(dates[i]);
      granted := granted + [r.value];
      i := i + 1;
    }
  }

  /** A record that is booked for exactly the dates in `seen`. */
  ghost predicate BookedExactly(dict: map<Date, bool>, seen: seq<Date>)
  {
    forall d :: IsFree(dict, d) <==> d !in seen
  }

  /** Booking one more date extends the set of booked dates by that date. */
  lemma BookOneMore(dict: map<Date, bool>, seen: seq<Date>, date: Date)
    requires BookedExactly(dict, seen)
    ensures BookedExactly(dict[date := true], seen + [date])
  {
    forall d ensures IsFree(dict[date := true], d) <==> d !in seen + [date] {
      if d != date {
        assert Lookup(dict[date := true], d) == Lookup(dict, d);
      }
    }
  }

  /** The bookkeeping of one more request: its flag says whether its date is
      new, and the dates seen so far grow by that date. */
  lemma NewDateStep(dates: seq<Date>, i: nat, granted: seq<bool>, flag: bool)
    requires i < |dates| && |granted| == i
    requires forall k :: 0 <= k < i ==> (granted[k] <==> dates[k] !in dates[..k])
    requires flag <==> dates[i] !in dates[..i]
    ensures dates[..i + 1] == dates[..i] + [dates[i]]
    ensures forall k :: 0 <= k < i + 1 ==> ((granted + [flag])[k] <==> dates[k] !in dates[..k])
  {
    assert dates[..i + 1] == dates[..i] + [dates[i]];
  }

  /** A serial request sequence against a fresh `AirportManager` (the `NSLock` manager):
      request `i` is granted exactly when its date is new to the sequence. */
  method RunLockManager(dates: seq<Date>) returns (granted: seq<bool>)
    ensures |granted| == |dates|
    ensures forall k :: 0 <= k < |dates| ==> (granted[k] <==> dates[k] !in dates[..k])
  {
    var manager := new AirportManager();
    ghost var strip := manager.airport.airstrips[0];
    granted := [];
    var i := 0;
    while i < |dates|
      invariant 0 <= i <= |dates|
      invariant manager.Valid() && manager.airport.airstrips[0] == strip && fresh(strip)
      invariant BookedExactly(strip.availabilityDict, dates[..i])
      invariant |granted| == i
      invariant forall k :: 0 <= k < i ==> (granted[k] <==> dates[k] !in dates[..k])
    {
      var date := dates[i];
      BookOneMore(strip.availabilityDict, dates[..i], date);
      var r := manager.GetAirstrip(date);
      NewDateStep(dates, i, granted, r.Some?);
      granted := granted + [r.Some?];
      i := i + 1;
    }
  }

  /** A serial request sequence against a fresh `BarrierAirportManager` (the barrier manager):
      request `i` is granted exactly when its date is new to the sequence. */
  method RunBarrierManager(dates: seq<Date>) returns (granted: seq<bool>)
    ensures |granted| == |dates|
    ensures forall k :: 0 <= k < |dates| ==> (granted[k] <==> dates[k] !in dates[..k])
  {
    var manager := new BarrierAirportManager();
    ghost var strip := manager.airport.airstrips[0];
    granted := [];
    var i := 0;
    while i < |dates|
      invariant 0 <= i <= |dates|
      invariant manager.Valid() && manager.airport.airstrips[0] == strip && fresh(strip)
      invariant BookedExactly(strip.availabilityDict, dates[..i])
      invariant |granted| == i
      invariant forall k :: 0 <= k < i ==> (granted[k] <==> dates[k] !in dates[..k])
    {
      var date := dates[i];
      BookOneMore(strip.availabilityDict, dates[..i], date);
      var r := manager.GetAirstrip(date);
      NewDateStep(dates, i, granted, r.Some?);
      granted := granted + [r.Some?];
      i := i + 1;
    }
  }

  /** A serial request sequence against a fresh `SemaphoreAirportManager` (the semaphore manager):
      request `i` is granted exactly when its date is new to the sequence. */
  method RunSemaphoreManager(dates: seq<Date>) returns (granted: seq<bool>)
    ensures |granted| == |dates|
    ensures forall k :: 0 <= k < |dates| ==> (granted[k] <==> dates[k] !in dates[..k])
  {
    var manager := new SemaphoreAirportManager();
    ghost var strip := manager.airport.airstrips[0];
    granted := [];
    var i := 0;
    while i < |dates|
      invariant 0 <= i <= |dates|
      invariant manager.Valid() && manager.airport.airstrips[0] == strip && fresh(strip)
      invariant BookedExactly(strip.availabilityDict, dates[..i])
      invariant |granted| == i
      invariant forall k :: 0 <= k < i ==> (granted[k] <==> dates[k] !in dates[..k])
    {
      var date := dates[i];
      BookOneMore(strip.availabilityDict, dates[..i], date);
      var r := manager.GetAirstrip(date);
      NewDateStep(dates, i, granted, r.Some?);
      granted := granted + [r.Some?];
      i := i + 1;
    }
  }

  /** The same serial request sequence run against a fresh manager of each of
      the three kinds: request by request, all three grant or refuse alike,
      and a request is granted exactly when its date is new. */
  method CompareStrategies(dates: seq<Date>)
    returns (lockGranted: seq<bool>, barrierGranted: seq<bool>, semaphoreGranted: seq<bool>)
    ensures lockGranted == barrierGranted == semaphoreGranted
    ensures |lockGranted| == |dates|
    ensures forall i :: 0 <= i < |dates| ==> (lockGranted[i] <==> dates[i] !in dates[..i])
  {
    lockGranted := RunLockManager(dates);
    barrierGranted := RunBarrierManager(dates);
    semaphoreGranted := RunSemaphoreManager(dates);
  }

  /** The pool the comments at the top of the playground describe: `count`
      distinct airstrips, each with an empty booking record. */
  method BuildDistinctAirport(count: nat) returns (airport: Airport)
    ensures |airport.airstrips| == count
    ensures forall i, j :: 0 <= i < j < count ==> airport.airstrips[i] != airport.airstrips[j]
    ensures forall i :: 0 <= i < count ==>
              fresh(airport.airstrips[i]) && airport.airstrips[i].availabilityDict == map[]
  {
    var strips: seq<Airstrip> := [];
    while |strips| < count
      invariant |strips| <= count
      invariant forall i, j :: 0 <= i < j < |strips| ==> strips[i] != strips[j]
      invariant forall i :: 0 <= i < |strips| ==>
                  fresh(strips[i]) && strips[i].availabilityDict == map[]
    {
      var strip := new Airstrip();
      strips := strips + [strip];
    }
    airport := Airport(strips);
  }

  /** Positions below `booked` are taken for `date`, the rest are free. */
  ghost predicate BookedUpTo(dicts: seq<map<Date, bool>>, date: Date, booked: nat)
  {
    booked <= |dicts| &&
    (forall k :: 0 <= k < booked ==> !IsFree(dicts[k], date)) &&
    (forall k :: booked <= k < |dicts| ==> IsFree(dicts[k], date))
  }

  /** In a pool booked for `date` up to a position, the scan claims exactly
      that position, or nothing once the whole pool is taken. */
  lemma FirstFreeAfterPrefix(dicts: seq<map<Date, bool>>, date: Date, booked: nat)
    requires BookedUpTo(dicts, date, booked)
    ensures FirstFree(dicts, date) == if booked < |dicts| then Some(booked) else None
  {
    if booked < |dicts| {
      assert IsFree(dicts[booked], date);
    }
  }

  /** One claim against a pool of distinct airstrips booked for `date` up to
      a position: it takes the airstrip at that position, if any. */
  method ClaimInDistinctPool(strips: seq<Airstrip>, date: Date, ghost booked: nat)
    returns (r: Option<Airstrip>)
    requires forall i, j :: 0 <= i < j < |strips| ==> strips[i] != strips[j]
    requires BookedUpTo(Snapshot(strips), date, booked)
    modifies strips
    ensures r == if booked < |strips| then Some(strips[booked]) else None
    ensures BookedUpTo(Snapshot(strips), date, if booked < |strips| then booked + 1 else booked)
    ensures forall k :: 0 <= k < |strips| ==>
              strips[k].availabilityDict == if k == booked then old(strips[k].availabilityDict)[date := true]
                                            else old(strips[k].availabilityDict)
  {
    ghost var before := Snapshot(strips);
    FirstFreeAfterPrefix(before, date, booked);
    r := ScanAndClaim(strips, date);
    assert r == if booked < |strips| then Some(strips[booked]) else None;
    ghost var after := Snapshot(strips);
    forall k | 0 <= k < |strips|
      ensures after[k] == if k == booked then before[k][date := true] else before[k]
    {
      assert strips[k] in strips;
      assert k != booked ==> r != Some(strips[k]);
    }
  }

  /** Requests for one date against five distinct airstrips, run through the
      same scan-and-claim body: the first five are granted, in array order,
      each a different airstrip, and the rest get nil. */
  method BookSameDateDistinct(date: Date, requests: nat)
    returns (airport: Airport, granted: seq<Airstrip>)
    ensures |airport.airstrips| == 5
    ensures forall i, j :: 0 <= i < j < 5 ==> airport.airstrips[i] != airport.airstrips[j]
    ensures |granted| == if requests < 5 then requests else 5
    ensures granted == airport.airstrips[..|granted|]
    ensures forall i, j :: 0 <= i < j < |granted| ==> granted[i] != granted[j]
    ensures forall k :: 0 <= k < 5 ==>
              (IsFree(airport.airstrips[k].availabilityDict, date) <==> k >= |granted|)
  {
    airport := BuildDistinctAirport(5);
    var strips := airport.airstrips;
    granted := [];
    var i := 0;
    while i < requests
      invariant 0 <= i <= requests
      invariant |granted| == if i < 5 then i else 5
      invariant granted == strips[..|granted|]
      invariant forall k :: 0 <= k < 5 ==> fresh(strips[k])
      invariant BookedUpTo(Snapshot(strips), date, |granted|)
    {
      var r := ClaimInDistinctPool(strips, date, |granted|);
      if r.Some? {
        assert strips[..|granted| + 1] == strips[..|granted|] + [r.value];
        granted := granted + [r.value];
      }
      i := i + 1;
    }
  }
}
