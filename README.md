# Airport airstrip booking: a Dafny model

This project models the booking core of the `Airport.playground` Swift playground. An
`Airstrip` is a class with an `availabilityDict: [Date: Bool]`. An `Airport` struct holds an
array of airstrip references. Three managers (`AirportManager` with an `NSLock`,
`BarrierAirportManager` with a barrier on a concurrent dispatch queue,
`SemaphoreAirportManager` with a `DispatchSemaphore(value: 1)`) each answer
`getAirstrip(for:)`. The answer is the same scan-and-claim step in all three. It walks the
airstrips in array order and takes the first one whose entry for the date is not `true`. It
sets that entry to `true` and returns the airstrip. If every airstrip is taken, it returns nil.

Files:

- `entities.dfy` (module `Entities`): `Date` (an integer key compared by exact equality),
  `Option`, the `Airstrip` class, the `Airport` value, Swift's optional dictionary lookup, the
  scan's "free" test, and `FirstFree`, the pure "lowest free position" function that
  specifies the scan.
- `managers.dfy` (module `Managers`): `ScanAndClaim`, the one shared critical-section body
  with its loop, and the three manager classes. The three primitives only make that body
  atomic, so each `GetAirstrip` runs it as one step. All three state the same
  postcondition, `Claimed`. Each constructor reproduces `Array(repeating: Airstrip(), count: 5)`:
  `Airstrip()` is evaluated once, so all five positions hold one reference.
- `bookings.dfy` (module `Bookings`): what a sequence of requests against one fresh manager
  yields. Calls are atomic, so concurrent requests against one manager are served in some
  serial order, and these methods take that order as input. The file also holds the
  corrected pool of five distinct airstrips (see Findings).

The aliasing has a consequence the model proves. A manager grants at most one booking per
date: the first request for a date succeeds, and every later request for that date gets nil.
Requests for different dates all succeed, and every grant is the same airstrip. Here two
dates are "the same" when they are equal, as integer dates always are to themselves; a
floating-point NaN date is not (see "## Left out").

## Model

| member | source | states |
|---|---|---|
| Entities.Airstrip.constructor | Airport.playground/Contents.swift:77-80 | a new airstrip starts with an empty booking dictionary |
| Entities.Lookup | Airport.playground/Contents.swift:108 | the dictionary subscript yields a value exactly when the date is a key, and then the stored flag |
| Entities.IsFree | Airport.playground/Contents.swift:108 | the optional compared with `true`: free unless the entry is present and `true` |
| Entities.MissingFreeBookedNot | Airport.playground/Contents.swift:108 | a missing entry counts as free, and an entry just set to `true` does not |
| Entities.BookingBookedIsNoop | Airport.playground/Contents.swift:108-109 | setting an already-booked date to `true` again leaves the dictionary unchanged |
| Entities.FirstFree | Airport.playground/Contents.swift:107-111 | the claimed position is free for the date and every earlier position is booked; there is no position exactly when every position is booked |
| Entities.FirstFreeOnlyReadsDate | Airport.playground/Contents.swift:108 | the scan's choice depends only on each airstrip's entry for the requested date, so entries for other dates never change it |
| Entities.UniformPoolFirstFree | Airport.playground/Contents.swift:99-111 | when every position holds the same record, the scan picks position 0 or nothing |
| Managers.ScanAndClaim | Airport.playground/Contents.swift:107-114 | returns the airstrip at the first free position of the old state, or nil exactly when all are booked; only the returned airstrip's entry for the date changes, to `true`; on nil nothing changes; entries for other dates never change |
| Managers.OneSharedAirstrip | Airport.playground/Contents.swift:99-100 | the shape every initialiser builds: five positions that together hold exactly one airstrip |
| Managers.AirportManager.constructor | Airport.playground/Contents.swift:98-101 | five positions, all one fresh airstrip with an empty dictionary |
| Managers.AirportManager.GetAirstrip | Airport.playground/Contents.swift:103-115 | the shared `Claimed` postcondition; the airport is not reassigned and keeps length 5; it succeeds exactly when the shared airstrip was free; afterwards every position is booked for the date |
| Managers.BarrierAirportManager.constructor | Airport.playground/Contents.swift:124-127 | five positions, all one fresh airstrip with an empty dictionary |
| Managers.BarrierAirportManager.GetAirstrip | Airport.playground/Contents.swift:129-139 | the same postcondition as the lock manager |
| Managers.SemaphoreAirportManager.constructor | Airport.playground/Contents.swift:148-151 | five positions, all one fresh airstrip with an empty dictionary |
| Managers.SemaphoreAirportManager.GetAirstrip | Airport.playground/Contents.swift:153-165 | the same postcondition as the lock manager |
| Bookings.BookSameDate | Airport.playground/Contents.swift:98-115 | any number of requests for one date against a fresh manager yields exactly one grant, or none when there are no requests |
| Bookings.BookDistinctDates | Airport.playground/Contents.swift:98-115 | requests for pairwise different dates are all granted, and every grant is the same airstrip |
| Bookings.BookOneMore | Airport.playground/Contents.swift:108-109 | booking a date adds exactly that date to the set of booked dates and touches no other date |
| Bookings.RunLockManager | Airport.playground/Contents.swift:98-115 | against a fresh lock manager, request k is granted exactly when its date did not occur earlier in the sequence |
| Bookings.RunBarrierManager | Airport.playground/Contents.swift:124-139 | the same, for a fresh barrier manager |
| Bookings.RunSemaphoreManager | Airport.playground/Contents.swift:148-165 | the same, for a fresh semaphore manager |
| Bookings.CompareStrategies | Airport.playground/Contents.swift:103-165 | the three managers, given the same request sequence, grant and refuse the same requests |
| Bookings.FirstFreeAfterPrefix | Airport.playground/Contents.swift:107-111 | in a pool booked for a date up to some position, the scan claims exactly that position, or nothing when the pool is full |
| Bookings.BuildDistinctAirport | Airport.playground/Contents.swift:5-6 | the intended pool: `count` distinct fresh airstrips with empty dictionaries |
| Bookings.ClaimInDistinctPool | Airport.playground/Contents.swift:107-114 | on distinct airstrips, one claim takes the next position in array order; that airstrip's entry for the date becomes `true` and every other record, and every other date, stays as it was |
| Bookings.BookSameDateDistinct | Airport.playground/Contents.swift:5-6 | with five distinct airstrips, k requests for one date yield min(k, 5) grants, all different airstrips, taken in array order (the grants are the first positions of the pool); afterwards exactly the granted positions are booked for the date |

## Findings

| source | as written | input that shows it | evidently intended | confidence | as-written member | corrected member |
|---|---|---|---|---|---|---|
| Airport.playground/Contents.swift:99 | `Array(repeating: Airstrip(), count: 5)` evaluates `Airstrip()` once, so the airport holds five references to one class instance (same at :125 and :149) | a fresh manager and ten requests for one date: one grant, nine nils | five separate airstrips (the comment at :5-6), so five grants for one date, each a different airstrip | high; not executed | Bookings.BookSameDate | Bookings.BookSameDateDistinct |

The three manager classes keep the constructor as written, because they model the code as
it stands. The corrected pool comes from `Bookings.BuildDistinctAirport` and is served by the
same `Managers.ScanAndClaim` body.

## Left out

- The `NSLock`, the `.barrier` dispatch queue and the `DispatchSemaphore`: only their effect is modelled, which is that each `getAirstrip` body runs atomically. Lock release on every exit path is not modelled.
- `AirportProtocol` is not a separate declaration. The three classes share one body and one postcondition instead.
- `Airstrip.id` (a `UUID`): Dafny object identity stands in for it.
- The default argument `Date()` reads the wall clock. The date is always an explicit parameter.
- `Date` is an integer. Swift's `Date` is a floating-point time interval compared by `==`, under which a NaN date is not equal to itself. NaN-valued dates are not modelled: for such a date `availabilityDict[date]` is always nil, so the source grants it on every request, which the one-booking-per-date results here do not cover.
- `testSame` and `testDiff` use `DispatchGroup`, global queues, printing and `Double` time offsets. Only their serial content is modelled, in `Bookings`. The top-level calls at :271 and :274 pass `nsLockManager` where the barrier and semaphore managers were presumably meant. Those calls are not modelled.
- The commented-out draft (:13-63), the design diagrams and `import UIKit` are not live code.
