/** The entities of the airport: an airstrip with its per-date booking record,
    the airport that holds an ordered array of airstrip references, and the
    pure "first free airstrip" search that the managers' scan implements. */
module Entities {

  /** A booking timestamp. Swift's `Date` is used only as a dictionary key
      compared by exact equality; an integer stands in for it. */
  type Date = int

  datatype Option<T> = None | Some(value: T)

  /** `class Airstrip`: a reference type whose booking dictionary is updated
      in place. Its `UUID` is replaced by Dafny's object identity. */
  class Airstrip {
    var availabilityDict: map<Date, bool>

    constructor ()
      ensures availabilityDict == map[]
    {
      availabilityDict := map[];
    }
  }

  /** `struct Airport`: a value holding an array of airstrip references.
      Two positions may hold the same reference. */
  datatype Airport = Airport(airstrips: seq<Airstrip>)

  /** Swift's dictionary subscript `dict[date]`: the stored flag, or nil. */
  function Lookup(dict: map<Date, bool>, date: Date): (r: Option<bool>)
    ensures r.Some? <==> date in dict
    ensures r.Some? ==> r.value == dict[date]
  {
    if date in dict then Some(dict[date]) else None
  }

  /** The scan's test `availabilityDict[date] != true`: an optional compared
      with `true`, so a missing entry and a `false` entry both count as free. */
  predicate IsFree(dict: map<Date, bool>, date: Date)
    ensures IsFree(dict, date) <==> (date !in dict || dict[date] == false)
  {
    Lookup(dict, date) != Some(true)
  }

  lemma MissingFreeBookedNot(dict: map<Date, bool>, date: Date)
    ensures date !in dict ==> IsFree(dict, date)
    ensures IsFree(dict[date := true], date) == false
  {
  }

  /** Marking an already booked date again leaves the record as it was. */
  lemma BookingBookedIsNoop(dict: map<Date, bool>, date: Date)
    requires !IsFree(dict, date)
    ensures dict[date := true] == dict
  {
    assert date in dict && dict[date];
  }

  /** The booking records of a pool, position by position. Aliased positions
      show the same record. */
  function Snapshot(strips: seq<Airstrip>): (dicts: seq<map<Date, bool>>)
    reads strips
    ensures |dicts| == |strips|
    ensures forall i :: 0 <= i < |strips| ==> dicts[i] == strips[i].availabilityDict
  {
    seq(|strips|, i requires 0 <= i < |strips| reads strips => strips[i].availabilityDict)
  }

  /** The position the scan claims: the lowest index whose record is free
      for `date`, or None when every position is booked for it. */
  function FirstFree(dicts: seq<map<Date, bool>>, date: Date): (r: Option<nat>)
    ensures r.Some? ==> r.value < |dicts| && IsFree(dicts[r.value], date)
    ensures r.Some? ==> forall j :: 0 <= j < r.value ==> !IsFree(dicts[j], date)
    ensures r.None? <==> forall j :: 0 <= j < |dicts| ==> !IsFree(dicts[j], date)
  {
    if dicts == [] then None
    else if IsFree(dicts[0], date) then Some(0)
    else match FirstFree(dicts[1..], date)
      case None => None
      case Some(k) => Some(k + 1)
  }

  /** The search looks only at the entries for `date`: two pools whose
      records agree on `date` position by position claim the same position,
      whatever they hold for other dates. */
  lemma {:induction false} FirstFreeOnlyReadsDate(a: seq<map<Date, bool>>, b: seq<map<Date, bool>>, date: Date)
    requires |a| == |b|
    requires forall i :: 0 <= i < |a| ==> Lookup(a[i], date) == Lookup(b[i], date)
    ensures FirstFree(a, date) == FirstFree(b, date)
  {
    if a != [] && !IsFree(a[0], date) {
      FirstFreeOnlyReadsDate(a[1..], b[1..], date);
    }
  }

  /** In a pool whose positions all hold one airstrip, the scan claims
      position 0 or nothing. */
  lemma UniformPoolFirstFree(dicts: seq<map<Date, bool>>, date: Date)
    requires |dicts| > 0
    requires forall i :: 0 <= i < |dicts| ==> dicts[i] == dicts[0]
    ensures FirstFree(dicts, date) == if IsFree(dicts[0], date) then Some(0) else None
  {
  }
}
