/**
 * The wind turbine record (`model/Windkraftanlage`): one row of the
 * register. Every reference-typed field may be missing, hence `Option`.
 */
module Facilities {
  import opened Wrappers

  datatype Facility = Facility(
    id: int,
    name: Option<string>,
    year: Option<int>,
    powerMW: Option<real>,
    count: Option<int>,
    typ: Option<string>,
    place: Option<string>,
    district: Option<string>,
    latitude: Option<real>,
    longitude: Option<real>,
    operator: Option<string>,
    remarks: Option<string>)

  /** Both coordinates are present. */
  predicate HasCoordinates(f: Facility)
  {
    f.latitude.Some? && f.longitude.Some?
  }

  /** The facilities of `fs` that carry both coordinates, in order. */
  function WithCoordinates(fs: seq<Facility>): (r: seq<Facility>)
    ensures |r| <= |fs|
    ensures forall f :: f in r ==> f in fs && HasCoordinates(f)
    ensures forall f :: f in fs && HasCoordinates(f) ==> f in r
  {
    if |fs| == 0 then []
    else (if HasCoordinates(fs[0]) then [fs[0]] else []) + WithCoordinates(fs[1..])
  }

  /** Identifiers of a sequence of facilities, in order. */
  function Ids(fs: seq<Facility>): (r: seq<int>)
    ensures |r| == |fs|
    ensures forall k :: 0 <= k < |fs| ==> r[k] == fs[k].id
  {
    if |fs| == 0 then [] else [fs[0].id] + Ids(fs[1..])
  }

  lemma {:induction false} IdsAppend(a: seq<Facility>, b: seq<Facility>)
    ensures Ids(a + b) == Ids(a) + Ids(b)
  {
    if |a| > 0 {
      assert (a + b)[1..] == a[1..] + b;
      IdsAppend(a[1..], b);
    }
  }
}
