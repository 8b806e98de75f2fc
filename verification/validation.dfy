/**
 * Range validation of coordinates, construction year and power
 * (`util/DatenfeldValidator`, `util/KoordinatenValidator`,
 * `util/KoordinatenValidierer`). A missing value is always valid; a present
 * value is valid when it lies in an inclusive range.
 *
 * The latitude and longitude bounds are those of `Konstanten`; the year and
 * power bounds, which `Konstanten` does not declare, take the values the
 * source's comments give.
 */
module Validation {
  import opened Wrappers
  import opened Facilities
  import opened Statistics

  const MinLatitude: real := 47.0
  const MaxLatitude: real := 55.0
  const MinLongitude: real := 5.0
  const MaxLongitude: real := 16.0
  const MinYear: int := 1980
  const MaxYear: int := 2026
  const MinPower: real := 0.0
  const MaxPower: real := 200.0

  predicate LatitudeInRange(x: real) { MinLatitude <= x <= MaxLatitude }
  predicate LongitudeInRange(x: real) { MinLongitude <= x <= MaxLongitude }
  predicate YearInRange(y: int) { MinYear <= y <= MaxYear }
  predicate PowerInRange(x: real) { MinPower <= x <= MaxPower }

  /** `istXGültig`: a missing value, or one inside the range. */
  predicate Valid<T>(v: Option<T>, inRange: T -> bool)
  {
    v.None? || inRange(v.value)
  }

  /** `findeFehlerhaftX`: a present value outside the range. */
  predicate Faulty<T>(v: Option<T>, inRange: T -> bool)
  {
    v.Some? && !inRange(v.value)
  }

  /**
   * Each pair of validator and fault finder: a missing value is valid and
   * not faulty, and a value is faulty exactly when it is present and not
   * valid, so never both.
   */
  lemma ValidatorPair<T>(v: Option<T>, inRange: T -> bool)
    ensures v.None? ==> Valid(v, inRange) && !Faulty(v, inRange)
    ensures Faulty(v, inRange) <==> v.Some? && !Valid(v, inRange)
    ensures !(Faulty(v, inRange) && Valid(v, inRange))
    ensures Valid(v, inRange) || Faulty(v, inRange)
  {
  }

  /**
   * `sindKoordinatenGültig`: no coordinates at all is valid, exactly one
   * missing is invalid, and two present coordinates must both be in range.
   */
  function CoordinatesValid(lat: Option<real>, lon: Option<real>): (r: bool)
    ensures lat.None? && lon.None? ==> r
    ensures lat.None? != lon.None? ==> !r
    ensures lat.Some? && lon.Some? ==> (r <==> LatitudeInRange(lat.value) && LongitudeInRange(lon.value))
    ensures r ==> Valid(lat, LatitudeInRange) && Valid(lon, LongitudeInRange)
  {
    if lat.None? && lon.None? then true
    else if lat.None? || lon.None? then false
    else LatitudeInRange(lat.value) && LongitudeInRange(lon.value)
  }

  /** The record filter of `findeFehlerhafte`: some coordinate, and not a valid pair. */
  predicate CoordinatesFaulty(f: Facility)
  {
    (f.latitude.Some? || f.longitude.Some?) && !CoordinatesValid(f.latitude, f.longitude)
  }

  /** One coordinate missing, or a present coordinate out of range. */
  predicate OneMissingOrOutOfRange(f: Facility)
  {
    || (f.latitude.Some? != f.longitude.Some?)
    || Faulty(f.latitude, LatitudeInRange)
    || Faulty(f.longitude, LongitudeInRange)
  }

  /**
   * `findeFehlerhafte`: the records, in order, that have a coordinate but
   * not a valid pair; exactly those with one coordinate missing or one out
   * of range.
   */
  function FaultyCoordinates(fs: seq<Facility>): (r: seq<Facility>)
    ensures forall f :: f in r <==> f in fs && OneMissingOrOutOfRange(f)
  {
    Select(CoordinatesFaulty, fs)
  }

  /** `zähleFehlerhafte`: how many records `findeFehlerhafte` reports. */
  function CountFaultyCoordinates(fs: seq<Facility>): (n: nat)
    ensures n == |FaultyCoordinates(fs)| && n <= |fs|
  {
    |FaultyCoordinates(fs)|
  }

  /** The record filter of `findeFehlerhafesBaujahr`. */
  predicate YearFaulty(f: Facility)
  {
    Faulty(f.year, YearInRange)
  }

  /** `findeFehlerhafesBaujahr`: the records, in order, with a present year outside the range. */
  function FaultyYears(fs: seq<Facility>): (r: seq<Facility>)
    ensures forall f :: f in r <==> f in fs && f.year.Some? && !(MinYear <= f.year.value <= MaxYear)
  {
    Select(YearFaulty, fs)
  }

  /** The record filter of `findeFehlerhafeGesamtLeistung`. */
  predicate PowerFaulty(f: Facility)
  {
    Faulty(f.powerMW, PowerInRange)
  }

  /** `findeFehlerhafeGesamtLeistung`: the records, in order, with a present power outside the range. */
  function FaultyPowers(fs: seq<Facility>): (r: seq<Facility>)
    ensures forall f :: f in r <==> f in fs && f.powerMW.Some? && !(MinPower <= f.powerMW.value <= MaxPower)
  {
    Select(PowerFaulty, fs)
  }
}
