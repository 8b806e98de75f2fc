/**
 * "Missing decimal point" correction of coordinates, year and power
 * (`util/KoordinatenKorrektor`, `util/DatenfeldKorrektor`,
 * `util/KoordinatenValidierer`). An out-of-range value is assumed to have
 * lost its decimal point and is divided (or, for a year, multiplied) by a
 * fixed factor; a result still out of range is dropped.
 *
 * The coordinate factor is that of `Konstanten`; the year and power factors,
 * which `Konstanten` does not declare, take the values the source's
 * comments give.
 */
module Correction {
  import opened Wrappers
  import opened Numbers
  import opened Facilities
  import opened Statistics
  import opened Validation

  const CoordinateFactor: real := 1000.0
  const YearFactor: int := 10
  const PowerFactor: real := 100.0

  /**
   * `korrigiereKoordinate` (and `korrigiereGesamtLeistung` with the power
   * range): a value in `[lo, hi]` is kept, otherwise `x / factor` if that is
   * in range, otherwise nothing. Java's division by zero gives an infinity
   * or NaN, never in range, so a zero factor corrects nothing.
   */
  function CorrectValue(x: real, lo: real, hi: real, factor: real): (r: Option<real>)
    ensures r.Some? ==> lo <= r.value <= hi
    ensures lo <= x <= hi ==> r == Some(x)
    ensures r.Some? && r.value != x ==> factor != 0.0 && r.value * factor == x
    ensures !(lo <= x <= hi) && factor != 0.0 && lo <= x / factor <= hi ==> r == Some(x / factor)
    ensures !(lo <= x <= hi) && (factor == 0.0 || !(lo <= x / factor <= hi)) ==> r.None?
  {
    if lo <= x <= hi then Some(x)
    else if factor != 0.0 && lo <= x / factor <= hi then Some(x / factor)
    else None
  }

  /** A corrected value is corrected to itself. */
  lemma CorrectValueIdempotent(x: real, lo: real, hi: real, factor: real)
    requires CorrectValue(x, lo, hi, factor).Some?
    ensures CorrectValue(CorrectValue(x, lo, hi, factor).value, lo, hi, factor) == CorrectValue(x, lo, hi, factor)
  {
  }

  /** `korrigiereGesamtLeistung`: the power range with the power factor. */
  function CorrectPower(x: real): (r: Option<real>)
    ensures r.Some? ==> PowerInRange(r.value)
    ensures PowerInRange(x) ==> r == Some(x)
    ensures !PowerInRange(x) && r.Some? ==> r.value * PowerFactor == x
  {
    CorrectValue(x, MinPower, MaxPower, PowerFactor)
  }

  /**
   * `korrigiereBaujahr`: an in-range year is kept; otherwise the year with
   * its last digit dropped (Java's truncating division), if in range; then
   * the year with a zero appended, if in range; otherwise nothing.
   */
  function CorrectYear(y: int): (r: Option<int>)
    ensures r.Some? ==> YearInRange(r.value)
    ensures YearInRange(y) ==> r == Some(y)
    ensures !YearInRange(y) && YearInRange(JavaDiv(y, YearFactor)) ==> r == Some(JavaDiv(y, YearFactor))
    ensures !YearInRange(y) && !YearInRange(JavaDiv(y, YearFactor)) ==>
              r == (if YearInRange(y * YearFactor) then Some(y * YearFactor) else None)
  {
    if YearInRange(y) then Some(y)
    else if YearInRange(JavaDiv(y, YearFactor)) then Some(JavaDiv(y, YearFactor))
    else if YearInRange(y * YearFactor) then Some(y * YearFactor)
    else None
  }

  /** A five-digit year is corrected by dropping its last digit, and a three-digit one by appending a zero. */
  lemma CorrectYearExamples()
    ensures CorrectYear(20150) == Some(2015)
    ensures CorrectYear(201) == Some(2010)
    ensures CorrectYear(2015) == Some(2015)
    ensures CorrectYear(5) == None
  {
    assert JavaDiv(20150, 10) == 2015;
    assert JavaDiv(201, 10) == 20;
    assert JavaDiv(5, 10) == 0;
  }

  /**
   * `korrigiereFehlerhaftenBreitengrad` / `korrigiereFehlerhaftenLängengrad`
   * (and `korrigiereBreitengrad` / `korrigiereLaengengrad` of
   * `KoordinatenValidierer`): a missing or zero value gives nothing;
   * otherwise `x / 1000` if that is in range, otherwise nothing. The value
   * itself is not checked first, so even an in-range value is divided.
   */
  function DivideIfValid(v: Option<real>, inRange: real -> bool): (r: Option<real>)
    ensures v.None? || v.value == 0.0 ==> r.None?
    ensures r.Some? ==> inRange(r.value) && r.value * CoordinateFactor == v.value
    ensures v.Some? && v.value != 0.0 && inRange(v.value / CoordinateFactor) ==> r == Some(v.value / CoordinateFactor)
  {
    if v.None? || v.value == 0.0 then None
    else
      var corrected := v.value / CoordinateFactor;
      if inRange(corrected) then Some(corrected) else None
  }

  /** A latitude already in range is not kept but dropped by the field corrector. */
  lemma DivideDropsValidLatitude(x: real)
    requires LatitudeInRange(x)
    ensures DivideIfValid(Some(x), LatitudeInRange).None?
  {
  }

  /**
   * `korrigiereFehlerhaftesBaujahr`: a missing year, or one in range, gives
   * nothing; a year above the range is only divided, one below the range
   * only multiplied, and kept when the result is in range.
   */
  function FixYearField(v: Option<int>): (r: Option<int>)
    ensures v.None? || YearInRange(v.value) ==> r.None?
    ensures r.Some? ==> Valid(r, YearInRange)
    ensures r.Some? && v.value > MaxYear ==> r.value == JavaDiv(v.value, YearFactor)
    ensures r.Some? && v.value < MinYear ==> r.value == v.value * YearFactor
    ensures v.Some? && v.value > MaxYear && YearInRange(JavaDiv(v.value, YearFactor)) ==> r.Some?
    ensures v.Some? && v.value < MinYear && YearInRange(v.value * YearFactor) ==> r.Some?
  {
    if v.None? then None
    else if v.value > MaxYear && YearInRange(JavaDiv(v.value, YearFactor)) then Some(JavaDiv(v.value, YearFactor))
    else if v.value < MinYear && YearInRange(v.value * YearFactor) then Some(v.value * YearFactor)
    else None
  }

  /**
   * `korrigiereFehlerhafteGesamtLeistung`: a missing or zero value, or one
   * not above the maximum, gives nothing; a value above the maximum is
   * divided by 100 and kept when the result is in range.
   */
  function FixPowerField(v: Option<real>): (r: Option<real>)
    ensures v.None? || v.value == 0.0 || v.value <= MaxPower ==> r.None?
    ensures r.Some? ==> Valid(r, PowerInRange) && r.value * PowerFactor == v.value
    ensures v.Some? && v.value > MaxPower && PowerInRange(v.value / PowerFactor) ==> r == Some(v.value / PowerFactor)
  {
    if v.None? || v.value == 0.0 then None
    else if v.value > MaxPower && PowerInRange(v.value / PowerFactor) then Some(v.value / PowerFactor)
    else None
  }

  /** The coordinates are out of range where present (the test of `korrigiereFehlerhafte`). */
  predicate CoordinateOutOfRange(f: Facility)
  {
    Faulty(f.latitude, LatitudeInRange) || Faulty(f.longitude, LongitudeInRange)
  }

  /** One coordinate as the pass treats it: kept if missing or in range, else corrected or dropped. */
  function FixCoordinate(v: Option<real>, lo: real, hi: real): (r: Option<real>)
    ensures v.None? || lo <= v.value <= hi ==> r == v
    ensures r.Some? ==> lo <= r.value <= hi
    ensures v.Some? && !(lo <= v.value <= hi) ==> r == CorrectValue(v.value, lo, hi, CoordinateFactor)
  {
    if v.None? || lo <= v.value <= hi then v else CorrectValue(v.value, lo, hi, CoordinateFactor)
  }

  /** The facility after the coordinate step of `korrigiereFehlerhafte`. */
  function FixFacilityCoordinates(f: Facility): (r: Facility)
    ensures r == f.(latitude := r.latitude, longitude := r.longitude)
    ensures Valid(r.latitude, LatitudeInRange) && Valid(r.longitude, LongitudeInRange)
    ensures !CoordinateOutOfRange(f) ==> r == f
  {
    f.(latitude := FixCoordinate(f.latitude, MinLatitude, MaxLatitude),
       longitude := FixCoordinate(f.longitude, MinLongitude, MaxLongitude))
  }

  /** The facility after the step of `korrigiereFehlerhafesBaujahr`. */
  function FixFacilityYear(f: Facility): (r: Facility)
    ensures r == f.(year := r.year)
    ensures Valid(r.year, YearInRange)
    ensures !YearFaulty(f) ==> r == f
    ensures YearFaulty(f) ==> r.year == CorrectYear(f.year.value)
  {
    if YearFaulty(f) then f.(year := CorrectYear(f.year.value)) else f
  }

  /** The facility after the step of `korrigiereFehlerhafeGesamtLeistung`. */
  function FixFacilityPower(f: Facility): (r: Facility)
    ensures r == f.(powerMW := r.powerMW)
    ensures Valid(r.powerMW, PowerInRange)
    ensures !PowerFaulty(f) ==> r == f
    ensures PowerFaulty(f) ==> r.powerMW == CorrectPower(f.powerMW.value)
  {
    if PowerFaulty(f) then f.(powerMW := CorrectPower(f.powerMW.value)) else f
  }

  /**
   * The loop shared by the three list passes: each facility is replaced by
   * its fixed form, and the facilities the pass touches are counted.
   */
  method FixEach(fix: Facility -> Facility, touched: Facility -> bool, fs: seq<Facility>)
    returns (r: seq<Facility>, count: nat)
    ensures |r| == |fs| && forall k :: 0 <= k < |fs| ==> r[k] == fix(fs[k])
    ensures count == |Select(touched, fs)| && count <= |fs|
  {
    r, count := [], 0;
    var i := 0;
    while i < |fs|
      invariant i <= |fs| && |r| == i
      invariant forall k :: 0 <= k < i ==> r[k] == fix(fs[k])
      invariant count == |Select(touched, fs[..i])|
    {
      SelectSnoc(touched, fs, i);
      if touched(fs[i]) {
        count := count + 1;
      }
      r := r + [fix(fs[i])];
      i := i + 1;
    }
    assert fs[..i] == fs;
  }

  /**
   * `korrigiereFehlerhafte`: afterwards every present coordinate is in
   * range; records with both coordinates in range or missing are untouched;
   * the count is the number of records with a coordinate out of range.
   */
  method FixCoordinates(fs: seq<Facility>) returns (r: seq<Facility>, count: nat)
    ensures |r| == |fs| && forall k :: 0 <= k < |fs| ==> r[k] == FixFacilityCoordinates(fs[k])
    ensures forall k :: 0 <= k < |r| ==> Valid(r[k].latitude, LatitudeInRange) && Valid(r[k].longitude, LongitudeInRange)
    ensures forall k :: 0 <= k < |fs| && !CoordinateOutOfRange(fs[k]) ==> r[k] == fs[k]
    ensures count == |Select(CoordinateOutOfRange, fs)|
  {
    r, count := FixEach(FixFacilityCoordinates, CoordinateOutOfRange, fs);
  }

  /**
   * `korrigiereFehlerhafesBaujahr`: only out-of-range years change, each to
   * its correction or to nothing; afterwards every year is valid and no
   * record is reported by `findeFehlerhafesBaujahr`; the count is the
   * number of out-of-range years.
   */
  method FixYears(fs: seq<Facility>) returns (r: seq<Facility>, count: nat)
    ensures |r| == |fs| && forall k :: 0 <= k < |fs| ==> r[k] == FixFacilityYear(fs[k])
    ensures forall k :: 0 <= k < |fs| && !YearFaulty(fs[k]) ==> r[k] == fs[k]
    ensures FaultyYears(r) == []
    ensures count == |FaultyYears(fs)|
  {
    r, count := FixEach(FixFacilityYear, YearFaulty, fs);
    SelectNone(YearFaulty, r);
  }

  /**
   * `korrigiereFehlerhafeGesamtLeistung`: only out-of-range values change,
   * each to its correction or to nothing; afterwards no record is reported
   * by `findeFehlerhafeGesamtLeistung`; the count is the number of
   * out-of-range values.
   */
  method FixPowers(fs: seq<Facility>) returns (r: seq<Facility>, count: nat)
    ensures |r| == |fs| && forall k :: 0 <= k < |fs| ==> r[k] == FixFacilityPower(fs[k])
    ensures forall k :: 0 <= k < |fs| && !PowerFaulty(fs[k]) ==> r[k] == fs[k]
    ensures FaultyPowers(r) == []
    ensures count == |FaultyPowers(fs)|
  {
    r, count := FixEach(FixFacilityPower, PowerFaulty, fs);
    SelectNone(PowerFaulty, r);
  }

  /**
   * After the coordinate pass `findeFehlerhafte` reports only records with
   * exactly one coordinate missing.
   */
  lemma FixedCoordinatesFaults(fs: seq<Facility>, r: seq<Facility>)
    requires |r| == |fs| && forall k :: 0 <= k < |fs| ==> r[k] == FixFacilityCoordinates(fs[k])
    ensures forall f :: f in FaultyCoordinates(r) ==> f.latitude.Some? != f.longitude.Some?
  {
    forall f | f in FaultyCoordinates(r)
      ensures f.latitude.Some? != f.longitude.Some?
    {
      var k :| 0 <= k < |r| && r[k] == f;
    }
  }
}
