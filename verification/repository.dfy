/**
 * The facility register (`controler/WindkraftanlageRepository`) and the
 * record of coordinate corrections (`util/KoordinatenKorrekturTracker`).
 *
 * The register is a value holding the loaded facilities; the correction
 * pass returns the corrected register together with the extended tracker.
 * Printing is modelled by the sequence of entries that would be printed.
 */
module Repository {
  import opened Wrappers
  import opened Facilities
  import opened Statistics
  import opened Validation
  import opened Correction

  /** One recorded correction (`KorrekturEintrag`): the facility and its coordinates before and after. */
  datatype Entry = Entry(
    id: int,
    name: Option<string>,
    oldLatitude: Option<real>,
    oldLongitude: Option<real>,
    newLatitude: Option<real>,
    newLongitude: Option<real>)

  datatype Tracker = Tracker(entries: seq<Entry>)

  /** `Konstanten.BEISPIEL_LIMIT`: the initial number of corrections printed. */
  const DefaultLimit: int := 10

  /** A new tracker holds no corrections. */
  function NewTracker(): (t: Tracker)
    ensures Count(t) == 0
  {
    Tracker([])
  }

  /** `getAnzahlKorrekturen`. */
  function Count(t: Tracker): (n: nat)
    ensures n == |t.entries|
  {
    |t.entries|
  }

  /**
   * `zeichneKorrekturAuf`: appends one entry with the facility's id and
   * name and the given coordinates; earlier entries stay as they were.
   */
  function Record(t: Tracker, f: Facility, oldLat: Option<real>, oldLon: Option<real>,
                  newLat: Option<real>, newLon: Option<real>): (r: Tracker)
    ensures Count(r) == Count(t) + 1
    ensures r.entries[..Count(t)] == t.entries
    ensures r.entries[Count(t)] == Entry(f.id, f.name, oldLat, oldLon, newLat, newLon)
  {
    Tracker(t.entries + [Entry(f.id, f.name, oldLat, oldLon, newLat, newLon)])
  }

  /**
   * `gebeKorrekturenAus(limit)`: nothing at all for an empty tracker;
   * otherwise a heading and the first `min(limit, count)` entries in the
   * order recorded, a negative limit counting as 0.
   */
  function Printed(t: Tracker, limit: int): (r: Option<seq<Entry>>)
    ensures r.None? <==> Count(t) == 0
    ensures r.Some? ==> |r.value| == (if limit <= 0 then 0 else if limit < Count(t) then limit else Count(t))
    ensures r.Some? ==> r.value <= t.entries
  {
    var bounded := if limit < 0 then 0 else limit;
    if |t.entries| == 0 then None
    else
      var shown := if bounded < |t.entries| then bounded else |t.entries|;
      Some(t.entries[..shown])
  }

  /** `setDefaultAusgabeLimit`: a negative limit leaves the default as it was. */
  function SetDefaultLimit(current: int, limit: int): (r: int)
    ensures limit < 0 ==> r == current
    ensures limit >= 0 ==> r == limit
    ensures r >= 0 || r == current
  {
    if limit < 0 then current else limit
  }

  /** A limit set through `setDefaultAusgabeLimit` never makes the default negative. */
  lemma DefaultLimitStaysNatural(limits: seq<int>)
    ensures var d := SetLimits(DefaultLimit, limits); d >= 0
  {
    SetLimitsKeepsNatural(DefaultLimit, limits);
  }

  /** The default after `setDefaultAusgabeLimit` has been called with each of `limits` in turn. */
  function SetLimits(current: int, limits: seq<int>): int
    decreases |limits|
  {
    if |limits| == 0 then current else SetLimits(SetDefaultLimit(current, limits[0]), limits[1..])
  }

  lemma {:induction false} SetLimitsKeepsNatural(current: int, limits: seq<int>)
    requires current >= 0
    ensures SetLimits(current, limits) >= 0
    decreases |limits|
  {
    if |limits| > 0 {
      SetLimitsKeepsNatural(SetDefaultLimit(current, limits[0]), limits[1..]);
    }
  }

  /**
   * One step of `korrigiereKoordinaten`: an invalid coordinate (present and
   * out of range) is replaced by its field correction, or by nothing when
   * that fails; valid coordinates stay. The flag says whether some
   * correction succeeded.
   */
  function Repair(f: Facility): (Facility, bool)
  {
    var lat := if Valid(f.latitude, LatitudeInRange) then f.latitude else DivideIfValid(f.latitude, LatitudeInRange);
    var lon := if Valid(f.longitude, LongitudeInRange) then f.longitude else DivideIfValid(f.longitude, LongitudeInRange);
    var fixedLat := !Valid(f.latitude, LatitudeInRange) && lat.Some?;
    var fixedLon := !Valid(f.longitude, LongitudeInRange) && lon.Some?;
    (f.(latitude := lat, longitude := lon), fixedLat || fixedLon)
  }

  /**
   * The repair step changes nothing but the coordinates; a valid coordinate
   * is kept and an invalid one becomes its field correction; afterwards
   * both coordinates are valid, and the flag says that some invalid
   * coordinate was corrected to a value.
   */
  lemma RepairSpec(f: Facility)
    ensures var r := Repair(f);
            && r.0 == f.(latitude := r.0.latitude, longitude := r.0.longitude)
            && (Valid(f.latitude, LatitudeInRange) ==> r.0.latitude == f.latitude)
            && (Valid(f.longitude, LongitudeInRange) ==> r.0.longitude == f.longitude)
            && (!Valid(f.latitude, LatitudeInRange) ==> r.0.latitude == DivideIfValid(f.latitude, LatitudeInRange))
            && (!Valid(f.longitude, LongitudeInRange) ==> r.0.longitude == DivideIfValid(f.longitude, LongitudeInRange))
            && Valid(r.0.latitude, LatitudeInRange) && Valid(r.0.longitude, LongitudeInRange)
            && (r.1 <==> Fixed(f.latitude, r.0.latitude, LatitudeInRange) || Fixed(f.longitude, r.0.longitude, LongitudeInRange))
  {
  }

  /** An invalid coordinate corrected to a value. */
  predicate Fixed(before: Option<real>, after: Option<real>, inRange: real -> bool)
  {
    !Valid(before, inRange) && after.Some?
  }

  /** A record some coordinate of which `korrigiereKoordinaten` corrects successfully. */
  predicate Repaired(f: Facility)
  {
    Repair(f).1
  }

  /** The entries the pass records for `fs`, in order: one per repaired facility. */
  function EntriesFor(fs: seq<Facility>): seq<Entry>
  {
    if |fs| == 0 then []
    else
      var f := fs[|fs| - 1];
      var g := Repair(f).0;
      EntriesFor(fs[..|fs| - 1])
        + (if Repaired(f) then [Entry(f.id, f.name, f.latitude, f.longitude, g.latitude, g.longitude)] else [])
  }

  /** One entry per facility the repair step corrects. */
  lemma {:induction false} EntriesCount(fs: seq<Facility>)
    ensures |EntriesFor(fs)| == |Select(Repaired, fs)|
  {
    if |fs| > 0 {
      EntriesCount(fs[..|fs| - 1]);
    }
  }

  lemma EntriesSnoc(fs: seq<Facility>, i: nat)
    requires i < |fs|
    ensures var f, g := fs[i], Repair(fs[i]).0;
            EntriesFor(fs[..i + 1]) == EntriesFor(fs[..i])
              + (if Repaired(f) then [Entry(f.id, f.name, f.latitude, f.longitude, g.latitude, g.longitude)] else [])
  {
    assert fs[..i + 1][..i] == fs[..i];
  }

  /** `WindkraftanlageRepository`: the facilities loaded from the register file. */
  datatype Register = Register(facilities: seq<Facility>)

  /** `getAll`: the loaded facilities, as a new list. */
  function GetAll(reg: Register): (r: seq<Facility>)
    ensures |r| == |reg.facilities| && forall k :: 0 <= k < |r| ==> r[k] == reg.facilities[k]
  {
    reg.facilities
  }

  /** `count`: the number of loaded facilities, the length of `getAll`. */
  function Size(reg: Register): (n: nat)
    ensures n == |GetAll(reg)|
  {
    |reg.facilities|
  }

  /**
   * `korrigiereKoordinaten`: every facility goes through the repair step;
   * valid coordinates are untouched, failed corrections leave the
   * coordinate missing; one tracker entry with the old and new coordinates
   * is appended per facility with a successful correction, and the
   * result is their number.
   */
  method CorrectCoordinates(reg: Register, t: Tracker) returns (reg': Register, t': Tracker, corrected: nat)
    ensures |reg'.facilities| == |reg.facilities|
    ensures forall k :: 0 <= k < |reg.facilities| ==> reg'.facilities[k] == Repair(reg.facilities[k]).0
    ensures forall k :: 0 <= k < |reg'.facilities| ==>
              Valid(reg'.facilities[k].latitude, LatitudeInRange) && Valid(reg'.facilities[k].longitude, LongitudeInRange)
    ensures t'.entries == t.entries + EntriesFor(reg.facilities)
    ensures corrected == |Select(Repaired, reg.facilities)| == Count(t') - Count(t)
  {
    var fs := reg.facilities;
    var out: seq<Facility> := [];
    t', corrected := t, 0;
    var i := 0;
    while i < |fs|
      invariant i <= |fs|
      invariant out == RepairAll(fs[..i])
      invariant t'.entries == t.entries + EntriesFor(fs[..i])
      invariant corrected == |EntriesFor(fs[..i])|
    {
      out, t', corrected := RepairStep(fs, i, t, out, t', corrected);
      i := i + 1;
    }
    assert fs[..i] == fs;
    reg' := Register(out);
    CorrectionOutcome(fs, out, t, t', corrected);
  }

  /** What the finished loop of `korrigiereKoordinaten` has established, in the terms of its contract. */
  lemma CorrectionOutcome(fs: seq<Facility>, out: seq<Facility>, t: Tracker, t': Tracker, corrected: nat)
    requires out == RepairAll(fs)
    requires t'.entries == t.entries + EntriesFor(fs) && corrected == |EntriesFor(fs)|
    ensures |out| == |fs|
    ensures forall k :: 0 <= k < |fs| ==> out[k] == Repair(fs[k]).0
    ensures forall k :: 0 <= k < |out| ==>
              Valid(out[k].latitude, LatitudeInRange) && Valid(out[k].longitude, LongitudeInRange)
    ensures t'.entries == t.entries + EntriesFor(fs)
    ensures corrected == |Select(Repaired, fs)| == Count(t') - Count(t)
  {
    RepairAllSpec(fs);
    EntriesCount(fs);
    RepairedValid(fs, out);
  }

  /**
   * One iteration of `korrigiereKoordinaten`: the facility at `i` is
   * repaired and, when a correction succeeded, recorded and counted.
   */
  method RepairStep(fs: seq<Facility>, i: nat, t0: Tracker, out: seq<Facility>, t: Tracker, corrected: nat)
    returns (out': seq<Facility>, t': Tracker, corrected': nat)
    requires i < |fs| && out == RepairAll(fs[..i])
    requires t.entries == t0.entries + EntriesFor(fs[..i]) && corrected == |EntriesFor(fs[..i])|
    ensures out' == RepairAll(fs[..i + 1])
    ensures t'.entries == t0.entries + EntriesFor(fs[..i + 1]) && corrected' == |EntriesFor(fs[..i + 1])|
  {
    var f := fs[i];
    var g := Repair(f).0;
    EntriesSnoc(fs, i);
    assert RepairAll(fs[..i + 1]) == RepairAll(fs[..i]) + [g] by {
      assert fs[..i + 1][..i] == fs[..i];
    }
    t', corrected' := t, corrected;
    if Repaired(f) {
      t' := Record(t, f, f.latitude, f.longitude, g.latitude, g.longitude);
      corrected' := corrected + 1;
    }
    out' := out + [g];
  }

  /** The repair step applied to each facility. */
  function RepairAll(fs: seq<Facility>): seq<Facility>
  {
    if |fs| == 0 then [] else RepairAll(fs[..|fs| - 1]) + [Repair(fs[|fs| - 1]).0]
  }

  /** `RepairAll` repairs each facility in place. */
  lemma {:induction false} RepairAllSpec(fs: seq<Facility>)
    ensures |RepairAll(fs)| == |fs| && forall k :: 0 <= k < |fs| ==> RepairAll(fs)[k] == Repair(fs[k]).0
  {
    if |fs| > 0 {
      RepairAllSpec(fs[..|fs| - 1]);
    }
  }

  /** After the repair step every present coordinate is in range. */
  lemma RepairedValid(fs: seq<Facility>, out: seq<Facility>)
    requires |out| == |fs| && forall k :: 0 <= k < |fs| ==> out[k] == Repair(fs[k]).0
    ensures forall k :: 0 <= k < |out| ==> Valid(out[k].latitude, LatitudeInRange) && Valid(out[k].longitude, LongitudeInRange)
  {
    forall k | 0 <= k < |out|
      ensures Valid(out[k].latitude, LatitudeInRange) && Valid(out[k].longitude, LongitudeInRange)
    {
      RepairSpec(fs[k]);
    }
  }
}
