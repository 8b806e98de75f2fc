/**
 * Wind parks (`util/WindparkAnalysierer`): facilities are counted per
 * name, the counts are ranked largest first, and the first entries of the
 * ranking are the top parks.
 *
 * A park entry (`model/WindparkEintrag`) is a pair of name and count; the
 * hash map of counts is an association list with keys in the order of
 * their first occurrence.
 */
module Parks {
  import opened Wrappers
  import opened Seqs
  import opened Facilities
  import opened Manufacturers

  /** `Konstanten.UNBEKANNTER_ORT`: the key of facilities without a name. */
  const UnknownPlace: string := "<unbekannt>"

  /** The key a facility is counted under: its name, or the placeholder. */
  function ParkName(f: Facility): (r: string)
    ensures f.name.None? ==> r == UnknownPlace
    ensures f.name.Some? ==> r == f.name.value
  {
    f.name.GetOr(UnknownPlace)
  }

  /** Reference definition: how many facilities of `fs` are counted under `key`. */
  function NameCount(fs: seq<Facility>, key: string): (r: nat)
    ensures r <= |fs|
  {
    if |fs| == 0 then 0
    else NameCount(fs[..|fs| - 1], key) + (if ParkName(fs[|fs| - 1]) == key then 1 else 0)
  }

  /** `zaehleWindparks`: a left-to-right pass adding one to the count of each facility's key. */
  function CountParks(fs: seq<Facility>): (r: seq<(string, int)>)
  {
    if |fs| == 0 then [] else AddOne(CountParks(fs[..|fs| - 1]), ParkName(fs[|fs| - 1]))
  }

  /** The total of the counts of an association list. */
  function SumCounts(cs: seq<(string, int)>): int
  {
    if |cs| == 0 then 0 else SumCounts(cs[..|cs| - 1]) + cs[|cs| - 1].1
  }

  /**
   * `cs` counts the facilities of `fs` per key: each key once, each with its
   * number of facilities, and exactly the keys that occur.
   */
  ghost predicate Tallies(cs: seq<(string, int)>, fs: seq<Facility>)
  {
    && Distinct(Keys(cs))
    && (forall i :: 0 <= i < |cs| ==> cs[i].1 == NameCount(fs, cs[i].0) > 0)
    && (forall key :: key in Keys(cs) <==> NameCount(fs, key) > 0)
  }

  /** The counts of `zaehleWindparks` tally the facilities by name. */
  lemma {:induction false} CountParksCorrect(fs: seq<Facility>)
    ensures Tallies(CountParks(fs), fs)
  {
    if |fs| > 0 {
      var front, f := fs[..|fs| - 1], fs[|fs| - 1];
      assert fs == front + [f];
      CountParksCorrect(front);
      var g := CountParks(front);
      if Find(g, ParkName(f)) < 0 {
        AddNewPark(g, front, f);
      } else {
        AddKnownPark(g, front, f);
      }
    }
  }

  lemma AddNewPark(g: seq<(string, int)>, front: seq<Facility>, f: Facility)
    requires Tallies(g, front) && Find(g, ParkName(f)) < 0
    ensures Tallies(g + [(ParkName(f), 1)], front + [f])
  {
    var fs, r, key := front + [f], g + [(ParkName(f), 1)], ParkName(f);
    assert fs[..|fs| - 1] == front;
    assert Keys(r) == Keys(g) + [key];
    forall i | 0 <= i < |r|
      ensures r[i].1 == NameCount(fs, r[i].0) > 0
    {
      if i < |g| {
        assert Keys(g)[i] == g[i].0;
      }
    }
  }

  lemma AddKnownPark(g: seq<(string, int)>, front: seq<Facility>, f: Facility)
    requires Tallies(g, front) && Find(g, ParkName(f)) >= 0
    ensures Tallies(AddOne(g, ParkName(f)), front + [f])
  {
    var fs, key := front + [f], ParkName(f);
    var p := Find(g, key);
    var r := g[p := (key, g[p].1 + 1)];
    NameCountSnoc(front, f);
    assert Keys(r) == Keys(g);
    forall i | 0 <= i < |r|
      ensures r[i].1 == NameCount(fs, r[i].0) > 0
    {
      if i != p {
        assert Keys(g)[i] != Keys(g)[p];
        assert r[i] == g[i];
      }
    }
  }

  lemma NameCountSnoc(front: seq<Facility>, f: Facility)
    ensures forall key :: NameCount(front + [f], key) == NameCount(front, key) + (if ParkName(f) == key then 1 else 0)
  {
    assert (front + [f])[..|front|] == front;
  }

  /** Adding one to a key raises the total by one. */
  lemma AddOneSum(g: seq<(string, int)>, key: string)
    ensures SumCounts(AddOne(g, key)) == SumCounts(g) + 1
  {
    var p := Find(g, key);
    if p < 0 {
      var r := g + [(key, 1)];
      assert AddOne(g, key) == r;
      assert r[..|r| - 1] == g && r[|r| - 1].1 == 1;
      assert SumCounts(r) == SumCounts(g) + 1;
    } else {
      var e := (key, g[p].1 + 1);
      assert AddOne(g, key) == g[p := e];
      UpdateSum(g, p, e);
    }
  }

  lemma {:induction false} UpdateSum(g: seq<(string, int)>, p: nat, e: (string, int))
    requires p < |g|
    ensures SumCounts(g[p := e]) == SumCounts(g) - g[p].1 + e.1
  {
    var n := |g|;
    if p < n - 1 {
      assert g[p := e][..n - 1] == g[..n - 1][p := e];
      UpdateSum(g[..n - 1], p, e);
    } else {
      assert g[p := e][..n - 1] == g[..n - 1];
    }
  }

  /** The counts of `zaehleWindparks` add up to the number of facilities. */
  lemma {:induction false} CountParksTotal(fs: seq<Facility>)
    ensures SumCounts(CountParks(fs)) == |fs|
  {
    if |fs| > 0 {
      CountParksTotal(fs[..|fs| - 1]);
      AddOneSum(CountParks(fs[..|fs| - 1]), ParkName(fs[|fs| - 1]));
    }
  }

  /** A reordering of a tally is a tally of the same facilities. */
  lemma TalliesPermuted(cs: seq<(string, int)>, ranked: seq<(string, int)>, fs: seq<Facility>)
    requires Tallies(cs, fs) && multiset(ranked) == multiset(cs)
    ensures Tallies(ranked, fs)
  {
    PermutedKeysDistinct(cs, ranked);
    forall i | 0 <= i < |ranked|
      ensures ranked[i].1 == NameCount(fs, ranked[i].0) > 0
    {
      assert ranked[i] in multiset(cs);
      var p :| 0 <= p < |cs| && cs[p] == ranked[i];
      assert Keys(cs)[p] == ranked[i].0;
    }
    forall key
      ensures key in Keys(ranked) <==> NameCount(fs, key) > 0
    {
      if key in Keys(cs) {
        var p :| 0 <= p < |cs| && Keys(cs)[p] == key;
        assert cs[p] in multiset(ranked);
        var q :| 0 <= q < |ranked| && ranked[q] == cs[p];
        assert Keys(ranked)[q] == key;
      }
      if key in Keys(ranked) {
        var q :| 0 <= q < |ranked| && Keys(ranked)[q] == key;
        assert ranked[q].1 == NameCount(fs, key);
      }
    }
  }

  /**
   * `holeTopWindparks`: the parks counted, ranked by the exchange sort of
   * `sortiereNachAnzahl` (largest count first), and cut to the first
   * `min(n, number of names)` entries; none when `n` is not positive.
   * Each entry names a distinct park with its number of facilities, and no
   * park left out has more facilities than any park listed.
   */
  method TopParks(fs: seq<Facility>, n: int) returns (top: seq<(string, int)>)
    ensures |top| == (if n <= 0 then 0 else if n < |CountParks(fs)| then n else |CountParks(fs)|)
    ensures forall i, j :: 0 <= i < j < |top| ==> top[i].1 >= top[j].1
    ensures Distinct(Keys(top))
    ensures forall i :: 0 <= i < |top| ==> top[i].1 == NameCount(fs, top[i].0) > 0
    ensures forall i, key :: 0 <= i < |top| && key !in Keys(top) && NameCount(fs, key) > 0
              ==> top[i].1 >= NameCount(fs, key)
  {
    var counts := CountParks(fs);
    var ranked := SortByCountDescending(counts);
    var k := if n <= 0 then 0 else if n < |ranked| then n else |ranked|;
    top := ranked[..k];
    TopEntries(fs, ranked, k);
    TopLeftOut(fs, ranked, k);
  }

  /** The first `k` entries of a ranking of the park counts name distinct parks with their counts. */
  lemma TopEntries(fs: seq<Facility>, ranked: seq<(string, int)>, k: nat)
    requires multiset(ranked) == multiset(CountParks(fs)) && k <= |ranked|
    ensures Distinct(Keys(ranked[..k]))
    ensures forall i :: 0 <= i < k ==> ranked[i].1 == NameCount(fs, ranked[i].0) > 0
  {
    CountParksCorrect(fs);
    TalliesPermuted(CountParks(fs), ranked, fs);
    assert Keys(ranked[..k]) == Keys(ranked)[..k];
  }

  /** No park left out of the first `k` entries of a descending ranking has more facilities than one listed. */
  lemma TopLeftOut(fs: seq<Facility>, ranked: seq<(string, int)>, k: nat)
    requires multiset(ranked) == multiset(CountParks(fs)) && Descending(ranked) && k <= |ranked|
    ensures forall i, key :: 0 <= i < k && key !in Keys(ranked[..k]) && NameCount(fs, key) > 0
              ==> ranked[i].1 >= NameCount(fs, key)
  {
    CountParksCorrect(fs);
    TalliesPermuted(CountParks(fs), ranked, fs);
    forall i, key | 0 <= i < k && key !in Keys(ranked[..k]) && NameCount(fs, key) > 0
      ensures ranked[i].1 >= NameCount(fs, key)
    {
      var q := LeftOutPosition(ranked, k, key);
    }
  }

}
