/**
 * The three orderings of `WindkraftanlagenSortierer`: each copies the list
 * and bubble-sorts the copy with an early exit after a pass without swaps.
 * The input is a value, so it is unchanged by construction.
 */
module Sorting {
  import opened Seqs
  import opened Facilities
  import opened Comparators
  import opened Wrappers

  /** Neighbours are in order: no element sorts after its successor. */
  ghost predicate SortedFrom<T>(cmp: (T, T) -> int, r: seq<T>, m: nat)
  {
    forall k :: m <= k < |r| - 1 ==> cmp(r[k], r[k + 1]) <= 0
  }

  ghost predicate Sorted<T>(cmp: (T, T) -> int, r: seq<T>)
  {
    SortedFrom(cmp, r, 0)
  }

  /** No element before position `m` sorts after the element at `m`. */
  ghost predicate Bounded<T>(cmp: (T, T) -> int, r: seq<T>, m: nat)
  {
    m < |r| ==> forall k :: 0 <= k < m ==> cmp(r[k], r[m]) <= 0
  }

  /** `r` is `s` rearranged, element `k` of `r` coming from position `idx[k]` of `s`. */
  ghost predicate Origins<T>(s: seq<T>, r: seq<T>, idx: seq<nat>)
  {
    && |r| == |s| && |idx| == |s|
    && IndicesBelow(idx, |s|) && Distinct(idx)
    && (forall k :: 0 <= k < |r| ==> r[k] == s[idx[k]])
  }

  /** Elements that compare equal appear in the order of their origins. */
  ghost predicate Stable<T>(cmp: (T, T) -> int, r: seq<T>, idx: seq<nat>)
    requires |idx| == |r|
  {
    forall k, l :: 0 <= k < l < |r| && cmp(r[k], r[l]) == 0 ==> idx[k] < idx[l]
  }

  /** A stable rearrangement of `s`, with the origins `idx`. */
  ghost predicate Tracks<T>(cmp: (T, T) -> int, s: seq<T>, r: seq<T>, idx: seq<nat>)
  {
    Origins(s, r, idx) && multiset(r) == multiset(s) && Stable(cmp, r, idx)
  }

  /** `xs` with the neighbours at `j` and `j + 1` exchanged. */
  function Swap<T>(xs: seq<T>, j: nat): (r: seq<T>)
    requires j + 1 < |xs|
    ensures |r| == |xs| && r[j] == xs[j + 1] && r[j + 1] == xs[j]
    ensures forall k :: 0 <= k < |xs| && k != j && k != j + 1 ==> r[k] == xs[k]
  {
    xs[j := xs[j + 1]][j + 1 := xs[j]]
  }

  lemma SwapMultiset<T>(xs: seq<T>, j: nat)
    requires j + 1 < |xs|
    ensures multiset(Swap(xs, j)) == multiset(xs)
  {
    assert xs == xs[..j] + [xs[j], xs[j + 1]] + xs[j + 2..];
    assert Swap(xs, j) == xs[..j] + [xs[j + 1], xs[j]] + xs[j + 2..];
  }

  lemma SwapOrigins<T>(s: seq<T>, r: seq<T>, idx: seq<nat>, j: nat)
    requires Origins(s, r, idx) && j + 1 < |r|
    ensures Origins(s, Swap(r, j), Swap(idx, j))
  {
    var idx' := Swap(idx, j);
    forall a, b | 0 <= a < b < |idx'|
      ensures idx'[a] != idx'[b]
    {
      var from := (k: nat) => if k == j then j + 1 else if k == j + 1 then j else k;
      assert idx'[a] == idx[from(a)] && idx'[b] == idx[from(b)];
      assert from(a) != from(b);
    }
  }

  lemma SwapStable<T(!new)>(cmp: (T, T) -> int, r: seq<T>, idx: seq<nat>, j: nat)
    requires IsOrder(cmp) && |idx| == |r| && Stable(cmp, r, idx)
    requires j + 1 < |r| && cmp(r[j], r[j + 1]) > 0
    ensures Stable(cmp, Swap(r, j), Swap(idx, j))
  {
    var r', idx' := Swap(r, j), Swap(idx, j);
    assert Sign(cmp(r[j], r[j + 1])) == -Sign(cmp(r[j + 1], r[j]));
    forall k, l | 0 <= k < l < |r'| && cmp(r'[k], r'[l]) == 0
      ensures idx'[k] < idx'[l]
    {
      var from := (k: nat) => if k == j then j + 1 else if k == j + 1 then j else k;
      assert r'[k] == r[from(k)] && idx'[k] == idx[from(k)];
      assert r'[l] == r[from(l)] && idx'[l] == idx[from(l)];
      assert from(k) < from(l);
    }
  }

  /** Exchanging two neighbours that are out of order keeps the tracking. */
  lemma SwapTracks<T(!new)>(cmp: (T, T) -> int, s: seq<T>, r: seq<T>, idx: seq<nat>, j: nat)
    requires IsOrder(cmp) && Tracks(cmp, s, r, idx)
    requires j + 1 < |r| && cmp(r[j], r[j + 1]) > 0
    ensures Tracks(cmp, s, Swap(r, j), Swap(idx, j))
  {
    SwapMultiset(r, j);
    SwapOrigins(s, r, idx, j);
    SwapStable(cmp, r, idx, j);
  }

  /** Every element before `j` sorts no later than the element at `j`. */
  ghost predicate MaxAt<T>(cmp: (T, T) -> int, r: seq<T>, j: nat)
    requires j < |r|
  {
    forall k :: 0 <= k < j ==> cmp(r[k], r[j]) <= 0
  }

  /** The step of a pass at `j`: the larger of the two neighbours moves to `j + 1`. */
  lemma StepKeepsMax<T(!new)>(cmp: (T, T) -> int, r: seq<T>, j: nat, m: nat)
    requires IsOrder(cmp) && j + 1 < m <= |r| && MaxAt(cmp, r, j) && Bounded(cmp, r, m)
    ensures cmp(r[j], r[j + 1]) > 0 ==> MaxAt(cmp, Swap(r, j), j + 1) && Bounded(cmp, Swap(r, j), m)
    ensures cmp(r[j], r[j + 1]) <= 0 ==> MaxAt(cmp, r, j + 1)
  {
    if cmp(r[j], r[j + 1]) > 0 {
      var r' := Swap(r, j);
      assert Sign(cmp(r[j], r[j + 1])) == -Sign(cmp(r[j + 1], r[j]));
      forall k | 0 <= k < j + 1
        ensures cmp(r'[k], r'[j + 1]) <= 0
      {
        if k < j { assert r'[k] == r[k]; }
      }
      if m < |r| {
        forall k | 0 <= k < m
          ensures cmp(r'[k], r'[m]) <= 0
        {
          assert r'[m] == r[m];
          if k == j { assert r'[k] == r[j + 1]; } else if k == j + 1 { assert r'[k] == r[j]; } else { assert r'[k] == r[k]; }
        }
      }
    } else {
      forall k | 0 <= k < j + 1
        ensures cmp(r[k], r[j + 1]) <= 0
      {
        if k < j { assert cmp(r[k], r[j]) <= 0; }
      }
    }
  }

  /** At the end of a pass the prefix maximum sits at `m - 1`, extending the sorted suffix. */
  lemma PassEnds<T(!new)>(cmp: (T, T) -> int, r0: seq<T>, r: seq<T>, m: nat)
    requires 1 <= m <= |r0| == |r| && SortedFrom(cmp, r0, m)
    requires forall k :: m <= k < |r| ==> r[k] == r0[k]
    requires Bounded(cmp, r, m) && MaxAt(cmp, r, m - 1)
    ensures SortedFrom(cmp, r, m - 1) && Bounded(cmp, r, m - 1)
  {
    forall k | m - 1 <= k < |r| - 1
      ensures cmp(r[k], r[k + 1]) <= 0
    {
      if k >= m {
        assert cmp(r0[k], r0[k + 1]) <= 0;
      }
    }
  }

  /**
   * One pass of the inner loop over the unsorted prefix `r[..m]`: the
   * largest prefix element moves to position `m - 1`, and a pass without
   * swaps leaves the list as it was and shows it sorted.
   */
  method Pass<T(!new)>(cmp: (T, T) -> int, ghost s: seq<T>, r0: seq<T>, ghost idx0: seq<nat>, m: nat)
    returns (r: seq<T>, ghost idx: seq<nat>, swapped: bool)
    requires IsOrder(cmp) && Tracks(cmp, s, r0, idx0)
    requires 1 <= m <= |r0| && SortedFrom(cmp, r0, m) && Bounded(cmp, r0, m)
    ensures Tracks(cmp, s, r, idx)
    ensures SortedFrom(cmp, r, m - 1) && Bounded(cmp, r, m - 1)
    ensures !swapped ==> r == r0 && Sorted(cmp, r)
  {
    r, idx, swapped := r0, idx0, false;
    var j := 0;
    while j < m - 1
      invariant 0 <= j <= m - 1
      invariant Tracks(cmp, s, r, idx)
      invariant |r| == |r0| && forall k :: m <= k < |r| ==> r[k] == r0[k]
      invariant Bounded(cmp, r, m) && MaxAt(cmp, r, j)
      invariant !swapped ==> r == r0 && InOrderBelow(cmp, r, j)
    {
      var exchanged;
      r, idx, exchanged := PassStep(cmp, s, r, idx, j, m);
      if !swapped && !exchanged {
        InOrderStep(cmp, r, j);
      }
      swapped := swapped || exchanged;
      j := j + 1;
    }
    if !swapped {
      InOrderPrefix(cmp, r, j);
    }
    PassEnds(cmp, r0, r, m);
  }

  /** The neighbours before position `j` are in order. */
  ghost predicate InOrderBelow<T>(cmp: (T, T) -> int, r: seq<T>, j: nat)
  {
    forall k :: 0 <= k < j && k + 1 < |r| ==> cmp(r[k], r[k + 1]) <= 0
  }

  lemma InOrderStep<T>(cmp: (T, T) -> int, r: seq<T>, j: nat)
    requires j + 1 < |r| && InOrderBelow(cmp, r, j) && cmp(r[j], r[j + 1]) <= 0
    ensures InOrderBelow(cmp, r, j + 1)
  {
  }

  lemma InOrderPrefix<T>(cmp: (T, T) -> int, r: seq<T>, j: nat)
    requires InOrderBelow(cmp, r, j)
    ensures forall k :: 0 <= k < j && k + 1 < |r| ==> cmp(r[k], r[k + 1]) <= 0
  {
  }

  /** One comparison of a pass at `j`: exchange the neighbours when they are out of order. */
  method PassStep<T(!new)>(cmp: (T, T) -> int, ghost s: seq<T>, r: seq<T>, ghost idx: seq<nat>, j: nat, m: nat)
    returns (r': seq<T>, ghost idx': seq<nat>, exchanged: bool)
    requires IsOrder(cmp) && Tracks(cmp, s, r, idx)
    requires j + 1 < m <= |r| && Bounded(cmp, r, m) && MaxAt(cmp, r, j)
    ensures Tracks(cmp, s, r', idx')
    ensures |r'| == |r| && forall k :: m <= k < |r| ==> r'[k] == r[k]
    ensures Bounded(cmp, r', m) && MaxAt(cmp, r', j + 1)
    ensures exchanged <==> cmp(r[j], r[j + 1]) > 0
    ensures !exchanged ==> r' == r
  {
    StepKeepsMax(cmp, r, j, m);
    r', idx', exchanged := r, idx, false;
    if cmp(r[j], r[j + 1]) > 0 {
      SwapTracks(cmp, s, r, idx, j);
      r', idx', exchanged := Swap(r, j), Swap(idx, j), true;
    }
  }

  /**
   * `bubbleSort*`: passes over a shrinking prefix until one makes no swap.
   * The result is the input rearranged (`idx` says from where), its
   * neighbours are in order, and equal elements keep their input order.
   */
  method BubbleSort<T(!new)>(cmp: (T, T) -> int, s: seq<T>) returns (r: seq<T>, ghost idx: seq<nat>)
    requires IsOrder(cmp)
    ensures |r| == |s| && multiset(r) == multiset(s)
    ensures Sorted(cmp, r)
    ensures |idx| == |s| && IndicesBelow(idx, |s|) && Distinct(idx) && r == Pick(idx, s)
    ensures forall k, l :: 0 <= k < l < |r| && cmp(r[k], r[l]) == 0 ==> idx[k] < idx[l]
  {
    var n := |s|;
    r, idx := s, Range(n);
    StartTracks(cmp, s);
    var i, done := 0, false;
    while i < n - 1 && !done
      invariant i <= n
      invariant Tracks(cmp, s, r, idx)
      invariant SortedFrom(cmp, r, n - i) && Bounded(cmp, r, n - i)
      invariant done ==> Sorted(cmp, r)
    {
      var swapped;
      r, idx, swapped := Pass(cmp, s, r, idx, n - i);
      done := !swapped;
      i := i + 1;
    }
    if !done {
      SortedFromStart(cmp, r, n - i);
    }
    TracksResult(cmp, s, r, idx);
  }

  /** Before the first pass the list is its own stable rearrangement, every element in place. */
  lemma StartTracks<T>(cmp: (T, T) -> int, s: seq<T>)
    ensures Tracks(cmp, s, s, Range(|s|))
  {
  }

  /** A stable rearrangement, spelled out as the sort's result. */
  lemma TracksResult<T>(cmp: (T, T) -> int, s: seq<T>, r: seq<T>, idx: seq<nat>)
    requires Tracks(cmp, s, r, idx)
    ensures |r| == |s| && multiset(r) == multiset(s)
    ensures |idx| == |s| && IndicesBelow(idx, |s|) && Distinct(idx) && r == Pick(idx, s)
    ensures forall k, l :: 0 <= k < l < |r| && cmp(r[k], r[l]) == 0 ==> idx[k] < idx[l]
  {
    assert r == Pick(idx, s);
  }

  /** A sorted suffix that starts at position 0 or 1 and bounds its prefix covers everything. */
  lemma SortedFromStart<T>(cmp: (T, T) -> int, r: seq<T>, m: nat)
    requires m <= 1 && SortedFrom(cmp, r, m) && Bounded(cmp, r, m)
    ensures Sorted(cmp, r)
  {
    if m == 1 && |r| > 1 {
      assert cmp(r[0], r[1]) <= 0;
    }
  }

  /** `vergleicheOrtNameId`: by place, then name, then id. */
  function ComparePlaceNameId(text: (string, string) -> int, a: Facility, b: Facility): (r: int)
    ensures r == -1 || r == 0 || r == 1
  {
    var byPlace := CompareText(text, a.place, b.place);
    if byPlace != 0 then byPlace
    else
      var byName := CompareText(text, a.name, b.name);
      if byName != 0 then byName else ComparePlain(a.id, b.id)
  }

  /** `vergleicheLeistungBaujahrName`: by power descending, then year, then name. */
  function ComparePowerYearName(text: (string, string) -> int, a: Facility, b: Facility): (r: int)
    ensures r == -1 || r == 0 || r == 1
  {
    var byPower := CompareRealDescending(a.powerMW, b.powerMW);
    if byPower != 0 then byPower
    else
      var byYear := CompareInt(a.year, b.year);
      if byYear != 0 then byYear else CompareText(text, a.name, b.name)
  }

  /** `vergleicheLandkreisOrtName`: by district, then place, then name. */
  function CompareDistrictPlaceName(text: (string, string) -> int, a: Facility, b: Facility): (r: int)
    ensures r == -1 || r == 0 || r == 1
  {
    var byDistrict := CompareText(text, a.district, b.district);
    if byDistrict != 0 then byDistrict
    else
      var byPlace := CompareText(text, a.place, b.place);
      if byPlace != 0 then byPlace else CompareText(text, a.name, b.name)
  }

  /** Three comparators of an order, combined lexicographically, give an order. */
  lemma Lexicographic<T(!new)>(c1: (T, T) -> int, c2: (T, T) -> int, c3: (T, T) -> int, c: (T, T) -> int)
    requires IsOrder(c1) && IsOrder(c2) && IsOrder(c3)
    requires forall a, b :: c(a, b) == (if c1(a, b) != 0 then c1(a, b) else if c2(a, b) != 0 then c2(a, b) else c3(a, b))
    ensures IsOrder(c)
  {
    var rest := (a: T, b: T) => Then(c2, c3, a, b);
    ThenOrder(c2, c3, rest);
    ThenOrder(c1, rest, c);
  }

  /** A text key compared with `vergleicheStringNullSicher` orders facilities consistently. */
  lemma TextKeyOrder(text: (string, string) -> int, key: Facility -> Option<string>, c: (Facility, Facility) -> int)
    requires IsOrder(text)
    requires forall a, b :: c(a, b) == CompareText(text, key(a), key(b))
    ensures IsOrder(c)
  {
    var texts := (x: Option<string>, y: Option<string>) => CompareText(text, x, y);
    CompareTextOrder(text, texts);
    ByKey(texts, key, c);
  }

  /** The place-name-id comparator is an order whenever the text comparison is. */
  lemma PlaceNameIdOrder(text: (string, string) -> int, c: (Facility, Facility) -> int)
    requires IsOrder(text)
    requires forall a, b :: c(a, b) == ComparePlaceNameId(text, a, b)
    ensures IsOrder(c)
  {
    var place := (a: Facility, b: Facility) => CompareText(text, a.place, b.place);
    var name := (a: Facility, b: Facility) => CompareText(text, a.name, b.name);
    var id := (a: Facility, b: Facility) => ComparePlain(a.id, b.id);
    TextKeyOrder(text, (f: Facility) => f.place, place);
    TextKeyOrder(text, (f: Facility) => f.name, name);
    NumericOrders();
    ByKey(ComparePlain, (f: Facility) => f.id, id);
    Lexicographic(place, name, id, c);
  }

  /** The power-year-name comparator is an order whenever the text comparison is. */
  lemma PowerYearNameOrder(text: (string, string) -> int, c: (Facility, Facility) -> int)
    requires IsOrder(text)
    requires forall a, b :: c(a, b) == ComparePowerYearName(text, a, b)
    ensures IsOrder(c)
  {
    var power := (a: Facility, b: Facility) => CompareRealDescending(a.powerMW, b.powerMW);
    var year := (a: Facility, b: Facility) => CompareInt(a.year, b.year);
    var name := (a: Facility, b: Facility) => CompareText(text, a.name, b.name);
    NumericOrders();
    ByKey(CompareRealDescending, (f: Facility) => f.powerMW, power);
    ByKey(CompareInt, (f: Facility) => f.year, year);
    TextKeyOrder(text, (f: Facility) => f.name, name);
    Lexicographic(power, year, name, c);
  }

  /** The district-place-name comparator is an order whenever the text comparison is. */
  lemma DistrictPlaceNameOrder(text: (string, string) -> int, c: (Facility, Facility) -> int)
    requires IsOrder(text)
    requires forall a, b :: c(a, b) == CompareDistrictPlaceName(text, a, b)
    ensures IsOrder(c)
  {
    var district := (a: Facility, b: Facility) => CompareText(text, a.district, b.district);
    var place := (a: Facility, b: Facility) => CompareText(text, a.place, b.place);
    var name := (a: Facility, b: Facility) => CompareText(text, a.name, b.name);
    TextKeyOrder(text, (f: Facility) => f.district, district);
    TextKeyOrder(text, (f: Facility) => f.place, place);
    TextKeyOrder(text, (f: Facility) => f.name, name);
    Lexicographic(district, place, name, c);
  }

  /** `sortiereNachOrtNameId`. */
  method SortByPlaceNameId(text: (string, string) -> int, fs: seq<Facility>) returns (r: seq<Facility>, ghost idx: seq<nat>)
    requires IsOrder(text)
    ensures multiset(r) == multiset(fs)
    ensures forall k :: 0 <= k < |r| - 1 ==> ComparePlaceNameId(text, r[k], r[k + 1]) <= 0
    ensures |idx| == |fs| && IndicesBelow(idx, |fs|) && Distinct(idx) && r == Pick(idx, fs)
    ensures forall k, l :: 0 <= k < l < |r| && ComparePlaceNameId(text, r[k], r[l]) == 0 ==> idx[k] < idx[l]
  {
    var cmp := (a: Facility, b: Facility) => ComparePlaceNameId(text, a, b);
    PlaceNameIdOrder(text, cmp);
    r, idx := BubbleSort(cmp, fs);
  }

  /** `sortiereNachLeistungBaujahrName`. */
  method SortByPowerYearName(text: (string, string) -> int, fs: seq<Facility>) returns (r: seq<Facility>, ghost idx: seq<nat>)
    requires IsOrder(text)
    ensures multiset(r) == multiset(fs)
    ensures forall k :: 0 <= k < |r| - 1 ==> ComparePowerYearName(text, r[k], r[k + 1]) <= 0
    ensures |idx| == |fs| && IndicesBelow(idx, |fs|) && Distinct(idx) && r == Pick(idx, fs)
    ensures forall k, l :: 0 <= k < l < |r| && ComparePowerYearName(text, r[k], r[l]) == 0 ==> idx[k] < idx[l]
  {
    var cmp := (a: Facility, b: Facility) => ComparePowerYearName(text, a, b);
    PowerYearNameOrder(text, cmp);
    r, idx := BubbleSort(cmp, fs);
  }

  /** `sortiereNachLandkreisOrtName`. */
  method SortByDistrictPlaceName(text: (string, string) -> int, fs: seq<Facility>) returns (r: seq<Facility>, ghost idx: seq<nat>)
    requires IsOrder(text)
    ensures multiset(r) == multiset(fs)
    ensures forall k :: 0 <= k < |r| - 1 ==> CompareDistrictPlaceName(text, r[k], r[k + 1]) <= 0
    ensures |idx| == |fs| && IndicesBelow(idx, |fs|) && Distinct(idx) && r == Pick(idx, fs)
    ensures forall k, l :: 0 <= k < l < |r| && CompareDistrictPlaceName(text, r[k], r[l]) == 0 ==> idx[k] < idx[l]
  {
    var cmp := (a: Facility, b: Facility) => CompareDistrictPlaceName(text, a, b);
    DistrictPlaceNameOrder(text, cmp);
    r, idx := BubbleSort(cmp, fs);
  }
}
