/**
 * Summary counts over the register (`util/StatistikBerechner`). Each is a
 * single pass over the facilities; the reference definitions below say
 * the same thing recursively.
 */
module Statistics {
  import opened Wrappers
  import opened Facilities

  /** The facilities of `fs` that satisfy `p`, in order. */
  function Select(p: Facility -> bool, fs: seq<Facility>): (r: seq<Facility>)
    ensures |r| <= |fs|
    ensures forall f :: f in r <==> f in fs && p(f)
  {
    if |fs| == 0 then [] else Select(p, fs[..|fs| - 1]) + (if p(fs[|fs| - 1]) then [fs[|fs| - 1]] else [])
  }

  /** The sum of the present `anzahl` values, a missing one adding nothing. */
  function CountSum(fs: seq<Facility>): int
  {
    if |fs| == 0 then 0 else CountSum(fs[..|fs| - 1]) + fs[|fs| - 1].count.GetOr(0)
  }

  lemma SelectSnoc(p: Facility -> bool, fs: seq<Facility>, i: nat)
    requires i < |fs|
    ensures Select(p, fs[..i + 1]) == Select(p, fs[..i]) + (if p(fs[i]) then [fs[i]] else [])
  {
    assert fs[..i + 1][..i] == fs[..i];
  }

  /** Counting one by one along the list counts every facility satisfying `p`. */
  method CountWhere(p: Facility -> bool, fs: seq<Facility>) returns (n: nat)
    ensures n == |Select(p, fs)|
  {
    n := 0;
    var i := 0;
    while i < |fs|
      invariant i <= |fs| && n == |Select(p, fs[..i])|
    {
      SelectSnoc(p, fs, i);
      if p(fs[i]) {
        n := n + 1;
      }
      i := i + 1;
    }
    assert fs[..i] == fs;
  }

  /** Nothing is selected when no facility satisfies `p`. */
  lemma {:induction false} SelectNone(p: Facility -> bool, fs: seq<Facility>)
    requires forall k :: 0 <= k < |fs| ==> !p(fs[k])
    ensures Select(p, fs) == []
  {
    if |fs| > 0 {
      SelectNone(p, fs[..|fs| - 1]);
    }
  }

  /** All facilities satisfy `p` exactly when all of them are selected. */
  lemma {:induction false} SelectAll(p: Facility -> bool, fs: seq<Facility>)
    ensures |Select(p, fs)| == |fs| <==> forall f :: f in fs ==> p(f)
  {
    if |fs| > 0 {
      var front := fs[..|fs| - 1];
      SelectAll(p, front);
      assert fs == front + [fs[|fs| - 1]];
      if !p(fs[|fs| - 1]) {
        assert |Select(p, fs)| < |fs|;
      }
    }
  }

  /**
   * `zaehleAnlagenMitKoordinaten`: the number of facilities with both
   * coordinates; at most the list length, and equal to it exactly when
   * every facility is located.
   */
  method CountLocated(fs: seq<Facility>) returns (n: nat)
    ensures n == |WithCoordinates(fs)|
    ensures n <= |fs| && (n == |fs| <==> forall f :: f in fs ==> HasCoordinates(f))
  {
    n := CountWhere(HasCoordinates, fs);
    SelectAll(HasCoordinates, fs);
    SelectIsWithCoordinates(fs);
  }

  /** The generic selection by coordinates is the facility filter. */
  lemma {:induction false} SelectIsWithCoordinates(fs: seq<Facility>)
    ensures Select(HasCoordinates, fs) == WithCoordinates(fs)
  {
    if |fs| > 0 {
      var front, f := fs[..|fs| - 1], fs[|fs| - 1];
      SelectIsWithCoordinates(front);
      WithCoordinatesAppend(front, [f]);
      assert fs == front + [f];
      assert WithCoordinates([f]) == (if HasCoordinates(f) then [f] else []) + WithCoordinates([]);
    }
  }

  lemma {:induction false} WithCoordinatesAppend(a: seq<Facility>, b: seq<Facility>)
    ensures WithCoordinates(a + b) == WithCoordinates(a) + WithCoordinates(b)
  {
    if |a| > 0 {
      assert (a + b)[1..] == a[1..] + b;
      assert (a + b)[0] == a[0];
      WithCoordinatesAppend(a[1..], b);
    } else {
      assert a + b == b;
    }
  }

  /** A facility without an operator. */
  predicate NoOperator(f: Facility)
  {
    f.operator.None?
  }

  /**
   * `zaehleAnlagenOhneBetreiber`: the number of facilities whose operator
   * is missing; at most the list length, and 0 exactly when every facility
   * names an operator.
   */
  method CountWithoutOperator(fs: seq<Facility>) returns (n: nat)
    ensures n == |Select(NoOperator, fs)|
    ensures n <= |fs| && (n == 0 <==> forall f :: f in fs ==> f.operator.Some?)
  {
    n := CountWhere(NoOperator, fs);
    if n != 0 {
      assert Select(NoOperator, fs)[0] in Select(NoOperator, fs);
    }
  }

  /**
   * `berechneGesamtanzahl`: the sum of the `anzahl` values, a missing
   * value counting as 0; 0 for an empty list or one without any value.
   */
  method TotalCount(fs: seq<Facility>) returns (total: int)
    ensures total == CountSum(fs)
    ensures (forall f :: f in fs ==> f.count.None?) ==> total == 0
    ensures (forall f :: f in fs ==> f.count.GetOr(0) >= 0) ==> total >= 0
  {
    total := 0;
    var i := 0;
    while i < |fs|
      invariant i <= |fs| && total == CountSum(fs[..i])
    {
      assert fs[..i + 1][..i] == fs[..i];
      total := total + fs[i].count.GetOr(0);
      i := i + 1;
    }
    assert fs[..i] == fs;
    CountSumSign(fs);
  }

  lemma {:induction false} CountSumSign(fs: seq<Facility>)
    ensures (forall f :: f in fs ==> f.count.None?) ==> CountSum(fs) == 0
    ensures (forall f :: f in fs ==> f.count.GetOr(0) >= 0) ==> CountSum(fs) >= 0
  {
    if |fs| > 0 {
      var front := fs[..|fs| - 1];
      CountSumSign(front);
      assert forall f :: f in front ==> f in fs;
      assert fs[|fs| - 1] in fs;
    }
  }
}
