/**
 * Maintenance time of one route (`WartungsZeitBerechner`): work days,
 * the day-by-day plan, transport warnings and extra travel days.
 */
module Schedule {
  import opened Seqs
  import opened Numbers
  import opened Facilities
  import opened Geo
  import opened Settings

  /** `berechneWartungstage`: the number of days needed at `perDay` facilities a day. */
  function WorkDays(c: Config, route: seq<Facility>): (d: nat)
    requires c.perDay > 0
  {
    if |route| == 0 then 0 else (|route| + c.perDay - 1) / c.perDay
  }

  /** `WorkDays` is the smallest number of full days that holds the whole route. */
  lemma WorkDaysIsCeiling(c: Config, route: seq<Facility>)
    requires c.perDay > 0
    ensures var d := WorkDays(c, route);
            |route| <= d * c.perDay && (d > 0 ==> (d - 1) * c.perDay < |route|) &&
            (d == 0 <==> |route| == 0)
  {
    var n, p := |route|, c.perDay;
    if n > 0 {
      var d := (n + p - 1) / p;
      var rem := (n + p - 1) % p;
      assert n + p - 1 == d * p + rem;
      assert (d - 1) * p == d * p - p;
    }
  }

  /** Splits `s` into consecutive chunks of `size` elements; the last may be shorter. */
  function Chunks<T>(size: nat, s: seq<T>): (r: seq<seq<T>>)
    requires size > 0
    ensures forall k :: 0 <= k < |r| ==> 0 < |r[k]| <= size
    decreases |s|
  {
    if |s| == 0 then []
    else if |s| <= size then [s]
    else [s[..size]] + Chunks(size, s[size..])
  }

  /** The chunks concatenate back to `s`, and every chunk but the last is full. */
  lemma {:induction false} ChunksSpec<T>(size: nat, s: seq<T>)
    requires size > 0
    ensures Flatten(Chunks(size, s)) == s
    ensures forall k :: 0 <= k < |Chunks(size, s)| - 1 ==> |Chunks(size, s)[k]| == size
    decreases |s|
  {
    if |s| > size {
      var rest := Chunks(size, s[size..]);
      ChunksSpec(size, s[size..]);
      assert Chunks(size, s) == [s[..size]] + rest;
      assert ([s[..size]] + rest)[1..] == rest;
      assert s == s[..size] + s[size..];
    } else if |s| > 0 {
      assert [s][1..] == [];
    }
  }

  /** There is one chunk per started block of `size` elements. */
  lemma {:induction false} ChunksCount<T>(size: nat, s: seq<T>)
    requires size > 0
    ensures |Chunks(size, s)| == (|s| + size - 1) / size
    decreases |s|
  {
    if |s| > size {
      ChunksCount(size, s[size..]);
      DivStep(|s| + size - 1, size);
    } else if |s| > 0 {
      DivUnique(|s| + size - 1, size, 1, |s| - 1);
    } else {
      DivUnique(size - 1, size, 0, size - 1);
    }
  }

  /** Quotient and remainder are determined by `n == q * p + r` with `0 <= r < p`. */
  lemma DivUnique(n: int, p: int, q: int, r: int)
    requires p > 0 && 0 <= r < p && n == q * p + r
    ensures n / p == q && n % p == r
  {
    var q', r' := n / p, n % p;
    var k := q - q';
    assert k * p == r' - r;
    MultipleGap(k, p);
  }

  /** A non-zero multiple of `p` is at least `p` away from zero. */
  lemma {:induction false} MultipleGap(k: int, p: int)
    requires p > 0
    ensures k == 0 || k * p >= p || k * p <= -p
    decreases if k < 0 then -k else k
  {
    if k > 1 {
      MultipleGap(k - 1, p);
      assert k * p == (k - 1) * p + p;
    } else if k < -1 {
      MultipleGap(k + 1, p);
      assert k * p == (k + 1) * p - p;
    }
  }

  /** Taking `p` off `n` takes one off the quotient and keeps the remainder. */
  lemma DivStep(n: int, p: int)
    requires p > 0 && n >= p
    ensures n / p == (n - p) / p + 1 && n % p == (n - p) % p
  {
    var q, r := (n - p) / p, (n - p) % p;
    assert n == (q + 1) * p + r;
    DivUnique(n, p, q + 1, r);
  }

  /** Element `k` sits in chunk `k / size` at position `k % size`. */
  lemma {:induction false} ChunkPosition<T>(size: nat, s: seq<T>, k: nat)
    requires size > 0 && k < |s|
    ensures k / size < |Chunks(size, s)|
    ensures k % size < |Chunks(size, s)[k / size]|
    ensures Chunks(size, s)[k / size][k % size] == s[k]
    decreases |s|
  {
    if k >= size {
      DivStep(k, size);
      ChunkPosition(size, s[size..], k - size);
      var rest := Chunks(size, s[size..]);
      assert Chunks(size, s) == [s[..size]] + rest;
      assert Chunks(size, s)[k / size] == rest[(k - size) / size];
    } else {
      DivUnique(k, size, 0, k);
    }
  }

  /** `erstelleArbeitsplan`: the facility ids of each work day, in route order. */
  function DayPlan(c: Config, route: seq<Facility>): (plan: seq<seq<int>>)
    requires c.perDay > 0
    ensures Flatten(plan) == Ids(route)
    ensures forall k :: 0 <= k < |plan| ==> 0 < |plan[k]| <= c.perDay
    ensures forall k :: 0 <= k < |plan| - 1 ==> |plan[k]| == c.perDay
  {
    ChunksSpec(c.perDay, Ids(route));
    Chunks(c.perDay, Ids(route))
  }

  /**
   * The day plan has one entry per work day, and facility `k` of the route
   * is serviced on day `k / perDay`.
   */
  lemma DayPlanMatchesWorkDays(c: Config, route: seq<Facility>)
    requires c.perDay > 0
    ensures |DayPlan(c, route)| == WorkDays(c, route)
    ensures forall k :: 0 <= k < |route| ==>
              k / c.perDay < |DayPlan(c, route)| && k % c.perDay < |DayPlan(c, route)[k / c.perDay]| &&
              DayPlan(c, route)[k / c.perDay][k % c.perDay] == route[k].id
  {
    ChunksCount(c.perDay, Ids(route));
    forall k | 0 <= k < |route|
      ensures k / c.perDay < |DayPlan(c, route)| && k % c.perDay < |DayPlan(c, route)[k / c.perDay]| &&
              DayPlan(c, route)[k / c.perDay][k % c.perDay] == route[k].id
    {
      ChunkPosition(c.perDay, Ids(route), k);
    }
  }

  // ---------------------------------------------------------------------
  // Transport

  /** A leg longer than the transport budget, by facility ids and distance. */
  datatype TransportWarning = TransportWarning(from: int, to: int, distance: real)

  /** The leg from stop `i` to stop `i + 1` exceeds the transport budget. */
  predicate LongLeg(c: Config, m: Metric, route: seq<Facility>, i: nat)
    requires IsDistance(m) && i + 1 < |route|
  {
    RouteDistance(m, route[i], route[i + 1]) > c.maxTransportKm
  }

  /** The warnings of the legs from stop `i` on. */
  function WarningsFrom(c: Config, m: Metric, route: seq<Facility>, i: nat): (ws: seq<TransportWarning>)
    requires IsDistance(m)
    decreases |route| - i
  {
    if i + 1 >= |route| then []
    else
      var d := RouteDistance(m, route[i], route[i + 1]);
      (if d > c.maxTransportKm then [WarningAt(m, route, i)] else []) +
      WarningsFrom(c, m, route, i + 1)
  }

  /** `pruefeTransportDistanzen`: a warning for every leg of the route over the budget. */
  function TransportWarnings(c: Config, m: Metric, route: seq<Facility>): seq<TransportWarning>
    requires IsDistance(m)
  {
    if |route| < 2 then [] else WarningsFrom(c, m, route, 0)
  }

  /** The warning about the leg from stop `l`. */
  function WarningAt(m: Metric, route: seq<Facility>, l: nat): TransportWarning
    requires IsDistance(m) && l + 1 < |route|
  {
    TransportWarning(route[l].id, route[l + 1].id, RouteDistance(m, route[l], route[l + 1]))
  }

  lemma {:induction false} WarningsFromSound(c: Config, m: Metric, route: seq<Facility>, i: nat)
    requires IsDistance(m)
    ensures forall w :: w in WarningsFrom(c, m, route, i) ==>
              exists l: nat :: i <= l && l + 1 < |route| && LongLeg(c, m, route, l) && w == WarningAt(m, route, l)
    decreases |route| - i
  {
    if i + 1 < |route| {
      WarningsFromSound(c, m, route, i + 1);
    }
  }

  lemma {:induction false} WarningsFromComplete(c: Config, m: Metric, route: seq<Facility>, i: nat)
    requires IsDistance(m)
    ensures forall l: nat :: i <= l && l + 1 < |route| && LongLeg(c, m, route, l) ==> WarningAt(m, route, l) in WarningsFrom(c, m, route, i)
    decreases |route| - i
  {
    if i + 1 < |route| {
      WarningsFromComplete(c, m, route, i + 1);
    }
  }

  /**
   * Every warning names a leg over the budget, every such leg is warned
   * about, and so there are no warnings exactly when every leg is within
   * the budget.
   */
  lemma TransportWarningsCorrect(c: Config, m: Metric, route: seq<Facility>)
    requires IsDistance(m)
    ensures var ws := TransportWarnings(c, m, route);
            (forall w :: w in ws ==> exists l: nat :: l + 1 < |route| && LongLeg(c, m, route, l) && w == WarningAt(m, route, l)) &&
            (forall l: nat :: l + 1 < |route| && LongLeg(c, m, route, l) ==> WarningAt(m, route, l) in ws) &&
            (ws == [] <==> forall l: nat :: l + 1 < |route| ==> !LongLeg(c, m, route, l))
  {
    if |route| >= 2 {
      WarningsFromSound(c, m, route, 0);
      WarningsFromComplete(c, m, route, 0);
      var ws := TransportWarnings(c, m, route);
      if ws != [] {
        var w := ws[0];
        assert w in ws;
      }
    }
  }

  /** The extra days one leg of length `d` costs: every started work day of driving beyond the budget. */
  function LegDays(c: Config, d: real): (n: nat)
    requires c.speedKmh > 0.0 && c.workHours > 0.0
    ensures n > 0 <==> d > c.maxTransportKm
    ensures n > 0 ==> (n - 1) as real < (d - c.maxTransportKm) / c.speedKmh / c.workHours <= n as real
  {
    if d > c.maxTransportKm then Ceil((d - c.maxTransportKm) / c.speedKmh / c.workHours) else 0
  }

  /** The extra days of the day-boundary legs from stop `i` on, every `perDay` stops. */
  function ExtraFrom(c: Config, m: Metric, route: seq<Facility>, i: nat): nat
    requires IsDistance(m) && Valid(c)
    decreases |route| - i
  {
    if i + 1 >= |route| then 0
    else LegDays(c, RouteDistance(m, route[i], route[i + 1])) + ExtraFrom(c, m, route, i + c.perDay)
  }

  /**
   * `berechneZusaetzlicheReisetage`: only the legs from the last stop of a
   * work day to the first stop of the next one can add travel days.
   */
  function ExtraTravelDays(c: Config, m: Metric, route: seq<Facility>): nat
    requires IsDistance(m) && Valid(c)
  {
    if |route| < 2 then 0 else ExtraFrom(c, m, route, c.perDay - 1)
  }

  /** The extra days of the legs between consecutive chunks of a day plan. */
  function BoundaryDays(c: Config, m: Metric, days: seq<seq<Facility>>): nat
    requires IsDistance(m) && Valid(c)
    requires forall k :: 0 <= k < |days| ==> |days[k]| > 0
  {
    if |days| < 2 then 0
    else LegDays(c, RouteDistance(m, days[0][|days[0]| - 1], days[1][0])) + BoundaryDays(c, m, days[1..])
  }

  lemma {:induction false} ExtraFromShift(c: Config, m: Metric, route: seq<Facility>, i: nat)
    requires IsDistance(m) && Valid(c) && |route| >= c.perDay
    ensures ExtraFrom(c, m, route, c.perDay + i) == ExtraFrom(c, m, route[c.perDay..], i)
    decreases |route| - i
  {
    if c.perDay + i + 1 < |route| {
      ExtraFromShift(c, m, route, i + c.perDay);
    }
  }

  /** A route that fits into one work day has no day boundary and so no extra travel days. */
  lemma ShortRouteNoExtraDays(c: Config, m: Metric, route: seq<Facility>)
    requires IsDistance(m) && Valid(c) && |route| <= c.perDay
    ensures ExtraTravelDays(c, m, route) == 0
  {
  }

  /** The extra travel days are the extra days from the last stop of the first day on. */
  lemma ExtraTravelDaysFrom(c: Config, m: Metric, route: seq<Facility>)
    requires IsDistance(m) && Valid(c)
    ensures ExtraTravelDays(c, m, route) == ExtraFrom(c, m, route, c.perDay - 1)
  {
  }

  /**
   * The extra travel days are exactly the extra days of the transitions
   * between consecutive days of the plan.
   */
  lemma {:induction false} ExtraTravelDaysAtBoundaries(c: Config, m: Metric, route: seq<Facility>)
    requires IsDistance(m) && Valid(c)
    ensures ExtraTravelDays(c, m, route) == BoundaryDays(c, m, Chunks(c.perDay, route))
    decreases |route|
  {
    var p := c.perDay;
    if |route| > p {
      var rest := route[p..];
      var leg := LegDays(c, RouteDistance(m, route[p - 1], route[p]));
      ExtraTravelDaysFrom(c, m, route);
      ExtraTravelDaysFrom(c, m, rest);
      ExtraFromStep(c, m, route, p - 1);
      ExtraFromShift(c, m, route, p - 1);
      assert ExtraTravelDays(c, m, route) == leg + ExtraTravelDays(c, m, rest);
      BoundaryDaysStep(c, m, route);
      ExtraTravelDaysAtBoundaries(c, m, rest);
    } else {
      assert |Chunks(p, route)| <= 1;
    }
  }

  lemma ExtraFromStep(c: Config, m: Metric, route: seq<Facility>, i: nat)
    requires IsDistance(m) && Valid(c) && i + 1 < |route|
    ensures ExtraFrom(c, m, route, i)
            == LegDays(c, RouteDistance(m, route[i], route[i + 1])) + ExtraFrom(c, m, route, i + c.perDay)
  {
  }

  /** The first boundary of a plan of more than one day is the leg from stop `perDay - 1` to stop `perDay`. */
  lemma BoundaryDaysStep(c: Config, m: Metric, route: seq<Facility>)
    requires IsDistance(m) && Valid(c) && |route| > c.perDay
    ensures BoundaryDays(c, m, Chunks(c.perDay, route))
            == LegDays(c, RouteDistance(m, route[c.perDay - 1], route[c.perDay]))
               + BoundaryDays(c, m, Chunks(c.perDay, route[c.perDay..]))
  {
    var p := c.perDay;
    var rest := route[p..];
    var first := route[..p];
    var later := Chunks(p, rest);
    var days := Chunks(p, route);
    assert days == [first] + later;
    assert days[0] == first && days[1..] == later;
    assert later[0] == rest[..if |rest| <= p then |rest| else p];
    assert days[1][0] == route[p];
  }

  /**
   * A route without transport warnings needs no extra days; any extra day
   * comes with a warning about the boundary leg that caused it.
   */
  lemma NoWarningsNoExtraDays(c: Config, m: Metric, route: seq<Facility>)
    requires IsDistance(m) && Valid(c)
    ensures TransportWarnings(c, m, route) == [] ==> ExtraTravelDays(c, m, route) == 0
  {
    TransportWarningsCorrect(c, m, route);
    if TransportWarnings(c, m, route) == [] && |route| >= 2 {
      ExtraFromWithinBudget(c, m, route, c.perDay - 1);
    }
  }

  lemma {:induction false} ExtraFromWithinBudget(c: Config, m: Metric, route: seq<Facility>, i: nat)
    requires IsDistance(m) && Valid(c)
    requires forall l: nat :: l + 1 < |route| ==> !LongLeg(c, m, route, l)
    ensures ExtraFrom(c, m, route, i) == 0
    decreases |route| - i
  {
    if i + 1 < |route| {
      assert !LongLeg(c, m, route, i);
      ExtraFromWithinBudget(c, m, route, i + c.perDay);
    }
  }

  /** `berechneGesamtdauer`: work days plus extra travel days. */
  function TotalDays(c: Config, m: Metric, route: seq<Facility>): (d: nat)
    requires IsDistance(m) && Valid(c)
    ensures d >= WorkDays(c, route)
    ensures TransportWarnings(c, m, route) == [] ==> d == WorkDays(c, route)
  {
    NoWarningsNoExtraDays(c, m, route);
    WorkDays(c, route) + ExtraTravelDays(c, m, route)
  }
}
