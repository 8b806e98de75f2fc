/**
 * Maintenance planning of one group of facilities (`WartungsRoutenPlaner`):
 * clusters, an optimised route per cluster, isolation and transport
 * warnings, and the days each cluster needs.
 */
module MaintenancePlanner {
  import opened Wrappers
  import opened Seqs
  import opened Facilities
  import opened Geo
  import opened Settings
  import opened ClusterDetector
  import opened RouteOptimizer
  import opened Schedule
  import Manufacturers

  // ---------------------------------------------------------------------
  // Isolation warnings

  /**
   * The loop of `gebeClusterWarnungAus` from cluster `i` on: the smallest
   * cluster distance from cluster `x` to any other cluster.
   */
  function MinOtherFrom(m: Metric, cs: seq<seq<Facility>>, x: nat, i: nat, best: real): real
    requires IsDistance(m) && x < |cs|
    decreases |cs| - i
  {
    if i >= |cs| then best
    else if i == x then MinOtherFrom(m, cs, x, i + 1, best)
    else
      var d := ClusterDistance(m, cs[x], cs[i]);
      MinOtherFrom(m, cs, x, i + 1, if d < best then d else best)
  }

  /** The distance from cluster `x` to its nearest other cluster, or `Sentinel`. */
  function MinOtherDistance(m: Metric, cs: seq<seq<Facility>>, x: nat): real
    requires IsDistance(m) && x < |cs|
  {
    MinOtherFrom(m, cs, x, 0, Sentinel)
  }

  lemma {:induction false} MinOtherFromCorrect(m: Metric, cs: seq<seq<Facility>>, x: nat, i: nat, best: real)
    requires IsDistance(m) && x < |cs| && best <= Sentinel
    requires forall y :: 0 <= y < i && y < |cs| && y != x ==> best <= ClusterDistance(m, cs[x], cs[y])
    requires best == Sentinel || exists y :: 0 <= y < |cs| && y != x && best == ClusterDistance(m, cs[x], cs[y])
    ensures var r := MinOtherFrom(m, cs, x, i, best);
            r <= Sentinel &&
            (forall y :: 0 <= y < |cs| && y != x ==> r <= ClusterDistance(m, cs[x], cs[y])) &&
            (r == Sentinel || exists y :: 0 <= y < |cs| && y != x && r == ClusterDistance(m, cs[x], cs[y]))
    decreases |cs| - i
  {
    if i < |cs| {
      if i == x {
        MinOtherFromCorrect(m, cs, x, i + 1, best);
      } else {
        var d := ClusterDistance(m, cs[x], cs[i]);
        MinOtherFromCorrect(m, cs, x, i + 1, if d < best then d else best);
      }
    }
  }

  /**
   * `gebeClusterWarnungAus`: when cluster `x` is farther than the
   * transport budget from every other cluster, the warning carries that
   * smallest distance.
   */
  function IsolationWarning(c: Config, m: Metric, cs: seq<seq<Facility>>, x: nat): Option<real>
    requires IsDistance(m) && x < |cs|
  {
    var d := MinOtherDistance(m, cs, x);
    if d > c.maxTransportKm then Some(d) else None
  }

  /**
   * With a transport budget below the sentinel, cluster `x` is warned about
   * exactly when every facility of it is farther than the budget from
   * every facility of every other cluster.
   */
  lemma IsolationWarningCorrect(c: Config, m: Metric, cs: seq<seq<Facility>>, x: nat)
    requires IsDistance(m) && x < |cs| && c.maxTransportKm < Sentinel
    ensures IsolationWarning(c, m, cs, x).Some? <==>
            forall y, a, b :: 0 <= y < |cs| && y != x && a in cs[x] && b in cs[y] ==> RouteDistance(m, a, b) > c.maxTransportKm
  {
    MinOtherFromCorrect(m, cs, x, 0, Sentinel);
    var d := MinOtherDistance(m, cs, x);
    if IsolationWarning(c, m, cs, x).None? && d < Sentinel {
      var y :| 0 <= y < |cs| && y != x && d == ClusterDistance(m, cs[x], cs[y]);
      var a, b :| a in cs[x] && b in cs[y] && d == RouteDistance(m, a, b);
      assert RouteDistance(m, a, b) <= c.maxTransportKm;
    }
  }

  // ---------------------------------------------------------------------
  // One cluster

  /** What `verarbeiteCluster` computes for one cluster. */
  datatype ClusterPlan = ClusterPlan(
    size: nat,
    isolation: Option<real>,
    route: seq<Facility>,
    length: real,
    warnings: seq<TransportWarning>,
    days: nat,
    dayPlan: seq<seq<int>>)

  /**
   * `verarbeiteCluster` for cluster `x` of `cs`: the isolation check when
   * there is more than one cluster, then the route, its length, its
   * transport warnings, its days and its day plan.
   */
  function PlanCluster(c: Config, m: Metric, cs: seq<seq<Facility>>, x: nat, fuel: nat): ClusterPlan
    requires IsDistance(m) && Valid(c) && x < |cs|
  {
    var route := OptimizedRoute(m, cs[x], fuel);
    ClusterPlan(
      |cs[x]|,
      if |cs| > 1 then IsolationWarning(c, m, cs, x) else None,
      route,
      RouteLength(m, route),
      TransportWarnings(c, m, route),
      TotalDays(c, m, route),
      DayPlan(c, route))
  }

  /** The plans of all clusters, in detection order. */
  function PlanClusters(c: Config, m: Metric, cs: seq<seq<Facility>>, fuel: nat): (ps: seq<ClusterPlan>)
    requires IsDistance(m) && Valid(c)
    ensures |ps| == |cs|
  {
    seq(|cs|, x requires 0 <= x < |cs| => PlanCluster(c, m, cs, x, fuel))
  }

  /** The plan gives a route at least the days its work needs, and at least one. */
  ghost predicate Serviced(c: Config, p: ClusterPlan)
    requires c.perDay > 0
  {
    p.days >= WorkDays(c, p.route) > 0
  }

  /** The days of all cluster plans together: clusters are serviced one after another. */
  function SumDays(ps: seq<ClusterPlan>): nat
  {
    if |ps| == 0 then 0 else ps[0].days + SumDays(ps[1..])
  }

  /** The routes of the cluster plans. */
  function Routes(ps: seq<ClusterPlan>): (rs: seq<seq<Facility>>)
    ensures |rs| == |ps|
    ensures forall k :: 0 <= k < |ps| ==> rs[k] == ps[k].route
  {
    if |ps| == 0 then [] else [ps[0].route] + Routes(ps[1..])
  }

  /** The result of `planeWartung` for one group: the plan of every cluster and the total days. */
  datatype GroupPlan = GroupPlan(clusters: seq<ClusterPlan>, totalDays: nat)

  /** `planeWartung`: nothing for an empty group, otherwise one plan per cluster. */
  function PlanGroup(c: Config, m: Metric, fs: seq<Facility>, fuel: nat): GroupPlan
    requires IsDistance(m) && Valid(c)
  {
    if |fs| == 0 then GroupPlan([], 0)
    else
      var cs := ClustersOf(m, c.clusterKm, fs);
      var ps := PlanClusters(c, m, cs, fuel);
      GroupPlan(ps, SumDays(ps))
  }

  // ---------------------------------------------------------------------
  // Properties of a group plan

  /** A facility of one of the sequences is in their concatenation. */
  lemma {:induction false} InFlatten<T>(ss: seq<seq<T>>, x: nat, v: T)
    requires x < |ss| && v in ss[x]
    ensures v in Flatten(ss)
  {
    if x > 0 {
      InFlatten(ss[1..], x - 1, v);
    }
  }

  /** Concatenating pointwise permutations gives a permutation. */
  lemma {:induction false} FlattenPermutation<T>(a: seq<seq<T>>, b: seq<seq<T>>)
    requires |a| == |b| && forall k :: 0 <= k < |a| ==> multiset(a[k]) == multiset(b[k])
    ensures multiset(Flatten(a)) == multiset(Flatten(b))
  {
    if |a| > 0 {
      FlattenPermutation(a[1..], b[1..]);
    }
  }

  /** The total length of the sequences. */
  function TotalSize<T>(ss: seq<seq<T>>): nat
  {
    if |ss| == 0 then 0 else |ss[0]| + TotalSize(ss[1..])
  }

  lemma {:induction false} TotalSizeFlatten<T>(ss: seq<seq<T>>)
    ensures TotalSize(ss) == |Flatten(ss)|
  {
    if |ss| > 0 {
      TotalSizeFlatten(ss[1..]);
    }
  }

  /** Every facility of a cluster has coordinates. */
  lemma ClustersLocated(m: Metric, threshold: real, fs: seq<Facility>, x: nat)
    requires IsDistance(m) && threshold > 0.0 && x < |ClustersOf(m, threshold, fs)|
    ensures AllLocated(ClustersOf(m, threshold, fs)[x])
  {
    var cs := ClustersOf(m, threshold, fs);
    ClustersPartitionFacilities(m, threshold, fs);
    forall k | 0 <= k < |cs[x]|
      ensures HasCoordinates(cs[x][k])
    {
      InFlatten(cs, x, cs[x][k]);
      assert cs[x][k] in multiset(WithCoordinates(fs));
    }
  }

  /**
   * Each cluster's route is a reordering of the cluster starting at its
   * first facility, and its day plan lists the route's ids in order.
   */
  lemma PlanClusterCorrect(c: Config, m: Metric, fs: seq<Facility>, x: nat, fuel: nat)
    requires IsDistance(m) && Valid(c) && x < |ClustersOf(m, c.clusterKm, fs)|
    ensures var cs := ClustersOf(m, c.clusterKm, fs);
            var p := PlanCluster(c, m, cs, x, fuel);
            multiset(p.route) == multiset(cs[x]) && |p.route| == p.size > 0 && p.route[0] == cs[x][0] &&
            Flatten(p.dayPlan) == Ids(p.route) && p.days >= WorkDays(c, p.route) > 0 &&
            (p.isolation.Some? ==> |cs| > 1)
  {
    var cs := ClustersOf(m, c.clusterKm, fs);
    ClustersPartitionFacilities(m, c.clusterKm, fs);
    ClustersLocated(m, c.clusterKm, fs, x);
    OptimizedRouteCorrect(m, cs[x], fuel);
    var route := OptimizedRoute(m, cs[x], fuel);
    assert |route| == |multiset(route)| == |multiset(cs[x])| == |cs[x]|;
    WorkDaysIsCeiling(c, route);
  }

  /** The sum of the days is at least the sum of the work days of the routes. */
  lemma {:induction false} SumDaysCovers(c: Config, ps: seq<ClusterPlan>)
    requires c.perDay > 0
    requires forall k :: 0 <= k < |ps| ==> Serviced(c, ps[k])
    ensures SumDays(ps) * c.perDay >= TotalSize(Routes(ps))
  {
    if |ps| > 0 {
      SumDaysCovers(c, ps[1..]);
      assert Routes(ps)[1..] == Routes(ps[1..]);
      WorkDaysIsCeiling(c, ps[0].route);
      MulMonotone(WorkDays(c, ps[0].route), ps[0].days, c.perDay);
      Distribute(ps[0].days, SumDays(ps[1..]), c.perDay);
    }
  }

  lemma Distribute(a: nat, b: nat, p: nat)
    ensures (a + b) * p == a * p + b * p
  {
  }

  /** Every cluster needs a day, so the sum is at least the number of clusters. */
  lemma {:induction false} SumDaysAtLeastCount(c: Config, ps: seq<ClusterPlan>)
    requires c.perDay > 0
    requires forall k :: 0 <= k < |ps| ==> Serviced(c, ps[k])
    ensures SumDays(ps) >= |ps|
  {
    if |ps| > 0 {
      assert Serviced(c, ps[0]);
      SumDaysAtLeastCount(c, ps[1..]);
    }
  }

  lemma MulMonotone(a: nat, b: nat, p: nat)
    requires a <= b
    ensures a * p <= b * p
  {
    assert b * p == a * p + (b - a) * p;
  }

  /**
   * `planeWartung`: every facility with coordinates is routed in exactly
   * one cluster and no other facility is; the total is the sum of the
   * cluster days; it is zero exactly when no facility has coordinates;
   * and it is at least the days the located facilities would need on a
   * single route.
   */
  lemma PlanGroupCorrect(c: Config, m: Metric, fs: seq<Facility>, fuel: nat)
    requires IsDistance(m) && Valid(c)
    ensures var g := PlanGroup(c, m, fs, fuel);
            multiset(Flatten(Routes(g.clusters))) == multiset(WithCoordinates(fs)) &&
            g.totalDays == SumDays(g.clusters) &&
            (g.totalDays == 0 <==> WithCoordinates(fs) == []) &&
            g.totalDays >= WorkDays(c, WithCoordinates(fs)) &&
            g.totalDays >= |g.clusters|
  {
    if |fs| == 0 {
      assert WithCoordinates(fs) == [];
    } else {
      var ps := PlanClusters(c, m, ClustersOf(m, c.clusterKm, fs), fuel);
      ClusterPlansFacts(c, m, fs, fuel);
      RoutedCount(ps, WithCoordinates(fs));
      SumDaysBounds(c, ps);
      GroupDays(c, SumDays(ps), |ps|, WithCoordinates(fs));
    }
  }

  /** The cluster plans of a group route every located facility once, each in at least one day. */
  lemma ClusterPlansFacts(c: Config, m: Metric, fs: seq<Facility>, fuel: nat)
    requires IsDistance(m) && Valid(c)
    ensures var cs := ClustersOf(m, c.clusterKm, fs);
            var ps := PlanClusters(c, m, cs, fuel);
            multiset(Flatten(Routes(ps))) == multiset(WithCoordinates(fs)) &&
            (|ps| == 0 <==> WithCoordinates(fs) == []) &&
            forall k :: 0 <= k < |ps| ==> Serviced(c, ps[k])
  {
    var cs := ClustersOf(m, c.clusterKm, fs);
    var ps := PlanClusters(c, m, cs, fuel);
    ClusterPlansDays(c, m, fs, fuel);
    ClusterPlansRoutes(c, m, fs, fuel);
    ClustersPartitionFacilities(m, c.clusterKm, fs);
    if |cs| > 0 {
      InFlatten(cs, 0, cs[0][0]);
      assert cs[0][0] in multiset(WithCoordinates(fs));
    } else {
      assert Flatten(cs) == [];
    }
  }

  lemma ClusterPlansDays(c: Config, m: Metric, fs: seq<Facility>, fuel: nat)
    requires IsDistance(m) && Valid(c)
    ensures var cs := ClustersOf(m, c.clusterKm, fs);
            var ps := PlanClusters(c, m, cs, fuel);
            forall k :: 0 <= k < |ps| ==> Serviced(c, ps[k])
  {
    var cs := ClustersOf(m, c.clusterKm, fs);
    var ps := PlanClusters(c, m, cs, fuel);
    forall k | 0 <= k < |ps|
      ensures Serviced(c, ps[k])
    {
      PlanClusterCorrect(c, m, fs, k, fuel);
    }
  }

  lemma ClusterPlansRoutes(c: Config, m: Metric, fs: seq<Facility>, fuel: nat)
    requires IsDistance(m) && Valid(c)
    ensures var cs := ClustersOf(m, c.clusterKm, fs);
            multiset(Flatten(Routes(PlanClusters(c, m, cs, fuel)))) == multiset(Flatten(cs))
  {
    var cs := ClustersOf(m, c.clusterKm, fs);
    var ps := PlanClusters(c, m, cs, fuel);
    forall k | 0 <= k < |ps|
      ensures multiset(Routes(ps)[k]) == multiset(cs[k])
    {
      PlanClusterCorrect(c, m, fs, k, fuel);
    }
    FlattenPermutation(Routes(ps), cs);
  }

  /** A day total `t` for `n` clusters that together route `located` covers the work days of `located`. */
  lemma GroupDays(c: Config, t: nat, n: nat, located: seq<Facility>)
    requires c.perDay > 0
    requires t >= n && (n == 0 ==> t == 0)
    requires t * c.perDay >= |located|
    requires n == 0 <==> located == []
    ensures t == 0 <==> located == []
    ensures t >= WorkDays(c, located)
  {
    GroupDaysCeiling(c, t, located);
  }

  /** Both bounds on the day sum that follow from every cluster being serviced. */
  lemma SumDaysBounds(c: Config, ps: seq<ClusterPlan>)
    requires c.perDay > 0
    requires forall k :: 0 <= k < |ps| ==> Serviced(c, ps[k])
    ensures SumDays(ps) >= |ps|
    ensures SumDays(ps) * c.perDay >= TotalSize(Routes(ps))
  {
    SumDaysAtLeastCount(c, ps);
    SumDaysCovers(c, ps);
  }

  lemma GroupDaysCeiling(c: Config, t: nat, located: seq<Facility>)
    requires c.perDay > 0
    requires t * c.perDay >= |located|
    ensures t >= WorkDays(c, located)
  {
    var p, w := c.perDay, WorkDays(c, located);
    assert w > 0 ==> (w - 1) * p < |located| by {
      WorkDaysIsCeiling(c, located);
    }
    CeilingBelow(t, w, p, |located|);
  }

  /** Routes that together are a permutation of `located` have its size in total. */
  lemma RoutedCount(ps: seq<ClusterPlan>, located: seq<Facility>)
    requires multiset(Flatten(Routes(ps))) == multiset(located)
    ensures TotalSize(Routes(ps)) == |located|
  {
    TotalSizeFlatten(Routes(ps));
    SameLength(Flatten(Routes(ps)), located);
  }

  lemma SameLength<T>(a: seq<T>, b: seq<T>)
    requires multiset(a) == multiset(b)
    ensures |a| == |b|
  {
    assert |multiset(a)| == |a|;
  }

  /** A day count that holds `n` facilities is at least the ceiling `w` of `n / p`. */
  lemma CeilingBelow(t: nat, w: nat, p: nat, n: nat)
    requires p > 0 && t * p >= n && (w > 0 ==> (w - 1) * p < n)
    ensures t >= w
  {
    if w > 0 {
      MulMonotoneStrict(t, w - 1, p);
    }
  }

  lemma MulMonotoneStrict(t: nat, v: nat, p: nat)
    requires p > 0 && v * p < t * p
    ensures v < t
  {
    if t <= v {
      MulMonotone(t, v, p);
    }
  }
  // ---------------------------------------------------------------------
  // Planning for the leading manufacturers

  /**
   * `planeWartungFuerTopHersteller`: nothing for an empty register;
   * otherwise the facilities are grouped and counted per manufacturer, the
   * `n` manufacturers with most located facilities are chosen, and each
   * chosen group is planned. The result pairs each chosen name with its days.
   */
  method PlanTopManufacturers(c: Config, m: Metric, fs: seq<Facility>, n: int, unknown: string, fuel: nat)
    returns (result: seq<(string, nat)>)
    requires IsDistance(m) && Valid(c)
    ensures |fs| == 0 ==> result == []
    ensures var known := |Manufacturers.CountByManufacturer(fs, unknown)|;
            |fs| > 0 ==> |result| == (if n <= 0 then 0 else if n < known then n else known)
    ensures Distinct(Manufacturers.Keys(result))
    ensures forall i :: 0 <= i < |result| ==>
              var group := Manufacturers.Members(fs, result[i].0, unknown);
              |group| > 0 && result[i].1 == PlanGroup(c, m, group, fuel).totalDays
    ensures forall i, key :: 0 <= i < |result| && key !in Manufacturers.Keys(result) ==>
              |Manufacturers.Members(fs, result[i].0, unknown)| >= |Manufacturers.Members(fs, key, unknown)|
  {
    if |fs| == 0 {
      return [];
    }
    var groups := Manufacturers.GroupByManufacturer(fs, unknown);
    var counts := Manufacturers.CountByManufacturer(fs, unknown);
    var top, ranked := Manufacturers.TopManufacturers(counts, n);
    result := PlanNamed(c, m, groups, top, fuel);
    TopPlansCorrect(c, m, fs, unknown, fuel, ranked, top, result);
  }

  /** The loop of `planeWartungFuerTopHersteller`: each name paired with the days of its group. */
  method PlanNamed(c: Config, m: Metric, groups: seq<(string, seq<Facility>)>, names: seq<string>, fuel: nat)
    returns (result: seq<(string, nat)>)
    requires IsDistance(m) && Valid(c)
    ensures |result| == |names|
    ensures forall k :: 0 <= k < |names| ==>
              result[k] == (names[k], PlanGroup(c, m, Manufacturers.GroupOf(groups, names[k]), fuel).totalDays)
  {
    result := [];
    var i := 0;
    while i < |names|
      invariant i <= |names| && |result| == i
      invariant forall k :: 0 <= k < i ==>
                  result[k] == (names[k], PlanGroup(c, m, Manufacturers.GroupOf(groups, names[k]), fuel).totalDays)
    {
      result := result + [(names[i], PlanGroup(c, m, Manufacturers.GroupOf(groups, names[i]), fuel).totalDays)];
      i := i + 1;
    }
  }

  /** The plans of the first names of a ranking are the plans of the leading manufacturers. */
  lemma TopPlansCorrect(c: Config, m: Metric, fs: seq<Facility>, unknown: string, fuel: nat,
                        ranked: seq<(string, int)>, top: seq<string>, result: seq<(string, nat)>)
    requires IsDistance(m) && Valid(c)
    requires multiset(ranked) == multiset(Manufacturers.CountByManufacturer(fs, unknown))
    requires Manufacturers.Descending(ranked)
    requires |top| <= |ranked| && forall i :: 0 <= i < |top| ==> top[i] == ranked[i].0
    requires |result| == |top|
    requires forall k :: 0 <= k < |top| ==>
               result[k] == (top[k], PlanGroup(c, m, Manufacturers.GroupOf(Manufacturers.GroupByManufacturer(fs, unknown), top[k]), fuel).totalDays)
    ensures Distinct(Manufacturers.Keys(result))
    ensures forall i :: 0 <= i < |result| ==>
              var group := Manufacturers.Members(fs, result[i].0, unknown);
              |group| > 0 && result[i].1 == PlanGroup(c, m, group, fuel).totalDays
    ensures forall i, key :: 0 <= i < |result| && key !in Manufacturers.Keys(result) ==>
              |Manufacturers.Members(fs, result[i].0, unknown)| >= |Manufacturers.Members(fs, key, unknown)|
  {
    Manufacturers.RankingCorrect(fs, unknown, ranked, |top|);
    assert Manufacturers.Keys(result) == top == Manufacturers.Keys(ranked[..|top|]);
    forall i | 0 <= i < |result|
      ensures result[i].1 == PlanGroup(c, m, Manufacturers.Members(fs, result[i].0, unknown), fuel).totalDays
    {
      Manufacturers.GroupOfIsMembers(fs, unknown, top[i]);
    }
  }
}
