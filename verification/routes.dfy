/**
 * Route optimisation (`RoutenOptimierer`): a nearest-neighbour tour from
 * the first facility, improved by 2-opt moves on the open path.
 */
module RouteOptimizer {
  import opened Wrappers
  import opened Seqs
  import opened Facilities
  import opened Geo

  /** Distance between the facilities at positions `a` and `b` of `fs`. */
  function Dist(m: Metric, fs: seq<Facility>, a: nat, b: nat): real
    requires IsDistance(m) && a < |fs| && b < |fs|
  {
    RouteDistance(m, fs[a], fs[b])
  }

  // ---------------------------------------------------------------------
  // Route length

  /** `berechneGesamtDistanz`: the sum of the distances between consecutive stops. */
  function RouteLength(m: Metric, route: seq<Facility>): (r: real)
    requires IsDistance(m)
    ensures r >= 0.0
  {
    if |route| < 2 then 0.0
    else RouteDistance(m, route[0], route[1]) + RouteLength(m, route[1..])
  }

  /** Joining two routes adds the leg between them. */
  lemma {:induction false} RouteLengthAppend(m: Metric, a: seq<Facility>, b: seq<Facility>)
    requires IsDistance(m) && |a| > 0 && |b| > 0
    ensures RouteLength(m, a + b) == RouteLength(m, a) + RouteDistance(m, a[|a| - 1], b[0]) + RouteLength(m, b)
  {
    if |a| > 1 {
      assert (a + b)[1..] == a[1..] + b;
      RouteLengthAppend(m, a[1..], b);
    }
  }

  /** Driving a route backwards is as long as driving it forwards. */
  lemma {:induction false} RouteLengthReverse(m: Metric, s: seq<Facility>)
    requires IsDistance(m)
    ensures RouteLength(m, Reverse(s)) == RouteLength(m, s)
  {
    if |s| >= 2 {
      RouteLengthReverse(m, s[1..]);
      assert Reverse(s) == Reverse(s[1..]) + [s[0]];
      RouteLengthAppend(m, Reverse(s[1..]), [s[0]]);
      RouteDistanceSymmetric(m, s[1], s[0]);
    }
  }

  // ---------------------------------------------------------------------
  // Nearest neighbour

  /**
   * The inner loop of `erstelleNearestNeighborRoute` from candidate `i` on:
   * the unvisited candidate with the strictly smallest distance below
   * `bestDist` replaces `best`.
   */
  function NearestScan(m: Metric, fs: seq<Facility>, cur: nat, visited: seq<bool>, i: nat, best: int, bestDist: real): (k: int)
    requires IsDistance(m) && cur < |fs| && |visited| == |fs| && -1 <= best < |fs|
    ensures -1 <= k < |fs|
    decreases |fs| - i
  {
    if i >= |fs| then best
    else if !visited[i] && Dist(m, fs, cur, i) < bestDist then NearestScan(m, fs, cur, visited, i + 1, i, Dist(m, fs, cur, i))
    else NearestScan(m, fs, cur, visited, i + 1, best, bestDist)
  }

  /** The next stop after `cur`: the index found by the scan, or -1. */
  function Nearest(m: Metric, fs: seq<Facility>, cur: nat, visited: seq<bool>): int
    requires IsDistance(m) && cur < |fs| && |visited| == |fs|
  {
    NearestScan(m, fs, cur, visited, 0, -1, Sentinel)
  }

  /**
   * What the next stop is: -1 when every unvisited facility is at the
   * sentinel distance; otherwise an unvisited facility at the smallest
   * distance, the lowest index among equally near ones.
   */
  ghost predicate NearestSpec(m: Metric, fs: seq<Facility>, cur: nat, visited: seq<bool>, k: int)
    requires IsDistance(m) && cur < |fs| && |visited| == |fs|
  {
    -1 <= k < |fs| &&
    (k == -1 ==> forall j :: 0 <= j < |fs| && !visited[j] ==> Dist(m, fs, cur, j) == Sentinel) &&
    (k >= 0 ==>
       !visited[k] && Dist(m, fs, cur, k) < Sentinel &&
       forall j :: 0 <= j < |fs| && !visited[j] ==>
         Dist(m, fs, cur, k) <= Dist(m, fs, cur, j) && (j < k ==> Dist(m, fs, cur, k) < Dist(m, fs, cur, j)))
  }

  lemma {:induction false} NearestScanCorrect(m: Metric, fs: seq<Facility>, cur: nat, visited: seq<bool>, i: nat, best: int, bestDist: real)
    requires IsDistance(m) && cur < |fs| && |visited| == |fs| && -1 <= best < |fs| && i <= |fs| && best < i
    requires best == -1 ==> bestDist == Sentinel
    requires best >= 0 ==> !visited[best] && bestDist == Dist(m, fs, cur, best) < Sentinel
    requires forall j :: 0 <= j < i && !visited[j] ==>
               bestDist <= Dist(m, fs, cur, j) && (j < best ==> bestDist < Dist(m, fs, cur, j))
    ensures NearestSpec(m, fs, cur, visited, NearestScan(m, fs, cur, visited, i, best, bestDist))
    decreases |fs| - i
  {
    if i < |fs| {
      if !visited[i] && Dist(m, fs, cur, i) < bestDist {
        NearestScanCorrect(m, fs, cur, visited, i + 1, i, Dist(m, fs, cur, i));
      } else {
        NearestScanCorrect(m, fs, cur, visited, i + 1, best, bestDist);
      }
    }
  }

  lemma NearestCorrect(m: Metric, fs: seq<Facility>, cur: nat, visited: seq<bool>)
    requires IsDistance(m) && cur < |fs| && |visited| == |fs|
    ensures NearestSpec(m, fs, cur, visited, Nearest(m, fs, cur, visited))
  {
    NearestScanCorrect(m, fs, cur, visited, 0, -1, Sentinel);
  }

  /** Every facility has both coordinates. */
  ghost predicate AllLocated(fs: seq<Facility>)
  {
    forall k :: 0 <= k < |fs| ==> HasCoordinates(fs[k])
  }

  /** When every facility is located and one is unvisited, a next stop exists. */
  lemma NearestFindsLocated(m: Metric, fs: seq<Facility>, cur: nat, visited: seq<bool>)
    requires IsDistance(m) && cur < |fs| && |visited| == |fs|
    requires AllLocated(fs) && CountFalse(visited) > 0
    ensures Nearest(m, fs, cur, visited) >= 0
  {
    NearestCorrect(m, fs, cur, visited);
    var j := SomeUnset(visited);
    assert Dist(m, fs, cur, j) < Sentinel;
  }

  /** An unset flag, when there is one. */
  lemma {:induction false} SomeUnset(flags: seq<bool>) returns (j: nat)
    requires CountFalse(flags) > 0
    ensures j < |flags| && !flags[j]
  {
    if flags[0] {
      j := SomeUnset(flags[1..]);
      j := j + 1;
    } else {
      j := 0;
    }
  }

  /**
   * The outer loop of `erstelleNearestNeighborRoute`, `steps` iterations
   * from stop `cur`: the indices of the stops appended. A step that finds
   * no stop appends nothing and leaves the state as it was.
   */
  function NearestChain(m: Metric, fs: seq<Facility>, cur: nat, visited: seq<bool>, steps: nat): (c: seq<nat>)
    requires IsDistance(m) && cur < |fs| && |visited| == |fs|
    ensures IndicesBelow(c, |fs|)
    decreases steps
  {
    if steps == 0 then []
    else
      var k := Nearest(m, fs, cur, visited);
      if k < 0 then NearestChain(m, fs, cur, visited, steps - 1)
      else [k] + NearestChain(m, fs, k, visited[k := true], steps - 1)
  }

  /** Once no stop is found, no later step finds one either. */
  lemma {:induction false} NearestChainStuck(m: Metric, fs: seq<Facility>, cur: nat, visited: seq<bool>, steps: nat)
    requires IsDistance(m) && cur < |fs| && |visited| == |fs| && Nearest(m, fs, cur, visited) < 0
    ensures NearestChain(m, fs, cur, visited, steps) == []
    decreases steps
  {
    if steps > 0 {
      NearestChainStuck(m, fs, cur, visited, steps - 1);
    }
  }

  /**
   * `to` is a nearest-neighbour choice from `from` when the stops in `seen`
   * are already on the route: not yet on it, at a finite distance, no
   * farther than any other unvisited facility, and strictly nearer than
   * every unvisited facility of lower index.
   */
  ghost predicate IsNearestStep(m: Metric, fs: seq<Facility>, from: nat, to: nat, seen: seq<nat>)
    requires IsDistance(m) && from < |fs| && to < |fs|
  {
    to !in seen && Dist(m, fs, from, to) < Sentinel &&
    forall j :: 0 <= j < |fs| && j !in seen ==>
      Dist(m, fs, from, to) <= Dist(m, fs, from, j) && (j < to ==> Dist(m, fs, from, to) < Dist(m, fs, from, j))
  }

  /** The flags mark exactly the stops in `seen`, the last of which is `cur`. */
  ghost predicate ChainState(fs: seq<Facility>, cur: nat, visited: seq<bool>, seen: seq<nat>)
  {
    |visited| == |fs| && IndicesBelow(seen, |fs|) && Distinct(seen) &&
    |seen| > 0 && seen[|seen| - 1] == cur &&
    (forall j :: 0 <= j < |fs| ==> (visited[j] <==> j in seen)) &&
    CountFalse(visited) + |seen| == |fs|
  }

  /** Every facility not on the route `all` is at the sentinel distance from its last stop. */
  ghost predicate StuckAfter(m: Metric, fs: seq<Facility>, all: seq<nat>)
    requires IsDistance(m) && IndicesBelow(all, |fs|) && |all| > 0
  {
    forall j :: 0 <= j < |fs| && j !in all ==> Dist(m, fs, all[|all| - 1], j) == Sentinel
  }

  /** The route `all` visits every facility. */
  ghost predicate Covers(fs: seq<Facility>, all: seq<nat>)
  {
    forall j :: 0 <= j < |fs| ==> j in all
  }

  /** What the outer loop appends after the stops `seen`. */
  ghost predicate ChainSpec(m: Metric, fs: seq<Facility>, seen: seq<nat>, steps: nat, countFalse: nat, c: seq<nat>)
    requires IsDistance(m) && IndicesBelow(seen, |fs|) && IndicesBelow(c, |fs|) && |seen| > 0
  {
    var all := seen + c;
    Distinct(all) && |c| <= steps && ChainSteps(m, fs, seen, c) &&
    (|c| < steps ==> StuckAfter(m, fs, all)) &&
    (AllLocated(fs) && steps <= countFalse ==> |c| == steps) &&
    (AllLocated(fs) && steps == countFalse ==> Covers(fs, all))
  }

  lemma {:induction false} NearestChainCorrect(m: Metric, fs: seq<Facility>, cur: nat, visited: seq<bool>, seen: seq<nat>, steps: nat)
    requires IsDistance(m) && cur < |fs| && ChainState(fs, cur, visited, seen)
    ensures ChainSpec(m, fs, seen, steps, CountFalse(visited), NearestChain(m, fs, cur, visited, steps))
    decreases steps
  {
    var c := NearestChain(m, fs, cur, visited, steps);
    if steps == 0 {
      assert seen + c == seen;
      if AllLocated(fs) && CountFalse(visited) == 0 {
        CountFalseZero(visited);
      }
    } else {
      var k := Nearest(m, fs, cur, visited);
      NearestCorrect(m, fs, cur, visited);
      if AllLocated(fs) && CountFalse(visited) > 0 {
        NearestFindsLocated(m, fs, cur, visited);
      }
      if k < 0 {
        NearestChainStuck(m, fs, cur, visited, steps - 1);
        assert c == [] && seen + c == seen;
      } else {
        NearestStepAppends(m, fs, cur, visited, seen, steps);
      }
    }
  }

  lemma NearestStepAppends(m: Metric, fs: seq<Facility>, cur: nat, visited: seq<bool>, seen: seq<nat>, steps: nat)
    requires IsDistance(m) && cur < |fs| && ChainState(fs, cur, visited, seen) && steps > 0
    requires Nearest(m, fs, cur, visited) >= 0
    ensures ChainSpec(m, fs, seen, steps, CountFalse(visited), NearestChain(m, fs, cur, visited, steps))
    decreases steps, 0
  {
    var k: nat := Nearest(m, fs, cur, visited);
    NearestCorrect(m, fs, cur, visited);
    var visited' := visited[k := true];
    ChainStateStep(fs, cur, visited, seen, k);
    NearestChainCorrect(m, fs, k, visited', seen + [k], steps - 1);
    assert IsNearestStep(m, fs, cur, k, seen);
    CountFalseSet(visited, k);
    ChainSpecCons(m, fs, seen, k, steps, CountFalse(visited), NearestChain(m, fs, k, visited', steps - 1));
  }

  /** Visiting an unvisited stop `k` keeps the flags and the stop list in step. */
  lemma ChainStateStep(fs: seq<Facility>, cur: nat, visited: seq<bool>, seen: seq<nat>, k: nat)
    requires ChainState(fs, cur, visited, seen) && k < |fs| && !visited[k]
    ensures ChainState(fs, k, visited[k := true], seen + [k])
  {
    CountFalseSet(visited, k);
    var seen' := seen + [k];
    forall j | 0 <= j < |fs|
      ensures visited[k := true][j] <==> j in seen'
    {
      assert j in seen' <==> j in seen || j == k;
    }
  }

  /** A nearest step followed by a chain that meets its specification meets it too. */
  lemma ChainSpecCons(m: Metric, fs: seq<Facility>, seen: seq<nat>, k: nat, steps: nat, countFalse: nat, rest: seq<nat>)
    requires IsDistance(m) && IndicesBelow(seen, |fs|) && IndicesBelow(rest, |fs|) && |seen| > 0 && k < |fs|
    requires steps > 0 && countFalse > 0
    requires IsNearestStep(m, fs, seen[|seen| - 1], k, seen)
    requires ChainSpec(m, fs, seen + [k], steps - 1, countFalse - 1, rest)
    ensures IndicesBelow([k] + rest, |fs|)
    ensures ChainSpec(m, fs, seen, steps, countFalse, [k] + rest)
  {
    var c := [k] + rest;
    assert (seen + [k]) + rest == seen + c;
    ChainStepsCons(m, fs, seen, k, rest);
  }

  /** Every appended stop is a nearest step from the one before it. */
  ghost predicate ChainSteps(m: Metric, fs: seq<Facility>, seen: seq<nat>, c: seq<nat>)
    requires IsDistance(m) && IndicesBelow(seen, |fs|) && IndicesBelow(c, |fs|) && |seen| > 0
  {
    var all := seen + c;
    forall k :: 0 <= k < |c| ==> IsNearestStep(m, fs, all[|seen| + k - 1], c[k], all[..|seen| + k])
  }

  lemma ChainStepsCons(m: Metric, fs: seq<Facility>, seen: seq<nat>, k: nat, rest: seq<nat>)
    requires IsDistance(m) && IndicesBelow(seen, |fs|) && IndicesBelow(rest, |fs|) && |seen| > 0 && k < |fs|
    requires IsNearestStep(m, fs, seen[|seen| - 1], k, seen)
    requires ChainSteps(m, fs, seen + [k], rest)
    ensures IndicesBelow([k] + rest, |fs|)
    ensures ChainSteps(m, fs, seen, [k] + rest)
  {
    var c := [k] + rest;
    var seen' := seen + [k];
    assert seen' + rest == seen + c;
    var all := seen + c;
    forall i | 0 <= i < |c|
      ensures IsNearestStep(m, fs, all[|seen| + i - 1], c[i], all[..|seen| + i])
    {
      if i == 0 {
        assert all[..|seen|] == seen;
      } else {
        assert c[i] == rest[i - 1];
        assert |seen'| + (i - 1) == |seen| + i;
      }
    }
  }

  /** The order of stops of `erstelleNearestNeighborRoute`, as indices into `fs`. */
  function NearestOrder(m: Metric, fs: seq<Facility>): (order: seq<nat>)
    requires IsDistance(m) && |fs| > 0
    ensures IndicesBelow(order, |fs|) && |order| > 0 && order[0] == 0
  {
    [0] + NearestChain(m, fs, 0, Repeat(false, |fs|)[0 := true], |fs| - 1)
  }

  lemma {:induction false} CountFalseRepeat(n: nat)
    ensures CountFalse(Repeat(false, n)) == n
  {
    if n > 0 {
      CountFalseRepeat(n - 1);
      assert Repeat(false, n)[1..] == Repeat(false, n - 1);
    }
  }

  /**
   * The nearest-neighbour order starts at index 0, visits no index twice,
   * makes a nearest choice at every step, stops early only when every
   * remaining facility is at the sentinel distance, and visits every
   * facility when all of them have coordinates.
   */
  lemma NearestOrderCorrect(m: Metric, fs: seq<Facility>)
    requires IsDistance(m) && |fs| > 0
    ensures var order := NearestOrder(m, fs);
            Distinct(order) && |order| <= |fs| &&
            (forall k :: 0 <= k < |order| - 1 ==> IsNearestStep(m, fs, order[k], order[k + 1], order[..k + 1])) &&
            (|order| < |fs| ==> forall j :: 0 <= j < |fs| && j !in order ==> Dist(m, fs, order[|order| - 1], j) == Sentinel) &&
            (AllLocated(fs) ==> |order| == |fs| && forall j :: 0 <= j < |fs| ==> j in order)
  {
    var n := |fs|;
    var visited := Repeat(false, n)[0 := true];
    CountFalseRepeat(n);
    CountFalseSet(Repeat(false, n), 0);
    assert ChainState(fs, 0, visited, [0]);
    NearestChainCorrect(m, fs, 0, visited, [0], n - 1);
    var order := NearestOrder(m, fs);
    var c := NearestChain(m, fs, 0, visited, n - 1);
    assert order == [0] + c;
    forall k | 0 <= k < |order| - 1
      ensures IsNearestStep(m, fs, order[k], order[k + 1], order[..k + 1])
    {
      assert order[k + 1] == c[k];
    }
  }

  /** `erstelleNearestNeighborRoute`: the facilities in nearest-neighbour order. */
  function NearestNeighbourRoute(m: Metric, fs: seq<Facility>): (route: seq<Facility>)
    requires IsDistance(m) && |fs| > 0
    ensures |route| > 0 && route[0] == fs[0] && |route| <= |fs|
    ensures forall f :: f in route ==> f in fs
    ensures AllLocated(fs) ==> multiset(route) == multiset(fs)
  {
    var order := NearestOrder(m, fs);
    NearestOrderCorrect(m, fs);
    assert AllLocated(fs) ==> multiset(Pick(order, fs)) == multiset(fs) by {
      if AllLocated(fs) {
        PickPermutation(order, fs);
      }
    }
    Pick(order, fs)
  }

  // ---------------------------------------------------------------------
  // 2-opt

  /** `berechneKantenDistanz`: the edges `(i, i+1)` and, unless `j` is last, `(j, j+1)`. */
  function OldEdges(m: Metric, r: seq<Facility>, i: nat, j: nat): real
    requires IsDistance(m) && i < j < |r|
  {
    if j == |r| - 1 then RouteDistance(m, r[i], r[i + 1])
    else RouteDistance(m, r[i], r[i + 1]) + RouteDistance(m, r[j], r[j + 1])
  }

  /** `berechneNeueKantenDistanz`: the edges `(i, j)` and, unless `j` is last, `(i+1, j+1)`. */
  function NewEdges(m: Metric, r: seq<Facility>, i: nat, j: nat): real
    requires IsDistance(m) && i < j < |r|
  {
    if j == |r| - 1 then RouteDistance(m, r[i], r[j])
    else RouteDistance(m, r[i], r[j]) + RouteDistance(m, r[i + 1], r[j + 1])
  }

  /** `fuehre2OptTauschDurch`: the stops `i+1 .. j` in reverse order. */
  function Swap(r: seq<Facility>, i: nat, j: nat): (s: seq<Facility>)
    requires i < j < |r|
    ensures |s| == |r|
  {
    r[..i + 1] + Reverse(r[i + 1..j + 1]) + r[j + 1..]
  }

  /** Stop `k` after a swap: mirrored inside the segment, unchanged outside. */
  lemma SwapAt(r: seq<Facility>, i: nat, j: nat)
    requires i < j < |r|
    ensures forall k :: 0 <= k < |r| ==> Swap(r, i, j)[k] == (if i < k <= j then r[i + 1 + j - k] else r[k])
  {
  }

  /** Reversing the same segment twice restores the route. */
  lemma SwapInvolution(r: seq<Facility>, i: nat, j: nat)
    requires i < j < |r|
    ensures Swap(Swap(r, i, j), i, j) == r
  {
    SwapAt(r, i, j);
    SwapAt(Swap(r, i, j), i, j);
  }

  /** A swap only reorders the stops and keeps the first one. */
  lemma SwapPermutes(r: seq<Facility>, i: nat, j: nat)
    requires i < j < |r|
    ensures multiset(Swap(r, i, j)) == multiset(r)
    ensures Swap(r, i, j)[0] == r[0]
  {
    ReverseMultiset(r[i + 1..j + 1]);
    assert r == r[..i + 1] + r[i + 1..j + 1] + r[j + 1..];
  }

  /**
   * The length change of a swap is exactly what the two edge functions
   * predict: the new length is the old length minus the removed edges plus
   * the added ones.
   */
  lemma SwapLength(m: Metric, r: seq<Facility>, i: nat, j: nat)
    requires IsDistance(m) && i < j < |r|
    ensures RouteLength(m, Swap(r, i, j)) == RouteLength(m, r) - OldEdges(m, r, i, j) + NewEdges(m, r, i, j)
  {
    var a, mid, b := r[..i + 1], r[i + 1..j + 1], r[j + 1..];
    SwapSplit(r, i, j);
    ThreeLengths(m, a, mid, b);
  }

  /** A route and its swap as prefix, segment and rest. */
  lemma SwapSplit(r: seq<Facility>, i: nat, j: nat)
    requires i < j < |r|
    ensures var a, mid, b := r[..i + 1], r[i + 1..j + 1], r[j + 1..];
            r == a + mid + b && Swap(r, i, j) == a + Reverse(mid) + b &&
            a[|a| - 1] == r[i] && mid[0] == r[i + 1] && mid[|mid| - 1] == r[j] &&
            (|b| == 0 <==> j == |r| - 1) && (|b| > 0 ==> b[0] == r[j + 1])
  {
  }

  /**
   * The lengths of a prefix, a segment and a rest joined with the segment
   * forwards and reversed.
   */
  lemma ThreeLengths(m: Metric, a: seq<Facility>, mid: seq<Facility>, b: seq<Facility>)
    requires IsDistance(m) && |a| > 0 && |mid| > 0
    ensures RouteLength(m, a + mid + b) ==
              RouteLength(m, a) + RouteDistance(m, a[|a| - 1], mid[0]) + RouteLength(m, mid) + Tail(m, mid[|mid| - 1], b)
    ensures RouteLength(m, a + Reverse(mid) + b) ==
              RouteLength(m, a) + RouteDistance(m, a[|a| - 1], mid[|mid| - 1]) + RouteLength(m, mid) + Tail(m, mid[0], b)
  {
    SegmentLengths(m, a, mid);
    var fwd, bwd := a + mid, a + Reverse(mid);
    assert fwd[|fwd| - 1] == mid[|mid| - 1];
    assert bwd[|bwd| - 1] == mid[0];
    JoinLength(m, fwd, b);
    JoinLength(m, bwd, b);
  }

  /** What following a stop with the route `b` adds: the leg to it and its length. */
  function Tail(m: Metric, last: Facility, b: seq<Facility>): real
    requires IsDistance(m)
  {
    if |b| == 0 then 0.0 else RouteDistance(m, last, b[0]) + RouteLength(m, b)
  }

  lemma JoinLength(m: Metric, x: seq<Facility>, b: seq<Facility>)
    requires IsDistance(m) && |x| > 0
    ensures RouteLength(m, x + b) == RouteLength(m, x) + Tail(m, x[|x| - 1], b)
  {
    if |b| == 0 {
      assert x + b == x;
    } else {
      RouteLengthAppend(m, x, b);
    }
  }

  /** The lengths of a prefix followed by a segment, forwards and reversed. */
  lemma SegmentLengths(m: Metric, a: seq<Facility>, mid: seq<Facility>)
    requires IsDistance(m) && |a| > 0 && |mid| > 0
    ensures RouteLength(m, a + mid) == RouteLength(m, a) + RouteDistance(m, a[|a| - 1], mid[0]) + RouteLength(m, mid)
    ensures RouteLength(m, a + Reverse(mid)) == RouteLength(m, a) + RouteDistance(m, a[|a| - 1], mid[|mid| - 1]) + RouteLength(m, mid)
  {
    RouteLengthReverse(m, mid);
    RouteLengthAppend(m, a, mid);
    RouteLengthAppend(m, a, Reverse(mid));
  }

  /** The pair `(a, b)` is scanned no earlier than `(i, j)`. */
  predicate NotBefore(a: nat, b: nat, i: nat, j: nat)
  {
    a > i || (a == i && b >= j)
  }

  /** No pair scanned from `(i, j)` on would shorten `r`. */
  ghost predicate NoGainFrom(m: Metric, r: seq<Facility>, i: nat, j: nat)
    requires IsDistance(m)
  {
    forall a: nat, b: nat :: a + 2 <= b < |r| && NotBefore(a, b, i, j) ==> NewEdges(m, r, a, b) >= OldEdges(m, r, a, b)
  }

  /** No 2-opt move shortens `r`: the state in which `verbessereRouteMit2Opt` stops. */
  ghost predicate TwoOptOptimal(m: Metric, r: seq<Facility>)
    requires IsDistance(m)
  {
    NoGainFrom(m, r, 0, 2)
  }

  /**
   * One pass of the `for` loops of `verbessereRouteMit2Opt` from pair
   * `(i, j)`: every improving swap is applied at once and the scan goes on
   * with the changed route. The flag records whether a swap happened.
   */
  function Pass(m: Metric, r: seq<Facility>, i: nat, j: nat, improved: bool): (p: (seq<Facility>, bool))
    requires IsDistance(m) && i + 2 <= j
    ensures |p.0| == |r|
    decreases |r| - i, |r| - j
  {
    if i + 2 >= |r| then (r, improved)
    else if j >= |r| then Pass(m, r, i + 1, i + 3, improved)
    else if NewEdges(m, r, i, j) < OldEdges(m, r, i, j) then Pass(m, Swap(r, i, j), i, j + 1, true)
    else Pass(m, r, i, j + 1, improved)
  }

  /** What a pass from `(i, j)` promises about its result `p`. */
  ghost predicate PassSpec(m: Metric, r: seq<Facility>, i: nat, j: nat, improved: bool, p: (seq<Facility>, bool))
    requires IsDistance(m) && |r| > 0
  {
    var r', imp := p.0, p.1;
    |r'| == |r| && multiset(r') == multiset(r) && r'[0] == r[0] &&
    RouteLength(m, r') <= RouteLength(m, r) &&
    (improved ==> imp) &&
    (imp ==> improved || RouteLength(m, r') < RouteLength(m, r)) &&
    (!imp ==> r' == r && NoGainFrom(m, r, i, j))
  }

  lemma {:induction false} PassCorrect(m: Metric, r: seq<Facility>, i: nat, j: nat, improved: bool)
    requires IsDistance(m) && i + 2 <= j && |r| > 0
    ensures PassSpec(m, r, i, j, improved, Pass(m, r, i, j, improved))
    decreases |r| - i, |r| - j, 1
  {
    if i + 2 >= |r| {
      assert NoGainFrom(m, r, i, j);
    } else if j >= |r| {
      RowDone(m, r, i, j, improved);
    } else if NewEdges(m, r, i, j) < OldEdges(m, r, i, j) {
      SwapStep(m, r, i, j, improved);
    } else {
      NoGainStep(m, r, i, j, improved);
    }
  }

  /** At the end of a row the pass goes on with the next one. */
  lemma {:induction false} RowDone(m: Metric, r: seq<Facility>, i: nat, j: nat, improved: bool)
    requires IsDistance(m) && i + 2 < |r| <= j
    ensures PassSpec(m, r, i, j, improved, Pass(m, r, i, j, improved))
    decreases |r| - i, |r| - j, 0
  {
    PassCorrect(m, r, i + 1, i + 3, improved);
    assert NoGainFrom(m, r, i + 1, i + 3) ==> NoGainFrom(m, r, i, j);
  }

  /** An improving swap followed by a pass that meets its promise meets it for the whole. */
  lemma {:induction false} SwapStep(m: Metric, r: seq<Facility>, i: nat, j: nat, improved: bool)
    requires IsDistance(m) && i + 2 <= j < |r| && NewEdges(m, r, i, j) < OldEdges(m, r, i, j)
    ensures PassSpec(m, r, i, j, improved, Pass(m, r, i, j, improved))
    decreases |r| - i, |r| - j, 0
  {
    PassCorrect(m, Swap(r, i, j), i, j + 1, true);
    SwapPermutes(r, i, j);
    SwapLength(m, r, i, j);
  }

  /** A pair that does not improve extends the range without gain by one. */
  lemma {:induction false} NoGainStep(m: Metric, r: seq<Facility>, i: nat, j: nat, improved: bool)
    requires IsDistance(m) && i + 2 <= j < |r| && NewEdges(m, r, i, j) >= OldEdges(m, r, i, j)
    ensures PassSpec(m, r, i, j, improved, Pass(m, r, i, j, improved))
    decreases |r| - i, |r| - j, 0
  {
    PassCorrect(m, r, i, j + 1, improved);
    assert NoGainFrom(m, r, i, j + 1) ==> NoGainFrom(m, r, i, j);
  }

  /**
   * The `while (verbessert)` loop with at most `fuel` passes. The flag
   * tells whether a pass without any swap ended the loop.
   */
  function Improve(m: Metric, r: seq<Facility>, fuel: nat): (p: (seq<Facility>, bool))
    requires IsDistance(m)
    decreases fuel
  {
    if fuel == 0 then (r, false)
    else
      var (r', improved) := Pass(m, r, 0, 2, false);
      if improved then Improve(m, r', fuel - 1) else (r', true)
  }

  /**
   * `verbessereRouteMit2Opt` with at most `fuel` passes: routes with fewer
   * than four stops are returned unchanged.
   */
  function TwoOpt(m: Metric, route: seq<Facility>, fuel: nat): seq<Facility>
    requires IsDistance(m)
  {
    if |route| < 4 then route else Improve(m, route, fuel).0
  }

  lemma {:induction false} ImproveCorrect(m: Metric, r: seq<Facility>, fuel: nat)
    requires IsDistance(m) && |r| > 0
    ensures var (r', converged) := Improve(m, r, fuel);
            multiset(r') == multiset(r) && r'[0] == r[0] &&
            RouteLength(m, r') <= RouteLength(m, r) &&
            (r' == r || RouteLength(m, r') < RouteLength(m, r)) &&
            (converged ==> TwoOptOptimal(m, r'))
    decreases fuel
  {
    if fuel > 0 {
      PassCorrect(m, r, 0, 2, false);
      var (r', improved) := Pass(m, r, 0, 2, false);
      assert PassSpec(m, r, 0, 2, false, (r', improved));
      if improved {
        ImproveCorrect(m, r', fuel - 1);
      }
    }
  }

  /**
   * 2-opt reorders the route without changing its first stop and never
   * makes it longer; it either leaves the route alone or shortens it, and
   * a route of fewer than four stops is always left alone.
   */
  lemma TwoOptCorrect(m: Metric, route: seq<Facility>, fuel: nat)
    requires IsDistance(m) && |route| > 0
    ensures var r := TwoOpt(m, route, fuel);
            (|route| < 4 ==> r == route) &&
            multiset(r) == multiset(route) && r[0] == route[0] &&
            RouteLength(m, r) <= RouteLength(m, route) &&
            (r == route || RouteLength(m, r) < RouteLength(m, route))
  {
    if |route| >= 4 {
      ImproveCorrect(m, route, fuel);
    }
  }

  /**
   * When the loop stops because a pass found nothing, no 2-opt move can
   * shorten the result, and running 2-opt on it again changes nothing.
   */
  lemma TwoOptConverged(m: Metric, route: seq<Facility>, fuel: nat)
    requires IsDistance(m) && |route| >= 4 && Improve(m, route, fuel).1
    ensures TwoOptOptimal(m, TwoOpt(m, route, fuel))
    ensures TwoOpt(m, TwoOpt(m, route, fuel), 1) == TwoOpt(m, route, fuel)
  {
    ImproveCorrect(m, route, fuel);
    var r := TwoOpt(m, route, fuel);
    OptimalIsFixpoint(m, r, 0, 2, false);
  }

  /** A pass over a route no move can shorten changes nothing. */
  lemma {:induction false} OptimalIsFixpoint(m: Metric, r: seq<Facility>, i: nat, j: nat, improved: bool)
    requires IsDistance(m) && i + 2 <= j && NoGainFrom(m, r, i, j)
    ensures Pass(m, r, i, j, improved) == (r, improved)
    decreases |r| - i, |r| - j
  {
    if i + 2 < |r| {
      if j >= |r| {
        OptimalIsFixpoint(m, r, i + 1, i + 3, improved);
      } else {
        OptimalIsFixpoint(m, r, i, j + 1, improved);
      }
    }
  }

  // ---------------------------------------------------------------------
  // Whole route

  /**
   * `erstelleOptimierteRoute`: no route for no facilities, the single
   * facility for one, otherwise the nearest-neighbour route improved by
   * 2-opt.
   */
  function OptimizedRoute(m: Metric, fs: seq<Facility>, fuel: nat): seq<Facility>
    requires IsDistance(m)
  {
    if |fs| == 0 then []
    else if |fs| == 1 then [fs[0]]
    else TwoOpt(m, NearestNeighbourRoute(m, fs), fuel)
  }

  /**
   * The optimised route starts at the first facility, uses only given
   * facilities, and is a reordering of all of them when every facility has
   * coordinates.
   */
  lemma OptimizedRouteCorrect(m: Metric, fs: seq<Facility>, fuel: nat)
    requires IsDistance(m)
    ensures var r := OptimizedRoute(m, fs, fuel);
            (|fs| == 0 <==> |r| == 0) && (|fs| > 0 ==> r[0] == fs[0]) &&
            |r| <= |fs| && (forall f :: f in r ==> f in fs) &&
            (AllLocated(fs) ==> multiset(r) == multiset(fs))
  {
    if |fs| > 1 {
      var nn := NearestNeighbourRoute(m, fs);
      TwoOptCorrect(m, nn, fuel);
      var r := TwoOpt(m, nn, fuel);
      forall f | f in r
        ensures f in fs
      {
        assert f in multiset(r);
        assert f in multiset(nn);
      }
    } else if |fs| == 1 {
      assert [fs[0]] == fs;
    }
  }
}
