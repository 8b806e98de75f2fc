/**
 * Estimation of missing total power (`LeistungsSchaetzer`): a node without
 * a power value receives the mean power of its suitable neighbours. Nodes
 * are visited in order, so a value filled in earlier is known to later nodes.
 */
module PowerEstimator {
  import opened Wrappers
  import opened Seqs
  import opened Facilities
  import opened ProximityGraph

  /** `sindWerteGleichOderBeideNull`: both missing, or both present and equal. */
  predicate SameOrBothMissing(a: Option<string>, b: Option<string>)
  {
    if a.None? && b.None? then true
    else if a.None? || b.None? then false
    else a.value == b.value
  }

  /** The type test is plain equality of optional values, hence symmetric. */
  lemma SameOrBothMissingIsEquality(a: Option<string>, b: Option<string>)
    ensures SameOrBothMissing(a, b) <==> a == b
    ensures SameOrBothMissing(a, b) <==> SameOrBothMissing(b, a)
  {
  }

  /** `istNachbarGeeignet`: the neighbour has a power value and the same type. */
  predicate Suitable(f: Facility, neighbour: Facility)
  {
    neighbour.powerMW.Some? && SameOrBothMissing(f.typ, neighbour.typ)
  }

  /** The loop of `schaetzeGesamtleistung`: sum and number of suitable neighbours among `nbs`. */
  function SumSuitable(nodes: seq<Node>, f: Facility, nbs: seq<nat>): (r: (real, nat))
    requires IndicesBelow(nbs, |nodes|)
    ensures r.1 <= |nbs|
  {
    if |nbs| == 0 then (0.0, 0)
    else
      var rest := SumSuitable(nodes, f, nbs[1..]);
      var n := nodes[nbs[0]].facility;
      if Suitable(f, n) then (rest.0 + n.powerMW.value, rest.1 + 1) else rest
  }

  /** `schaetzeGesamtleistung`: the mean power of the suitable neighbours of node `a`, if any. */
  function Estimate(nodes: seq<Node>, a: nat): (r: Option<real>)
    requires InRange(nodes) && a < |nodes|
  {
    var s := SumSuitable(nodes, nodes[a].facility, nodes[a].neighbours);
    if s.1 > 0 then Some(s.0 / s.1 as real) else None
  }

  /** No suitable neighbour is counted exactly when there is none. */
  lemma {:induction false} SumSuitableNone(nodes: seq<Node>, f: Facility, nbs: seq<nat>)
    requires IndicesBelow(nbs, |nodes|)
    ensures SumSuitable(nodes, f, nbs).1 == 0 <==> forall b :: b in nbs ==> !Suitable(f, nodes[b].facility)
  {
    if |nbs| > 0 {
      SumSuitableNone(nodes, f, nbs[1..]);
      assert nbs == [nbs[0]] + nbs[1..];
    }
  }

  /** There is no estimate exactly when node `a` has no suitable neighbour. */
  lemma EstimateNone(nodes: seq<Node>, a: nat)
    requires InRange(nodes) && a < |nodes|
    ensures Estimate(nodes, a).None? <==>
              forall b :: b in nodes[a].neighbours ==> !Suitable(nodes[a].facility, nodes[b].facility)
  {
    SumSuitableNone(nodes, nodes[a].facility, nodes[a].neighbours);
  }

  /** The powers of the suitable neighbours among `nbs`, in order. */
  function SuitablePowers(nodes: seq<Node>, f: Facility, nbs: seq<nat>): (r: seq<real>)
    requires IndicesBelow(nbs, |nodes|)
    ensures |r| <= |nbs|
  {
    if |nbs| == 0 then []
    else
      var n := nodes[nbs[0]].facility;
      var rest := SuitablePowers(nodes, f, nbs[1..]);
      if Suitable(f, n) then [n.powerMW.value] + rest else rest
  }

  /** Bounds that hold for every suitable neighbour hold for every collected power. */
  lemma {:induction false} SuitablePowersWithin(nodes: seq<Node>, f: Facility, nbs: seq<nat>, lo: real, hi: real)
    requires IndicesBelow(nbs, |nodes|)
    requires forall b :: b in nbs && Suitable(f, nodes[b].facility) ==> lo <= nodes[b].facility.powerMW.value <= hi
    ensures forall i :: 0 <= i < |SuitablePowers(nodes, f, nbs)| ==> lo <= SuitablePowers(nodes, f, nbs)[i] <= hi
  {
    if |nbs| > 0 {
      assert forall b :: b in nbs[1..] ==> b in nbs;
      SuitablePowersWithin(nodes, f, nbs[1..], lo, hi);
    }
  }

  function Sum(ps: seq<real>): real
  {
    if |ps| == 0 then 0.0 else ps[0] + Sum(ps[1..])
  }

  /** The loop accumulates exactly the sum and the number of the suitable powers. */
  lemma {:induction false} SumSuitableIsSum(nodes: seq<Node>, f: Facility, nbs: seq<nat>)
    requires IndicesBelow(nbs, |nodes|)
    ensures var ps := SuitablePowers(nodes, f, nbs);
            SumSuitable(nodes, f, nbs) == (Sum(ps), |ps|)
  {
    if |nbs| > 0 {
      SumSuitableIsSum(nodes, f, nbs[1..]);
    }
  }

  /** A sum of values in `[lo, hi]` lies between `lo` and `hi` times their number. */
  lemma {:induction false} SumWithin(ps: seq<real>, lo: real, hi: real)
    requires forall i :: 0 <= i < |ps| ==> lo <= ps[i] <= hi
    ensures lo * |ps| as real <= Sum(ps) <= hi * |ps| as real
  {
    if |ps| > 0 {
      assert forall i :: 0 <= i < |ps[1..]| ==> ps[1..][i] == ps[i + 1];
      SumWithin(ps[1..], lo, hi);
      BoundsStep(Sum(ps[1..]), |ps[1..]| as real, ps[0], lo, hi);
    }
  }

  lemma BoundsStep(sum: real, count: real, p: real, lo: real, hi: real)
    requires lo * count <= sum <= hi * count && lo <= p <= hi
    ensures lo * (count + 1.0) <= sum + p <= hi * (count + 1.0)
  {
  }

  /** The estimate is a mean: it lies within any bounds that hold for every suitable neighbour. */
  lemma EstimateWithin(nodes: seq<Node>, a: nat, lo: real, hi: real)
    requires InRange(nodes) && a < |nodes|
    requires forall b :: b in nodes[a].neighbours && Suitable(nodes[a].facility, nodes[b].facility) ==>
               lo <= nodes[b].facility.powerMW.value <= hi
    ensures Estimate(nodes, a).Some? ==> lo <= Estimate(nodes, a).value <= hi
  {
    var f, nbs := nodes[a].facility, nodes[a].neighbours;
    var s := SumSuitable(nodes, f, nbs);
    assert lo * s.1 as real <= s.0 <= hi * s.1 as real by {
      SumSuitableWithin(nodes, f, nbs, lo, hi);
    }
    if s.1 > 0 {
      MeanWithin(s, lo, hi);
    }
  }

  lemma SumSuitableWithin(nodes: seq<Node>, f: Facility, nbs: seq<nat>, lo: real, hi: real)
    requires IndicesBelow(nbs, |nodes|)
    requires forall b :: b in nbs && Suitable(f, nodes[b].facility) ==> lo <= nodes[b].facility.powerMW.value <= hi
    ensures var s := SumSuitable(nodes, f, nbs);
            lo * s.1 as real <= s.0 <= hi * s.1 as real
  {
    var ps := SuitablePowers(nodes, f, nbs);
    SumSuitableIsSum(nodes, f, nbs);
    SuitablePowersWithin(nodes, f, nbs, lo, hi);
    SumWithin(ps, lo, hi);
  }

  lemma MeanWithin(s: (real, nat), lo: real, hi: real)
    requires s.1 > 0 && lo * s.1 as real <= s.0 <= hi * s.1 as real
    ensures lo <= s.0 / s.1 as real <= hi
  {
  }

  /** Node `a` with its facility's power set to `v`. */
  function WithPower(node: Node, v: real): Node
  {
    node.(facility := node.facility.(powerMW := Some(v)))
  }

  /** Setting a power keeps every neighbour index in range. */
  lemma WithPowerInRange(nodes: seq<Node>, i: nat, v: real)
    requires InRange(nodes) && i < |nodes|
    ensures InRange(nodes[i := WithPower(nodes[i], v)])
  {
    var next := nodes[i := WithPower(nodes[i], v)];
    forall a | 0 <= a < |next|
      ensures IndicesBelow(next[a].neighbours, |next|)
    {
      assert next[a].neighbours == nodes[a].neighbours;
    }
  }

  /**
   * One iteration of `ergaenzeFehlendeDaten` at node `i`: a node without
   * power gets the estimate computed on the current nodes, if there is one.
   * The second component is 1 when a value was filled in.
   */
  function FillStep(nodes: seq<Node>, i: nat): (r: (seq<Node>, nat))
    requires InRange(nodes) && i < |nodes|
    ensures |r.0| == |nodes| && InRange(r.0)
    ensures forall k :: 0 <= k < |nodes| && k != i ==> r.0[k] == nodes[k]
    ensures FilledOrKept(nodes[i], r.0[i])
    ensures nodes[i].facility.powerMW.Some? ==> r.0[i] == nodes[i]
    ensures nodes[i].facility.powerMW.None? ==> r.0[i].facility.powerMW == Estimate(nodes, i)
    ensures r.1 == (if r.0[i] == nodes[i] then 0 else 1)
  {
    if nodes[i].facility.powerMW.None? && Estimate(nodes, i).Some? then
      WithPowerInRange(nodes, i, Estimate(nodes, i).value);
      (nodes[i := WithPower(nodes[i], Estimate(nodes, i).value)], 1)
    else (nodes, 0)
  }

  /** The loop of `ergaenzeFehlendeDaten` from node `i` on. */
  function FillFrom(nodes: seq<Node>, i: nat, filled: nat): (r: (seq<Node>, nat))
    requires InRange(nodes)
    ensures |r.0| == |nodes| && InRange(r.0)
    decreases |nodes| - i
  {
    if i >= |nodes| then (nodes, filled)
    else
      var step := FillStep(nodes, i);
      FillFrom(step.0, i + 1, filled + step.1)
  }

  /** `ergaenzeFehlendeDaten`: the updated nodes and the number of values filled in. */
  function FillMissing(nodes: seq<Node>): (r: (seq<Node>, nat))
    requires InRange(nodes)
  {
    FillFrom(nodes, 0, 0)
  }

  /** Node `before` became `after` by at most filling in a missing power. */
  predicate FilledOrKept(before: Node, after: Node)
  {
    after == before ||
    (before.facility.powerMW.None? && after.facility.powerMW.Some? &&
     after == WithPower(before, after.facility.powerMW.value))
  }

  /** The number of positions below `n` whose power was missing in `a` and is present in `b`. */
  function CountFilled(a: seq<Node>, b: seq<Node>, n: nat): nat
    requires n <= |a| && n <= |b|
  {
    if n == 0 then 0
    else CountFilled(a, b, n - 1)
         + (if a[n - 1].facility.powerMW.None? && b[n - 1].facility.powerMW.Some? then 1 else 0)
  }

  lemma {:induction false} CountFilledSame(a: seq<Node>, b: seq<Node>, c: seq<Node>, n: nat)
    requires n <= |a| && n <= |b| && n <= |c|
    requires forall k :: 0 <= k < n ==> b[k] == c[k]
    ensures CountFilled(a, b, n) == CountFilled(a, c, n)
  {
    if n > 0 {
      CountFilledSame(a, b, c, n - 1);
    }
  }

  /**
   * The nodes as node `k` sees them when its turn comes: those before `k`
   * as the loop has left them, those from `k` on as they were.
   */
  function SeenAt(orig: seq<Node>, cur: seq<Node>, k: nat): (r: seq<Node>)
    requires k <= |cur| && k <= |orig|
    ensures |r| == |orig|
    ensures forall j :: 0 <= j < k ==> r[j] == cur[j]
    ensures forall j :: k <= j < |orig| ==> r[j] == orig[j]
  {
    cur[..k] + orig[k..]
  }

  /**
   * The filling invariant: nodes before `i` may be filled, nodes from `i` on
   * are as they were, and every node before `i` that lacked a power now
   * carries the estimate computed on the nodes as it saw them, so earlier
   * fills count for later nodes.
   */
  ghost predicate FillState(orig: seq<Node>, cur: seq<Node>, i: nat, filled: nat)
  {
    |cur| == |orig| && i <= |orig| &&
    (forall k :: 0 <= k < |orig| ==> FilledOrKept(orig[k], cur[k])) &&
    (forall k :: i <= k < |orig| ==> cur[k] == orig[k]) &&
    FilledAsSeen(orig, cur, i) &&
    filled == CountFilled(orig, cur, i)
  }

  /** Every node before `i` that lacked a power carries the estimate on the nodes as it saw them. */
  ghost predicate FilledAsSeen(orig: seq<Node>, cur: seq<Node>, i: nat)
    requires |cur| == |orig| && i <= |orig|
  {
    forall k {:trigger SeenAt(orig, cur, k)} :: 0 <= k < i && orig[k].facility.powerMW.None? ==>
      InRange(SeenAt(orig, cur, k)) && cur[k].facility.powerMW == Estimate(SeenAt(orig, cur, k), k)
  }

  /**
   * The loop from node `i` on, started in the filling invariant, ends in it
   * with every node handled; `r` is the loop's outcome.
   */
  lemma {:induction false} FillFromCorrect(orig: seq<Node>, nodes: seq<Node>, i: nat, filled: nat, r: (seq<Node>, nat))
    requires InRange(nodes) && FillState(orig, nodes, i, filled) && r == FillFrom(nodes, i, filled)
    ensures FillState(orig, r.0, |orig|, r.1)
    decreases |nodes| - i
  {
    if i < |nodes| {
      var step := FillStep(nodes, i);
      FillStepKeepsState(orig, nodes, i, filled);
      FillFromUnfold(nodes, i, filled);
      FillFromCorrect(orig, step.0, i + 1, filled + step.1, r);
    } else {
      FillFromDone(nodes, i, filled);
      FillStateTransfer(orig, nodes, r.0, i, |orig|, filled, r.1);
    }
  }

  lemma FillFromUnfold(nodes: seq<Node>, i: nat, filled: nat)
    requires InRange(nodes) && i < |nodes|
    ensures var step := FillStep(nodes, i);
            FillFrom(nodes, i, filled) == FillFrom(step.0, i + 1, filled + step.1)
  {
  }

  lemma FillFromDone(nodes: seq<Node>, i: nat, filled: nat)
    requires InRange(nodes) && i >= |nodes|
    ensures FillFrom(nodes, i, filled) == (nodes, filled)
  {
  }

  /** The filling invariant carries over to equal arguments. */
  lemma FillStateTransfer(orig: seq<Node>, a: seq<Node>, b: seq<Node>, i: nat, j: nat, f: nat, g: nat)
    requires FillState(orig, a, i, f) && a == b && i == j && f == g
    ensures FillState(orig, b, j, g)
  {
  }

  /** One iteration keeps the filling invariant, one node further on. */
  lemma FillStepKeepsState(orig: seq<Node>, nodes: seq<Node>, i: nat, filled: nat)
    requires InRange(nodes) && FillState(orig, nodes, i, filled) && i < |nodes|
    ensures var step := FillStep(nodes, i);
            FillState(orig, step.0, i + 1, filled + step.1)
  {
    var step := FillStep(nodes, i);
    var next := step.0;
    CountFilledSame(orig, nodes, next, i);
    forall k | 0 <= k < i && orig[k].facility.powerMW.None?
      ensures SeenAt(orig, next, k) == SeenAt(orig, nodes, k)
    {
    }
    assert SeenAt(orig, nodes, i) == nodes;
    assert SeenAt(orig, next, i) == nodes;
  }

  /**
   * Filling changes only nodes whose power was missing, and only by setting
   * their power; a node whose power was missing carries afterwards the
   * estimate computed on the nodes as it saw them in its turn (so it is
   * filled whenever that estimate exists, and an earlier fill counts for a
   * later node); the count returned is the number of nodes filled in.
   */
  lemma FillMissingCorrect(nodes: seq<Node>)
    requires InRange(nodes)
    ensures var r := FillMissing(nodes);
            |r.0| == |nodes| &&
            (forall k :: 0 <= k < |nodes| ==> FilledOrKept(nodes[k], r.0[k])) &&
            (forall k :: 0 <= k < |nodes| && nodes[k].facility.powerMW.Some? ==> r.0[k] == nodes[k]) &&
            (forall k :: 0 <= k < |nodes| && nodes[k].facility.powerMW.None? ==>
               InRange(SeenAt(nodes, r.0, k)) && r.0[k].facility.powerMW == Estimate(SeenAt(nodes, r.0, k), k)) &&
            r.1 == CountFilled(nodes, r.0, |nodes|)
  {
    var r := FillMissing(nodes);
    FillFromCorrect(nodes, nodes, 0, 0, r);
    forall k | 0 <= k < |nodes| && nodes[k].facility.powerMW.Some?
      ensures r.0[k] == nodes[k]
    {
      assert FilledOrKept(nodes[k], r.0[k]);
    }
  }

  /** Every present power of `nodes` lies in `[lo, hi]`. */
  ghost predicate PowersWithin(nodes: seq<Node>, lo: real, hi: real)
  {
    forall k :: 0 <= k < |nodes| && nodes[k].facility.powerMW.Some? ==>
      lo <= nodes[k].facility.powerMW.value <= hi
  }

  /** One iteration keeps every present power within bounds, the new one being a mean of others. */
  lemma FillStepWithin(nodes: seq<Node>, i: nat, lo: real, hi: real)
    requires InRange(nodes) && i < |nodes| && PowersWithin(nodes, lo, hi)
    ensures PowersWithin(FillStep(nodes, i).0, lo, hi)
  {
    var next := FillStep(nodes, i).0;
    if next[i] != nodes[i] {
      EstimateWithin(nodes, i, lo, hi);
    }
  }

  lemma {:induction false} FillFromWithin(nodes: seq<Node>, i: nat, filled: nat, lo: real, hi: real)
    requires InRange(nodes) && PowersWithin(nodes, lo, hi)
    ensures PowersWithin(FillFrom(nodes, i, filled).0, lo, hi)
    decreases |nodes| - i
  {
    if i < |nodes| {
      var step := FillStep(nodes, i);
      FillStepWithin(nodes, i, lo, hi);
      FillFromWithin(step.0, i + 1, filled + step.1, lo, hi);
    }
  }

  /**
   * Filling in estimates never leaves the range of the known powers: when
   * every present power lies in `[lo, hi]`, so does every power afterwards.
   */
  lemma FillMissingWithin(nodes: seq<Node>, lo: real, hi: real)
    requires InRange(nodes)
    requires forall k :: 0 <= k < |nodes| && nodes[k].facility.powerMW.Some? ==>
               lo <= nodes[k].facility.powerMW.value <= hi
    ensures forall k :: 0 <= k < |nodes| && FillMissing(nodes).0[k].facility.powerMW.Some? ==>
              lo <= FillMissing(nodes).0[k].facility.powerMW.value <= hi
  {
    FillFromWithin(nodes, 0, 0, lo, hi);
  }

  /**
   * An earlier fill counts for a later node: node 1's only neighbour is
   * node 0, which has no power at the start, so on the original nodes node
   * 1 has no estimate; node 0 is filled first from node 2, and node 1 then
   * receives the same value.
   */
  lemma FillSeesEarlierFills(f: Facility)
    requires f.powerMW.None?
    ensures var nodes := [Node(f, [2]), Node(f, [0]), WithPower(Node(f, []), 2.0)];
            InRange(nodes) && Estimate(nodes, 1).None? &&
            FillMissing(nodes).0[1].facility.powerMW == Some(2.0) && FillMissing(nodes).1 == 2
  {
    var nodes := [Node(f, [2]), Node(f, [0]), WithPower(Node(f, []), 2.0)];
    assert InRange(nodes) by {
      forall a | 0 <= a < |nodes|
        ensures IndicesBelow(nodes[a].neighbours, |nodes|)
      {
      }
    }
    assert SumSuitable(nodes, f, [0][1..]) == (0.0, 0);
    assert Estimate(nodes, 1).None?;
    assert SumSuitable(nodes, f, [2][1..]) == (0.0, 0);
    assert Estimate(nodes, 0) == Some(2.0);
    var s0 := FillStep(nodes, 0);
    assert s0.0[0].facility.powerMW == Some(2.0) && s0.1 == 1;
    assert s0.0[1] == nodes[1];
    assert SumSuitable(s0.0, f, [0]) == (2.0, 1);
    assert Estimate(s0.0, 1) == Some(2.0);
    var s1 := FillStep(s0.0, 1);
    assert s1.0[1].facility.powerMW == Some(2.0) && s1.1 == 1;
    var s2 := FillStep(s1.0, 2);
    assert s2.0 == s1.0 && s2.1 == 0;
    FillFromUnfold(nodes, 0, 0);
    FillFromUnfold(s0.0, 1, 1);
    FillFromUnfold(s1.0, 2, 2);
    FillFromDone(s2.0, 3, 2);
  }
}
