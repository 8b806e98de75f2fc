/**
 * The proximity graph (`WindkraftanlageGraph`, `Graphknoten`): one node per
 * facility with coordinates, an undirected edge between every two nodes
 * whose distance is at most the threshold. Neighbours are node indices.
 */
module ProximityGraph {
  import opened Wrappers
  import opened Seqs
  import opened Facilities
  import opened Geo

  /** `Graphknoten`: a facility and the indices of its neighbours, in insertion order. */
  datatype Node = Node(facility: Facility, neighbours: seq<nat>)

  datatype Graph = Graph(threshold: real, nodes: seq<Node>)

  datatype GraphError = NonPositiveThreshold

  /**
   * `Graphknoten.fuegeNachbarHinzu`: appends `k` unless it is already a
   * neighbour.
   */
  function AddNeighbour(n: Node, k: nat): (r: Node)
    ensures r.facility == n.facility
    ensures forall x :: x in r.neighbours <==> x in n.neighbours || x == k
    ensures |r.neighbours| == |n.neighbours| + (if k in n.neighbours then 0 else 1)
    ensures r.neighbours[..|n.neighbours|] == n.neighbours
    ensures Distinct(n.neighbours) ==> Distinct(r.neighbours)
  {
    if k in n.neighbours then n else Node(n.facility, n.neighbours + [k])
  }

  /** Adding the same neighbour twice is the same as adding it once. */
  lemma AddNeighbourIdempotent(n: Node, k: nat)
    ensures AddNeighbour(AddNeighbour(n, k), k) == AddNeighbour(n, k)
  {
  }

  /** The graph puts an edge between nodes `a` and `b` of `facs` when they are close enough. */
  predicate Close(m: Metric, threshold: real, facs: seq<Facility>, a: nat, b: nat)
    requires IsDistance(m) && a < |facs| && b < |facs|
  {
    GraphDistance(m, facs[a], facs[b]) <= threshold
  }

  /**
   * Reference definition of adjacency: the nodes `b` in `[lo, hi)`, other
   * than `a`, that are close to `a`, in ascending order.
   */
  function CloseIn(m: Metric, threshold: real, facs: seq<Facility>, a: nat, lo: nat, hi: nat): seq<nat>
    requires IsDistance(m) && a < |facs| && hi <= |facs|
    decreases hi
  {
    if hi <= lo then []
    else CloseIn(m, threshold, facs, a, lo, hi - 1)
         + (if hi - 1 != a && Close(m, threshold, facs, a, hi - 1) then [hi - 1] else [])
  }

  lemma {:induction false} CloseInMembers(m: Metric, threshold: real, facs: seq<Facility>, a: nat, lo: nat, hi: nat)
    requires IsDistance(m) && a < |facs| && hi <= |facs|
    ensures forall b :: b in CloseIn(m, threshold, facs, a, lo, hi)
              <==> lo <= b < hi && b != a && Close(m, threshold, facs, a, b)
    ensures forall i, j :: 0 <= i < j < |CloseIn(m, threshold, facs, a, lo, hi)|
              ==> CloseIn(m, threshold, facs, a, lo, hi)[i] < CloseIn(m, threshold, facs, a, lo, hi)[j]
    decreases hi
  {
    if hi > lo {
      CloseInMembers(m, threshold, facs, a, lo, hi - 1);
      var s := CloseIn(m, threshold, facs, a, lo, hi - 1);
      var r := CloseIn(m, threshold, facs, a, lo, hi);
      forall i, j | 0 <= i < j < |r|
        ensures r[i] < r[j]
      {
        if j >= |s| {
          assert r[i] == s[i] && s[i] in s;
        }
      }
    }
  }

  lemma {:induction false} CloseInSplit(m: Metric, threshold: real, facs: seq<Facility>, a: nat, lo: nat, mid: nat, hi: nat)
    requires IsDistance(m) && a < |facs| && lo <= mid <= hi <= |facs|
    ensures CloseIn(m, threshold, facs, a, lo, hi)
            == CloseIn(m, threshold, facs, a, lo, mid) + CloseIn(m, threshold, facs, a, mid, hi)
    decreases hi
  {
    if hi > mid {
      CloseInSplit(m, threshold, facs, a, lo, mid, hi - 1);
    }
  }

  /** The node list before any edge is added: one node per facility with coordinates. */
  function InitialNodes(facs: seq<Facility>): (r: seq<Node>)
    ensures |r| == |facs|
    ensures forall k :: 0 <= k < |facs| ==> r[k] == Node(facs[k], [])
  {
    if |facs| == 0 then [] else [Node(facs[0], [])] + InitialNodes(facs[1..])
  }

  /** Every neighbour index refers to a node. */
  ghost predicate InRange(nodes: seq<Node>)
  {
    forall a :: 0 <= a < |nodes| ==> IndicesBelow(nodes[a].neighbours, |nodes|)
  }

  /** Node `a`'s facility is `facs[a]`, for every `a`. */
  ghost predicate Carries(nodes: seq<Node>, facs: seq<Facility>)
  {
    |nodes| == |facs| && forall a :: 0 <= a < |nodes| ==> nodes[a].facility == facs[a]
  }

  /** Where the scan of pairs `(p, q)`, `p < q`, stands for node `a`: lower neighbours seen so far. */
  function LowEnd(a: nat, i: nat, j: nat): nat
  {
    if a <= i then a else if a < j then i + 1 else i
  }

  /** Where the scan of pairs stands for node `a`: upper neighbours seen so far. */
  function HighEnd(a: nat, i: nat, j: nat, n: nat): nat
  {
    if a < i then n else if a == i then (if j > a + 1 then j else a + 1) else a + 1
  }

  /** Node `a` has exactly the neighbours the pairs scanned before `(i, j)` gave it. */
  ghost predicate NodeScanned(m: Metric, threshold: real, facs: seq<Facility>, nodes: seq<Node>, i: nat, j: nat, a: nat)
    requires IsDistance(m) && a < |facs| && |nodes| == |facs|
  {
    var n := |facs|;
    LowEnd(a, i, j) <= a < HighEnd(a, i, j, n) <= n &&
    nodes[a].neighbours
      == CloseIn(m, threshold, facs, a, 0, LowEnd(a, i, j))
         + CloseIn(m, threshold, facs, a, a + 1, HighEnd(a, i, j, n))
  }

  /**
   * The state of the double loop of `erstelleKanten` before pair `(i, j)`:
   * every pair `(p, q)` scanned so far contributed its edge, in order.
   */
  ghost predicate EdgeScan(m: Metric, threshold: real, facs: seq<Facility>, nodes: seq<Node>, i: nat, j: nat)
    requires IsDistance(m)
  {
    Carries(nodes, facs) && i <= |facs| && i < j && j <= |facs| + 1 && (i < |facs| ==> j <= |facs|)
    && forall a :: 0 <= a < |facs| ==> NodeScanned(m, threshold, facs, nodes, i, j, a)
  }

  /** The body of the inner loop for the pair `(i, j)`. */
  function ScanPair(m: Metric, threshold: real, nodes: seq<Node>, i: nat, j: nat): (r: seq<Node>)
    requires IsDistance(m) && i < j < |nodes|
    ensures |r| == |nodes|
    ensures forall k :: 0 <= k < |nodes| ==> r[k].facility == nodes[k].facility
    ensures forall k :: 0 <= k < |nodes| && k != i && k != j ==> r[k] == nodes[k]
    ensures GraphDistance(m, nodes[i].facility, nodes[j].facility) <= threshold
            ==> r[i] == AddNeighbour(nodes[i], j) && r[j] == AddNeighbour(nodes[j], i)
    ensures GraphDistance(m, nodes[i].facility, nodes[j].facility) > threshold ==> r == nodes
  {
    if GraphDistance(m, nodes[i].facility, nodes[j].facility) <= threshold then
      var withForward := nodes[i := AddNeighbour(nodes[i], j)];
      withForward[j := AddNeighbour(withForward[j], i)]
    else nodes
  }

  /**
   * `erstelleKanten`: the double loop over pairs `i < j`, adding the edge
   * in both directions when the two facilities are close.
   */
  function AddEdges(m: Metric, threshold: real, nodes: seq<Node>, i: nat, j: nat): (r: seq<Node>)
    requires IsDistance(m)
    requires i < j && (i < |nodes| ==> j <= |nodes|)
    ensures |r| == |nodes|
    decreases |nodes| - i, |nodes| - j
  {
    if i >= |nodes| then nodes
    else if j >= |nodes| then AddEdges(m, threshold, nodes, i + 1, i + 2)
    else AddEdges(m, threshold, ScanPair(m, threshold, nodes, i, j), i, j + 1)
  }

  lemma StepAtFirst(m: Metric, threshold: real, facs: seq<Facility>, nodes: seq<Node>, i: nat, j: nat)
    requires IsDistance(m) && EdgeScan(m, threshold, facs, nodes, i, j) && i < j < |nodes|
    ensures NodeScanned(m, threshold, facs, ScanPair(m, threshold, nodes, i, j), i, j + 1, i)
  {
    var n := |facs|;
    assert NodeScanned(m, threshold, facs, nodes, i, j, i);
    assert HighEnd(i, i, j, n) == j && HighEnd(i, i, j + 1, n) == j + 1;
    var r := ScanPair(m, threshold, nodes, i, j);
    assert nodes[i].facility == facs[i] && nodes[j].facility == facs[j];
    assert r[i] == if Close(m, threshold, facs, i, j) then AddNeighbour(nodes[i], j) else nodes[i];
    AddCloseNeighbour(m, threshold, facs, nodes[i], i, j);
  }

  /**
   * Node `i`, holding the close nodes below `j`, holds those below `j + 1`
   * after the pair `(i, j)`.
   */
  lemma AddCloseNeighbour(m: Metric, threshold: real, facs: seq<Facility>, nd: Node, i: nat, j: nat)
    requires IsDistance(m) && i < j < |facs|
    requires nd.neighbours == CloseIn(m, threshold, facs, i, 0, i) + CloseIn(m, threshold, facs, i, i + 1, j)
    ensures (if Close(m, threshold, facs, i, j) then AddNeighbour(nd, j) else nd).neighbours
            == CloseIn(m, threshold, facs, i, 0, i) + CloseIn(m, threshold, facs, i, i + 1, j + 1)
  {
    var low, high := CloseIn(m, threshold, facs, i, 0, i), CloseIn(m, threshold, facs, i, i + 1, j);
    assert CloseIn(m, threshold, facs, i, i + 1, j + 1)
        == high + (if Close(m, threshold, facs, i, j) then [j] else []);
    if Close(m, threshold, facs, i, j) {
      CloseInMembers(m, threshold, facs, i, 0, i);
      CloseInMembers(m, threshold, facs, i, i + 1, j);
      assert j !in nd.neighbours;
      assert low + high + [j] == low + (high + [j]);
    }
  }

  lemma StepAtSecond(m: Metric, threshold: real, facs: seq<Facility>, nodes: seq<Node>, i: nat, j: nat)
    requires IsDistance(m) && EdgeScan(m, threshold, facs, nodes, i, j) && i < j < |nodes|
    ensures NodeScanned(m, threshold, facs, ScanPair(m, threshold, nodes, i, j), i, j + 1, j)
  {
    var n := |facs|;
    assert NodeScanned(m, threshold, facs, nodes, i, j, j);
    assert Close(m, threshold, facs, i, j) == Close(m, threshold, facs, j, i);
    CloseInMembers(m, threshold, facs, j, 0, i);
    assert LowEnd(j, i, j) == i && LowEnd(j, i, j + 1) == i + 1;
    assert HighEnd(j, i, j, n) == j + 1 && HighEnd(j, i, j + 1, n) == j + 1;
    assert CloseIn(m, threshold, facs, j, j + 1, j + 1) == [];
  }

  lemma StepElsewhere(m: Metric, threshold: real, facs: seq<Facility>, nodes: seq<Node>, i: nat, j: nat, a: nat)
    requires IsDistance(m) && EdgeScan(m, threshold, facs, nodes, i, j) && i < j < |nodes|
    requires a < |nodes| && a != i && a != j
    ensures NodeScanned(m, threshold, facs, ScanPair(m, threshold, nodes, i, j), i, j + 1, a)
  {
    assert NodeScanned(m, threshold, facs, nodes, i, j, a);
    assert LowEnd(a, i, j + 1) == LowEnd(a, i, j) && HighEnd(a, i, j + 1, |facs|) == HighEnd(a, i, j, |facs|);
  }

  /** One step of the double loop keeps the scan state. */
  lemma EdgeStep(m: Metric, threshold: real, facs: seq<Facility>, nodes: seq<Node>, i: nat, j: nat)
    requires IsDistance(m) && EdgeScan(m, threshold, facs, nodes, i, j) && i < |nodes| && j < |nodes|
    ensures EdgeScan(m, threshold, facs, ScanPair(m, threshold, nodes, i, j), i, j + 1)
  {
    var next, j' := ScanPair(m, threshold, nodes, i, j), j + 1;
    forall a | 0 <= a < |facs|
      ensures NodeScanned(m, threshold, facs, next, i, j', a)
    {
      if a == i {
        StepAtFirst(m, threshold, facs, nodes, i, j);
      } else if a == j {
        StepAtSecond(m, threshold, facs, nodes, i, j);
      } else {
        StepElsewhere(m, threshold, facs, nodes, i, j, a);
      }
    }
  }

  /** The state after the inner loop ends is the state at the start of the next row. */
  lemma EdgeRow(m: Metric, threshold: real, facs: seq<Facility>, nodes: seq<Node>, i: nat)
    requires IsDistance(m) && EdgeScan(m, threshold, facs, nodes, i, |nodes|) && i < |nodes|
    ensures EdgeScan(m, threshold, facs, nodes, i + 1, i + 2)
  {
    var n, i', j' := |facs|, i + 1, i + 2;
    forall a | 0 <= a < n
      ensures NodeScanned(m, threshold, facs, nodes, i', j', a)
    {
      assert NodeScanned(m, threshold, facs, nodes, i, n, a);
      assert LowEnd(a, i + 1, i + 2) == LowEnd(a, i, n) && HighEnd(a, i + 1, i + 2, n) == HighEnd(a, i, n, n);
    }
  }

  /** At the end of the scan every node's neighbours are exactly its close nodes. */
  lemma EdgeScanDone(m: Metric, threshold: real, facs: seq<Facility>, nodes: seq<Node>, i: nat, j: nat)
    requires IsDistance(m) && EdgeScan(m, threshold, facs, nodes, i, j) && i >= |nodes|
    ensures forall a :: 0 <= a < |facs| ==> nodes[a].neighbours == CloseIn(m, threshold, facs, a, 0, |facs|)
  {
    var n := |facs|;
    forall a | 0 <= a < n
      ensures nodes[a].neighbours == CloseIn(m, threshold, facs, a, 0, n)
    {
      assert NodeScanned(m, threshold, facs, nodes, i, j, a);
      assert LowEnd(a, i, j) == a && HighEnd(a, i, j, n) == n;
      CloseInSplit(m, threshold, facs, a, 0, a, n);
      assert CloseIn(m, threshold, facs, a, a, a + 1) == [];
      CloseInSplit(m, threshold, facs, a, a, a + 1, n);
    }
  }

  lemma {:induction false} AddEdgesCorrect(m: Metric, threshold: real, facs: seq<Facility>, nodes: seq<Node>, i: nat, j: nat)
    requires IsDistance(m) && EdgeScan(m, threshold, facs, nodes, i, j)
    ensures Carries(AddEdges(m, threshold, nodes, i, j), facs)
    ensures forall a :: 0 <= a < |facs| ==>
              AddEdges(m, threshold, nodes, i, j)[a].neighbours == CloseIn(m, threshold, facs, a, 0, |facs|)
    decreases |nodes| - i, |nodes| - j
  {
    if i >= |nodes| {
      EdgeScanDone(m, threshold, facs, nodes, i, j);
    } else if j >= |nodes| {
      EdgeRow(m, threshold, facs, nodes, i);
      AddEdgesCorrect(m, threshold, facs, nodes, i + 1, i + 2);
    } else {
      EdgeStep(m, threshold, facs, nodes, i, j);
      AddEdgesCorrect(m, threshold, facs, ScanPair(m, threshold, nodes, i, j), i, j + 1);
    }
  }

  /** The constructor `WindkraftanlageGraph(maxDistanzKm)`: the threshold must be positive. */
  function NewGraph(threshold: real): (r: Result<Graph, GraphError>)
    ensures r.Success? <==> threshold > 0.0
    ensures r.Success? ==> r.value.threshold == threshold && r.value.nodes == []
  {
    if threshold <= 0.0 then Failure(NonPositiveThreshold) else Success(Graph(threshold, []))
  }

  /**
   * `baueGraphAuf` on a freshly constructed graph: one node per facility
   * with both coordinates, then the edges.
   */
  function Build(m: Metric, g: Graph, fs: seq<Facility>): (r: Graph)
    requires IsDistance(m) && g.nodes == []
    ensures r.threshold == g.threshold
    ensures Carries(r.nodes, WithCoordinates(fs))
  {
    var facs := WithCoordinates(fs);
    var nodes := InitialNodes(facs);
    AddEdgesCorrect(m, g.threshold, facs, nodes, 0, 1);
    Graph(g.threshold, AddEdges(m, g.threshold, nodes, 0, 1))
  }

  /** Adjacency as the graph must have it: the nodes close to `a`, ascending. */
  function Adjacent(m: Metric, g: Graph, a: nat): seq<nat>
    requires IsDistance(m) && a < |g.nodes|
  {
    CloseIn(m, g.threshold, NodeFacilities(g.nodes), a, 0, |g.nodes|)
  }

  /** The facilities of the nodes, in node order. */
  function NodeFacilities(nodes: seq<Node>): (r: seq<Facility>)
    ensures |r| == |nodes|
    ensures forall k :: 0 <= k < |nodes| ==> r[k] == nodes[k].facility
  {
    if |nodes| == 0 then [] else [nodes[0].facility] + NodeFacilities(nodes[1..])
  }

  /** Every node's neighbour list is what `Adjacent` prescribes. */
  ghost predicate IsProximityGraph(m: Metric, g: Graph)
    requires IsDistance(m)
  {
    forall a :: 0 <= a < |g.nodes| ==> g.nodes[a].neighbours == Adjacent(m, g, a)
  }

  /** The graph built from `fs` is the proximity graph of its facilities with coordinates. */
  lemma BuildIsProximityGraph(m: Metric, g: Graph, fs: seq<Facility>)
    requires IsDistance(m)
    requires g.nodes == []
    ensures IsProximityGraph(m, Build(m, g, fs))
  {
    var facs := WithCoordinates(fs);
    AddEdgesCorrect(m, g.threshold, facs, InitialNodes(facs), 0, 1);
    assert NodeFacilities(Build(m, g, fs).nodes) == facs;
  }

  /**
   * What a proximity graph guarantees: `b` is a neighbour of `a` exactly
   * when they are different nodes within the threshold; so the graph is
   * undirected, has no loops, and lists neighbours in ascending order
   * without repetition.
   */
  lemma ProximityGraphShape(m: Metric, g: Graph)
    requires IsDistance(m) && IsProximityGraph(m, g)
    ensures forall a, b :: 0 <= a < |g.nodes| && 0 <= b < |g.nodes| ==>
              (b in g.nodes[a].neighbours
               <==> a != b && GraphDistance(m, g.nodes[a].facility, g.nodes[b].facility) <= g.threshold)
    ensures InRange(g.nodes)
    ensures forall a, b :: 0 <= a < |g.nodes| && 0 <= b < |g.nodes| ==>
              (b in g.nodes[a].neighbours <==> a in g.nodes[b].neighbours)
    ensures forall a, i, j :: 0 <= a < |g.nodes| && 0 <= i < j < |g.nodes[a].neighbours| ==>
              g.nodes[a].neighbours[i] < g.nodes[a].neighbours[j]
  {
    forall a | 0 <= a < |g.nodes|
      ensures forall b :: b in g.nodes[a].neighbours
                <==> 0 <= b < |g.nodes| && a != b
                     && GraphDistance(m, g.nodes[a].facility, g.nodes[b].facility) <= g.threshold
      ensures IndicesBelow(g.nodes[a].neighbours, |g.nodes|)
      ensures forall i, j :: 0 <= i < j < |g.nodes[a].neighbours| ==>
                g.nodes[a].neighbours[i] < g.nodes[a].neighbours[j]
    {
      NeighbourShape(m, g, a);
    }
  }

  lemma NeighbourShape(m: Metric, g: Graph, a: nat)
    requires IsDistance(m) && IsProximityGraph(m, g) && a < |g.nodes|
    ensures forall b :: b in g.nodes[a].neighbours
              <==> 0 <= b < |g.nodes| && a != b
                   && GraphDistance(m, g.nodes[a].facility, g.nodes[b].facility) <= g.threshold
    ensures IndicesBelow(g.nodes[a].neighbours, |g.nodes|)
    ensures forall i, j :: 0 <= i < j < |g.nodes[a].neighbours| ==>
              g.nodes[a].neighbours[i] < g.nodes[a].neighbours[j]
  {
    var facs := NodeFacilities(g.nodes);
    CloseInMembers(m, g.threshold, facs, a, 0, |g.nodes|);
    assert g.nodes[a].neighbours == CloseIn(m, g.threshold, facs, a, 0, |g.nodes|);
    forall i | 0 <= i < |g.nodes[a].neighbours|
      ensures g.nodes[a].neighbours[i] < |g.nodes|
    {
      assert g.nodes[a].neighbours[i] in g.nodes[a].neighbours;
    }
  }

  /** Sum of `getAnzahlNachbarn` over the nodes. */
  function SumDegrees(nodes: seq<Node>): nat
  {
    if |nodes| == 0 then 0 else SumDegrees(nodes[..|nodes| - 1]) + |nodes[|nodes| - 1].neighbours|
  }

  /** `getAnzahlKanten`: the degree sum halved, since each edge is listed at both ends. */
  function EdgeCount(g: Graph): nat
  {
    SumDegrees(g.nodes) / 2
  }

  /** Number of close pairs `(a, b)` with `a < k` and `a < b < hi`. */
  function PairsBelow(m: Metric, threshold: real, facs: seq<Facility>, k: nat, hi: nat): nat
    requires IsDistance(m) && k <= hi <= |facs|
  {
    if k == 0 then 0
    else PairsBelow(m, threshold, facs, k - 1, hi) + |CloseIn(m, threshold, facs, k - 1, k, hi)|
  }

  /** Number of close pairs `(b, a)` with `b < a < k`. */
  function PairsAbove(m: Metric, threshold: real, facs: seq<Facility>, k: nat): nat
    requires IsDistance(m) && k <= |facs|
  {
    if k == 0 then 0
    else PairsAbove(m, threshold, facs, k - 1) + |CloseIn(m, threshold, facs, k - 1, 0, k - 1)|
  }

  /** Number of unordered pairs of distinct nodes within the threshold. */
  function ClosePairs(m: Metric, g: Graph): nat
    requires IsDistance(m)
  {
    PairsBelow(m, g.threshold, NodeFacilities(g.nodes), |g.nodes|, |g.nodes|)
  }

  /** Raising the upper bound from `n` to `n + 1` adds the pairs `(a, n)`. */
  lemma {:induction false} PairsBelowColumn(m: Metric, threshold: real, facs: seq<Facility>, k: nat, n: nat)
    requires IsDistance(m) && k <= n < |facs|
    ensures PairsBelow(m, threshold, facs, k, n + 1)
            == PairsBelow(m, threshold, facs, k, n) + |CloseIn(m, threshold, facs, n, 0, k)|
  {
    if k > 0 {
      PairsBelowColumn(m, threshold, facs, k - 1, n);
      assert Close(m, threshold, facs, k - 1, n) == Close(m, threshold, facs, n, k - 1);
    }
  }

  /** Both ways of counting pairs below `n` agree. */
  lemma {:induction false} PairsAboveBelow(m: Metric, threshold: real, facs: seq<Facility>, n: nat)
    requires IsDistance(m) && n <= |facs|
    ensures PairsAbove(m, threshold, facs, n) == PairsBelow(m, threshold, facs, n, n)
  {
    if n > 0 {
      PairsAboveBelow(m, threshold, facs, n - 1);
      PairsBelowColumn(m, threshold, facs, n - 1, n - 1);
    }
  }

  lemma {:induction false} SumDegreesSplit(m: Metric, threshold: real, facs: seq<Facility>, nodes: seq<Node>, k: nat)
    requires IsDistance(m) && |nodes| == |facs| && k <= |nodes|
    requires forall a :: 0 <= a < |facs| ==> nodes[a].neighbours == CloseIn(m, threshold, facs, a, 0, |facs|)
    ensures SumDegrees(nodes[..k])
            == PairsAbove(m, threshold, facs, k) + PairsBelow(m, threshold, facs, k, |facs|)
  {
    if k > 0 {
      var a := k - 1;
      SumDegreesSplit(m, threshold, facs, nodes, a);
      assert nodes[..k][..a] == nodes[..a];
      CloseInSplit(m, threshold, facs, a, 0, a, |facs|);
      assert CloseIn(m, threshold, facs, a, a, a + 1) == [];
      CloseInSplit(m, threshold, facs, a, a, a + 1, |facs|);
    }
  }

  /**
   * `getAnzahlKanten` of a proximity graph is the number of unordered pairs
   * of distinct nodes within the threshold.
   */
  lemma EdgeCountIsClosePairs(m: Metric, g: Graph)
    requires IsDistance(m) && IsProximityGraph(m, g)
    ensures EdgeCount(g) == ClosePairs(m, g)
  {
    var facs := NodeFacilities(g.nodes);
    SumDegreesSplit(m, g.threshold, facs, g.nodes, |g.nodes|);
    assert g.nodes[..|g.nodes|] == g.nodes;
    PairsAboveBelow(m, g.threshold, facs, |g.nodes|);
  }
}
