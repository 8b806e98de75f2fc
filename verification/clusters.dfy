/**
 * Cluster detection (`WartungsClusterDetector`): the connected components
 * of the proximity graph, found by a depth-first search with an explicit
 * stack, started from every node not yet visited in index order.
 */
module ClusterDetector {
  import opened Wrappers
  import opened Seqs
  import opened Facilities
  import opened Geo
  import opened ProximityGraph

  /** Neighbours are valid indices and the neighbour relation is symmetric. */
  ghost predicate Undirected(nodes: seq<Node>)
  {
    InRange(nodes) &&
    forall a, b :: 0 <= a < |nodes| && 0 <= b < |nodes| ==>
      (b in nodes[a].neighbours <==> a in nodes[b].neighbours)
  }

  /** A walk along edges. */
  ghost predicate IsPath(nodes: seq<Node>, p: seq<nat>)
  {
    |p| >= 1 &&
    (forall k :: 0 <= k < |p| ==> p[k] < |nodes|) &&
    (forall k :: 0 <= k < |p| - 1 ==> p[k + 1] in nodes[p[k]].neighbours)
  }

  /** Node `t` can be reached from node `s` along edges. */
  ghost predicate Reachable(nodes: seq<Node>, s: nat, t: nat)
  {
    exists p :: IsPath(nodes, p) && p[0] == s && p[|p| - 1] == t
  }

  lemma ReachableSelf(nodes: seq<Node>, s: nat)
    requires s < |nodes|
    ensures Reachable(nodes, s, s)
  {
    assert IsPath(nodes, [s]);
  }

  lemma ReachableStep(nodes: seq<Node>, s: nat, u: nat, w: nat)
    requires InRange(nodes) && Reachable(nodes, s, u) && u < |nodes| && w in nodes[u].neighbours
    ensures Reachable(nodes, s, w)
  {
    var p :| IsPath(nodes, p) && p[0] == s && p[|p| - 1] == u;
    assert IsPath(nodes, p + [w]);
  }

  lemma ReachableSymmetric(nodes: seq<Node>, s: nat, t: nat)
    requires Undirected(nodes) && Reachable(nodes, s, t)
    ensures Reachable(nodes, t, s)
  {
    var p :| IsPath(nodes, p) && p[0] == s && p[|p| - 1] == t;
    var q := Reverse(p);
    forall k | 0 <= k < |q| - 1
      ensures q[k + 1] in nodes[q[k]].neighbours
    {
      var i := |p| - 2 - k;
      assert q[k] == p[i + 1] && q[k + 1] == p[i];
    }
    assert IsPath(nodes, q);
  }

  lemma ReachableTransitive(nodes: seq<Node>, s: nat, t: nat, u: nat)
    requires Reachable(nodes, s, t) && Reachable(nodes, t, u)
    ensures Reachable(nodes, s, u)
  {
    var p :| IsPath(nodes, p) && p[0] == s && p[|p| - 1] == t;
    var q :| IsPath(nodes, q) && q[0] == t && q[|q| - 1] == u;
    var r := p + q[1..];
    forall k | 0 <= k < |r| - 1
      ensures r[k + 1] in nodes[r[k]].neighbours
    {
      if k >= |p| - 1 {
        assert r[k] == q[k - |p| + 1] && r[k + 1] == q[k - |p| + 2];
      }
    }
    assert IsPath(nodes, r);
  }

  /** No edge leaves the index set `c`. */
  ghost predicate ClosedSeq(nodes: seq<Node>, c: seq<nat>)
  {
    forall u, w :: u in c && u < |nodes| && w in nodes[u].neighbours ==> w in c
  }

  /** Every walk that starts inside a set no edge leaves stays inside it. */
  lemma {:induction false} PathStaysInside(nodes: seq<Node>, c: seq<nat>, p: seq<nat>)
    requires IsPath(nodes, p) && ClosedSeq(nodes, c) && p[0] in c
    ensures p[|p| - 1] in c
    decreases |p|
  {
    if |p| > 1 {
      var init := p[..|p| - 1];
      assert IsPath(nodes, init);
      PathStaysInside(nodes, c, init);
    }
  }

  /** No edge leaves the flagged nodes. */
  ghost predicate ClosedFlags(nodes: seq<Node>, flags: seq<bool>)
  {
    |flags| == |nodes| &&
    forall a, b :: 0 <= a < |nodes| && flags[a] && b in nodes[a].neighbours && b < |nodes| ==> flags[b]
  }

  /** The nodes of `nbs` not yet visited, in order. */
  function UnvisitedOf(nbs: seq<nat>, visited: seq<bool>): (r: seq<nat>)
    requires IndicesBelow(nbs, |visited|)
    ensures IndicesBelow(r, |visited|)
    ensures forall x :: x in r <==> x in nbs && !visited[x]
  {
    if |nbs| == 0 then []
    else (if !visited[nbs[0]] then [nbs[0]] else []) + UnvisitedOf(nbs[1..], visited)
  }

  /** The indices of the nodes not yet visited. */
  function Unvisited(visited: seq<bool>): set<nat>
  {
    set k: nat | k < |visited| && !visited[k]
  }

  /**
   * The loop of `tiefensucheSammle`: pop the top of the stack; skip it if
   * visited, otherwise mark it, append it to the cluster and push its
   * unvisited neighbours. Returns the final flags and the cluster.
   */
  function Explore(nodes: seq<Node>, stack: seq<nat>, visited: seq<bool>, cluster: seq<nat>): (r: (seq<bool>, seq<nat>))
    requires InRange(nodes) && |visited| == |nodes| && IndicesBelow(stack, |nodes|)
    requires IndicesBelow(cluster, |nodes|)
    ensures |r.0| == |visited| && IndicesBelow(r.1, |nodes|)
    decreases Unvisited(visited), |stack|
  {
    if |stack| == 0 then (visited, cluster)
    else
      var top := stack[|stack| - 1];
      var rest := stack[..|stack| - 1];
      if visited[top] then Explore(nodes, rest, visited, cluster)
      else
        var marked := visited[top := true];
        assert top in Unvisited(visited) - Unvisited(marked);
        assert IndicesBelow(rest, |nodes|);
        Explore(nodes, rest + UnvisitedOf(nodes[top].neighbours, marked), marked, cluster + [top])
  }

  /** The visited flags are the initial flags plus the cluster so far. */
  ghost predicate FlagsFrame(nodes: seq<Node>, v0: seq<bool>, visited: seq<bool>, cluster: seq<nat>)
  {
    Undirected(nodes) && ClosedFlags(nodes, v0) && |visited| == |nodes| &&
    forall k :: 0 <= k < |nodes| ==> (visited[k] <==> v0[k] || k in cluster)
  }

  /** The cluster starts at `s`, repeats nothing and holds only new nodes reachable from `s`. */
  ghost predicate ClusterSoFar(nodes: seq<Node>, s: nat, v0: seq<bool>, cluster: seq<nat>)
  {
    |v0| == |nodes| && |cluster| > 0 && cluster[0] == s && Distinct(cluster) &&
    IndicesBelow(cluster, |nodes|) &&
    forall k :: k in cluster ==> k < |nodes| && !v0[k] && Reachable(nodes, s, k)
  }

  /** Every stacked node is reachable from `s`. */
  ghost predicate StackReachable(nodes: seq<Node>, s: nat, stack: seq<nat>)
  {
    IndicesBelow(stack, |nodes|) && forall x :: x in stack ==> Reachable(nodes, s, x)
  }

  /** Every neighbour of a cluster node is visited or still on the stack. */
  ghost predicate Frontier(nodes: seq<Node>, visited: seq<bool>, stack: seq<nat>, cluster: seq<nat>)
    requires |visited| == |nodes| && forall k :: k in cluster ==> k < |nodes|
    requires InRange(nodes)
  {
    forall u, w :: u in cluster && w in nodes[u].neighbours ==> visited[w] || w in stack
  }

  /** The loop invariant of the depth-first search started at `s` over flags `v0`. */
  ghost predicate ExploreInv(nodes: seq<Node>, s: nat, v0: seq<bool>, stack: seq<nat>, visited: seq<bool>, cluster: seq<nat>)
  {
    FlagsFrame(nodes, v0, visited, cluster) && ClusterSoFar(nodes, s, v0, cluster) &&
    StackReachable(nodes, s, stack) && Frontier(nodes, visited, stack, cluster)
  }

  /** What a finished search from `s` produced. */
  ghost predicate ExploreResult(nodes: seq<Node>, s: nat, v0: seq<bool>, r: (seq<bool>, seq<nat>))
  {
    var (visited, cluster) := r;
    |visited| == |nodes| && |v0| == |nodes| &&
    |cluster| > 0 && cluster[0] == s && Distinct(cluster) &&
    (forall k :: 0 <= k < |nodes| ==> (visited[k] <==> v0[k] || k in cluster)) &&
    (forall k :: k in cluster ==> k < |nodes| && !v0[k]) &&
    (forall k: nat :: k in cluster <==> k < |nodes| && Reachable(nodes, s, k))
  }

  lemma ExploreFinish(nodes: seq<Node>, s: nat, v0: seq<bool>, visited: seq<bool>, cluster: seq<nat>)
    requires ExploreInv(nodes, s, v0, [], visited, cluster)
    ensures ExploreResult(nodes, s, v0, (visited, cluster))
  {
    assert ClosedSeq(nodes, cluster) by {
      forall u, w | u in cluster && u < |nodes| && w in nodes[u].neighbours
        ensures w in cluster
      {
        assert visited[w] && u in nodes[w].neighbours && !v0[u];
      }
    }
    forall k: nat | k < |nodes| && Reachable(nodes, s, k)
      ensures k in cluster
    {
      var p :| IsPath(nodes, p) && p[0] == s && p[|p| - 1] == k;
      PathStaysInside(nodes, cluster, p);
    }
  }

  lemma ExplorePush(nodes: seq<Node>, s: nat, v0: seq<bool>, stack: seq<nat>, visited: seq<bool>, cluster: seq<nat>)
    requires ExploreInv(nodes, s, v0, stack, visited, cluster) && |stack| > 0
    requires !visited[stack[|stack| - 1]]
    ensures var top := stack[|stack| - 1];
            var marked := visited[top := true];
            ExploreInv(nodes, s, v0, stack[..|stack| - 1] + UnvisitedOf(nodes[top].neighbours, marked),
                       marked, cluster + [top])
  {
    var top := stack[|stack| - 1];
    var rest := stack[..|stack| - 1];
    var marked := visited[top := true];
    var pushed := UnvisitedOf(nodes[top].neighbours, marked);
    var stack' := rest + pushed;
    var cluster' := cluster + [top];
    assert top in stack;
    assert FlagsFrame(nodes, v0, marked, cluster');
    assert ClusterSoFar(nodes, s, v0, cluster');
    assert StackReachable(nodes, s, stack') by {
      forall x | x in stack'
        ensures Reachable(nodes, s, x)
      {
        if x in pushed {
          ReachableStep(nodes, s, top, x);
        } else {
          assert x in stack;
        }
      }
    }
    assert Frontier(nodes, marked, stack', cluster') by {
      forall u, w | u in cluster' && w in nodes[u].neighbours
        ensures marked[w] || w in stack'
      {
        if u != top && !marked[w] {
          assert w in stack && w != top;
          assert w in rest;
        }
      }
    }
  }

  lemma {:induction false} ExploreCorrect(nodes: seq<Node>, s: nat, v0: seq<bool>, stack: seq<nat>, visited: seq<bool>, cluster: seq<nat>)
    requires ExploreInv(nodes, s, v0, stack, visited, cluster)
    ensures ExploreResult(nodes, s, v0, Explore(nodes, stack, visited, cluster))
    decreases Unvisited(visited), |stack|
  {
    if |stack| == 0 {
      ExploreFinish(nodes, s, v0, visited, cluster);
    } else {
      var top := stack[|stack| - 1];
      var rest := stack[..|stack| - 1];
      if visited[top] {
        assert forall x :: x in rest ==> x in stack;
        ExploreCorrect(nodes, s, v0, rest, visited, cluster);
      } else {
        var marked := visited[top := true];
        assert top in Unvisited(visited) - Unvisited(marked);
        ExplorePush(nodes, s, v0, stack, visited, cluster);
        ExploreCorrect(nodes, s, v0, rest + UnvisitedOf(nodes[top].neighbours, marked), marked, cluster + [top]);
      }
    }
  }

  /** `tiefensucheSammle(alleKnoten, s, besucht, cluster)` from an unvisited `s` collects the component of `s`. */
  lemma ExploreFromStart(nodes: seq<Node>, s: nat, v0: seq<bool>)
    requires Undirected(nodes) && ClosedFlags(nodes, v0) && s < |nodes| && !v0[s]
    ensures ExploreResult(nodes, s, v0, Explore(nodes, [s], v0, []))
  {
    var marked := v0[s := true];
    var pushed := UnvisitedOf(nodes[s].neighbours, marked);
    assert Explore(nodes, [s], v0, []) == Explore(nodes, pushed, marked, [s]) by {
      var stack: seq<nat> := [s];
      var empty: seq<nat> := [];
      assert stack[|stack| - 1] == s && stack[..|stack| - 1] + pushed == pushed;
      assert empty + [s] == [s];
    }
    ReachableSelf(nodes, s);
    assert FlagsFrame(nodes, v0, marked, [s]);
    assert ClusterSoFar(nodes, s, v0, [s]);
    assert StackReachable(nodes, s, pushed) by {
      forall x | x in pushed
        ensures Reachable(nodes, s, x)
      {
        ReachableStep(nodes, s, s, x);
      }
    }
    assert Frontier(nodes, marked, pushed, [s]);
    ExploreCorrect(nodes, s, v0, pushed, marked, [s]);
  }

  /** The outer loop of `erkenneClusters` from node `i` on. */
  function ClustersFrom(nodes: seq<Node>, i: nat, visited: seq<bool>): (cs: seq<seq<nat>>)
    requires InRange(nodes) && |visited| == |nodes| && i <= |nodes|
    ensures forall x :: 0 <= x < |cs| ==> IndicesBelow(cs[x], |nodes|)
    decreases |nodes| - i
  {
    if i == |nodes| then []
    else if visited[i] then ClustersFrom(nodes, i + 1, visited)
    else
      var r := Explore(nodes, [i], visited, []);
      [r.1] + ClustersFrom(nodes, i + 1, r.0)
  }

  /** Each cluster is a connected component listed from its smallest node, without repetition. */
  ghost predicate Components(nodes: seq<Node>, cs: seq<seq<nat>>)
  {
    forall x :: 0 <= x < |cs| ==>
      |cs[x]| > 0 && Distinct(cs[x]) &&
      (forall k :: k in cs[x] ==> cs[x][0] <= k) &&
      (forall k: nat :: k in cs[x] <==> k < |nodes| && Reachable(nodes, cs[x][0], k))
  }

  /** No node is in two clusters, and the clusters are ordered by their first node. */
  ghost predicate DisjointOrdered(cs: seq<seq<nat>>)
  {
    (forall x :: 0 <= x < |cs| ==> |cs[x]| > 0) &&
    (forall x, y, k :: 0 <= x < y < |cs| && k in cs[x] ==> k !in cs[y]) &&
    (forall x, y :: 0 <= x < y < |cs| ==> cs[x][0] < cs[y][0])
  }

  /** Node `k` lies in some cluster of `cs`. */
  ghost predicate Covered(cs: seq<seq<nat>>, k: nat)
  {
    exists x :: 0 <= x < |cs| && k in cs[x]
  }

  /** What the outer loop from node `i` over flags `visited` produces. */
  ghost predicate ClustersSpec(nodes: seq<Node>, i: nat, visited: seq<bool>, cs: seq<seq<nat>>)
  {
    |visited| == |nodes| &&
    Components(nodes, cs) && DisjointOrdered(cs) &&
    (forall x :: 0 <= x < |cs| ==> i <= cs[x][0]) &&
    (forall x, k :: 0 <= x < |cs| && k in cs[x] ==> k < |nodes| && !visited[k]) &&
    (forall k: nat :: k < |nodes| && !visited[k] ==> Covered(cs, k))
  }

  /** The cluster found from `i` is a component listed from its smallest node. */
  lemma ExploreGivesComponent(nodes: seq<Node>, i: nat, visited: seq<bool>, r: (seq<bool>, seq<nat>))
    requires ExploreResult(nodes, i, visited, r) && i < |nodes|
    requires forall k :: 0 <= k < i ==> visited[k]
    ensures Components(nodes, [r.1])
    ensures forall k :: k in r.1 ==> i <= k && k < |nodes| && !visited[k]
  {
    forall k | k in r.1
      ensures i <= k
    {
      assert !visited[k];
    }
  }

  /** Prepending the component found from `i` to the clusters found after it. */
  lemma ClustersCons(nodes: seq<Node>, i: nat, visited: seq<bool>, r: (seq<bool>, seq<nat>), rest: seq<seq<nat>>)
    requires ExploreResult(nodes, i, visited, r) && i < |nodes|
    requires forall k :: 0 <= k < i ==> visited[k]
    requires ClustersSpec(nodes, i + 1, r.0, rest)
    ensures ClustersSpec(nodes, i, visited, [r.1] + rest)
  {
    var c := r.1;
    var cs := [c] + rest;
    ExploreGivesComponent(nodes, i, visited, r);
    ConsComponents(nodes, c, rest);
    assert DisjointOrdered(cs) by {
      forall x, k | 0 <= x < |rest| && k in rest[x]
        ensures k !in c && c[0] < rest[x][0]
      {
        assert k < |nodes| && !r.0[k];
      }
      ConsDisjoint(c, rest);
    }
    assert forall x :: 0 <= x < |cs| ==> i <= cs[x][0] by {
      forall x | 0 <= x < |cs|
        ensures i <= cs[x][0]
      {
        if x > 0 {
          assert cs[x] == rest[x - 1];
        }
      }
    }
    assert forall x, k :: 0 <= x < |cs| && k in cs[x] ==> k < |nodes| && !visited[k] by {
      forall x, k | 0 <= x < |cs| && k in cs[x]
        ensures k < |nodes| && !visited[k]
      {
        if x > 0 {
          assert cs[x] == rest[x - 1];
        }
      }
    }
    assert forall k: nat :: k < |nodes| && !visited[k] ==> Covered(cs, k) by {
      forall k: nat | k < |nodes| && !visited[k]
        ensures Covered(cs, k)
      {
        if k in c {
          assert k in cs[0];
        } else {
          assert Covered(rest, k);
          var x :| 0 <= x < |rest| && k in rest[x];
          assert k in cs[x + 1];
        }
      }
    }
  }

  lemma ConsComponents(nodes: seq<Node>, c: seq<nat>, rest: seq<seq<nat>>)
    requires Components(nodes, rest) && Components(nodes, [c])
    ensures Components(nodes, [c] + rest)
  {
    var cs := [c] + rest;
    forall x | 0 <= x < |cs|
      ensures |cs[x]| > 0 && Distinct(cs[x])
      ensures forall k :: k in cs[x] ==> cs[x][0] <= k
      ensures forall k: nat :: k in cs[x] <==> k < |nodes| && Reachable(nodes, cs[x][0], k)
    {
      if x > 0 {
        assert cs[x] == rest[x - 1];
      } else {
        assert cs[x] == [c][0];
      }
    }
  }

  lemma ConsDisjoint(c: seq<nat>, rest: seq<seq<nat>>)
    requires DisjointOrdered(rest) && |c| > 0
    requires forall x, k :: 0 <= x < |rest| && k in rest[x] ==> k !in c && c[0] < rest[x][0]
    ensures DisjointOrdered([c] + rest)
  {
    var cs := [c] + rest;
    forall x, y, k | 0 <= x < y < |cs| && k in cs[x]
      ensures k !in cs[y]
    {
      assert cs[y] == rest[y - 1];
      if x > 0 {
        assert cs[x] == rest[x - 1];
      }
    }
    forall x, y | 0 <= x < y < |cs|
      ensures cs[x][0] < cs[y][0]
    {
      assert cs[y] == rest[y - 1];
      assert cs[y][0] in cs[y];
      if x > 0 {
        assert cs[x] == rest[x - 1];
      }
    }
  }

  /** After a search from `i`, no edge leaves the visited nodes. */
  lemma VisitedStaysClosed(nodes: seq<Node>, i: nat, visited: seq<bool>, r: (seq<bool>, seq<nat>))
    requires Undirected(nodes) && ClosedFlags(nodes, visited) && ExploreResult(nodes, i, visited, r)
    ensures ClosedFlags(nodes, r.0)
  {
    var v1 := r.0;
    forall a, b | 0 <= a < |nodes| && v1[a] && b in nodes[a].neighbours && b < |nodes|
      ensures v1[b]
    {
      if !visited[a] {
        ReachableStep(nodes, i, a, b);
      }
    }
  }

  /** Skipping a visited node `i` keeps what the loop from `i + 1` produces. */
  lemma ClustersSkip(nodes: seq<Node>, i: nat, visited: seq<bool>, cs: seq<seq<nat>>)
    requires ClustersSpec(nodes, i + 1, visited, cs)
    ensures ClustersSpec(nodes, i, visited, cs)
  {
    forall x | 0 <= x < |cs|
      ensures i <= cs[x][0]
    {
    }
  }

  lemma {:induction false} ClustersFromCorrect(nodes: seq<Node>, i: nat, visited: seq<bool>)
    requires Undirected(nodes) && ClosedFlags(nodes, visited) && i <= |nodes|
    requires forall k :: 0 <= k < i ==> visited[k]
    ensures ClustersSpec(nodes, i, visited, ClustersFrom(nodes, i, visited))
    decreases |nodes| - i
  {
    if i == |nodes| {
      assert ClustersFrom(nodes, i, visited) == [];
    } else if visited[i] {
      ClustersFromCorrect(nodes, i + 1, visited);
      ClustersSkip(nodes, i, visited, ClustersFrom(nodes, i + 1, visited));
    } else {
      var r := Explore(nodes, [i], visited, []);
      assert ClustersFrom(nodes, i, visited) == [r.1] + ClustersFrom(nodes, i + 1, r.0);
      ExploreFromStart(nodes, i, visited);
      VisitedStaysClosed(nodes, i, visited, r);
      ClustersFromCorrect(nodes, i + 1, r.0);
      ClustersCons(nodes, i, visited, r, ClustersFrom(nodes, i + 1, r.0));
    }
  }

  /** `erkenneClusters` on the node list, as clusters of node indices. */
  function ClusterIndices(nodes: seq<Node>): (cs: seq<seq<nat>>)
    requires InRange(nodes)
    ensures forall x :: 0 <= x < |cs| ==> IndicesBelow(cs[x], |nodes|)
  {
    ClustersFrom(nodes, 0, Repeat(false, |nodes|))
  }

  /**
   * The clusters partition the nodes into connected components: every node
   * lies in exactly one cluster, each cluster is the component of its first
   * node, that node is its smallest, and clusters appear in order of it.
   */
  lemma ClustersArePartition(nodes: seq<Node>)
    requires Undirected(nodes)
    ensures var cs := ClusterIndices(nodes);
            Components(nodes, cs) && DisjointOrdered(cs) &&
            (forall x, k :: 0 <= x < |cs| && k in cs[x] ==> k < |nodes|) &&
            (forall k: nat :: k < |nodes| ==> Covered(cs, k))
  {
    ClustersFromCorrect(nodes, 0, Repeat(false, |nodes|));
  }

  /**
   * `hatIsolierteBereiche(erkenneClusters(g))`: there is more than one
   * cluster exactly when some node cannot reach another.
   */
  lemma IsolatedIffDisconnected(nodes: seq<Node>)
    requires Undirected(nodes)
    ensures HasIsolatedAreas(ClusterIndices(nodes))
            <==> exists a, b :: 0 <= a < |nodes| && 0 <= b < |nodes| && !Reachable(nodes, a, b)
  {
    var cs := ClusterIndices(nodes);
    ClustersArePartition(nodes);
    if |cs| > 1 {
      var a, b := cs[0][0], cs[1][0];
      assert a in cs[0] && b in cs[1] && b !in cs[0];
      assert !Reachable(nodes, a, b);
    }
    if exists a, b :: 0 <= a < |nodes| && 0 <= b < |nodes| && !Reachable(nodes, a, b) {
      var a, b :| 0 <= a < |nodes| && 0 <= b < |nodes| && !Reachable(nodes, a, b);
      assert Covered(cs, a) && Covered(cs, b);
      var x :| 0 <= x < |cs| && a in cs[x];
      var y :| 0 <= y < |cs| && b in cs[y];
      assert x != y by {
        ReachableSymmetric(nodes, cs[x][0], a);
        assert Reachable(nodes, a, cs[x][0]);
        assert b in cs[x] ==> Reachable(nodes, cs[x][0], b);
        if b in cs[x] {
          ReachableTransitive(nodes, a, cs[x][0], b);
        }
      }
    }
  }

  /** `hatIsolierteBereiche`. */
  predicate HasIsolatedAreas<T>(clusters: seq<seq<T>>)
  {
    |clusters| > 1
  }

  /** Each index cluster turned into the facilities of its nodes. */
  function AsFacilities(cs: seq<seq<nat>>, facs: seq<Facility>): (r: seq<seq<Facility>>)
    requires forall x :: 0 <= x < |cs| ==> IndicesBelow(cs[x], |facs|)
    ensures |r| == |cs|
    ensures forall x :: 0 <= x < |cs| ==> r[x] == Pick(cs[x], facs)
  {
    if |cs| == 0 then [] else [Pick(cs[0], facs)] + AsFacilities(cs[1..], facs)
  }

  /** `erkenneClusters(graph)`: the clusters as lists of facilities. */
  function Clusters(g: Graph): seq<seq<Facility>>
    requires InRange(g.nodes)
  {
    AsFacilities(ClusterIndices(g.nodes), NodeFacilities(g.nodes))
  }

  /**
   * `erkenneClustersAusAnlagen`: no clusters for an empty list; otherwise
   * the clusters of the graph built with the maintenance threshold.
   */
  function ClustersOf(m: Metric, threshold: real, fs: seq<Facility>): seq<seq<Facility>>
    requires IsDistance(m) && threshold > 0.0
  {
    if |fs| == 0 then []
    else
      var g := Build(m, NewGraph(threshold).value, fs);
      BuildIsProximityGraph(m, NewGraph(threshold).value, fs);
      ProximityGraphShape(m, g);
      Clusters(g)
  }

  lemma {:induction false} FlattenAsFacilities(cs: seq<seq<nat>>, facs: seq<Facility>)
    requires forall x :: 0 <= x < |cs| ==> IndicesBelow(cs[x], |facs|)
    ensures IndicesBelow(Flatten(cs), |facs|)
    ensures Flatten(AsFacilities(cs, facs)) == Pick(Flatten(cs), facs)
  {
    if |cs| > 0 {
      FlattenAsFacilities(cs[1..], facs);
      PickAppend(cs[0], Flatten(cs[1..]), facs);
    }
  }

  lemma PickAppend<T>(a: seq<nat>, b: seq<nat>, xs: seq<T>)
    requires IndicesBelow(a, |xs|) && IndicesBelow(b, |xs|)
    ensures IndicesBelow(a + b, |xs|)
    ensures Pick(a + b, xs) == Pick(a, xs) + Pick(b, xs)
  {
  }

  /** Disjoint clusters without repetitions flatten to a sequence without repetitions. */
  lemma {:induction false} FlattenDistinct(cs: seq<seq<nat>>)
    requires forall x :: 0 <= x < |cs| ==> Distinct(cs[x])
    requires forall x, y, k :: 0 <= x < y < |cs| && k in cs[x] ==> k !in cs[y]
    ensures Distinct(Flatten(cs))
    ensures forall k :: k in Flatten(cs) <==> Covered(cs, k)
  {
    if |cs| > 0 {
      FlattenDistinct(cs[1..]);
      var head, tail := cs[0], Flatten(cs[1..]);
      forall k | k in tail
        ensures k !in head
      {
        var y :| 0 <= y < |cs[1..]| && k in cs[1..][y];
        assert k in cs[y + 1];
      }
      forall i, j | 0 <= i < j < |head + tail|
        ensures (head + tail)[i] != (head + tail)[j]
      {
        if i < |head| && j >= |head| {
          assert (head + tail)[j] in tail;
        }
      }
      forall k | Covered(cs, k)
        ensures k in head + tail
      {
        var x :| 0 <= x < |cs| && k in cs[x];
        if x > 0 {
          assert k in cs[1..][x - 1];
          assert Covered(cs[1..], k);
        }
      }
      forall k | k in head + tail
        ensures Covered(cs, k)
      {
        if k in head {
          assert k in cs[0];
        } else {
          var y :| 0 <= y < |cs[1..]| && k in cs[1..][y];
          assert k in cs[y + 1];
        }
      }
    }
  }

  /**
   * Every facility with coordinates lands in exactly one cluster: the
   * clusters of `erkenneClustersAusAnlagen`, put end to end, are a
   * permutation of the facilities that have both coordinates.
   */
  lemma ClustersPartitionFacilities(m: Metric, threshold: real, fs: seq<Facility>)
    requires IsDistance(m) && threshold > 0.0
    ensures multiset(Flatten(ClustersOf(m, threshold, fs))) == multiset(WithCoordinates(fs))
    ensures forall x :: 0 <= x < |ClustersOf(m, threshold, fs)| ==> |ClustersOf(m, threshold, fs)[x]| > 0
  {
    if |fs| > 0 {
      var g := Build(m, NewGraph(threshold).value, fs);
      BuildIsProximityGraph(m, NewGraph(threshold).value, fs);
      ProximityGraphShape(m, g);
      var facs := NodeFacilities(g.nodes);
      assert facs == WithCoordinates(fs);
      var cs := ClusterIndices(g.nodes);
      ClustersArePartition(g.nodes);
      FlattenDistinct(cs);
      FlattenAsFacilities(cs, facs);
      PickPermutation(Flatten(cs), facs);
    } else {
      assert WithCoordinates(fs) == [];
    }
  }

  /**
   * The scan of `berechneClusterDistanz` from pair `(i, j)` on, with the
   * smallest distance so far in `best`.
   */
  function MinDistanceFrom(m: Metric, c1: seq<Facility>, c2: seq<Facility>, i: nat, j: nat, best: real): real
    requires IsDistance(m)
    decreases |c1| - i, |c2| - j
  {
    if i >= |c1| then best
    else if j >= |c2| then MinDistanceFrom(m, c1, c2, i + 1, 0, best)
    else
      var d := RouteDistance(m, c1[i], c2[j]);
      MinDistanceFrom(m, c1, c2, i, j + 1, if d < best then d else best)
  }

  /**
   * `berechneClusterDistanz`: the smallest route distance between a
   * facility of `c1` and one of `c2`, capped at `Sentinel`; `Sentinel` when
   * either cluster is empty.
   */
  function ClusterDistance(m: Metric, c1: seq<Facility>, c2: seq<Facility>): (r: real)
    requires IsDistance(m)
    ensures r <= Sentinel
    ensures forall a, b :: a in c1 && b in c2 ==> r <= RouteDistance(m, a, b)
    ensures r == Sentinel || exists a, b :: a in c1 && b in c2 && r == RouteDistance(m, a, b)
  {
    if |c1| == 0 || |c2| == 0 then Sentinel
    else
      MinDistanceCorrect(m, c1, c2, 0, 0, Sentinel);
      MinDistanceFrom(m, c1, c2, 0, 0, Sentinel)
  }

  /** The pair `(a, b)` comes before `(i, j)` in the scan order. */
  predicate Before(a: nat, b: nat, i: nat, j: nat)
  {
    a < i || (a == i && b < j)
  }

  lemma {:induction false} MinDistanceCorrect(m: Metric, c1: seq<Facility>, c2: seq<Facility>, i: nat, j: nat, best: real)
    requires IsDistance(m) && best <= Sentinel
    requires forall a, b :: 0 <= a < |c1| && 0 <= b < |c2| && Before(a, b, i, j) ==> best <= RouteDistance(m, c1[a], c2[b])
    requires best == Sentinel || exists a, b :: 0 <= a < |c1| && 0 <= b < |c2| && best == RouteDistance(m, c1[a], c2[b])
    ensures var r := MinDistanceFrom(m, c1, c2, i, j, best);
            r <= Sentinel &&
            (forall a, b :: 0 <= a < |c1| && 0 <= b < |c2| && !Before(a, b, i, j) ==> r <= RouteDistance(m, c1[a], c2[b])) &&
            (forall a, b :: 0 <= a < |c1| && 0 <= b < |c2| ==> r <= RouteDistance(m, c1[a], c2[b])) &&
            (r == Sentinel || exists a, b :: 0 <= a < |c1| && 0 <= b < |c2| && r == RouteDistance(m, c1[a], c2[b]))
    decreases |c1| - i, |c2| - j
  {
    if i >= |c1| {
    } else if j >= |c2| {
      MinDistanceCorrect(m, c1, c2, i + 1, 0, best);
    } else {
      var d := RouteDistance(m, c1[i], c2[j]);
      var best' := if d < best then d else best;
      MinDistanceCorrect(m, c1, c2, i, j + 1, best');
    }
  }
}
