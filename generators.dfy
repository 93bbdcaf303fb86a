/// The graph generators of `Graph.kt`, `randomConnectedGraph` and
/// `completeGraph`, over a caller-chosen stream of random draws, and the
/// structure every graph they return has.
module GraphGenerators {
  import opened Jvm
  import opened Graph

  /** No edge leads from a node to itself */
  ghost predicate NoSelfLoops(adj: seq<seq<Edge>>)
  {
    forall u, i :: 0 <= u < |adj| && 0 <= i < |adj[u]| ==> adj[u][i].to != u
  }

  /** No two edges of a node lead to the same node */
  ghost predicate NoParallelEdges(adj: seq<seq<Edge>>)
  {
    forall u, i, j :: 0 <= u < |adj| && 0 <= i < j < |adj[u]| ==> adj[u][i].to != adj[u][j].to
  }

  /** Every edge `u -> v` of weight `w` is matched by an edge `v -> u` of the same weight */
  ghost predicate Symmetric(adj: seq<seq<Edge>>)
  {
    forall u, i :: 0 <= u < |adj| && 0 <= i < |adj[u]| && adj[u][i].to < |adj| ==>
      Edge(u, adj[u][i].weight) in adj[adj[u][i].to]
  }

  /** Every weight is a value of `r.nextInt(maxWeight)`, in `[0, maxWeight)` */
  ghost predicate WeightsBelow(adj: seq<seq<Edge>>, maxWeight: int)
  {
    forall u, i :: 0 <= u < |adj| && 0 <= i < |adj[u]| ==> 0 <= adj[u][i].weight < maxWeight
  }

  /** The shape of every generated graph: a simple undirected graph stored as paired directed edges */
  ghost predicate WellFormed(adj: seq<seq<Edge>>, maxWeight: int)
  {
    EdgesInRange(adj) && NoSelfLoops(adj) && NoParallelEdges(adj) && Symmetric(adj) && WeightsBelow(adj, maxWeight)
  }

  /** The number of directed edges, twice the number of undirected ones in a well-formed graph */
  function TotalEdges(adj: seq<seq<Edge>>): (count: nat)
  {
    if adj == [] then 0 else |adj[0]| + TotalEdges(adj[1..])
  }

  lemma {:induction false} TotalEdgesAppend(adj: seq<seq<Edge>>, u: nat, e: Edge)
    requires u < |adj|
    ensures TotalEdges(adj[u := adj[u] + [e]]) == TotalEdges(adj) + 1
  {
    if u == 0 {
      assert adj[u := adj[u] + [e]][1..] == adj[1..];
    } else {
      assert adj[u := adj[u] + [e]][1..] == adj[1..][u - 1 := adj[u] + [e]];
      TotalEdgesAppend(adj[1..], u - 1, e);
    }
  }

  /** A graph without edges */
  lemma {:induction false} NoEdgesCount(adj: seq<seq<Edge>>)
    requires forall u :: 0 <= u < |adj| ==> adj[u] == []
    ensures TotalEdges(adj) == 0
  {
    if adj != [] {
      NoEdgesCount(adj[1..]);
    }
  }

  lemma NoEdgesWellFormed(adj: seq<seq<Edge>>, maxWeight: int)
    requires forall u :: 0 <= u < |adj| ==> adj[u] == []
    ensures WellFormed(adj, maxWeight)
    ensures forall a: nat, b: nat :: !Adjacent(adj, a, b)
  {
  }

  /**
   * `first.addEdge(Edge(second, weight)); second.addEdge(Edge(first, weight))`
   * for two distinct nodes not yet adjacent keeps the graph well-formed, adds
   * two directed edges and makes exactly `first` and `second` adjacent.
   */
  lemma AddPair(adj: seq<seq<Edge>>, maxWeight: int, u: nat, v: nat, w: int, adj': seq<seq<Edge>>)
    requires WellFormed(adj, maxWeight) && u < |adj| && v < |adj| && u != v
    requires !Adjacent(adj, u, v) && 0 <= w < maxWeight
    requires adj' == adj[u := adj[u] + [Edge(v, w)]][v := adj[v] + [Edge(u, w)]]
    ensures WellFormed(adj', maxWeight)
    ensures TotalEdges(adj') == TotalEdges(adj) + 2
    ensures forall a: nat, b: nat :: Adjacent(adj', a, b) <==> Adjacent(adj, a, b) || (a == u && b == v) || (a == v && b == u)
  {
    AddPairCount(adj, u, v, w, adj');
    AddPairAdjacent(adj, maxWeight, u, v, w, adj');
    AddPairSymmetric(adj, u, v, w, adj');
    AddPairShape(adj, maxWeight, u, v, w, adj');
  }

  /**
   * `u.addEdge(Edge(v, w)); v.addEdge(Edge(u, w))` for two distinct nodes not
   * yet adjacent: appends one edge to each list and makes exactly that pair
   * newly adjacent.
   */
  method LinkBothWays(g: Graph, u: nat, v: nat, w: int, ghost maxWeight: int)
    requires g.Valid() && WellFormed(g.adj, maxWeight) && u < |g.adj| && v < |g.adj| && u != v
    requires !Adjacent(g.adj, u, v) && 0 <= w < maxWeight
    modifies g
    ensures g.Valid()
    ensures g.adj == old(g.adj)[u := old(g.adj)[u] + [Edge(v, w)]][v := old(g.adj)[v] + [Edge(u, w)]]
    ensures forall x :: 0 <= x < |g.adj| ==> old(g.adj)[x] <= g.adj[x]
    ensures WellFormed(g.adj, maxWeight) && TotalEdges(g.adj) == old(TotalEdges(g.adj)) + 2
    ensures forall a: nat, b: nat :: Adjacent(g.adj, a, b) <==>
              Adjacent(old(g.adj), a, b) || (a == u && b == v) || (a == v && b == u)
  {
    g.AddEdge(u, Edge(v, w));
    g.AddEdge(v, Edge(u, w));
    AddPair(old(g.adj), maxWeight, u, v, w, g.adj);
  }

  lemma AddPairCount(adj: seq<seq<Edge>>, u: nat, v: nat, w: int, adj': seq<seq<Edge>>)
    requires u < |adj| && v < |adj| && u != v
    requires adj' == adj[u := adj[u] + [Edge(v, w)]][v := adj[v] + [Edge(u, w)]]
    ensures TotalEdges(adj') == TotalEdges(adj) + 2
  {
    var mid := adj[u := adj[u] + [Edge(v, w)]];
    TotalEdgesAppend(adj, u, Edge(v, w));
    assert adj' == mid[v := mid[v] + [Edge(u, w)]];
    TotalEdgesAppend(mid, v, Edge(u, w));
  }

  lemma AddPairShape(adj: seq<seq<Edge>>, maxWeight: int, u: nat, v: nat, w: int, adj': seq<seq<Edge>>)
    requires EdgesInRange(adj) && NoSelfLoops(adj) && WeightsBelow(adj, maxWeight)
    requires u < |adj| && v < |adj| && u != v && 0 <= w < maxWeight
    requires adj' == adj[u := adj[u] + [Edge(v, w)]][v := adj[v] + [Edge(u, w)]]
    ensures EdgesInRange(adj') && NoSelfLoops(adj') && WeightsBelow(adj', maxWeight)
  {
    forall x, i | 0 <= x < |adj'| && 0 <= i < |adj'[x]|
      ensures adj'[x][i].to < |adj'| && adj'[x][i].to != x && 0 <= adj'[x][i].weight < maxWeight
    {
      if i < |adj[x]| {
        assert adj'[x][i] == adj[x][i];
      }
    }
  }

  lemma AddPairAdjacent(adj: seq<seq<Edge>>, maxWeight: int, u: nat, v: nat, w: int, adj': seq<seq<Edge>>)
    requires WellFormed(adj, maxWeight) && u < |adj| && v < |adj| && u != v
    requires !Adjacent(adj, u, v)
    requires adj' == adj[u := adj[u] + [Edge(v, w)]][v := adj[v] + [Edge(u, w)]]
    ensures forall a: nat, b: nat :: Adjacent(adj', a, b) <==> Adjacent(adj, a, b) || (a == u && b == v) || (a == v && b == u)
    ensures NoParallelEdges(adj')
  {
    forall a: nat, b: nat ensures Adjacent(adj', a, b) <==> Adjacent(adj, a, b) || (a == u && b == v) || (a == v && b == u) {
      if Adjacent(adj, a, b) {
        var i :| 0 <= i < |adj[a]| && adj[a][i].to == b;
        assert adj'[a][i] == adj[a][i];
      }
      if a == u && b == v {
        assert adj'[u][|adj[u]|].to == v;
      }
      if a == v && b == u {
        assert adj'[v][|adj[v]|].to == u;
      }
      if Adjacent(adj', a, b) && !((a == u && b == v) || (a == v && b == u)) {
        var i :| 0 <= i < |adj'[a]| && adj'[a][i].to == b;
        assert i < |adj[a]| && adj[a][i] == adj'[a][i];
      }
    }
  }

  lemma AddPairSymmetric(adj: seq<seq<Edge>>, u: nat, v: nat, w: int, adj': seq<seq<Edge>>)
    requires Symmetric(adj) && EdgesInRange(adj) && u < |adj| && v < |adj| && u != v
    requires adj' == adj[u := adj[u] + [Edge(v, w)]][v := adj[v] + [Edge(u, w)]]
    ensures Symmetric(adj')
  {
    forall x, i | 0 <= x < |adj'| && 0 <= i < |adj'[x]| && adj'[x][i].to < |adj'|
      ensures Edge(x, adj'[x][i].weight) in adj'[adj'[x][i].to]
    {
      if i < |adj[x]| {
        assert adj'[x][i] == adj[x][i];
        var y := adj[x][i].to;
        assert Edge(x, adj[x][i].weight) in adj[y];
        assert adj[y] <= adj'[y];
      }
    }
  }

  /** An edge exists only when `nextInt(maxWeight)` could return a weight */
  lemma {:induction false} SomeEdgeNeedsWeight(adj: seq<seq<Edge>>, maxWeight: int)
    requires WeightsBelow(adj, maxWeight) && TotalEdges(adj) > 0
    ensures maxWeight > 0
  {
    if adj[0] != [] {
      assert 0 <= adj[0][0].weight < maxWeight;
    } else {
      assert WeightsBelow(adj[1..], maxWeight) by {
        forall u, i | 0 <= u < |adj[1..]| && 0 <= i < |adj[1..][u]| ensures 0 <= adj[1..][u][i].weight < maxWeight {
          assert adj[1..][u] == adj[u + 1];
        }
      }
      SomeEdgeNeedsWeight(adj[1..], maxWeight);
    }
  }

  /// Connectivity through a chain of nodes each adjacent, both ways, to the next.

  /** Consecutive nodes of `order` are adjacent in both directions */
  ghost predicate ChainLinked(adj: seq<seq<Edge>>, order: seq<nat>)
  {
    forall i :: 0 <= i < |order| - 1 ==> Adjacent(adj, order[i], order[i + 1]) && Adjacent(adj, order[i + 1], order[i])
  }

  /** Taking one edge from `u` to `v`, then a walk from `v` to `t` */
  lemma ReachableStep(adj: seq<seq<Edge>>, u: nat, v: nat, t: nat)
    requires Adjacent(adj, u, v) && Reachable(adj, v, t)
    ensures Reachable(adj, u, t)
  {
    var k :| 0 <= k < |adj[u]| && adj[u][k].to == v;
    var p :| IsWalk(adj, v, p) && End(adj, v, p) == t;
    WalkCons(adj, u, k, p);
  }

  lemma {:induction false} ChainReachable(adj: seq<seq<Edge>>, order: seq<nat>, i: nat, j: nat)
    requires ChainLinked(adj, order) && i < |order| && j < |order| && order[j] < |adj|
    ensures Reachable(adj, order[i], order[j])
    decreases if i <= j then j - i else i - j
  {
    if i == j {
      var empty: seq<nat> := [];
      assert IsWalk(adj, order[j], empty) && End(adj, order[j], empty) == order[j];
    } else if i < j {
      ChainReachable(adj, order, i + 1, j);
      ReachableStep(adj, order[i], order[i + 1], order[j]);
    } else {
      ChainReachable(adj, order, i - 1, j);
      ReachableStep(adj, order[i], order[i - 1], order[j]);
    }
  }

  /** A chain through every node connects the graph */
  lemma ChainConnected(adj: seq<seq<Edge>>, order: seq<nat>)
    requires ChainLinked(adj, order)
    requires forall v :: 0 <= v < |adj| ==> v in order
    ensures Connected(adj)
  {
    forall u, v | 0 <= u < |adj| && 0 <= v < |adj| ensures Reachable(adj, u, v) {
      assert u in order && v in order;
      var i :| 0 <= i < |order| && order[i] == u;
      var j :| 0 <= j < |order| && order[j] == v;
      ChainReachable(adj, order, i, j);
    }
  }

  /** Every pair of distinct nodes adjacent: the graph is connected */
  lemma CompleteConnected(adj: seq<seq<Edge>>)
    requires forall a, b :: 0 <= a < |adj| && 0 <= b < |adj| ==> (Adjacent(adj, a, b) <==> a != b)
    ensures Connected(adj)
  {
    forall u, v | 0 <= u < |adj| && 0 <= v < |adj| ensures Reachable(adj, u, v) {
      var empty: seq<nat> := [];
      assert IsWalk(adj, v, empty) && End(adj, v, empty) == v;
      if u != v {
        ReachableStep(adj, u, v, v);
      }
    }
  }

  /// The generators. `r.nextInt` draws from a `Random` built on the caller's
  /// `draws`; a failed draw, like a thrown exception, ends the generator.

  /** No node occurs twice in `s` */
  ghost predicate Distinct(s: seq<nat>)
  {
    forall i, j :: 0 <= i < j < |s| ==> s[i] != s[j]
  }

  /** `s.removeAt(k)` on a list of distinct nodes: exactly the node at `k` leaves it */
  function RemoveAt(s: seq<nat>, k: nat): (t: seq<nat>)
    requires k < |s|
    ensures |t| == |s| - 1
    ensures Distinct(s) ==> Distinct(t) && forall x :: x in t <==> x in s && x != s[k]
  {
    var t := s[..k] + s[k + 1..];
    assert forall i :: 0 <= i < |t| ==> t[i] == s[if i < k then i else i + 1];
    assert forall i :: 0 <= i < |s| && i != k ==> s[i] == t[if i < k then i else i - 1];
    t
  }

  /**
   * `randomConnectedGraph(nodes, edges, maxWeight)`: a random spanning path
   * through all nodes, then `edges - nodes + 1` extra edges between distinct
   * nodes not yet adjacent, every edge added in both directions.
   */
  method RandomConnectedGraph(nodes: int, edges: int, maxWeight: int, draws: seq<nat>) returns (res: Result<Graph>)
    ensures edges < nodes - 1 ==> res == Err(IllegalArgument)
    ensures nodes <= 0 ==> res == Err(IllegalArgument)
    ensures nodes >= 2 && maxWeight <= 0 ==> res.Err?
    ensures edges >= nodes - 1 && nodes >= 2 && maxWeight <= 0 && |draws| >= 2 ==> res == Err(IllegalArgument)
    ensures res.Err? && res.error == IllegalArgument ==> edges < nodes - 1 || nodes <= 0 || maxWeight <= 0
    ensures res.Err? ==> res.error != IndexOutOfBounds
    ensures nodes >= 1 && edges == nodes - 1 && (nodes == 1 || maxWeight > 0) && |draws| >= 2 * nodes - 1 ==> res.Ok?
    ensures res.Ok? ==>
              var g := res.value;
              g.Valid() && g.Cleared() && |g.adj| == nodes &&
              WellFormed(g.adj, maxWeight) && Connected(g.adj) && TotalEdges(g.adj) == 2 * edges
  {
    if edges < nodes - 1 {
      return Err(IllegalArgument);
    }
    if nodes <= 0 {
      // `List(nodes)` rejects a negative size, `r.nextInt(0)` an empty list
      return Err(IllegalArgument);
    }
    var r := new Random(draws);
    var g := new Graph(nodes);
    var linked;
    ghost var order;
    linked, order := LinkSpanningPath(g, r, maxWeight);
    if linked.Err? {
      return Err(linked.error);
    }
    var added := AddExtraEdges(g, r, edges - nodes + 1, maxWeight, order);
    if added.Err? {
      return Err(added.error);
    }
    ChainConnected(g.adj, order);
    if nodes >= 2 {
      SomeEdgeNeedsWeight(g.adj, maxWeight);
    }
    return Ok(g);
  }

  /**
   * The first phase of `randomConnectedGraph`: draws the nodes in a random
   * `order` and links each to the next in both directions.
   */
  method LinkSpanningPath(g: Graph, r: Random, maxWeight: int) returns (res: Result<()>, ghost order: seq<nat>)
    requires g.Valid() && g.Cleared() && |g.adj| > 0
    requires forall v :: 0 <= v < |g.adj| ==> g.adj[v] == []
    modifies g, r
    ensures g.Valid() && g.Cleared() && |g.adj| == old(|g.adj|)
    ensures res.Err? ==> res.error == OutOfDraws || (res.error == IllegalArgument && maxWeight <= 0)
    ensures res == Err(OutOfDraws) ==> r.draws == []
    ensures maxWeight <= 0 && |g.adj| >= 2 && old(|r.draws|) >= 2 ==> res == Err(IllegalArgument)
    ensures (|g.adj| == 1 || maxWeight > 0) && old(|r.draws|) >= 2 * |g.adj| - 1 ==> res.Ok?
    ensures res.Ok? ==>
              WellFormed(g.adj, maxWeight) && ChainLinked(g.adj, order) && TotalEdges(g.adj) == 2 * (|g.adj| - 1) &&
              |order| == |g.adj| && Distinct(order) && forall v :: 0 <= v < |g.adj| ==> v in order
  {
    var nodes := |g.adj|;
    var s: seq<nat> := Range(nodes);
    var k := r.NextInt(|s|);
    if k.Err? {
      return Err(k.error), [];
    }
    var cur: nat := s[k.value];
    s := RemoveAt(s, k.value);
    var visited := {cur};
    order := [cur];
    SpanStart(g.adj, maxWeight, Range(nodes), k.value);
    while s != []
      invariant g.Valid() && g.Cleared() && |g.adj| == nodes
      invariant SpanState(g.adj, maxWeight, s, visited, order, cur)
      invariant |r.draws| + 2 * |order| == old(|r.draws|) + 1
      invariant maxWeight <= 0 ==> |order| == 1
      decreases |s|
    {
      var linked;
      linked, s, visited, order, cur := LinkNext(g, r, maxWeight, s, visited, order, cur);
      if linked.Err? {
        return Err(linked.error), order;
      }
    }
    return Ok(()), order;
  }

  /**
   * One pass of the `while (s.isNotEmpty())` loop: draws the next node from
   * `s`, links it to `cur` both ways and makes it the new `cur`.
   */
  method LinkNext(g: Graph, r: Random, maxWeight: int, s: seq<nat>, visited: set<nat>,
                  ghost order: seq<nat>, cur: nat)
    returns (res: Result<()>, s': seq<nat>, visited': set<nat>, ghost order': seq<nat>, cur': nat)
    requires g.Valid() && g.Cleared() && SpanState(g.adj, maxWeight, s, visited, order, cur) && s != []
    modifies g, r
    ensures g.Valid() && g.Cleared() && |g.adj| == old(|g.adj|)
    ensures res.Err? ==> (res.error == OutOfDraws && r.draws == []) || (res.error == IllegalArgument && maxWeight <= 0)
    ensures maxWeight <= 0 && old(|r.draws|) >= 1 ==> res == Err(IllegalArgument)
    ensures maxWeight > 0 && old(|r.draws|) >= 2 ==> res.Ok?
    ensures res.Ok? ==>
              SpanState(g.adj, maxWeight, s', visited', order', cur') &&
              order' == order + [cur'] && (forall v :: 0 <= v < |g.adj| ==> old(g.adj)[v] <= g.adj[v]) &&
              |r.draws| == old(|r.draws|) - 2 && maxWeight > 0
  {
    s', visited', order', cur' := s, visited, order, cur;
    var k := r.NextInt(|s|);
    if k.Err? {
      return Err(k.error), s', visited', order', cur';
    }
    var neighbor: nat := s[k.value];
    NeighborUnvisited(g.adj, maxWeight, s, visited, order, cur, k.value);
    s' := RemoveAt(s, k.value);
    if neighbor !in visited {
      var weight := r.NextInt(maxWeight);
      if weight.Err? {
        return Err(weight.error), s', visited', order', cur';
      }
      ghost var adj := g.adj;
      LinkBothWays(g, cur, neighbor, weight.value, maxWeight);
      SpanStep(adj, maxWeight, s, visited, order, cur, k.value, weight.value, g.adj);
      visited' := visited + {neighbor};
      order' := order + [neighbor];
    }
    cur' := neighbor;
    return Ok(()), s', visited', order', cur';
  }

  /**
   * The state of the spanning-path phase: the nodes in `order` are `visited`
   * and linked along `order`, the others wait in `s` without any edge, and
   * `cur` is the last node linked.
   */
  ghost predicate SpanState(adj: seq<seq<Edge>>, maxWeight: int, s: seq<nat>, visited: set<nat>,
                            order: seq<nat>, cur: nat)
  {
    WellFormed(adj, maxWeight) && ChainLinked(adj, order) && TotalEdges(adj) == 2 * (|order| - 1) &&
    Distinct(s) && (forall v :: v in s ==> v < |adj|) && |s| + |order| == |adj| &&
    (forall v :: 0 <= v < |adj| ==> (v in visited <==> v !in s)) &&
    (forall v :: v in visited <==> v in order) &&
    |order| > 0 && cur == order[|order| - 1] && cur < |adj| && Distinct(order) &&
    (forall v :: 0 <= v < |adj| && v !in visited ==> adj[v] == [])
  }

  lemma SpanStart(adj: seq<seq<Edge>>, maxWeight: int, s: seq<nat>, k: nat)
    requires forall v :: 0 <= v < |adj| ==> adj[v] == []
    requires s == Range(|adj|) && k < |s|
    ensures SpanState(adj, maxWeight, RemoveAt(s, k), {s[k]}, [s[k]], s[k])
  {
    NoEdgesWellFormed(adj, maxWeight);
    NoEdgesCount(adj);
    assert Distinct(s);
  }

  /** Every node drawn from `s` is new: `visited.add(neighbor)` always succeeds */
  lemma NeighborUnvisited(adj: seq<seq<Edge>>, maxWeight: int, s: seq<nat>, visited: set<nat>,
                          order: seq<nat>, cur: nat, k: nat)
    requires SpanState(adj, maxWeight, s, visited, order, cur) && k < |s|
    ensures s[k] < |adj| && s[k] !in visited && s[k] != cur && !Adjacent(adj, cur, s[k])
  {
    assert s[k] in s;
    assert cur in order;
  }

  /** Linking `cur` to the drawn node `s[k]` extends the path by one node */
  lemma SpanStep(adj: seq<seq<Edge>>, maxWeight: int, s: seq<nat>, visited: set<nat>,
                 order: seq<nat>, cur: nat, k: nat, w: int, adj': seq<seq<Edge>>)
    requires SpanState(adj, maxWeight, s, visited, order, cur) && k < |s| && s[k] < |adj| && 0 <= w < maxWeight
    requires adj' == adj[cur := adj[cur] + [Edge(s[k], w)]][s[k] := adj[s[k]] + [Edge(cur, w)]]
    ensures SpanState(adj', maxWeight, RemoveAt(s, k), visited + {s[k]}, order + [s[k]], s[k])
  {
    var v := s[k];
    NeighborUnvisited(adj, maxWeight, s, visited, order, cur, k);
    AddPair(adj, maxWeight, cur, v, w, adj');
    var order' := order + [v];
    assert ChainLinked(adj', order') by {
      forall i | 0 <= i < |order'| - 1
        ensures Adjacent(adj', order'[i], order'[i + 1]) && Adjacent(adj', order'[i + 1], order'[i])
      {
        if i < |order| - 1 {
          assert Adjacent(adj, order[i], order[i + 1]) && Adjacent(adj, order[i + 1], order[i]);
        }
      }
    }
    assert forall x :: x in order' <==> x in order || x == v;
    assert Distinct(order') by {
      assert v !in order;
    }
  }

  /** The second phase of `randomConnectedGraph`: `repeat(count)` adding one random edge pair */
  method AddExtraEdges(g: Graph, r: Random, count: nat, maxWeight: int, ghost order: seq<nat>) returns (res: Result<()>)
    requires g.Valid() && g.Cleared() && |g.adj| > 0
    requires WellFormed(g.adj, maxWeight) && ChainLinked(g.adj, order)
    modifies g, r
    ensures g.Valid() && g.Cleared() && |g.adj| == old(|g.adj|)
    ensures res.Err? ==> res.error == OutOfDraws || (res.error == IllegalArgument && maxWeight <= 0)
    ensures res == Err(OutOfDraws) ==> r.draws == []
    ensures count == 0 ==> res.Ok?
    ensures forall v :: 0 <= v < |g.adj| ==> old(g.adj)[v] <= g.adj[v]
    ensures res.Ok? ==>
              WellFormed(g.adj, maxWeight) && ChainLinked(g.adj, order) &&
              TotalEdges(g.adj) == old(TotalEdges(g.adj)) + 2 * count
  {
    ghost var total := TotalEdges(g.adj);
    for i := 0 to count
      invariant g.Valid() && g.Cleared() && |g.adj| == old(|g.adj|)
      invariant forall v :: 0 <= v < |g.adj| ==> old(g.adj)[v] <= g.adj[v]
      invariant WellFormed(g.adj, maxWeight) && ChainLinked(g.adj, order)
      invariant TotalEdges(g.adj) == total + 2 * i
    {
      ghost var adj := g.adj;
      var first, second, weight;
      res, first, second, weight := AddRandomEdge(g, r, maxWeight);
      forall v | 0 <= v < |g.adj| ensures old(g.adj)[v] <= g.adj[v] {
        assert old(g.adj)[v] <= adj[v] <= g.adj[v];
      }
      if res.Err? {
        return;
      }
      assert ChainLinked(g.adj, order) by {
        forall j | 0 <= j < |order| - 1
          ensures Adjacent(g.adj, order[j], order[j + 1]) && Adjacent(g.adj, order[j + 1], order[j])
        {
          assert Adjacent(adj, order[j], order[j + 1]) && Adjacent(adj, order[j + 1], order[j]);
        }
      }
    }
    return Ok(());
  }

  /**
   * One `while (true)` of the second phase: draws node pairs until one is two
   * distinct nodes not yet adjacent, then links them both ways.
   */
  method AddRandomEdge(g: Graph, r: Random, maxWeight: int) returns (res: Result<()>, first: nat, second: nat, weight: int)
    requires g.Valid() && |g.adj| > 0 && WellFormed(g.adj, maxWeight)
    modifies g, r
    ensures g.Valid() && |g.adj| == old(|g.adj|) && unchanged(g.distance, g.marked)
    ensures res.Err? ==> res.error == OutOfDraws || (res.error == IllegalArgument && maxWeight <= 0)
    ensures res == Err(OutOfDraws) ==> r.draws == []
    ensures res.Err? ==> g.adj == old(g.adj)
    ensures res.Ok? ==>
              first < |g.adj| && second < |g.adj| && 0 <= weight < maxWeight &&
              g.adj == old(g.adj)[first := old(g.adj)[first] + [Edge(second, weight)]]
                                 [second := old(g.adj)[second] + [Edge(first, weight)]]
    ensures res.Ok? ==>
              first != second && !Adjacent(old(g.adj), first, second) &&
              WellFormed(g.adj, maxWeight) && TotalEdges(g.adj) == old(TotalEdges(g.adj)) + 2 &&
              (forall a: nat, b: nat :: Adjacent(g.adj, a, b) <==>
                 Adjacent(old(g.adj), a, b) || (a == first && b == second) || (a == second && b == first))
  {
    var nodes := |g.adj|;
    while true
      invariant g.adj == old(g.adj)
      decreases |r.draws|
    {
      var x := r.NextInt(nodes);
      if x.Err? {
        return Err(x.error), 0, 0, 0;
      }
      var y := r.NextInt(nodes);
      if y.Err? {
        return Err(y.error), 0, 0, 0;
      }
      first, second := x.value, y.value;
      if first == second {
        continue;
      }
      if HasEdgeTo(g.adj[first], second) {
        continue;
      }
      var w := r.NextInt(maxWeight);
      if w.Err? {
        return Err(w.error), first, second, 0;
      }
      weight := w.value;
      LinkBothWays(g, first, second, weight, maxWeight);
      return Ok(()), first, second, weight;
    }
  }

  /** The number of node pairs whose larger node is above `c`: the pairs linked once `cur` has come down to `c` */
  function PairsAbove(n: nat, c: nat): (pairs: nat)
    decreases n - c
  {
    if c + 1 >= n then 0 else c + 1 + PairsAbove(n, c + 1)
  }

  /** All `n * (n - 1) / 2` pairs, those above `c` and the `c * (c + 1) / 2` pairs at or below it */
  lemma {:induction false} PairsAboveClosedForm(n: nat, c: nat)
    requires c < n
    ensures 2 * PairsAbove(n, c) == n * (n - 1) - (c + 1) * c
    decreases n - c
  {
    if c + 1 < n {
      PairsAboveClosedForm(n, c + 1);
    }
  }

  /** At least `c` pairs lie between `c` and `0` */
  lemma {:induction false} PairsAboveGap(n: nat, c: nat)
    requires c < n
    ensures PairsAbove(n, 0) >= PairsAbove(n, c) + c
  {
    if c > 0 {
      PairsAboveGap(n, c - 1);
    }
  }

  /**
   * `completeGraph(nodes, maxWeight)`: taking the nodes from the last one
   * down, links each to every node before it, in both directions.
   */
  method CompleteGraph(nodes: int, maxWeight: int, draws: seq<nat>) returns (res: Result<Graph>)
    ensures nodes < 0 ==> res == Err(IllegalArgument)
    ensures nodes == 0 ==> res == Err(IndexOutOfBounds)
    ensures nodes >= 2 && maxWeight <= 0 ==> res == Err(IllegalArgument)
    ensures res.Err? && nodes > 0 ==> res.error == OutOfDraws || (res.error == IllegalArgument && maxWeight <= 0)
    ensures nodes > 0 && (nodes == 1 || maxWeight > 0) && |draws| >= PairsAbove(nodes, 0) ==> res.Ok?
    ensures res.Ok? ==>
              var g := res.value;
              g.Valid() && g.Cleared() && |g.adj| == nodes && WellFormed(g.adj, maxWeight) &&
              (forall a: nat, b: nat :: a < nodes && b < nodes ==> (Adjacent(g.adj, a, b) <==> a != b)) &&
              Connected(g.adj) && TotalEdges(g.adj) == nodes * (nodes - 1)
  {
    if nodes < 0 {
      return Err(IllegalArgument);
    }
    if nodes == 0 {
      // `s.removeAt(s.size - 1)` on an empty list
      return Err(IndexOutOfBounds);
    }
    var r := new Random(draws);
    var g := new Graph(nodes);
    NoEdgesWellFormed(g.adj, maxWeight);
    NoEdgesCount(g.adj);
    var s: seq<nat> := Range(nodes);
    var cur: nat := s[|s| - 1];
    s := s[..|s| - 1];
    while s != []
      invariant g.Valid() && g.Cleared() && |g.adj| == nodes && WellFormed(g.adj, maxWeight)
      invariant cur < nodes && s == Range(cur)
      invariant forall a: nat, b: nat :: a < nodes && b < nodes ==>
                  (Adjacent(g.adj, a, b) <==> a != b && (a > cur || b > cur))
      invariant TotalEdges(g.adj) == 2 * PairsAbove(nodes, cur)
      invariant |r.draws| == |draws| - PairsAbove(nodes, cur)
      invariant maxWeight <= 0 ==> cur == nodes - 1
      decreases |s|
    {
      PairsAboveGap(nodes, cur);
      var linked := LinkToLower(g, r, cur, s, maxWeight);
      if linked.Err? {
        return Err(linked.error);
      }
      cur := s[|s| - 1];
      s := s[..|s| - 1];
    }
    PairsAboveClosedForm(nodes, 0);
    CompleteConnected(g.adj);
    if nodes >= 2 {
      SomeEdgeNeedsWeight(g.adj, maxWeight);
    }
    return Ok(g);
  }

  /**
   * The `for (v in s)` loop of `completeGraph`: links `cur` to every node of
   * `s`, the nodes below it, in both directions.
   */
  method LinkToLower(g: Graph, r: Random, cur: nat, s: seq<nat>, maxWeight: int) returns (res: Result<()>)
    requires g.Valid() && WellFormed(g.adj, maxWeight) && cur < |g.adj| && s == Range(cur)
    requires forall b: nat :: b < cur ==> !Adjacent(g.adj, cur, b)
    modifies g, r
    ensures g.Valid() && |g.adj| == old(|g.adj|) && unchanged(g.distance, g.marked)
    ensures res.Err? ==> res.error == OutOfDraws || (res.error == IllegalArgument && maxWeight <= 0)
    ensures res == Err(OutOfDraws) ==> r.draws == []
    ensures maxWeight <= 0 && cur > 0 ==> res == Err(IllegalArgument)
    ensures maxWeight > 0 && old(|r.draws|) >= cur ==> res.Ok?
    ensures forall v :: 0 <= v < |g.adj| ==> old(g.adj)[v] <= g.adj[v]
    ensures res.Ok? ==>
              WellFormed(g.adj, maxWeight) && TotalEdges(g.adj) == old(TotalEdges(g.adj)) + 2 * cur &&
              |r.draws| == old(|r.draws|) - cur &&
              forall a: nat, b: nat :: Adjacent(g.adj, a, b) <==>
                Adjacent(old(g.adj), a, b) || (a == cur && b < cur) || (b == cur && a < cur)
  {
    for j := 0 to |s|
      invariant g.Valid() && |g.adj| == old(|g.adj|) && unchanged(g.distance, g.marked)
      invariant WellFormed(g.adj, maxWeight) && TotalEdges(g.adj) == old(TotalEdges(g.adj)) + 2 * j
      invariant |r.draws| == old(|r.draws|) - j
      invariant forall v :: 0 <= v < |g.adj| ==> old(g.adj)[v] <= g.adj[v]
      invariant forall a: nat, b: nat :: Adjacent(g.adj, a, b) <==>
                  Adjacent(old(g.adj), a, b) || (a == cur && b < j) || (b == cur && a < j)
      invariant maxWeight <= 0 ==> j == 0
    {
      var v := s[j];
      var weight := r.NextInt(maxWeight);
      if weight.Err? {
        return Err(weight.error);
      }
      ghost var adj := g.adj;
      LinkBothWays(g, cur, v, weight.value, maxWeight);
      forall x | 0 <= x < |g.adj| ensures old(g.adj)[x] <= g.adj[x] {
        assert old(g.adj)[x] <= adj[x] <= g.adj[x];
      }
    }
    return Ok(());
  }
}
