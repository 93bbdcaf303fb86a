/// The graph model of `Graph.kt`: nodes with their outgoing edges and the
/// per-node solver state (`marked`, `distance`), `addEdge`, `clearNodes`, and
/// the walks over which shortest distances are defined.
module Graph {
  import opened Jvm
  import opened SeqSums

  /** `Edge(to, weight)`; a node is named by its index in the graph's node list */
  datatype Edge = Edge(to: nat, weight: int)

  /**
   * The list of `Node` objects, stored field by field: node `v` owns the
   * outgoing edges `adj[v]`, the flag `marked[v]` and the distance `distance[v]`.
   */
  class Graph {
    var adj: seq<seq<Edge>>
    const distance: array<int>
    const marked: array<bool>

    ghost predicate Valid()
      reads this
    {
      distance.Length == |adj| && marked.Length == |adj| && EdgesInRange(adj)
    }

    /** Every node has the solver state of a freshly constructed `Node` */
    ghost predicate Cleared()
      reads this, distance, marked
    {
      (forall v :: 0 <= v < distance.Length ==> distance[v] == INT_MAX) &&
      (forall v :: 0 <= v < marked.Length ==> !marked[v])
    }

    /** `List(n) { Node() }`: `n` nodes without edges, unmarked, at distance `Int.MAX_VALUE` */
    constructor (n: nat)
      ensures Valid() && Cleared() && fresh(distance) && fresh(marked)
      ensures |adj| == n && forall v :: 0 <= v < n ==> adj[v] == []
    {
      adj := seq(n, _ => []);
      distance := new int[n](_ => INT_MAX);
      marked := new bool[n](_ => false);
    }

    /** `Node.addEdge`: appends `e` to the outgoing edges of node `u` */
    method AddEdge(u: nat, e: Edge)
      requires Valid() && u < |adj| && e.to < |adj|
      modifies this
      ensures Valid()
      ensures adj == old(adj)[u := old(adj)[u] + [e]]
      ensures unchanged(distance, marked)
    {
      adj := adj[u := adj[u] + [e]];
    }
  }

  /** `clearNodes`: resets the solver state of every listed node */
  method ClearNodes(g: Graph, nodes: seq<nat>)
    requires g.Valid()
    requires forall i :: 0 <= i < |nodes| ==> nodes[i] < |g.adj|
    modifies g.distance, g.marked
    ensures forall v :: 0 <= v < |g.adj| && v in nodes ==> g.distance[v] == INT_MAX && !g.marked[v]
    ensures forall v :: 0 <= v < |g.adj| && v !in nodes ==>
              g.distance[v] == old(g.distance[v]) && g.marked[v] == old(g.marked[v])
    ensures (forall v :: 0 <= v < |g.adj| ==> v in nodes) ==> g.Cleared()
  {
    for i := 0 to |nodes|
      invariant forall v :: 0 <= v < |g.adj| && v in nodes[..i] ==> g.distance[v] == INT_MAX && !g.marked[v]
      invariant forall v :: 0 <= v < |g.adj| && v !in nodes[..i] ==>
                  g.distance[v] == old(g.distance[v]) && g.marked[v] == old(g.marked[v])
    {
      assert nodes[..i + 1] == nodes[..i] + [nodes[i]];
      g.distance[nodes[i]] := INT_MAX;
      g.marked[nodes[i]] := false;
    }
    assert nodes[..|nodes|] == nodes;
  }

  /** `ArrayList(nodesList)`: the node indices `0, 1, ..., n - 1` in order */
  function Range(n: nat): (s: seq<nat>)
    ensures |s| == n && forall i :: 0 <= i < n ==> s[i] == i
    ensures forall x :: x in s <==> 0 <= x < n
  {
    if n == 0 then []
    else
      var s := Range(n - 1) + [n - 1];
      assert forall x :: x in s <==> x in Range(n - 1) || x == n - 1;
      s
  }

  /** Every edge leads to a node of the graph */
  ghost predicate EdgesInRange(adj: seq<seq<Edge>>)
  {
    forall u, i :: 0 <= u < |adj| && 0 <= i < |adj[u]| ==> adj[u][i].to < |adj|
  }

  /** Some edge of `u` leads to `v` */
  ghost predicate Adjacent(adj: seq<seq<Edge>>, u: nat, v: nat)
  {
    u < |adj| && exists i :: 0 <= i < |adj[u]| && adj[u][i].to == v
  }

  /** `outgoingEdges.any { e -> e.to == v }` */
  function HasEdgeTo(edges: seq<Edge>, v: nat): (b: bool)
    ensures b <==> exists i :: 0 <= i < |edges| && edges[i].to == v
  {
    if edges == [] then false
    else if edges[0].to == v then true
    else
      var b := HasEdgeTo(edges[1..], v);
      assert forall i :: 1 <= i < |edges| ==> edges[i] == edges[1..][i - 1];
      b
  }

  /// Walks. A walk from `u` is the list of the edge indices it takes, one per
  /// step, each an index into the outgoing edges of the node reached so far.

  ghost predicate IsWalk(adj: seq<seq<Edge>>, u: nat, p: seq<nat>)
    decreases |p|
  {
    u < |adj| && (p != [] ==> p[0] < |adj[u]| && IsWalk(adj, adj[u][p[0]].to, p[1..]))
  }

  /** The node a walk ends at */
  ghost function End(adj: seq<seq<Edge>>, u: nat, p: seq<nat>): (v: nat)
    requires IsWalk(adj, u, p)
    ensures v < |adj|
    decreases |p|
  {
    if p == [] then u else End(adj, adj[u][p[0]].to, p[1..])
  }

  /** The total weight of the edges a walk takes */
  ghost function Weight(adj: seq<seq<Edge>>, u: nat, p: seq<nat>): (w: int)
    requires IsWalk(adj, u, p)
    decreases |p|
  {
    if p == [] then 0 else adj[u][p[0]].weight + Weight(adj, adj[u][p[0]].to, p[1..])
  }

  ghost predicate Reachable(adj: seq<seq<Edge>>, u: nat, v: nat)
  {
    exists p :: IsWalk(adj, u, p) && End(adj, u, p) == v
  }

  /** Every node reaches every node */
  ghost predicate Connected(adj: seq<seq<Edge>>)
  {
    forall u, v :: 0 <= u < |adj| && 0 <= v < |adj| ==> Reachable(adj, u, v)
  }

  /** Taking edge `k` of `u` first, then walking `p` */
  lemma WalkCons(adj: seq<seq<Edge>>, u: nat, k: nat, p: seq<nat>)
    requires u < |adj| && k < |adj[u]| && IsWalk(adj, adj[u][k].to, p)
    ensures IsWalk(adj, u, [k] + p)
    ensures End(adj, u, [k] + p) == End(adj, adj[u][k].to, p)
    ensures Weight(adj, u, [k] + p) == adj[u][k].weight + Weight(adj, adj[u][k].to, p)
  {
    assert ([k] + p)[1..] == p;
  }

  /** Extending a walk by one edge of its end node */
  lemma {:induction false} WalkSnoc(adj: seq<seq<Edge>>, u: nat, p: seq<nat>, k: nat)
    requires EdgesInRange(adj) && IsWalk(adj, u, p) && k < |adj[End(adj, u, p)]|
    ensures IsWalk(adj, u, p + [k])
    ensures End(adj, u, p + [k]) == adj[End(adj, u, p)][k].to
    ensures Weight(adj, u, p + [k]) == Weight(adj, u, p) + adj[End(adj, u, p)][k].weight
    decreases |p|
  {
    if p == [] {
      assert p + [k] == [k];
      WalkCons(adj, u, k, []);
    } else {
      var v := adj[u][p[0]].to;
      WalkSnoc(adj, v, p[1..], k);
      assert p + [k] == [p[0]] + (p[1..] + [k]);
      WalkCons(adj, u, p[0], p[1..] + [k]);
    }
  }

  /** With non-negative edge weights no walk has negative weight */
  lemma {:induction false} WeightNonNegative(adj: seq<seq<Edge>>, u: nat, p: seq<nat>)
    requires forall x, i :: 0 <= x < |adj| && 0 <= i < |adj[x]| ==> 0 <= adj[x][i].weight
    requires IsWalk(adj, u, p)
    ensures 0 <= Weight(adj, u, p)
    decreases |p|
  {
    if p != [] {
      WeightNonNegative(adj, adj[u][p[0]].to, p[1..]);
    }
  }
}
