/// The sequential solver of `Dijkstra.kt`: label-setting Dijkstra over a
/// priority queue of `(node, distance)` entries, with lazy deletion of stale
/// entries instead of a decrease-key operation.
module Dijkstra {
  import opened Jvm
  import opened SeqSums
  import opened Graph

  /** `Pair<Node, Int>`: a node and its distance when the entry was queued */
  datatype Entry = Entry(node: nat, distance: int)

  /** `NODE_DISTANCE_COMPARATOR`: `Integer.compare` on the second component only */
  function NodeDistanceComparator(o1: Entry, o2: Entry): (c: int)
    ensures c < 0 <==> o1.distance < o2.distance
    ensures c == 0 <==> o1.distance == o2.distance
    ensures c > 0 <==> o1.distance > o2.distance
  {
    if o1.distance < o2.distance then -1 else if o1.distance == o2.distance then 0 else 1
  }

  lemma {:induction false} MinimumExists(q: multiset<Entry>)
    requires q != multiset{}
    ensures exists h :: h in q && forall e :: e in q ==> h.distance <= e.distance
    decreases |q|
  {
    var x :| x in q;
    var rest := q - multiset{x};
    assert q == rest + multiset{x};
    if rest == multiset{} {
      assert forall e :: e in q ==> e == x;
    } else {
      MinimumExists(rest);
      var h :| h in rest && forall e :: e in rest ==> h.distance <= e.distance;
      var m := if h.distance <= x.distance then h else x;
      assert forall e :: e in q ==> e == x || e in rest;
      assert m in q && forall e :: e in q ==> m.distance <= e.distance;
    }
  }

  /**
   * `PriorityQueue.poll()` under `NODE_DISTANCE_COMPARATOR`: removes and returns
   * an entry that no other entry precedes; which of several equal ones is left open.
   */
  method Poll(q: multiset<Entry>) returns (head: Entry, rest: multiset<Entry>)
    requires q != multiset{}
    ensures head in q && rest == q - multiset{head}
    ensures forall e :: e in q ==> NodeDistanceComparator(head, e) <= 0
  {
    MinimumExists(q);
    head :| head in q && forall e :: e in q ==> head.distance <= e.distance;
    rest := q - multiset{head};
  }

  /// Shortest distances, defined over walks.

  /**
   * `d` is what the solver must answer for a query from `s` to `t`: the weight
   * of a lightest walk, or `INT_MAX` exactly when no walk reaches `t`.
   */
  ghost predicate IsShortestDistance(adj: seq<seq<Edge>>, s: nat, t: nat, d: int)
  {
    d <= INT_MAX &&
    (d < INT_MAX ==> exists p :: IsWalk(adj, s, p) && End(adj, s, p) == t && Weight(adj, s, p) == d) &&
    (forall p :: IsWalk(adj, s, p) && End(adj, s, p) == t ==> d <= Weight(adj, s, p) && d < INT_MAX)
  }

  /** Every edge weight lies in `[0, bound]` */
  ghost predicate WeightsWithin(adj: seq<seq<Edge>>, bound: nat)
  {
    forall u, i :: 0 <= u < |adj| && 0 <= i < |adj[u]| ==> 0 <= adj[u][i].weight <= bound
  }

  /**
   * No edge leaving a reached node can improve its target: the target is
   * reached too, at most the edge's weight further away.
   */
  ghost predicate Closed(adj: seq<seq<Edge>>, d: seq<int>)
  {
    |d| == |adj| && EdgesInRange(adj) &&
    forall u, i :: 0 <= u < |adj| && d[u] < INT_MAX && 0 <= i < |adj[u]| ==>
      d[adj[u][i].to] <= d[u] + adj[u][i].weight && d[adj[u][i].to] < INT_MAX
  }

  /** In a closed labelling, a walk from a reached node ends at a reached node, no further than its weight */
  lemma {:induction false} ClosedLowerBound(adj: seq<seq<Edge>>, d: seq<int>, u: nat, p: seq<nat>)
    requires Closed(adj, d) && IsWalk(adj, u, p) && d[u] < INT_MAX
    ensures d[End(adj, u, p)] <= d[u] + Weight(adj, u, p)
    ensures d[End(adj, u, p)] < INT_MAX
    decreases |p|
  {
    if p != [] {
      ClosedLowerBound(adj, d, adj[u][p[0]].to, p[1..]);
    }
  }

  /** A node's shortest distance is unique: both solvers, and any two runs, must agree */
  lemma ShortestDistanceUnique(adj: seq<seq<Edge>>, s: nat, t: nat, d1: int, d2: int)
    requires IsShortestDistance(adj, s, t, d1) && IsShortestDistance(adj, s, t, d2)
    ensures d1 == d2
  {
    if d1 < INT_MAX {
      var p1 :| IsWalk(adj, s, p1) && End(adj, s, p1) == t && Weight(adj, s, p1) == d1;
      assert d2 <= d1;
    }
    if d2 < INT_MAX {
      var p2 :| IsWalk(adj, s, p2) && End(adj, s, p2) == t && Weight(adj, s, p2) == d2;
      assert d1 <= d2;
    }
  }

  /** The answer is `INT_MAX` exactly when no walk leads from `s` to `t` */
  lemma UnreachableIffMax(adj: seq<seq<Edge>>, s: nat, t: nat, d: int)
    requires IsShortestDistance(adj, s, t, d)
    ensures d == INT_MAX <==> !Reachable(adj, s, t)
  {
    if Reachable(adj, s, t) {
      var p :| IsWalk(adj, s, p) && End(adj, s, p) == t;
      assert d < INT_MAX;
    }
  }

  /** With non-negative weights the distance from a node to itself is 0 */
  lemma DistanceToSelfIsZero(adj: seq<seq<Edge>>, s: nat, d: int)
    requires s < |adj| && WeightsWithin(adj, INT_MAX)
    requires IsShortestDistance(adj, s, s, d)
    ensures d == 0
  {
    var empty: seq<nat> := [];
    assert IsWalk(adj, s, empty) && End(adj, s, empty) == s && Weight(adj, s, empty) == 0;
    if d < INT_MAX {
      var p :| IsWalk(adj, s, p) && End(adj, s, p) == s && Weight(adj, s, p) == d;
      WeightNonNegative(adj, s, p);
    }
  }

  /// The solver's loop invariants, over snapshots of the `distance` and
  /// `marked` fields.

  /** Every distance lies in `[0, INT_MAX]` */
  ghost predicate Bounded(d: seq<int>)
  {
    forall v :: 0 <= v < |d| ==> 0 <= d[v] <= INT_MAX
  }

  /** Every queued entry names a node and records a finite distance no smaller than the node's current one */
  ghost predicate EntriesValid(d: seq<int>, q: multiset<Entry>)
  {
    forall e :: e in q ==> e.node < |d| && d[e.node] <= e.distance < INT_MAX
  }

  /** Every reached node that is not yet marked has a queued entry recording its current distance */
  ghost predicate Queued(d: seq<int>, marked: seq<bool>, q: multiset<Entry>)
  {
    |marked| == |d| &&
    forall v :: 0 <= v < |d| && !marked[v] && d[v] < INT_MAX ==> Entry(v, d[v]) in q
  }

  /** Marked nodes are never further away than unmarked ones */
  ghost predicate MarkedFirst(d: seq<int>, marked: seq<bool>)
  {
    |marked| == |d| &&
    forall u, v :: 0 <= u < |d| && 0 <= v < |d| && marked[u] && !marked[v] ==> d[u] <= d[v]
  }

  /** The edges of every marked node have been relaxed */
  ghost predicate MarkedRelaxed(adj: seq<seq<Edge>>, d: seq<int>, marked: seq<bool>)
  {
    |d| == |adj| && |marked| == |adj| && EdgesInRange(adj) &&
    forall u, i :: 0 <= u < |adj| && marked[u] && 0 <= i < |adj[u]| ==>
      d[adj[u][i].to] <= d[u] + adj[u][i].weight
  }

  /** `paths[v]` is a walk from `s` to every reached `v` whose weight is `v`'s distance */
  ghost predicate Witnessed(adj: seq<seq<Edge>>, s: nat, d: seq<int>, paths: seq<seq<nat>>)
  {
    |paths| == |d| &&
    forall v :: 0 <= v < |d| && d[v] < INT_MAX ==>
      IsWalk(adj, s, paths[v]) && End(adj, s, paths[v]) == v && Weight(adj, s, paths[v]) == d[v]
  }

  /**
   * With `m` nodes marked and every weight at most `bound`, the budget is
   * `cap == m * bound`: a marked node is at most `cap - bound` away and a
   * reached unmarked one at most `cap`, so no sum the solver forms exceeds
   * `n * bound`.
   */
  ghost predicate WithinBudget(d: seq<int>, marked: seq<bool>, bound: nat, cap: int)
  {
    |marked| == |d| && cap == CountTrue(marked) * bound &&
    (forall v :: 0 <= v < |d| && marked[v] ==> d[v] < INT_MAX && d[v] + bound <= cap) &&
    (forall v :: 0 <= v < |d| && !marked[v] && d[v] < INT_MAX ==> d[v] <= cap)
  }

  /** Every edge of `u` among its first `j` into an unmarked node has been relaxed */
  ghost predicate EdgesRelaxedBelow(adj: seq<seq<Edge>>, d: seq<int>, marked: seq<bool>, u: nat, j: nat)
  {
    |d| == |adj| && |marked| == |adj| && EdgesInRange(adj) && u < |adj| && j <= |adj[u]| &&
    forall i :: 0 <= i < j && !marked[adj[u][i].to] ==> d[adj[u][i].to] <= d[u] + adj[u][i].weight
  }

  /** Every edge of `u` into an unmarked node has been relaxed */
  ghost predicate EdgesRelaxed(adj: seq<seq<Edge>>, d: seq<int>, marked: seq<bool>, u: nat)
  {
    u < |adj| && EdgesRelaxedBelow(adj, d, marked, u, |adj[u]|)
  }

  /**
   * What relaxing edges of `cur` guarantees, from distances `d0` and queue `q0`
   * to distances `d` and queue `q`: distances only fall, only for unmarked
   * nodes, to at least `cur`'s distance and at most `bound` beyond it, and
   * every lowered node is queued with its new distance; nothing changes when
   * no edge needed relaxing.
   */
  ghost predicate Lowered(adj: seq<seq<Edge>>, cur: nat, bound: nat, marked: seq<bool>,
                          d0: seq<int>, q0: multiset<Entry>, d: seq<int>, q: multiset<Entry>)
  {
    |d0| == |adj| && |d| == |adj| && |marked| == |adj| && cur < |adj| && d[cur] == d0[cur] &&
    (forall v :: 0 <= v < |adj| ==> d[v] <= d0[v]) &&
    (forall v :: 0 <= v < |adj| && d[v] != d0[v] ==>
       !marked[v] && d0[cur] <= d[v] <= d0[cur] + bound && Entry(v, d[v]) in q) &&
    q0 <= q && EntriesValid(d, q) &&
    (EdgesRelaxed(adj, d0, marked, cur) ==> d == d0 && q == q0)
  }

  /**
   * Every change made by relaxing the first `j` edges of `cur` comes from one
   * of them: a changed distance is `cur`'s distance plus the weight of an edge
   * into that node, and the entries added to the queue are as `QueuedByEdges`
   * says.
   */
  ghost predicate FromEdges(adj: seq<seq<Edge>>, cur: nat, marked: seq<bool>, d0: seq<int>, q0: multiset<Entry>,
                            j: nat, d: seq<int>, q: multiset<Entry>)
  {
    ChangedByEdges(adj, cur, d0, j, d) && QueuedByEdges(adj, cur, marked, d0, q0, j, q)
  }

  /** A distance that differs from `d0` is `cur`'s distance plus an edge, among the first `j`, into that node */
  ghost predicate ChangedByEdges(adj: seq<seq<Edge>>, cur: nat, d0: seq<int>, j: nat, d: seq<int>)
  {
    |d0| == |adj| && |d| == |adj| && cur < |adj| && j <= |adj[cur]| &&
    forall v :: 0 <= v < |adj| && d[v] != d0[v] ==>
      exists i :: 0 <= i < j && adj[cur][i].to == v && d[v] == d0[cur] + adj[cur][i].weight
  }

  /** The queue `q` holds `q0` and, beyond it, entries as `AddedByEdges` says */
  ghost predicate QueuedByEdges(adj: seq<seq<Edge>>, cur: nat, marked: seq<bool>, d0: seq<int>,
                                q0: multiset<Entry>, j: nat, q: multiset<Entry>)
  {
    q0 <= q && AddedByEdges(adj, cur, marked, d0, j, q - q0)
  }

  /**
   * The first `j` edges of `cur` added at most one entry each, and every added
   * entry is an unmarked node that such an edge brought below its distance
   * `d0`, paired with `cur`'s distance plus that edge's weight.
   */
  ghost predicate AddedByEdges(adj: seq<seq<Edge>>, cur: nat, marked: seq<bool>, d0: seq<int>,
                               j: nat, added: multiset<Entry>)
  {
    |d0| == |adj| && |marked| == |adj| && cur < |adj| && j <= |adj[cur]| && |added| <= j &&
    forall e :: e in added ==>
      e.node < |adj| && !marked[e.node] && e.distance < d0[e.node] &&
      exists i :: 0 <= i < j && e == Entry(adj[cur][i].to, d0[cur] + adj[cur][i].weight)
  }

  /** Edge `j` of `cur` left alone: the changes still come from the edges before it */
  lemma FromEdgesSkip(adj: seq<seq<Edge>>, cur: nat, marked: seq<bool>, d0: seq<int>, q0: multiset<Entry>,
                      j: nat, d: seq<int>, q: multiset<Entry>)
    requires FromEdges(adj, cur, marked, d0, q0, j, d, q) && j < |adj[cur]|
    ensures FromEdges(adj, cur, marked, d0, q0, j + 1, d, q)
  {
    forall v | 0 <= v < |adj| && d[v] != d0[v]
      ensures exists i :: 0 <= i < j + 1 && adj[cur][i].to == v && d[v] == d0[cur] + adj[cur][i].weight
    {
      var i :| 0 <= i < j && adj[cur][i].to == v && d[v] == d0[cur] + adj[cur][i].weight;
    }
    forall e | e in q - q0
      ensures exists i :: 0 <= i < j + 1 && e == Entry(adj[cur][i].to, d0[cur] + adj[cur][i].weight)
    {
      var i :| 0 <= i < j && e == Entry(adj[cur][i].to, d0[cur] + adj[cur][i].weight);
    }
  }

  /** Edge `j` of `cur` lowered its target `to` to `c` and queued it: that change comes from edge `j` */
  lemma FromEdgesLower(adj: seq<seq<Edge>>, cur: nat, marked: seq<bool>, d0: seq<int>, q0: multiset<Entry>,
                       j: nat, d: seq<int>, q: multiset<Entry>, to: nat, c: int)
    requires FromEdges(adj, cur, marked, d0, q0, j, d, q) && j < |adj[cur]| && to < |adj|
    requires to == adj[cur][j].to && c == d0[cur] + adj[cur][j].weight && !marked[to] && c < d0[to]
    ensures FromEdges(adj, cur, marked, d0, q0, j + 1, d[to := c], q + multiset{Entry(to, c)})
  {
    ChangedByLower(adj, cur, d0, j, d, to, c);
    QueuedByLower(adj, cur, marked, d0, q0, j, q, to, c);
  }

  lemma ChangedByLower(adj: seq<seq<Edge>>, cur: nat, d0: seq<int>, j: nat, d: seq<int>, to: nat, c: int)
    requires ChangedByEdges(adj, cur, d0, j, d) && j < |adj[cur]| && to < |adj|
    requires to == adj[cur][j].to && c == d0[cur] + adj[cur][j].weight
    ensures ChangedByEdges(adj, cur, d0, j + 1, d[to := c])
  {
    var d' := d[to := c];
    forall v | 0 <= v < |adj| && d'[v] != d0[v]
      ensures exists i :: 0 <= i < j + 1 && adj[cur][i].to == v && d'[v] == d0[cur] + adj[cur][i].weight
    {
      if v != to {
        var i :| 0 <= i < j && adj[cur][i].to == v && d[v] == d0[cur] + adj[cur][i].weight;
      }
    }
  }

  lemma QueuedByLower(adj: seq<seq<Edge>>, cur: nat, marked: seq<bool>, d0: seq<int>, q0: multiset<Entry>,
                      j: nat, q: multiset<Entry>, to: nat, c: int)
    requires QueuedByEdges(adj, cur, marked, d0, q0, j, q) && j < |adj[cur]| && to < |adj|
    requires to == adj[cur][j].to && c == d0[cur] + adj[cur][j].weight && !marked[to] && c < d0[to]
    ensures QueuedByEdges(adj, cur, marked, d0, q0, j + 1, q + multiset{Entry(to, c)})
  {
    AddedAfter(q0, q, Entry(to, c));
    AddedByLower(adj, cur, marked, d0, j, q - q0, to, c);
  }

  lemma AddedByLower(adj: seq<seq<Edge>>, cur: nat, marked: seq<bool>, d0: seq<int>,
                     j: nat, added: multiset<Entry>, to: nat, c: int)
    requires AddedByEdges(adj, cur, marked, d0, j, added) && j < |adj[cur]| && to < |adj|
    requires to == adj[cur][j].to && c == d0[cur] + adj[cur][j].weight && !marked[to] && c < d0[to]
    ensures AddedByEdges(adj, cur, marked, d0, j + 1, added + multiset{Entry(to, c)})
  {
    forall e | e in added + multiset{Entry(to, c)}
      ensures e.node < |adj| && !marked[e.node] && e.distance < d0[e.node] &&
              exists i :: 0 <= i < j + 1 && e == Entry(adj[cur][i].to, d0[cur] + adj[cur][i].weight)
    {
      if e == Entry(to, c) {
        assert e == Entry(adj[cur][j].to, d0[cur] + adj[cur][j].weight);
      } else {
        var i :| 0 <= i < j && e == Entry(adj[cur][i].to, d0[cur] + adj[cur][i].weight);
      }
    }
  }

  /** Adding `x` to a queue that contains `q0` adds `x` to what it holds beyond `q0` */
  lemma AddedAfter(q0: multiset<Entry>, q: multiset<Entry>, x: Entry)
    requires q0 <= q
    ensures q0 <= q + multiset{x} && q + multiset{x} - q0 == (q - q0) + multiset{x}
  {
    assert q + multiset{x} - q0 == (q - q0) + multiset{x};
  }

  /** The invariant of the relaxation loop after its first `j` edges */
  ghost predicate RelaxInvariant(adj: seq<seq<Edge>>, s: nat, cur: nat, bound: nat, marked: seq<bool>,
                                 d0: seq<int>, q0: multiset<Entry>, j: nat,
                                 d: seq<int>, q: multiset<Entry>, paths: seq<seq<nat>>)
  {
    Lowered(adj, cur, bound, marked, d0, q0, d, q) &&
    EdgesRelaxedBelow(adj, d, marked, cur, j) &&
    FromEdges(adj, cur, marked, d0, q0, j, d, q) &&
    Witnessed(adj, s, d, paths) &&
    Sum(d) + |q| - |q0| <= Sum(d0)
  }

  /** Before the first edge nothing has changed */
  lemma RelaxStart(adj: seq<seq<Edge>>, s: nat, cur: nat, bound: nat, marked: seq<bool>,
                   d0: seq<int>, q0: multiset<Entry>, paths: seq<seq<nat>>)
    requires EdgesInRange(adj) && |d0| == |adj| && |marked| == |adj| && cur < |adj|
    requires EntriesValid(d0, q0) && Witnessed(adj, s, d0, paths)
    ensures RelaxInvariant(adj, s, cur, bound, marked, d0, q0, 0, d0, q0, paths)
  {
    assert q0 - q0 == multiset{};
  }

  /** Edge `j` of `cur` needs no relaxing: nothing changes */
  lemma RelaxSkip(adj: seq<seq<Edge>>, s: nat, cur: nat, bound: nat, marked: seq<bool>,
                  d0: seq<int>, q0: multiset<Entry>, j: nat,
                  d: seq<int>, q: multiset<Entry>, paths: seq<seq<nat>>)
    requires RelaxInvariant(adj, s, cur, bound, marked, d0, q0, j, d, q, paths) && j < |adj[cur]|
    requires marked[adj[cur][j].to] || d[adj[cur][j].to] <= d[cur] + adj[cur][j].weight
    ensures RelaxInvariant(adj, s, cur, bound, marked, d0, q0, j + 1, d, q, paths)
  {
    FromEdgesSkip(adj, cur, marked, d0, q0, j, d, q);
  }

  /** Edge `j` of `cur` brings its unmarked target `to` closer, to `c`: lower it and queue it */
  lemma RelaxLower(adj: seq<seq<Edge>>, s: nat, cur: nat, bound: nat, marked: seq<bool>,
                   d0: seq<int>, q0: multiset<Entry>, j: nat,
                   d: seq<int>, q: multiset<Entry>, paths: seq<seq<nat>>, to: nat, c: int)
    requires RelaxInvariant(adj, s, cur, bound, marked, d0, q0, j, d, q, paths) && j < |adj[cur]|
    requires WeightsWithin(adj, bound) && Bounded(d0) && d0[cur] < INT_MAX
    requires to == adj[cur][j].to && c == d[cur] + adj[cur][j].weight
    requires !marked[to] && d[to] > c
    ensures RelaxInvariant(adj, s, cur, bound, marked, d0, q0, j + 1,
                           d[to := c], q + multiset{Entry(to, c)}, paths[to := paths[cur] + [j]])
  {
    LoweredStep(adj, cur, bound, marked, d0, q0, j, d, q, to, c);
    WitnessedStep(adj, s, cur, j, d, paths, to, c);
    SumUpdate(d, to, c);
    RelaxedBelowStep(adj, marked, cur, j, d, to, c);
    FromEdgesLower(adj, cur, marked, d0, q0, j, d, q, to, c);
  }

  lemma LoweredStep(adj: seq<seq<Edge>>, cur: nat, bound: nat, marked: seq<bool>,
                    d0: seq<int>, q0: multiset<Entry>, j: nat, d: seq<int>, q: multiset<Entry>, to: nat, c: int)
    requires Lowered(adj, cur, bound, marked, d0, q0, d, q) && EdgesInRange(adj) && j < |adj[cur]|
    requires WeightsWithin(adj, bound) && Bounded(d0) && d0[cur] < INT_MAX
    requires to == adj[cur][j].to && c == d[cur] + adj[cur][j].weight
    requires !marked[to] && d[to] > c
    ensures Lowered(adj, cur, bound, marked, d0, q0, d[to := c], q + multiset{Entry(to, c)})
  {
    var d', q' := d[to := c], q + multiset{Entry(to, c)};
    assert to != cur;
    assert EntriesValid(d', q') by {
      forall e | e in q' ensures e.node < |d'| && d'[e.node] <= e.distance < INT_MAX {
        if e != Entry(to, c) {
          assert e in q;
        }
      }
    }
  }

  lemma WitnessedStep(adj: seq<seq<Edge>>, s: nat, cur: nat, j: nat, d: seq<int>, paths: seq<seq<nat>>,
                      to: nat, c: int)
    requires Witnessed(adj, s, d, paths) && EdgesInRange(adj) && |d| == |adj| && cur < |d| && j < |adj[cur]|
    requires to == adj[cur][j].to && c == d[cur] + adj[cur][j].weight
    requires d[cur] < INT_MAX && d[to] > c && d[to] <= INT_MAX
    ensures Witnessed(adj, s, d[to := c], paths[to := paths[cur] + [j]])
  {
    WalkSnoc(adj, s, paths[cur], j);
  }

  lemma RelaxedBelowStep(adj: seq<seq<Edge>>, marked: seq<bool>, cur: nat, j: nat, d: seq<int>, to: nat, c: int)
    requires EdgesRelaxedBelow(adj, d, marked, cur, j) && j < |adj[cur]|
    requires to == adj[cur][j].to && c == d[cur] + adj[cur][j].weight && to != cur && c < d[to]
    ensures EdgesRelaxedBelow(adj, d[to := c], marked, cur, j + 1)
  {
  }

  /**
   * The `for (e in cur.outgoingEdges)` loop of `shortestPathSequential`: lowers
   * the distance of every unmarked target that the edge brings closer and
   * queues the target with its new distance.
   */
  method RelaxEdges(g: Graph, cur: nat, q0: multiset<Entry>, ghost s: nat, ghost paths0: seq<seq<nat>>,
                    ghost bound: nat)
    returns (q: multiset<Entry>, ghost paths: seq<seq<nat>>)
    requires g.Valid() && cur < |g.adj| && WeightsWithin(g.adj, bound)
    requires Bounded(g.distance[..]) && g.distance[cur] < INT_MAX && g.distance[cur] + bound <= INT_MAX
    requires EntriesValid(g.distance[..], q0)
    requires Witnessed(g.adj, s, g.distance[..], paths0)
    modifies g.distance
    ensures Lowered(g.adj, cur, bound, g.marked[..], old(g.distance[..]), q0, g.distance[..], q)
    ensures EdgesRelaxed(g.adj, g.distance[..], g.marked[..], cur)
    ensures FromEdges(g.adj, cur, g.marked[..], old(g.distance[..]), q0, |g.adj[cur]|, g.distance[..], q)
    ensures Witnessed(g.adj, s, g.distance[..], paths)
    ensures Sum(g.distance[..]) + |q| - |q0| <= Sum(old(g.distance[..]))
  {
    q, paths := q0, paths0;
    ghost var d0, marked := g.distance[..], g.marked[..];
    var edges := g.adj[cur];
    RelaxStart(g.adj, s, cur, bound, marked, d0, q0, paths);
    for j := 0 to |edges|
      invariant g.marked[..] == marked
      invariant RelaxInvariant(g.adj, s, cur, bound, marked, d0, q0, j, g.distance[..], q, paths)
    {
      q, paths := RelaxNext(g, cur, j, q, s, bound, marked, d0, q0, paths);
    }
  }

  /** The body of the relaxation loop: relax edge `j` of `cur`, keeping the loop's invariant */
  method RelaxNext(g: Graph, cur: nat, j: nat, q: multiset<Entry>, ghost s: nat, ghost bound: nat,
                   ghost marked: seq<bool>, ghost d0: seq<int>, ghost q0: multiset<Entry>,
                   ghost paths: seq<seq<nat>>)
    returns (q': multiset<Entry>, ghost paths': seq<seq<nat>>)
    requires g.Valid() && cur < |g.adj| && j < |g.adj[cur]| && WeightsWithin(g.adj, bound)
    requires |d0| == |g.adj| && Bounded(d0) && d0[cur] < INT_MAX && d0[cur] + bound <= INT_MAX
    requires g.marked[..] == marked
    requires RelaxInvariant(g.adj, s, cur, bound, marked, d0, q0, j, g.distance[..], q, paths)
    modifies g.distance
    ensures RelaxInvariant(g.adj, s, cur, bound, marked, d0, q0, j + 1, g.distance[..], q', paths')
  {
    q' := RelaxEdge(g, cur, j, q);
    paths' := RelaxStep(g.adj, s, cur, bound, marked, d0, q0, j, old(g.distance[..]), q, paths, g.distance[..], q');
  }

  /**
   * `d', q'` is what one pass of the `for (e in cur.outgoingEdges)` loop, over
   * edge `j` of `cur`, makes of the distances `d` and the queue `q`: when the
   * target is unmarked and its distance exceeds `cur`'s distance plus the
   * weight (a Kotlin `Int` sum), the target takes that sum and is queued with
   * it; otherwise nothing changes.
   */
  ghost predicate RelaxedOne(adj: seq<seq<Edge>>, marked: seq<bool>, cur: nat, j: nat,
                             d: seq<int>, q: multiset<Entry>, d': seq<int>, q': multiset<Entry>)
  {
    EdgesInRange(adj) && |marked| == |adj| && |d| == |adj| && cur < |adj| && j < |adj[cur]| &&
    IsInt(d[cur]) && IsInt(adj[cur][j].weight) &&
    var e := adj[cur][j];
    var c := Add(d[cur], e.weight);
    if !marked[e.to] && d[e.to] > c then d' == d[e.to := c] && q' == q + multiset{Entry(e.to, c)}
    else d' == d && q' == q
  }

  /** One pass of the `for (e in cur.outgoingEdges)` loop, over edge `j` of `cur` */
  method RelaxEdge(g: Graph, cur: nat, j: nat, q: multiset<Entry>) returns (q': multiset<Entry>)
    requires g.Valid() && cur < |g.adj| && j < |g.adj[cur]|
    requires IsInt(g.distance[cur]) && IsInt(g.adj[cur][j].weight)
    modifies g.distance
    ensures RelaxedOne(g.adj, old(g.marked[..]), cur, j, old(g.distance[..]), q, g.distance[..], q')
  {
    q' := q;
    var e := g.adj[cur][j];
    var to := e.to;
    if !g.marked[to] {
      if g.distance[to] > Add(g.distance[cur], e.weight) {
        g.distance[to] := Add(g.distance[cur], e.weight);
        q' := q + multiset{Entry(to, g.distance[to])};
      }
    }
  }

  /** The step `RelaxEdge` takes keeps the relaxation loop's invariant, one edge further on */
  lemma RelaxStep(adj: seq<seq<Edge>>, s: nat, cur: nat, bound: nat, marked: seq<bool>,
                  d0: seq<int>, q0: multiset<Entry>, j: nat,
                  d: seq<int>, q: multiset<Entry>, paths: seq<seq<nat>>, d': seq<int>, q': multiset<Entry>)
    returns (paths': seq<seq<nat>>)
    requires RelaxInvariant(adj, s, cur, bound, marked, d0, q0, j, d, q, paths)
    requires WeightsWithin(adj, bound) && Bounded(d0) && d0[cur] < INT_MAX && d0[cur] + bound <= INT_MAX
    requires RelaxedOne(adj, marked, cur, j, d, q, d', q')
    ensures RelaxInvariant(adj, s, cur, bound, marked, d0, q0, j + 1, d', q', paths')
  {
    var e := adj[cur][j];
    var c := d[cur] + e.weight;
    assert Add(d[cur], e.weight) == c;
    if !marked[e.to] && d[e.to] > c {
      RelaxLower(adj, s, cur, bound, marked, d0, q0, j, d, q, paths, e.to, c);
      paths' := paths[e.to := paths[cur] + [j]];
    } else {
      RelaxSkip(adj, s, cur, bound, marked, d0, q0, j, d, q, paths);
      paths' := paths;
    }
  }

  /// One iteration of the main loop that pops a current entry of `cur`,
  /// relaxes `cur`'s edges and marks `cur`.

  /** The loop invariant of `shortestPathSequential`, except the witness walks */
  ghost predicate SolverInvariant(adj: seq<seq<Edge>>, s: nat, bound: nat, cap: int,
                                  d: seq<int>, marked: seq<bool>, q: multiset<Entry>)
  {
    |d| == |adj| && s < |adj| && d[s] == 0 && Bounded(d) && EntriesValid(d, q) && Queued(d, marked, q) &&
    MarkedFirst(d, marked) && MarkedRelaxed(adj, d, marked) && WithinBudget(d, marked, bound, cap)
  }

  /** An unmarked node popped with its current distance is the closest unmarked node */
  lemma PoppedIsClosest(adj: seq<seq<Edge>>, s: nat, bound: nat, cap: int, d: seq<int>, marked: seq<bool>,
                        q: multiset<Entry>, cur: nat)
    requires SolverInvariant(adj, s, bound, cap, d, marked, q) && cur < |adj|
    requires Entry(cur, d[cur]) in q && forall e :: e in q ==> d[cur] <= e.distance
    ensures forall v :: 0 <= v < |adj| && !marked[v] ==> d[cur] <= d[v]
  {
    forall v | 0 <= v < |adj| && !marked[v] ensures d[cur] <= d[v] {
      if d[v] < INT_MAX {
        assert Entry(v, d[v]) in q;
      }
    }
  }

  /** A marked node popped again has all its edges relaxed, so the iteration changes nothing but the queue */
  lemma SettleMarkedNode(adj: seq<seq<Edge>>, s: nat, bound: nat, cap: int, cur: nat,
                         d0: seq<int>, marked: seq<bool>, q0: multiset<Entry>, popped: multiset<Entry>,
                         d: seq<int>, q: multiset<Entry>)
    requires SolverInvariant(adj, s, bound, cap, d0, marked, q0) && cur < |adj| && marked[cur]
    requires Entry(cur, d0[cur]) in q0 && popped == q0 - multiset{Entry(cur, d0[cur])}
    requires Lowered(adj, cur, bound, marked, d0, popped, d, q)
    ensures d == d0 && q == popped
    ensures SolverInvariant(adj, s, bound, cap, d, marked[cur := true], q)
  {
    assert EdgesRelaxed(adj, d0, marked, cur);
    assert marked[cur := true] == marked;
    forall v | 0 <= v < |adj| && !marked[v] && d0[v] < INT_MAX ensures Entry(v, d0[v]) in popped {
      assert Entry(v, d0[v]) in q0 && Entry(v, d0[v]) != Entry(cur, d0[cur]);
    }
  }

  lemma SettleQueued(adj: seq<seq<Edge>>, cur: nat, bound: nat,
                     d0: seq<int>, marked: seq<bool>, q0: multiset<Entry>, popped: multiset<Entry>,
                     d: seq<int>, q: multiset<Entry>)
    requires Lowered(adj, cur, bound, marked, d0, popped, d, q)
    requires Queued(d0, marked, q0) && !marked[cur]
    requires popped == q0 - multiset{Entry(cur, d0[cur])}
    ensures Queued(d, marked[cur := true], q)
  {
    forall v | 0 <= v < |d| && !marked[cur := true][v] && d[v] < INT_MAX ensures Entry(v, d[v]) in q {
      if d[v] == d0[v] {
        assert Entry(v, d0[v]) in q0 && Entry(v, d0[v]) != Entry(cur, d0[cur]);
        assert Entry(v, d0[v]) in popped;
      }
    }
  }

  lemma SettleMarkedFirst(adj: seq<seq<Edge>>, cur: nat, bound: nat,
                          d0: seq<int>, marked: seq<bool>, popped: multiset<Entry>,
                          d: seq<int>, q: multiset<Entry>)
    requires Lowered(adj, cur, bound, marked, d0, popped, d, q)
    requires MarkedFirst(d0, marked) && !marked[cur]
    requires forall v :: 0 <= v < |adj| && !marked[v] ==> d0[cur] <= d0[v]
    ensures MarkedFirst(d, marked[cur := true])
  {
  }

  lemma SettleMarkedRelaxed(adj: seq<seq<Edge>>, cur: nat, bound: nat,
                            d0: seq<int>, marked: seq<bool>, popped: multiset<Entry>,
                            d: seq<int>, q: multiset<Entry>)
    requires MarkedRelaxed(adj, d0, marked) && MarkedFirst(d0, marked) && cur < |adj| && !marked[cur]
    requires WeightsWithin(adj, bound)
    requires Lowered(adj, cur, bound, marked, d0, popped, d, q) && EdgesRelaxed(adj, d, marked, cur)
    ensures MarkedRelaxed(adj, d, marked[cur := true])
  {
    var marked' := marked[cur := true];
    forall u, i | 0 <= u < |adj| && marked'[u] && 0 <= i < |adj[u]|
      ensures d[adj[u][i].to] <= d[u] + adj[u][i].weight
    {
      var t := adj[u][i].to;
      if u == cur && marked[t] {
        assert d[t] == d0[t] <= d0[cur];
      }
    }
  }

  lemma SettleBudget(adj: seq<seq<Edge>>, cur: nat, bound: nat, cap: int,
                     d0: seq<int>, marked: seq<bool>, popped: multiset<Entry>,
                     d: seq<int>, q: multiset<Entry>)
    requires Lowered(adj, cur, bound, marked, d0, popped, d, q)
    requires WithinBudget(d0, marked, bound, cap) && !marked[cur] && d0[cur] < INT_MAX
    requires forall v :: 0 <= v < |adj| && d[v] < d0[v] ==> d[v] < INT_MAX
    ensures WithinBudget(d, marked[cur := true], bound, cap + bound)
  {
    CountTrueSet(marked, cur);
    MulSucc(CountTrue(marked), bound);
  }

  lemma MulSucc(m: nat, bound: nat)
    ensures (m + 1) * bound == m * bound + bound
  {
  }

  /** The no-overflow bound for the sums formed while relaxing `cur`'s edges */
  lemma SumsFit(adj: seq<seq<Edge>>, s: nat, bound: nat, cap: int, d: seq<int>, marked: seq<bool>,
                q: multiset<Entry>, cur: nat)
    requires SolverInvariant(adj, s, bound, cap, d, marked, q) && cur < |adj| && d[cur] < INT_MAX
    requires |adj| * bound < INT_MAX
    ensures d[cur] + bound < INT_MAX
  {
    var m := CountTrue(marked);
    if !marked[cur] {
      CountTrueBelowLength(marked, cur);
      MulMonotone(m + 1, |adj|, bound);
      MulSucc(m, bound);
    } else {
      MulMonotone(m, |adj|, bound);
    }
  }

  /**
   * `shortestPathSequential(start, destination)`. The caller must pass freshly
   * built or cleared nodes, edge weights in `[0, bound]` with `n * bound <
   * Int.MAX_VALUE` (so that no `Int` sum wraps around), and gets the shortest
   * distance from `start` to `destination`, `Int.MAX_VALUE` if there is no path.
   * Every node ends with its shortest distance and is marked exactly when reached.
   */
  method ShortestPathSequential(g: Graph, start: nat, destination: nat, ghost bound: nat) returns (r: int)
    requires g.Valid() && g.Cleared()
    requires start < |g.adj| && destination < |g.adj|
    requires WeightsWithin(g.adj, bound) && |g.adj| * bound < INT_MAX
    modifies g.distance, g.marked
    ensures r == g.distance[destination] && g.distance[start] == 0
    ensures IsShortestDistance(g.adj, start, destination, r)
    ensures forall v :: 0 <= v < |g.adj| ==> IsShortestDistance(g.adj, start, v, g.distance[v])
    ensures forall v :: 0 <= v < |g.adj| ==> (g.marked[v] <==> g.distance[v] < INT_MAX)
  {
    g.distance[start] := 0;
    var q := multiset{Entry(start, 0)};
    ghost var paths: seq<seq<nat>> := seq(|g.adj|, _ => []);
    ghost var cap := 0;
    InitialState(g.adj, start, bound, g.distance[..], g.marked[..], paths);
    SumNonNegative(g.distance[..]);
    while q != multiset{}
      invariant SolverInvariant(g.adj, start, bound, cap, g.distance[..], g.marked[..], q)
      invariant Witnessed(g.adj, start, g.distance[..], paths)
      invariant 0 <= Sum(g.distance[..])
      decreases Sum(g.distance[..]), |q|
    {
      var head;
      head, q, cap, paths := Iterate(g, q, start, bound, cap, paths);
    }
    r := g.distance[destination];
    Finish(g.adj, start, bound, cap, g.distance[..], g.marked[..], paths);
  }

  /**
   * One pass of the `while (q.isNotEmpty())` loop: poll the closest entry; skip
   * it when stale, otherwise relax the polled node's edges and mark it.
   */
  method Iterate(g: Graph, q0: multiset<Entry>, ghost start: nat, ghost bound: nat, ghost cap0: int,
                 ghost paths0: seq<seq<nat>>)
    returns (head: Entry, q: multiset<Entry>, ghost cap: int, ghost paths: seq<seq<nat>>)
    requires g.Valid() && WeightsWithin(g.adj, bound) && |g.adj| * bound < INT_MAX
    requires SolverInvariant(g.adj, start, bound, cap0, g.distance[..], g.marked[..], q0)
    requires Witnessed(g.adj, start, g.distance[..], paths0)
    requires q0 != multiset{}
    modifies g.distance, g.marked
    ensures head in q0 && head.node < |g.adj| && forall e :: e in q0 ==> head.distance <= e.distance
    ensures old(g.distance[head.node]) != head.distance ==>
              q == q0 - multiset{head} && g.distance[..] == old(g.distance[..]) && g.marked[..] == old(g.marked[..])
    ensures old(g.distance[head.node]) == head.distance ==>
              Settled(g.adj, head.node, old(g.distance[..]), old(g.marked[..]), q0 - multiset{head},
                      g.distance[..], g.marked[..], q)
    ensures SolverInvariant(g.adj, start, bound, cap, g.distance[..], g.marked[..], q)
    ensures Witnessed(g.adj, start, g.distance[..], paths)
    ensures 0 <= Sum(g.distance[..])
    ensures Sum(g.distance[..]) < Sum(old(g.distance[..])) ||
            (Sum(g.distance[..]) == Sum(old(g.distance[..])) && |q| < |q0|)
  {
    cap, paths := cap0, paths0;
    SumNonNegative(g.distance[..]);
    head, q := Poll(q0);
    var cur := head.node;
    if g.distance[cur] != head.distance {
      SkipStale(g.adj, start, bound, cap, g.distance[..], g.marked[..], q0, head);
      return;
    }
    q, cap, paths := Visit(g, cur, q0, head, q, start, bound, cap0, paths0);
  }

  /**
   * The rest of the pass for an entry `head` of `cur` that is current: relax
   * `cur`'s edges (the inner `for` loop), then `cur.marked = true`.
   */
  method Visit(g: Graph, cur: nat, q0: multiset<Entry>, head: Entry, popped: multiset<Entry>,
               ghost start: nat, ghost bound: nat, ghost cap0: int, ghost paths0: seq<seq<nat>>)
    returns (q: multiset<Entry>, ghost cap: int, ghost paths: seq<seq<nat>>)
    requires g.Valid() && WeightsWithin(g.adj, bound) && |g.adj| * bound < INT_MAX
    requires SolverInvariant(g.adj, start, bound, cap0, g.distance[..], g.marked[..], q0)
    requires Witnessed(g.adj, start, g.distance[..], paths0)
    requires cur < |g.adj| && head == Entry(cur, g.distance[cur]) && head in q0
    requires popped == q0 - multiset{head}
    requires forall e :: e in q0 ==> head.distance <= e.distance
    modifies g.distance, g.marked
    ensures Settled(g.adj, cur, old(g.distance[..]), old(g.marked[..]), popped, g.distance[..], g.marked[..], q)
    ensures SolverInvariant(g.adj, start, bound, cap, g.distance[..], g.marked[..], q)
    ensures Witnessed(g.adj, start, g.distance[..], paths)
    ensures 0 <= Sum(g.distance[..])
    ensures Sum(g.distance[..]) < Sum(old(g.distance[..])) ||
            (Sum(g.distance[..]) == Sum(old(g.distance[..])) && |q| < |q0|)
  {
    ghost var d0, marked0 := g.distance[..], g.marked[..];
    SumsFit(g.adj, start, bound, cap0, d0, marked0, q0, cur);
    q, paths := RelaxEdges(g, cur, popped, start, paths0, bound);
    ghost var d := g.distance[..];
    g.marked[cur] := true;
    assert g.distance[..] == d;
    assert g.marked[..] == marked0[cur := true];
    Settle(g.adj, start, bound, cap0, cur, d0, marked0, q0, head, popped, d, q);
    RelaxingSettles(g.adj, cur, bound, marked0, d0, popped, d, q);
    cap := if marked0[cur] then cap0 else cap0 + bound;
  }

  /**
   * Relaxing the edges of the polled node `cur` and marking it keeps the
   * solver's invariant, and lowers the total distance or shrinks the queue.
   */
  lemma Settle(adj: seq<seq<Edge>>, s: nat, bound: nat, cap: int, cur: nat,
               d0: seq<int>, marked: seq<bool>, q0: multiset<Entry>, head: Entry, popped: multiset<Entry>,
               d: seq<int>, q: multiset<Entry>)
    requires SolverInvariant(adj, s, bound, cap, d0, marked, q0) && cur < |adj|
    requires WeightsWithin(adj, bound) && |adj| * bound < INT_MAX
    requires head == Entry(cur, d0[cur]) && head in q0 && popped == q0 - multiset{head}
    requires forall e :: e in q0 ==> d0[cur] <= e.distance
    requires Lowered(adj, cur, bound, marked, d0, popped, d, q) && EdgesRelaxed(adj, d, marked, cur)
    requires Sum(d) + |q| - |popped| <= Sum(d0)
    ensures SolverInvariant(adj, s, bound, if marked[cur] then cap else cap + bound, d, marked[cur := true], q)
    ensures 0 <= Sum(d)
    ensures Sum(d) < Sum(d0) || (Sum(d) == Sum(d0) && |q| < |q0|)
  {
    SumsFit(adj, s, bound, cap, d0, marked, q0, cur);
    Progress(d0, d, q0, head, q);
    SumNonNegative(d);
    if marked[cur] {
      SettleMarkedNode(adj, s, bound, cap, cur, d0, marked, q0, popped, d, q);
    } else {
      PoppedIsClosest(adj, s, bound, cap, d0, marked, q0, cur);
      SettleQueued(adj, cur, bound, d0, marked, q0, popped, d, q);
      SettleMarkedFirst(adj, cur, bound, d0, marked, popped, d, q);
      SettleMarkedRelaxed(adj, cur, bound, d0, marked, popped, d, q);
      SettleBudget(adj, cur, bound, cap, d0, marked, popped, d, q);
    }
  }

  /**
   * What one pass over a current entry of `cur` changes, from distances `d0`,
   * marks `marked0` and the popped queue `q0`: `cur` becomes marked and no
   * other node; distances only fall and those of marked nodes stay; every
   * change, to a distance or to the queue, comes from an edge of `cur`.
   */
  ghost predicate Settled(adj: seq<seq<Edge>>, cur: nat, d0: seq<int>, marked0: seq<bool>, q0: multiset<Entry>,
                          d: seq<int>, marked: seq<bool>, q: multiset<Entry>)
  {
    |d0| == |adj| && |d| == |adj| && |marked0| == |adj| && cur < |adj| &&
    marked == marked0[cur := true] &&
    (forall v :: 0 <= v < |adj| ==> d[v] <= d0[v]) &&
    (forall v :: 0 <= v < |adj| && marked0[v] ==> d[v] == d0[v]) &&
    q0 <= q && FromEdges(adj, cur, marked0, d0, q0, |adj[cur]|, d, q)
  }

  /** Relaxing every edge of `cur` and then marking `cur` is such a pass */
  lemma RelaxingSettles(adj: seq<seq<Edge>>, cur: nat, bound: nat, marked0: seq<bool>,
                        d0: seq<int>, q0: multiset<Entry>, d: seq<int>, q: multiset<Entry>)
    requires Lowered(adj, cur, bound, marked0, d0, q0, d, q)
    requires FromEdges(adj, cur, marked0, d0, q0, |adj[cur]|, d, q)
    ensures Settled(adj, cur, d0, marked0, q0, d, marked0[cur := true], q)
  {
  }

  /**
   * A query, `clearNodes` over the whole node list, and the same query again:
   * the reset nodes give the solver the state of fresh ones, and both runs
   * return the same shortest distance.
   */
  method QueryAfterClear(g: Graph, start: nat, destination: nat, ghost bound: nat) returns (first: int, second: int)
    requires g.Valid() && g.Cleared()
    requires start < |g.adj| && destination < |g.adj|
    requires WeightsWithin(g.adj, bound) && |g.adj| * bound < INT_MAX
    modifies g.distance, g.marked
    ensures first == second && IsShortestDistance(g.adj, start, destination, first)
    ensures g.Cleared()
  {
    first := ShortestPathSequential(g, start, destination, bound);
    ClearNodes(g, Range(|g.adj|));
    second := ShortestPathSequential(g, start, destination, bound);
    ShortestDistanceUnique(g.adj, start, destination, first, second);
    ClearNodes(g, Range(|g.adj|));
  }

  /** On a connected graph every query finds a path */
  lemma ConnectedAllReached(adj: seq<seq<Edge>>, s: nat, t: nat, d: int)
    requires Connected(adj) && s < |adj| && t < |adj| && IsShortestDistance(adj, s, t, d)
    ensures d < INT_MAX
  {
    UnreachableIffMax(adj, s, t, d);
  }

  /** With every weight 1, a walk weighs its number of edges */
  lemma {:induction false} UnitWeightIsLength(adj: seq<seq<Edge>>, u: nat, p: seq<nat>)
    requires forall x, i :: 0 <= x < |adj| && 0 <= i < |adj[x]| ==> adj[x][i].weight == 1
    requires IsWalk(adj, u, p)
    ensures Weight(adj, u, p) == |p|
    decreases |p|
  {
    if p != [] {
      UnitWeightIsLength(adj, adj[u][p[0]].to, p[1..]);
    }
  }

  /** Two distinct adjacent nodes of a graph whose weights are all 1 are at distance 1, as in a complete graph */
  lemma AdjacentUnitDistance(adj: seq<seq<Edge>>, a: nat, b: nat)
    requires forall x, i :: 0 <= x < |adj| && 0 <= i < |adj[x]| ==> adj[x][i].weight == 1
    requires Adjacent(adj, a, b) && a != b && b < |adj|
    ensures IsShortestDistance(adj, a, b, 1)
  {
    var k :| 0 <= k < |adj[a]| && adj[a][k].to == b;
    var empty: seq<nat> := [];
    assert IsWalk(adj, b, empty);
    WalkCons(adj, a, k, empty);
    assert [k] + empty == [k];
    forall p | IsWalk(adj, a, p) && End(adj, a, p) == b ensures 1 <= Weight(adj, a, p) {
      UnitWeightIsLength(adj, a, p);
    }
  }

  /** An iteration lowers the total distance, or keeps it and shrinks the queue */
  lemma Progress(d0: seq<int>, d: seq<int>, before: multiset<Entry>, head: Entry, q: multiset<Entry>)
    requires head in before && before - multiset{head} <= q
    requires Sum(d) + |q| - |before - multiset{head}| <= Sum(d0)
    ensures Sum(d) < Sum(d0) || (Sum(d) == Sum(d0) && |q| < |before|)
  {
    var popped := before - multiset{head};
    assert before == popped + multiset{head};
    assert q == popped + (q - popped);
  }

  /** The state after `start.distance.set(0)` and `q.add(Pair(start, 0))` on cleared nodes */
  lemma InitialState(adj: seq<seq<Edge>>, s: nat, bound: nat, d: seq<int>, marked: seq<bool>,
                     paths: seq<seq<nat>>)
    requires EdgesInRange(adj) && s < |adj| && |d| == |adj| && |marked| == |adj| && |paths| == |adj|
    requires d[s] == 0 && forall v :: 0 <= v < |adj| && v != s ==> d[v] == INT_MAX
    requires forall v :: 0 <= v < |adj| ==> !marked[v] && paths[v] == []
    ensures SolverInvariant(adj, s, bound, 0, d, marked, multiset{Entry(s, 0)})
    ensures Witnessed(adj, s, d, paths)
  {
    CountTrueAllFalse(marked);
  }

  /** Popping a stale entry changes nothing but the queue */
  lemma SkipStale(adj: seq<seq<Edge>>, s: nat, bound: nat, cap: int, d: seq<int>, marked: seq<bool>,
                  q: multiset<Entry>, head: Entry)
    requires SolverInvariant(adj, s, bound, cap, d, marked, q) && head in q
    requires d[head.node] != head.distance
    ensures SolverInvariant(adj, s, bound, cap, d, marked, q - multiset{head})
  {
    forall v | 0 <= v < |d| && !marked[v] && d[v] < INT_MAX ensures Entry(v, d[v]) in q - multiset{head} {
      assert Entry(v, d[v]) in q && Entry(v, d[v]) != head;
    }
  }

  lemma {:induction false} CountTrueAllFalse(s: seq<bool>)
    requires forall i :: 0 <= i < |s| ==> !s[i]
    ensures CountTrue(s) == 0
  {
    if s != [] {
      CountTrueAllFalse(s[1..]);
    }
  }

  /** When the queue is empty the labelling is closed, so every distance is a shortest one */
  lemma Finish(adj: seq<seq<Edge>>, s: nat, bound: nat, cap: int, d: seq<int>, marked: seq<bool>, paths: seq<seq<nat>>)
    requires SolverInvariant(adj, s, bound, cap, d, marked, multiset{}) && Witnessed(adj, s, d, paths)
    requires WeightsWithin(adj, bound) && |adj| * bound < INT_MAX
    ensures forall v :: 0 <= v < |adj| ==> IsShortestDistance(adj, s, v, d[v])
    ensures forall v :: 0 <= v < |adj| ==> (marked[v] <==> d[v] < INT_MAX)
  {
    var n := |adj|;
    MulMonotone(CountTrue(marked), n, bound);
    assert Closed(adj, d);
    forall v | 0 <= v < n ensures IsShortestDistance(adj, s, v, d[v]) {
      if d[v] < INT_MAX {
        assert IsWalk(adj, s, paths[v]) && End(adj, s, paths[v]) == v && Weight(adj, s, paths[v]) == d[v];
      }
      forall p | IsWalk(adj, s, p) && End(adj, s, p) == v
        ensures d[v] <= Weight(adj, s, p) && d[v] < INT_MAX
      {
        ClosedLowerBound(adj, d, s, p);
      }
    }
  }
}
