# Sequential Dijkstra and graph generators, modelled in Dafny

This project models the sequential shortest-path solver of the Kotlin
repository `JB_Spring_Practice_19` (`shortestPathSequential` and its
`NODE_DISTANCE_COMPARATOR` in `src/main/java/dijkstra/Dijkstra.kt`). It also
models the graph model the solver runs on, from `src/main/java/dijkstra/Graph.kt`:
`Node`, `Edge`, `addEdge`, `clearNodes`, `randomConnectedGraph` and
`completeGraph`.

The files:

- `jvm.dfy` (module `Jvm`): the pieces of the JVM the code relies on.
  - 32-bit `Int` addition with wrap-around.
  - The exceptions the code can raise.
  - `java.util.Random`, replaced by a caller-supplied sequence of draws.
- `seqsums.dfy` (module `SeqSums`): sums and counts over sequences. The solver's termination and no-overflow proofs use them.
- `graph.dfy` (module `Graph`): the node list.
  - It is a class `Graph` with one field per `Node` field: `adj` for the outgoing edges, plus the `distance` and `marked` arrays.
  - It has `addEdge` and `clearNodes`.
  - It defines walks, their end node and their weight, reachability and connectivity.
- `dijkstra.dfy` (module `Dijkstra`): the solver.
  - The priority queue is a multiset of `(node, distance)` entries. `Poll` removes some entry of minimal distance.
  - The solver is proved to end with every node's shortest distance.
  - It marks exactly the reachable nodes, and it never lets an `Int` sum wrap around.
- `generators.dfy` (module `GraphGenerators`): the two generators.
  - Both are proved to build simple symmetric graphs with weights in `[0, maxWeight)`.
  - `randomConnectedGraph` builds a connected graph with `edges` undirected edges.
  - `completeGraph` makes every pair of distinct nodes adjacent, in both directions.

A node is its index in the node list, and `Edge.to` is an index. A shortest
distance is stated without a minimum operator. `IsShortestDistance(adj, s, t, d)`
holds when both of these hold:

- if `d < Int.MAX_VALUE`, some walk from `s` to `t` weighs `d`;
- every walk from `s` to `t` weighs at least `d`, and `d < Int.MAX_VALUE`.

So `Int.MAX_VALUE` is the answer exactly when `t` is unreachable.

The solver's proof is carried by loop invariants over snapshots of the
`distance` and `marked` arrays:

- every unmarked reached node is queued with its current distance;
- marked nodes are never further away than unmarked ones;
- the edges of every marked node are relaxed;
- every finite distance has a witness walk;
- a budget of `(#marked) * bound` bounds every distance, so `cur.distance + e.weight` never exceeds `Int.MAX_VALUE`.

When the queue is empty no edge out of a reached node can improve its target.
Induction over walks then shows that every distance is a lower bound.

Notes on the code:

- `Edge.weight` may be any `Int`. The solver's contract requires weights in `[0, bound]`.
- The main loop pops the minimal entry whatever its node. The stale-entry check at `src/main/java/dijkstra/Dijkstra.kt:19` and the `marked` check on targets at line 22 do the rest. A marked node popped again with its current distance changes nothing.
- The comment at `src/main/java/dijkstra/Graph.kt:58` says `completeGraph` builds a graph with `nodes-1` edges. That is wrong: the code builds the complete graph, and the model states that.

## Model

| member | source | states |
|---|---|---|
| Jvm.Add | src/main/java/dijkstra/Dijkstra.kt:23-24 | Kotlin `Int` addition: the exact sum when it fits in 32 bits, otherwise the sum shifted by 2^32 into range |
| Jvm.Random.constructor | src/main/java/dijkstra/Graph.kt:24 | a random source that hands out exactly the given draws |
| Jvm.Random.NextInt | src/main/java/dijkstra/Graph.kt:28 | `nextInt(bound)`: IllegalArgument when `bound <= 0`; otherwise the next draw reduced into `[0, bound)`, consuming one draw |
| Graph.Graph.constructor | src/main/java/dijkstra/Graph.kt:7-13 | `n` fresh nodes: no outgoing edges, unmarked, distance `Int.MAX_VALUE` |
| Graph.Graph.AddEdge | src/main/java/dijkstra/Graph.kt:15-17 | appends exactly one edge at the end of the node's list; other nodes' lists, `marked` and `distance` are unchanged |
| Graph.ClearNodes | src/main/java/dijkstra/Graph.kt:72-77 | every listed node gets distance `Int.MAX_VALUE` and is unmarked; unlisted nodes and all edges are unchanged; listing every node gives the fresh state |
| Graph.Range | src/main/java/dijkstra/Graph.kt:27 | the node list in order: position `i` holds node `i`, and it holds exactly the nodes `0..n-1` |
| Graph.HasEdgeTo | src/main/java/dijkstra/Graph.kt:45 | `outgoingEdges.any { e -> e.to == v }`: true exactly when some edge of the list leads to `v` |
| Graph.WalkSnoc | src/main/java/dijkstra/Dijkstra.kt:23-24 | extending a walk by an edge of its end node gives a walk to that edge's target, heavier by its weight (the witness of a relaxed distance) |
| Dijkstra.NodeDistanceComparator | src/main/java/dijkstra/Dijkstra.kt:10 | negative, zero or positive exactly when the first entry's distance is smaller, equal or larger; nodes are ignored |
| Dijkstra.MinimumExists | src/main/java/dijkstra/Dijkstra.kt:18 | every non-empty queue holds an entry no other entry precedes |
| Dijkstra.Poll | src/main/java/dijkstra/Dijkstra.kt:18 | `q.poll()`: removes one entry that the comparator ranks at or before every queued entry; which of equal ones is left open |
| Dijkstra.ShortestPathSequential | src/main/java/dijkstra/Dijkstra.kt:13-32 | returns the destination's distance, its shortest distance from `start` (`Int.MAX_VALUE` when unreachable); every node ends with its shortest distance, the start with 0, and is marked exactly when reached |
| Dijkstra.Iterate | src/main/java/dijkstra/Dijkstra.kt:17-30 | one pass: the polled entry is minimal; a stale entry changes nothing but the queue; for a current one, `Settled` holds: exactly its node becomes marked, distances only fall and marked ones stay, every changed distance comes from an edge of that node, and every new queue entry is an unmarked node that such an edge brought below its old distance, at most one entry per edge; the invariant holds again and the total distance falls or the queue shrinks |
| Dijkstra.Visit | src/main/java/dijkstra/Dijkstra.kt:20-29 | for a node popped with its current distance: `Settled` (exactly `cur` becomes marked; every changed distance comes from an edge of `cur`; every new queue entry is an unmarked node that an edge of `cur` strictly improved, at most one per edge) and the solver invariant holds again |
| Dijkstra.RelaxEdges | src/main/java/dijkstra/Dijkstra.kt:20-28 | afterwards every edge of `cur` into an unmarked node is relaxed; a distance changes only by falling to `cur`'s distance plus the weight of an edge of `cur` into that node, only for unmarked nodes, and the node is queued with it; every added queue entry is an unmarked target that such an edge brought strictly below its old distance, paired with that sum, and there are at most as many added entries as edges; nothing changes when no edge needed relaxing |
| Dijkstra.RelaxEdge | src/main/java/dijkstra/Dijkstra.kt:21-27 | the exact new state after one pass of the inner loop (`RelaxedOne`): if the target is unmarked and its distance exceeds `cur`'s distance plus the weight (a Kotlin `Int` sum), the target's distance becomes that sum, nothing else changes, and the queue gains exactly that entry; otherwise distances and queue are unchanged |
| Dijkstra.RelaxNext | src/main/java/dijkstra/Dijkstra.kt:20-27 | one iteration of the `for` loop keeps the relaxation invariant one edge further |
| Dijkstra.RelaxStep | src/main/java/dijkstra/Dijkstra.kt:21-27 | any state `RelaxedOne` allows after edge `j` satisfies the relaxation invariant for the first `j + 1` edges |
| Dijkstra.RelaxStart | src/main/java/dijkstra/Dijkstra.kt:20 | before the first edge the relaxation invariant holds with nothing changed |
| Dijkstra.RelaxLower | src/main/java/dijkstra/Dijkstra.kt:23-25 | setting an improvable unmarked target to the candidate sum and queueing it keeps the relaxation invariant one edge further |
| Dijkstra.FromEdgesLower | src/main/java/dijkstra/Dijkstra.kt:23-25 | the lowered distance and the queued entry come from edge `j` of `cur` |
| Dijkstra.ChangedByLower | src/main/java/dijkstra/Dijkstra.kt:23-24 | lowering edge `j`'s target to `cur`'s distance plus its weight keeps every changed distance explained by an edge of `cur` |
| Dijkstra.QueuedByLower | src/main/java/dijkstra/Dijkstra.kt:23-25 | queueing edge `j`'s unmarked target with a sum below its old distance keeps the added entries explained by edges of `cur`, at most one per edge |
| Dijkstra.AddedByLower | src/main/java/dijkstra/Dijkstra.kt:22-25 | adding the entry of an unmarked target that edge `j` strictly improves keeps every added entry an improvement from one of the first `j + 1` edges, and their number at most `j + 1` |
| Dijkstra.FromEdgesSkip | src/main/java/dijkstra/Dijkstra.kt:22-23 | an edge left alone adds no change |
| Dijkstra.RelaxSkip | src/main/java/dijkstra/Dijkstra.kt:22-23 | an edge into a marked node, or one that does not improve its target, needs no change |
| Dijkstra.RelaxingSettles | src/main/java/dijkstra/Dijkstra.kt:20-29 | relaxing all of `cur`'s edges and then marking `cur` changes exactly what `Settled` allows: only `cur` becomes marked, distances only fall, marked ones stay, every changed distance comes from an edge of `cur`, every new queue entry is a strict improvement of an unmarked target |
| Dijkstra.SumsFit | src/main/java/dijkstra/Dijkstra.kt:23 | with weights at most `bound` and `n * bound < Int.MAX_VALUE`, `cur.distance + weight` never exceeds `Int.MAX_VALUE` |
| Dijkstra.InitialState | src/main/java/dijkstra/Dijkstra.kt:14-16 | `start.distance.set(0)` and the queue `{(start, 0)}` on fresh nodes satisfy the loop invariant |
| Dijkstra.SkipStale | src/main/java/dijkstra/Dijkstra.kt:19 | discarding a stale entry keeps the loop invariant |
| Dijkstra.PoppedIsClosest | src/main/java/dijkstra/Dijkstra.kt:18-19 | a polled current entry's node is no further than any unmarked node |
| Dijkstra.SettleMarkedNode | src/main/java/dijkstra/Dijkstra.kt:20-29 | popping an already marked node with its current distance changes neither distances nor the queue |
| Dijkstra.Settle | src/main/java/dijkstra/Dijkstra.kt:20-29 | marking the polled node after relaxing its edges keeps the invariant, and the total distance falls or the queue shrinks |
| Dijkstra.Progress | src/main/java/dijkstra/Dijkstra.kt:17 | each pass lowers the sum of distances or shrinks the queue, so the loop terminates |
| Dijkstra.Finish | src/main/java/dijkstra/Dijkstra.kt:31 | when the queue is empty every distance is the shortest one, and exactly the finite ones are marked |
| Dijkstra.ClosedLowerBound | src/main/java/dijkstra/Dijkstra.kt:17-30 | when no edge can improve its target, a walk from a reached node ends at a reached node no further than the walk's weight |
| Dijkstra.ShortestDistanceUnique | src/test/java/dijkstra/ConcurrentStressTest.kt:71-78 | the shortest distance of a query is unique, so any two correct runs agree |
| Dijkstra.UnreachableIffMax | src/main/java/dijkstra/Dijkstra.kt:12 | the answer is `Int.MAX_VALUE` exactly when no path leads from start to destination |
| Dijkstra.DistanceToSelfIsZero | src/main/java/dijkstra/Dijkstra.kt:14 | with non-negative weights the shortest distance from a node to itself is 0 |
| Dijkstra.QueryAfterClear | src/test/java/dijkstra/ConcurrentStressTest.kt:71-78 | a query, `clearNodes` on all nodes, and the same query again give the same shortest distance; the nodes end cleared |
| Dijkstra.ConnectedAllReached | src/main/java/dijkstra/Dijkstra.kt:12 | on a connected graph no query answers `Int.MAX_VALUE` |
| Dijkstra.UnitWeightIsLength | src/main/java/dijkstra/Graph.kt:63 | with every weight 1 a walk weighs its number of edges |
| Dijkstra.AdjacentUnitDistance | src/main/java/dijkstra/Graph.kt:59-68 | with every weight 1, two distinct adjacent nodes (any pair of a complete graph) are at shortest distance 1 |
| GraphGenerators.TotalEdgesAppend | src/main/java/dijkstra/Graph.kt:15-17 | one `addEdge` adds exactly one edge to the graph's edge count |
| GraphGenerators.LinkBothWays | src/main/java/dijkstra/Graph.kt:47-48 | appends `Edge(v, w)` to `u`'s list and `Edge(u, w)` to `v`'s, nothing else; the graph stays well formed, gains two edges, and exactly that pair becomes newly adjacent |
| GraphGenerators.AddPair | src/main/java/dijkstra/Graph.kt:47-48 | linking two distinct non-adjacent nodes both ways keeps the graph simple, symmetric and weight-bounded, adds two edges, and makes exactly that pair newly adjacent |
| GraphGenerators.SomeEdgeNeedsWeight | src/main/java/dijkstra/Graph.kt:33 | a graph with an edge needs `maxWeight > 0`: `nextInt(maxWeight)` must have succeeded |
| GraphGenerators.ChainConnected | src/main/java/dijkstra/Graph.kt:27-38 | a chain through every node, each linked both ways to the next, connects the graph |
| GraphGenerators.CompleteConnected | src/main/java/dijkstra/Graph.kt:59-68 | a graph whose distinct nodes are all adjacent is connected |
| GraphGenerators.RemoveAt | src/main/java/dijkstra/Graph.kt:31 | `s.removeAt(k)` on a list of distinct nodes: one shorter, still distinct, and exactly the node at `k` is gone |
| GraphGenerators.RandomConnectedGraph | src/main/java/dijkstra/Graph.kt:22-53 | IllegalArgument when `edges < nodes - 1` or `nodes <= 0`; with 2+ nodes and `maxWeight <= 0`, an error, and IllegalArgument once two draws are available; no other IllegalArgument and never IndexOutOfBounds; a tree (`edges == nodes - 1`) with `2 * nodes - 1` draws always succeeds; every returned graph is fresh nodes forming a simple symmetric connected graph with exactly `edges` undirected edges and weights in `[0, maxWeight)` |
| GraphGenerators.LinkSpanningPath | src/main/java/dijkstra/Graph.kt:27-38 | the spanning phase visits every node exactly once (`order` has one entry per node, all distinct) and links consecutive ones both ways: `nodes - 1` edge pairs along that chain; it succeeds given `2 * nodes - 1` draws (and `maxWeight > 0` when there are 2+ nodes), fails with IllegalArgument when `maxWeight <= 0` and two draws are available, and reports OutOfDraws only when the draws are exhausted |
| GraphGenerators.LinkNext | src/main/java/dijkstra/Graph.kt:31-37 | one pass of the `while` loop consumes two draws, appends the drawn node to `order` as the new `cur`, only appends to edge lists, and keeps the phase's invariant (chain linked, `order` distinct); it succeeds given two draws and `maxWeight > 0`; OutOfDraws only when the draws are exhausted |
| GraphGenerators.NeighborUnvisited | src/main/java/dijkstra/Graph.kt:31-32 | every node drawn from `s` is unvisited and not adjacent to `cur`, so `visited.add` always succeeds |
| GraphGenerators.SpanStep | src/main/java/dijkstra/Graph.kt:31-37 | linking `cur` to the drawn node extends the chain by one node and keeps the phase's invariant |
| GraphGenerators.AddExtraEdges | src/main/java/dijkstra/Graph.kt:40-51 | `repeat(count)` adds exactly `count` edge pairs and keeps the graph simple, symmetric and linked along the chain; existing edge lists are only appended to; `count == 0` always succeeds; OutOfDraws only when the draws are exhausted |
| GraphGenerators.AddRandomEdge | src/main/java/dijkstra/Graph.kt:41-50 | the retry loop appends `Edge(second, weight)` to `first`'s list and `Edge(first, weight)` to `second`'s, for two distinct, previously non-adjacent nodes, and changes nothing else; on an error the graph is unchanged, and OutOfDraws comes only when the draws are exhausted |
| GraphGenerators.CompleteGraph | src/main/java/dijkstra/Graph.kt:55-70 | IllegalArgument for `nodes < 0`, IndexOutOfBounds for `nodes == 0`, IllegalArgument for 2+ nodes with `maxWeight <= 0`; otherwise, given one node, or `maxWeight > 0` and enough draws, fresh nodes where distinct nodes are adjacent exactly once each way, with no self-loops, `n(n-1)` directed edges and connectivity |
| GraphGenerators.LinkToLower | src/main/java/dijkstra/Graph.kt:62-66 | the inner `for` loop links `cur` to every lower node both ways, consuming one draw per node; existing edge lists are only appended to; IllegalArgument when `maxWeight <= 0` and `cur > 0`; success given `cur` draws and `maxWeight > 0`; OutOfDraws only when the draws are exhausted |
| GraphGenerators.PairsAboveClosedForm | src/main/java/dijkstra/Graph.kt:59-68 | the pairs the outer loop links add up to `n(n-1)/2` |

## Left out

- `shortestPathParallel` (`Dijkstra.kt:37-132`) is not modelled: threads, the `Phaser`, locks, condition variables and the atomic worker counter are concurrency, outside a sequential model.
- The `AtomicInteger` around `distance` is a plain integer here. The sequential solver only uses `get` and `set`.
- `java.util.Random` is not modelled as a generator of numbers. Every `nextInt(k)` takes the next caller-supplied draw modulo `k`, so every possible choice sequence is covered.
- The model's `OutOfDraws` error has no counterpart in Kotlin. It only arises when the supplied draws are exhausted.
- AddRandomEdge: the Kotlin retry loop never ends when no pair of distinct non-adjacent nodes is left. Examples are `edges > nodes * (nodes - 1) / 2`, or a single node with extra edges requested. In the model the finite draws run out instead, and the method returns `OutOfDraws`.
- RandomConnectedGraph: success is promised only for trees (`edges == nodes - 1`) given enough draws. With extra edges the retry loop may redraw an existing pair for ever, so no finite number of draws guarantees success. Non-termination for impossible edge counts is not stated either. The contract promises the structure of every returned graph and the argument errors. The model's random source is local to the generator, so the contract cannot say that OutOfDraws means the draws are exhausted; `LinkSpanningPath`, `AddExtraEdges` and `AddRandomEdge` each state it.
- ShortestPathSequential: requires fresh or cleared nodes, as every caller in the repository provides. It also requires weights in `[0, bound]` with `nodes * bound < Int.MAX_VALUE`. Outside these bounds the Kotlin `Int` sum could wrap around. The wrap is modelled by `Jvm.Add`, but no result is claimed when it happens. Negative weights are likewise outside the contract.
- RelaxEdges: the aggregate postcondition bounds the number of new queue entries by the number of edges and says what each is, but does not fix the multiplicity of each entry (two parallel edges could in principle both be credited with one entry). The exact effect of each edge is stated one step at a time by `RelaxEdge`.
- Visit: `Settled` carries the same aggregate edge accounting, so it bounds but does not fix the multiplicity of each new queue entry; with two parallel edges into one node it can admit both sums queued where Kotlin, relaxing the lighter edge first, queues only one.
- Iterate: for a current entry it ensures `Settled` as `Visit` does, with the same multiplicity gap.
- Poll: which of several entries with equal distance the heap returns is left open. The binary-heap layout of `PriorityQueue` is not modelled.
- Node objects are indices into one node list. Sharing nodes between several lists, and object identity, are not modelled.
- The read-only `outgoingEdges` view and the private `_outgoingEdges` list are the same sequence `adj[v]`.
- The default argument `maxWeight = 100` is not modelled: callers pass `maxWeight` explicitly.
- The stress test's random query selection, timing and printing are not modelled. `QueryAfterClear` runs the sequential solver twice where the test runs the sequential and then the parallel solver.
