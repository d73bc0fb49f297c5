# Graph algorithms of algorithm-visualizer, modelled in Dafny

The model covers the graph module of the visualizer (`src/algorithm/graph/`).

A `Graph` is a vector of adjacency lists, one per node. Nodes are the dense
indices `0 .. N-1`. Each list holds `Edge { node, weight }` entries in the
order `add_edge` appended them. Four searches read such a graph:

- breadth-first search: the number of edges to a goal, or a path with as
  few edges as possible;
- depth-first search: some path to a goal;
- Dijkstra's algorithm with a lazy-deletion binary heap of `NodeCost`
  entries: the least weight to a goal, or a path of that weight;
- Floyd–Warshall: a matrix of all-pairs distances.

The Dafny modules are grouped by source file, with shared modules for what
several searches use:

- `Graphs` (`graph.dfy`): `Edge`, and the `Graph` class, whose `adjacencies`
  field is a sequence that `AddEdge` reassigns. A proof-only log of
  insertions records where each edge came from.
- `Bfs`, `Dfs` and `Dijkstra`: each search is a method with the source's
  `while let` loop, its inner `for` loop over the edges of the popped node,
  and its back-walk loop. They work on the working vectors `visited`,
  `costs` and `previous`. The loop invariants are named predicates, and one
  lemma proves each step of the loop preserves them.
- `NodeCosts`: the heap entry and its `Ord`/`PartialOrd`. The heap is a
  multiset with extract-min.
- `FloydWarshall`: the matrix code as written. Each loop is a method proved
  equal to a function (`Initial`, `Cells`, `Rows`, `Passes`).
  `FloydWarshallExamples` (same file) works it through on small graphs.
- `CanonicalFloydWarshall`: the corrected algorithm, proved to compute least
  path weights (see Findings).
- `Paths`: what every search is proved against. It defines paths,
  reachability, hop distance and path weight; the weight of a step is that
  of the lightest parallel edge making it.
- `Estimates`: a distance that may be infinite; `Backtrack`: the shared
  back-walk loop.
- `DijkstraScenario`: the five-node graph of the Dijkstra tests, built with
  `Graph` and `AddEdge`. The tests' expected answers are proved from the
  contracts of the two Dijkstra queries.

Every search takes the adjacency lists as a value, since it only borrows the
graph. It requires `start < N` and that every edge target is below `N`
(`WellFormed`). The source indexes its vectors with both; `add_edge` never
checks its `end`. The goal need not be a node.

## Model

| member | source | states |
|---|---|---|
| Graphs.Graph.constructor | src/algorithm/graph/mod.rs:18-22 | `new(n)` has exactly `n` adjacency lists, all empty, and an empty insertion log |
| Graphs.Graph.AddEdge | src/algorithm/graph/mod.rs:24-27 | appends exactly `Edge(end, weight)` to the list of `start`; every other list and the number of lists stay unchanged; each list remains the edges inserted from its node, in insertion order |
| Graphs.EdgesFromSnoc | src/algorithm/graph/mod.rs:24-27 | one more insertion adds one edge at the end of its start node's list and changes no other list |
| Graphs.EdgesFromMember | src/algorithm/graph/mod.rs:24-27 | every edge of node `u` comes from an insertion that started at `u` |
| Paths.LoggedGraphWellFormed | src/algorithm/graph/mod.rs:24-26 | a graph whose insertions all name an `end` below `N` has every edge target below `N`, which the searches require |
| Paths.UnitWeightsAgree | src/algorithm/graph/bfs.rs:21 | when every weight is 1, least weight and least number of edges coincide, in both directions |
| Paths.HopDistanceUnique | src/algorithm/graph/bfs.rs:4-27 | the least number of edges is unique, so the BFS answer is determined |
| Paths.MinWeightUnique | src/algorithm/graph/dijkstra.rs:23-46 | the least path weight is unique, so the Dijkstra answer is determined |
| Paths.ShortestPathLength | src/algorithm/graph/bfs.rs:29-61 | a path returned by `shortest_path_to` has exactly `distance_to` edges |
| Paths.LightestPathWeight | src/algorithm/graph/dijkstra.rs:48-84 | a path returned by Dijkstra's `shortest_path_to` weighs exactly `distance_to` |
| Paths.ClosedSetBlocks | src/algorithm/graph/bfs.rs:12-26 | no node outside a set that no edge leaves is reachable from inside it |
| Paths.DistinctBelow | src/algorithm/graph/bfs.rs:17-21 | distinct nodes below `N` number at most `N`, which bounds how many nodes are ever enqueued |
| Backtrack.Reverse | src/algorithm/graph/bfs.rs:48 | the result has the same length and the input's elements in reverse order |
| Backtrack.WalkBack | src/algorithm/graph/bfs.rs:39-48 | when `previous` strictly lowers a rank along every link of the search tree, the back-walk ends; it returns a sequence from `start` to `goal` in which each node is preceded by its `previous` |
| Backtrack.RisingRanks | src/algorithm/graph/dfs.rs:13-22 | a walk whose rank rises at every step has no repeated node |
| Bfs.Initial | src/algorithm/graph/bfs.rs:9-10 | after marking and enqueuing `start`, the loop invariant `Frontier` holds |
| Bfs.UnvisitedAreFar | src/algorithm/graph/bfs.rs:12-21 | every path from `start` to an unvisited node has more edges than the cost of the node at the queue's front |
| Bfs.Discover | src/algorithm/graph/bfs.rs:18-22 | marking, enqueuing and costing an unvisited neighbour at the front's cost plus one keeps the expansion invariant |
| Bfs.Skip | src/algorithm/graph/bfs.rs:18 | an edge to a visited node changes nothing and keeps the invariant |
| Bfs.FinishExpanding | src/algorithm/graph/bfs.rs:17-23 | after all edges of the popped node, the loop invariant holds again with that node expanded |
| Bfs.Exhausted | src/algorithm/graph/bfs.rs:12-26 | when the queue empties without popping the goal, the goal is unreachable |
| Bfs.EnqueuedReachable | src/algorithm/graph/bfs.rs:17-21 | every node ever enqueued is reachable from `start` |
| Bfs.Expand | src/algorithm/graph/bfs.rs:17-23 | the inner loop keeps the invariant; the queue is still exactly the enqueued nodes not yet popped |
| Bfs.DistanceTo | src/algorithm/graph/bfs.rs:4-27 | `None` exactly when the goal is unreachable; `Some(d)` gives the least number of edges on a path; `Some(0)` when `start == goal` |
| Bfs.DiscoverLinked | src/algorithm/graph/bfs.rs:51-56 | setting `previous[v]` to the popped node at v's discovery keeps every link one edge back and one step nearer `start` |
| Bfs.LinkedPath | src/algorithm/graph/bfs.rs:42-48 | following links from `start` gives a path whose length is the recorded cost |
| Bfs.LinkedTree | src/algorithm/graph/bfs.rs:42-45 | the links of visited nodes lead to visited nodes with a smaller cost, so the back-walk ends |
| Bfs.FoundShortest | src/algorithm/graph/bfs.rs:38-48 | the rebuilt path is a shortest path from `start` to `goal` without repeats, and `[start]` when `start == goal` |
| Bfs.ExpandLinked | src/algorithm/graph/bfs.rs:51-57 | the inner loop of `shortest_path_to` keeps both the search invariant and the links invariant |
| Bfs.ShortestPathTo | src/algorithm/graph/bfs.rs:29-61 | `None` exactly when the goal is unreachable; `Some(p)` is a path from `start` to `goal` with as few edges as possible and no repeats; `Some([start])` when `start == goal` |
| Dfs.Initial | src/algorithm/graph/dfs.rs:8-9 | after marking and pushing `start`, the loop invariant `Searching` holds |
| Dfs.Pop | src/algorithm/graph/dfs.rs:11-12 | popping the top of the stack, when it is not the goal, starts its expansion |
| Dfs.Discover | src/algorithm/graph/dfs.rs:26-30 | marking, pushing and linking an unvisited neighbour keeps the invariant: it is pushed at most once, its `previous` is visited, has an edge to it and was discovered earlier |
| Dfs.Skip | src/algorithm/graph/dfs.rs:26 | an edge to a visited node changes nothing |
| Dfs.FinishExpanding | src/algorithm/graph/dfs.rs:25-31 | after all edges of the popped node, the loop invariant holds with the node popped |
| Dfs.Exhausted | src/algorithm/graph/dfs.rs:11-34 | an empty stack without the goal popped means the goal is unreachable |
| Dfs.LinkedTree | src/algorithm/graph/dfs.rs:16-19 | links lead to earlier-discovered visited nodes, so the back-walk ends |
| Dfs.FoundPath | src/algorithm/graph/dfs.rs:12-22 | the rebuilt sequence is a path from `start` to `goal` with no repeats, hence at most `N` nodes |
| Dfs.Expand | src/algorithm/graph/dfs.rs:25-31 | the inner loop keeps the invariant and leaves the node popped |
| Dfs.PathTo | src/algorithm/graph/dfs.rs:3-35 | `None` exactly when the goal is unreachable; `Some(p)` is a path from `start` to `goal` without repeats and of at most `N` nodes; `Some([start])` when `start == goal` |
| NodeCosts.CmpNat | src/algorithm/graph/dijkstra.rs:13 | `usize::cmp`: `Less`, `Equal`, `Greater` exactly when `<`, `==`, `>` |
| NodeCosts.Cmp | src/algorithm/graph/dijkstra.rs:11-15 | `Less` exactly when the cost is smaller, or equal with a smaller node; `Equal` exactly when the entries are equal |
| NodeCosts.PartialCmp | src/algorithm/graph/dijkstra.rs:17-21 | always `Some`, and agrees with `cmp` |
| NodeCosts.CmpFlip | src/algorithm/graph/dijkstra.rs:11-15 | comparing the other way round flips the answer |
| NodeCosts.CmpTransitive | src/algorithm/graph/dijkstra.rs:11-15 | `cmp` is transitive, and strictly so when either step is strict; with `CmpFlip` a total order |
| NodeCosts.MinExists | src/algorithm/graph/dijkstra.rs:25 | every non-empty heap has a least entry under the order |
| NodeCosts.MinUnique | src/algorithm/graph/dijkstra.rs:30 | the least entry is unique, so what a pop returns is determined |
| NodeCosts.Pop | src/algorithm/graph/dijkstra.rs:30 | popping a `BinaryHeap<Reverse<NodeCost>>` removes one copy of the least entry |
| Dijkstra.ImproveProgress | src/algorithm/graph/dijkstra.rs:38-41 | each lowering of a cost decreases a well-founded measure, so the loop ends |
| Dijkstra.Initial | src/algorithm/graph/dijkstra.rs:27-28 | after pushing `(start, 0)` and setting `costs[start] = 0`, the loop invariant holds |
| Dijkstra.FrontierBound | src/algorithm/graph/dijkstra.rs:30-43 | with non-negative weights, every path to an unsettled node weighs at least the least cost in the heap |
| Dijkstra.FoundGoal | src/algorithm/graph/dijkstra.rs:30-31 | the first pop of the goal, before the staleness test, carries the least path weight, equal to `costs[goal]`, and 0 when `start == goal` |
| Dijkstra.Stale | src/algorithm/graph/dijkstra.rs:33 | dropping an entry dearer than its node's cost keeps the invariant |
| Dijkstra.Settle | src/algorithm/graph/dijkstra.rs:33-35 | a popped entry at its node's current cost settles that node: no path to it is lighter |
| Dijkstra.Improve | src/algorithm/graph/dijkstra.rs:36-41 | lowering `costs[v]` to a strictly smaller `cost + weight` and pushing it keeps the invariant: the cost only drops and a path to `v` weighs no more than it |
| Dijkstra.Keep | src/algorithm/graph/dijkstra.rs:38 | an edge that does not improve its target changes nothing |
| Dijkstra.FinishRelaxing | src/algorithm/graph/dijkstra.rs:35-42 | after all edges of the settled node, the loop invariant holds again |
| Dijkstra.Exhausted | src/algorithm/graph/dijkstra.rs:30-45 | an empty heap without the goal popped means the goal is unreachable |
| Dijkstra.Expand | src/algorithm/graph/dijkstra.rs:35-42 | the inner loop keeps the invariant, raises no cost, and either lowers some cost or changes nothing |
| Dijkstra.DistanceTo | src/algorithm/graph/dijkstra.rs:23-46 | `None` exactly when the goal is unreachable; `Some(d)` gives the least weight of a path from `start` to `goal`; `Some(0)` when `start == goal` |
| Dijkstra.ImproveLinked | src/algorithm/graph/dijkstra.rs:75-79 | setting `previous[v]` together with the lowered cost keeps every link on an edge and towards an earlier-settled node |
| Dijkstra.LinkedWeight | src/algorithm/graph/dijkstra.rs:60-65 | following links from `start` gives a path weighing no more than its end's cost |
| Dijkstra.LinkedTree | src/algorithm/graph/dijkstra.rs:60-64 | links lead through settled nodes with strictly lower rank, so the back-walk ends |
| Dijkstra.FoundLightest | src/algorithm/graph/dijkstra.rs:56-68 | the rebuilt path is a lightest path to the goal, weighs the popped cost, has no repeats, and is `[start]` when `start == goal` |
| Dijkstra.ExpandLinked | src/algorithm/graph/dijkstra.rs:72-80 | the inner loop of `shortest_path_to` keeps both the search invariant and the links invariant, and raises no cost |
| Dijkstra.ShortestPathTo | src/algorithm/graph/dijkstra.rs:48-84 | `None` exactly when the goal is unreachable; `Some(p)` is a lightest path from `start` to `goal` with no repeats; `Some([start])` when `start == goal` |
| Estimates.Plus | src/algorithm/graph/floyd_warshall.rs:19 | the sum is finite exactly when both operands are, and then it is their sum |
| Estimates.AtMostTotal | src/algorithm/graph/floyd_warshall.rs:19 | the order on distances with infinity is a total order |
| FloydWarshall.LastWeight | src/algorithm/graph/floyd_warshall.rs:11-13 | `Some` exactly when some edge leads to `v`, and then the weight of an edge to `v` with no later edge to `v` |
| FloydWarshall.Initial | src/algorithm/graph/floyd_warshall.rs:4-14 | an N by N matrix |
| FloydWarshall.InitialEntries | src/algorithm/graph/floyd_warshall.rs:4-14 | before relaxation an entry holds the weight of the last-inserted edge between its nodes, which a self-loop puts on the diagonal; failing that, 0 on the diagonal and infinity elsewhere |
| FloydWarshall.Step | src/algorithm/graph/floyd_warshall.rs:19-21 | one comparison changes at most `d[i][j]` and never raises it; it sets it to `d[i][k] + d[j][k]` whenever that sum is strictly smaller, and to nothing else |
| FloydWarshall.Cells | src/algorithm/graph/floyd_warshall.rs:18-22 | a prefix of one row stays N by N and raises no entry |
| FloydWarshall.Rows | src/algorithm/graph/floyd_warshall.rs:17-23 | a prefix of one pass stays N by N and raises no entry |
| FloydWarshall.Passes | src/algorithm/graph/floyd_warshall.rs:16-24 | the passes stay N by N and never raise an entry |
| FloydWarshall.RowIdle | src/algorithm/graph/floyd_warshall.rs:18-22 | a row in which no sum undercuts its entry is left unchanged |
| FloydWarshall.CellsKeepOtherRows | src/algorithm/graph/floyd_warshall.rs:18-22 | the comparisons for row `i` leave every other row unchanged |
| FloydWarshall.DiagonalStaysZero | src/algorithm/graph/floyd_warshall.rs:6-8 | a diagonal entry that is 0 before relaxation is 0 in the result |
| FloydWarshall.WriteEdges | src/algorithm/graph/floyd_warshall.rs:11-13 | writing the edges of `v` in order leaves each entry of row `v` at the last written weight |
| FloydWarshall.RelaxRow | src/algorithm/graph/floyd_warshall.rs:18-22 | the `j` loop computes `Cells` for the whole row |
| FloydWarshall.RelaxPass | src/algorithm/graph/floyd_warshall.rs:17-23 | the `i` loop computes `Rows` for the whole pass |
| FloydWarshall.InitialMatrix | src/algorithm/graph/floyd_warshall.rs:4-14 | the two initialisation loops compute `Initial` |
| FloydWarshall.AllPairsDistances | src/algorithm/graph/floyd_warshall.rs:3-27 | the result is N by N and equals all `N` passes over the initial matrix, in row-major order and in place |
| FloydWarshallExamples.TwoNodePasses | src/algorithm/graph/floyd_warshall.rs:16-24 | in a two-node matrix of finite entries, 0 on the diagonal and `a < b` from 0 to 1 and from 1 to 0, the passes keep `a` from 0 to 1 and lower the entry from 1 to 0 to `a` |
| FloydWarshallExamples.TransposedSum | src/algorithm/graph/floyd_warshall.rs:19-20 | with edges `0 -> 1` of weight 1 and `1 -> 0` of weight 5, the result says 1 from node 1 to node 0, though the lightest path from 1 to 0 weighs 5; no entry is ever the sentinel |
| FloydWarshallExamples.SentinelSumOverflows | src/algorithm/graph/floyd_warshall.rs:19 | when neither node 0 nor node 1 has an edge to node 0, the comparison for pair (1, 1) in the first pass adds `usize::MAX` to itself |
| FloydWarshallExamples.LastEdgeWins | src/algorithm/graph/floyd_warshall.rs:10-14 | with parallel edges `0 -> 1` of weights 1 then 5 and an edge `1 -> 0` of weight 7, the result says 5 from 0 to 1 though the lightest path weighs 1; no entry is ever the sentinel |
| FloydWarshallExamples.SelfLoopReplacesZero | src/algorithm/graph/floyd_warshall.rs:6-13 | with one node and a self-loop of weight 5, the result says 5 from the node to itself, though the path of no edges weighs 0 |
| CanonicalFloydWarshall.CutWeight | src/algorithm/graph/floyd_warshall.rs:19-20 | cutting a path at a node splits its weight between the two parts |
| CanonicalFloydWarshall.ShortcutTo | src/algorithm/graph/floyd_warshall.rs:16-24 | a path to `k` through nodes up to `k` has a no heavier one through nodes below `k` |
| CanonicalFloydWarshall.ShortcutFrom | src/algorithm/graph/floyd_warshall.rs:16-24 | a path from `k` through nodes up to `k` has a no heavier one through nodes below `k` |
| CanonicalFloydWarshall.SplitAt | src/algorithm/graph/floyd_warshall.rs:16-24 | a path through `k` splits into a path to `k` and a path from `k`, both through nodes below `k` and no heavier together |
| CanonicalFloydWarshall.StepWitnessed | src/algorithm/graph/floyd_warshall.rs:19-20 | a corrected update keeps every finite entry backed by a path through nodes up to `k` |
| CanonicalFloydWarshall.StepDone | src/algorithm/graph/floyd_warshall.rs:19-20 | after the corrected update, every path from `i` to `j` through nodes up to `k` weighs at least the entry |
| CanonicalFloydWarshall.RelaxStep | src/algorithm/graph/floyd_warshall.rs:18-22 | the corrected comparison `d[i][k] + d[k][j]` keeps the pass invariant and advances it by one pair |
| CanonicalFloydWarshall.InitialLevel | src/algorithm/graph/floyd_warshall.rs:4-14 | the matrix of lightest direct edges, with 0 on the diagonal, is exact for paths with no inner node |
| CanonicalFloydWarshall.Conclude | src/algorithm/graph/floyd_warshall.rs:16-26 | after all passes, each entry is the least path weight, and finite exactly when a path exists |
| CanonicalFloydWarshall.LightestEdges | src/algorithm/graph/floyd_warshall.rs:11-13 | the corrected edge loop keeps the lightest weight written for each pair |
| CanonicalFloydWarshall.LightestInitial | src/algorithm/graph/floyd_warshall.rs:4-14 | the corrected initial matrix is exact for paths with no inner node |
| CanonicalFloydWarshall.RelaxRow | src/algorithm/graph/floyd_warshall.rs:18-22 | the corrected `j` loop completes the row with the pass invariant intact |
| CanonicalFloydWarshall.RelaxPass | src/algorithm/graph/floyd_warshall.rs:17-23 | a corrected pass through `k` makes the matrix exact for paths through nodes up to `k` |
| CanonicalFloydWarshall.AllPairsDistances | src/algorithm/graph/floyd_warshall.rs:3-27 | the corrected algorithm: each entry is finite exactly when a path exists, and is then the least path weight |
| DijkstraScenario.PotentialBound | src/algorithm/graph/dijkstra.rs:105-119 | along any path a feasible potential rises by at most the path's weight, and by exactly that only when every step is tight |
| DijkstraScenario.TightPathIsTreePath | src/algorithm/graph/dijkstra.rs:124-138 | a tight path from the root is the tree path to its end |
| DijkstraScenario.LightestByPotential | src/algorithm/graph/dijkstra.rs:105-138 | with a feasible potential and a tight tree, the potential is the least weight and the tree path is the only lightest path |
| DijkstraScenario.FromNodeZero | src/algorithm/graph/dijkstra.rs:115-118 | on the test graph the least weights from 0 are 1, 3 and 5 to nodes 1, 3 and 4, and the paths `[0,1]`, `[0,1,3]`, `[0,1,3,4]` are the only lightest ones |
| DijkstraScenario.FromNodeThree | src/algorithm/graph/dijkstra.rs:117 | the least weight from 3 to 0 is 7, and `[3,0]` is the only lightest path |
| DijkstraScenario.NothingFromNodeFour | src/algorithm/graph/dijkstra.rs:119 | node 0 is unreachable from node 4 |
| DijkstraScenario.BuildTestGraph | src/algorithm/graph/dijkstra.rs:105-113 | the eight `add_edge` calls produce the test graph's adjacency lists |
| DijkstraScenario.CheckDistanceTo | src/algorithm/graph/dijkstra.rs:104-120 | `distance_to` on the test graph answers 1, 3, 7, 5 and `None` |
| DijkstraScenario.CheckShortestPathTo | src/algorithm/graph/dijkstra.rs:123-139 | `shortest_path_to` on the test graph answers `[0,1]`, `[0,1,3]`, `[3,0]`, `[0,1,3,4]` and `None` |

## Left out

- `bellman_ford.rs` is declared at `mod.rs:5`, but it is not part of this model.
- `usize` arithmetic: distances and weights are unbounded naturals, and "no path yet" (`usize::MAX`) is a separate infinite value that absorbs additions. The model does not reproduce the overflow of `cost + edge.weight` in Dijkstra with huge weights. For the overflow of the Floyd–Warshall sum, see Findings.
- The `VecDeque` and `BinaryHeap` internals. The BFS queue and the DFS stack are sequences. The heap is a multiset from which a pop removes a least entry.
- Out-of-range index panics become preconditions: `start < N` for `add_edge` and for every search, and every edge target below `N` (`WellFormed`). A goal of `N` or more is allowed, as in the source; it is never popped, so the answer is `None`.
- The working `Vec`s (`visited`, `costs`, `previous`, the distance matrix) are sequence values that the methods reassign one entry at a time. Nothing else aliases them, so nothing is lost.
- The `#[cfg(test)]` harness of `dijkstra.rs` is modelled as the methods `CheckDistanceTo` and `CheckShortestPathTo` on a graph built with `AddEdge`, not as test code.
- Dijkstra.Improve: every finite cost is proved to be at least the weight of some path to its node, not exactly equal. Path weight takes the lightest of parallel edges, while the source's cost adds the weight of the particular edge it relaxed.
- BFS on the Dijkstra test graph is not claimed to give the Dijkstra answers: it counts edges (0 to 3 is two edges, not weight 3). It gives the same answers only when all weights are 1 (`Paths.UnitWeightsAgree`).

## Findings

| source | as written | input that shows it | evidently intended | confidence | as-written member | corrected member |
|---|---|---|---|---|---|---|
| src/algorithm/graph/floyd_warshall.rs:19-20 | relaxes `d[i][j]` with `d[i][k] + d[j][k]` | two nodes, edges `0 -> 1` of weight 1 and `1 -> 0` of weight 5: the result gives distance 1 from node 1 to node 0, where the only way weighs 5; every entry stays finite, so no sum overflows | `d[i][k] + d[k][j]`, the weight through `k` | not executed | FloydWarshallExamples.TransposedSum | CanonicalFloydWarshall.AllPairsDistances |
| src/algorithm/graph/floyd_warshall.rs:10-14 | each edge overwrites its entry, so the last parallel edge wins and a self-loop replaces the diagonal 0 | edges `0 -> 1` of weight 1, `0 -> 1` of weight 5 and `1 -> 0` of weight 7: the result gives 5 from 0 to 1 where the lightest path weighs 1 (every entry stays finite); one node with a self-loop of weight 5 gives 5 on the diagonal | keep the lightest edge, and never raise an entry | not executed | FloydWarshallExamples.LastEdgeWins | CanonicalFloydWarshall.AllPairsDistances |
| src/algorithm/graph/floyd_warshall.rs:19 | adds two `usize` entries that may both be the `usize::MAX` sentinel | any graph of two or more nodes in which neither node 0 nor node 1 has an edge to node 0: pass 0 compares pair (1, 1) with `usize::MAX + usize::MAX` | treat the sentinel as infinity that absorbs additions | not executed | FloydWarshallExamples.SentinelSumOverflows | CanonicalFloydWarshall.AllPairsDistances |

`CanonicalFloydWarshall.AllPairsDistances` keeps the source's loop structure.
It makes three changes:

- it reads `d[k][j]`;
- it writes an edge only when it is lighter than the entry;
- its distances treat infinity as absorbing.

It is proved to return, for every pair, the least path weight, and infinity
exactly when no path exists.
