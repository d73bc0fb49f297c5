/**
 * Dijkstra's algorithm with lazy deletion. `costs` holds the best cost found
 * so far for every node; every improvement pushes a fresh entry on the heap
 * and leaves the old one in place, and a popped entry dearer than its
 * node's current cost is skipped. The goal test comes before that
 * staleness test, so the first entry of the goal to be popped answers the
 * query.
 *
 * The proof records, for the proof only, the set of `settled` nodes (popped
 * at their current cost and expanded) and for every node with a finite cost
 * a `route` that weighs no more than that cost.
 */
module Dijkstra {
  import opened Options
  import opened Graphs
  import opened Paths
  import opened Backtrack
  import opened NodeCosts
  import opened Estimates

  /** The number of infinite estimates. */
  ghost function Unreached(costs: seq<Estimate>): nat
  {
    if costs == [] then 0 else (if costs[0].Infinity? then 1 else 0) + Unreached(costs[1..])
  }

  /** The sum of the finite estimates. */
  ghost function Total(costs: seq<Estimate>): nat
  {
    if costs == [] then 0 else (if costs[0].Finite? then costs[0].value else 0) + Total(costs[1..])
  }

  /** `after` is smaller than `before` in the lexicographic order on (`Unreached`, `Total`). */
  ghost predicate Progress(before: seq<Estimate>, after: seq<Estimate>)
  {
    || Unreached(after) < Unreached(before)
    || (Unreached(after) == Unreached(before) && Total(after) < Total(before))
  }

  /** No estimate of `after` exceeds the same estimate of `before`: costs only ever drop. */
  ghost predicate Lowered(before: seq<Estimate>, after: seq<Estimate>)
  {
    |after| == |before| && forall v :: 0 <= v < |after| ==> AtMost(after[v], before[v])
  }

  /** Lowering one estimate of costs already lowered from `before` keeps them lowered from `before`. */
  lemma LowerOne(before: seq<Estimate>, costs: seq<Estimate>, i: nat, c: nat)
    requires Lowered(before, costs) && i < |costs| && LessThan(Finite(c), costs[i])
    ensures Lowered(before, costs[i := Finite(c)])
  {
  }

  /** Every improvement of an estimate makes progress, so the search cannot improve forever. */
  lemma {:induction false} ImproveProgress(costs: seq<Estimate>, i: nat, c: nat)
    requires i < |costs| && LessThan(Finite(c), costs[i])
    ensures Progress(costs, costs[i := Finite(c)])
    decreases i
  {
    var after := costs[i := Finite(c)];
    if i == 0 {
      assert after[1..] == costs[1..];
    } else {
      ImproveProgress(costs[1..], i - 1, c);
      assert after[1..] == costs[1..][i - 1 := Finite(c)];
    }
  }

  /**
   * `start` costs 0, and every node `v` with a finite estimate is the end of
   * the path `route[v]` from `start`, which weighs no more than the estimate.
   */
  ghost predicate Estimated(adj: seq<seq<Edge>>, start: nat, costs: seq<Estimate>, route: seq<seq<nat>>)
  {
    && start < |adj| == |costs| == |route|
    && costs[start] == Finite(0)
    && forall v :: 0 <= v < |adj| && costs[v].Finite? ==>
         PathFromTo(adj, route[v], start, v) && PathWeight(adj, route[v]) <= costs[v].value
  }

  /** No path to a settled node is lighter than its estimate. */
  ghost predicate SettledFinal(adj: seq<seq<Edge>>, start: nat, costs: seq<Estimate>, settled: set<nat>)
    requires |costs| == |adj|
  {
    forall v :: v in settled ==> v < |adj| && costs[v].Finite? && NoLighterPath(adj, start, v, costs[v].value)
  }

  /** The edge `e` out of `u` cannot improve the estimate of its target. */
  ghost predicate Relaxed(costs: seq<Estimate>, u: nat, e: Edge)
  {
    && u < |costs| && e.node < |costs|
    && costs[u].Finite? && costs[e.node].Finite?
    && costs[e.node].value <= costs[u].value + e.weight
  }

  /** Every edge out of a node of `nodes` is relaxed. */
  ghost predicate AllRelaxed(adj: seq<seq<Edge>>, costs: seq<Estimate>, nodes: set<nat>)
  {
    forall u, k :: u in nodes && u < |adj| && 0 <= k < |adj[u]| ==> Relaxed(costs, u, adj[u][k])
  }

  /**
   * Every unsettled node with a finite estimate has an entry at that cost in
   * the queue, and every entry costs at least its node's estimate.
   */
  ghost predicate Queued(adj: seq<seq<Edge>>, costs: seq<Estimate>, queue: multiset<NodeCost>, settled: set<nat>)
    requires |costs| == |adj|
  {
    && (forall v :: 0 <= v < |adj| && v !in settled && costs[v].Finite? ==> NodeCost(v, costs[v].value) in queue)
    && (forall x :: x in queue ==> x.node < |adj| && costs[x.node].Finite? && costs[x.node].value <= x.cost)
  }

  /** The search state at the head of the `while let` loop; the goal has not been settled. */
  ghost predicate Searching(adj: seq<seq<Edge>>, start: nat, goal: nat, costs: seq<Estimate>,
                            queue: multiset<NodeCost>, settled: set<nat>, route: seq<seq<nat>>)
  {
    && Estimated(adj, start, costs, route)
    && SettledFinal(adj, start, costs, settled)
    && AllRelaxed(adj, costs, settled)
    && Queued(adj, costs, queue, settled)
    && goal !in settled
  }

  /** Relaxing the edges of `node`, settled at `cost`: its first `done` edges are relaxed. */
  ghost predicate Relaxing(adj: seq<seq<Edge>>, start: nat, goal: nat, costs: seq<Estimate>,
                           queue: multiset<NodeCost>, settled: set<nat>, route: seq<seq<nat>>,
                           node: nat, cost: nat, done: nat)
  {
    && Estimated(adj, start, costs, route)
    && SettledFinal(adj, start, costs, settled)
    && AllRelaxed(adj, costs, settled - {node})
    && Queued(adj, costs, queue, settled)
    && goal !in settled
    && node in settled && node < |adj| && costs[node] == Finite(cost)
    && done <= |adj[node]|
    && forall k :: 0 <= k < done ==> Relaxed(costs, node, adj[node][k])
  }

  /** The state right after `(start, 0)` is pushed and `costs[start]` set to 0. */
  lemma Initial(adj: seq<seq<Edge>>, start: nat, goal: nat, costs: seq<Estimate>, route: seq<seq<nat>>)
    requires start < |adj| == |costs| == |route|
    requires forall v :: 0 <= v < |adj| ==> costs[v] == if v == start then Finite(0) else Infinity
    requires route[start] == [start]
    ensures Searching(adj, start, goal, costs, multiset{NodeCost(start, 0)}, {}, route)
  {
  }

  /**
   * With non-negative weights, a path from `start` to a node that is not
   * settled weighs at least the cost of every entry at most as dear as all
   * the queue: it leaves the settled nodes along a relaxed edge, to a node
   * whose entry is in the queue.
   */
  lemma {:induction false} FrontierBound(adj: seq<seq<Edge>>, start: nat, costs: seq<Estimate>,
                                         queue: multiset<NodeCost>, settled: set<nat>, m: nat, p: seq<nat>, t: nat)
    requires start < |adj| == |costs| && costs[start] == Finite(0)
    requires SettledFinal(adj, start, costs, settled)
    requires AllRelaxed(adj, costs, settled)
    requires Queued(adj, costs, queue, settled)
    requires forall x :: x in queue ==> m <= x.cost
    requires PathFromTo(adj, p, start, t) && t !in settled
    ensures PathWeight(adj, p) >= m
    decreases |p|
  {
    if |p| == 1 {
      assert NodeCost(start, 0) in queue;
    } else {
      var q := p[..|p| - 1];
      var u := q[|q| - 1];
      assert IsPath(adj, q);
      assert PathWeight(adj, p) == PathWeight(adj, q) + MinWeight(adj[u], t);
      if u !in settled {
        FrontierBound(adj, start, costs, queue, settled, m, q, u);
      } else {
        assert HasEdge(adj, u, t);
        var k :| 0 <= k < |adj[u]| && adj[u][k].node == t && adj[u][k].weight == MinWeight(adj[u], t);
        assert Relaxed(costs, u, adj[u][k]);
        assert PathFromTo(adj, q, start, u);
        assert NodeCost(t, costs[t].value) in queue;
      }
    }
  }

  /**
   * The first entry of the goal to be popped carries the least weight of a
   * path from `start` to the goal, and that is the goal's estimate.
   */
  lemma FoundGoal(adj: seq<seq<Edge>>, start: nat, goal: nat, costs: seq<Estimate>,
                  queue: multiset<NodeCost>, settled: set<nat>, route: seq<seq<nat>>, entry: NodeCost)
    requires Searching(adj, start, goal, costs, queue, settled, route)
    requires IsMin(entry, queue) && entry.node == goal
    ensures IsMinWeight(adj, start, goal, entry.cost)
    ensures costs[goal] == Finite(entry.cost)
    ensures goal == start ==> entry.cost == 0
  {
    assert NodeCost(goal, costs[goal].value) in queue;
    forall p | PathFromTo(adj, p, start, goal)
      ensures PathWeight(adj, p) >= entry.cost
    {
      FrontierBound(adj, start, costs, queue, settled, entry.cost, p, goal);
    }
    assert PathFromTo(adj, route[goal], start, goal);
    assert PathFromTo(adj, [start], start, start);
  }

  /** A stale entry is dropped and nothing else changes. */
  lemma Stale(adj: seq<seq<Edge>>, start: nat, goal: nat, costs: seq<Estimate>,
              queue: multiset<NodeCost>, settled: set<nat>, route: seq<seq<nat>>, entry: NodeCost)
    requires Searching(adj, start, goal, costs, queue, settled, route)
    requires entry in queue && entry.node < |costs| && LessThan(costs[entry.node], Finite(entry.cost))
    ensures Searching(adj, start, goal, costs, queue - multiset{entry}, settled, route)
  {
    var rest := queue - multiset{entry};
    forall x | x in queue && x != entry
      ensures x in rest
    {
      assert rest[x] == queue[x];
    }
  }

  /** A popped entry that is not stale settles its node: no path to it is lighter. */
  lemma Settle(adj: seq<seq<Edge>>, start: nat, goal: nat, costs: seq<Estimate>,
               queue: multiset<NodeCost>, settled: set<nat>, route: seq<seq<nat>>, entry: NodeCost)
    requires Searching(adj, start, goal, costs, queue, settled, route)
    requires IsMin(entry, queue) && entry.node != goal && !LessThan(costs[entry.node], Finite(entry.cost))
    ensures Relaxing(adj, start, goal, costs, queue - multiset{entry}, settled + {entry.node}, route, entry.node, entry.cost, 0)
  {
    var node, rest := entry.node, queue - multiset{entry};
    forall x | x in queue && x != entry
      ensures x in rest
    {
      assert rest[x] == queue[x];
    }
    if node !in settled {
      forall p | PathFromTo(adj, p, start, node)
        ensures PathWeight(adj, p) >= entry.cost
      {
        FrontierBound(adj, start, costs, queue, settled, entry.cost, p, node);
      }
    }
  }

  /**
   * An edge of `node` that improves the estimate of its target `v`: `v` gets
   * the new cost, a fresh entry and the route through `node`; `v` cannot be
   * settled, since the route through `node` would be lighter than its final
   * estimate.
   */
  lemma Improve(adj: seq<seq<Edge>>, start: nat, goal: nat, costs: seq<Estimate>,
                queue: multiset<NodeCost>, settled: set<nat>, route: seq<seq<nat>>,
                node: nat, cost: nat, done: nat, v: nat, c: nat,
                costs': seq<Estimate>, queue': multiset<NodeCost>, route': seq<seq<nat>>)
    requires WellFormed(adj)
    requires Relaxing(adj, start, goal, costs, queue, settled, route, node, cost, done)
    requires done < |adj[node]| && v == adj[node][done].node && c == cost + adj[node][done].weight
    requires LessThan(Finite(c), costs[v])
    requires costs' == costs[v := Finite(c)]
    requires queue' == queue + multiset{NodeCost(v, c)}
    requires route' == route[v := route[node] + [v]]
    ensures Relaxing(adj, start, goal, costs', queue', settled, route', node, cost, done + 1)
    ensures Progress(costs, costs')
    ensures v !in settled && v != start
  {
    ImproveTarget(adj, start, costs, settled, route, node, cost, done, v, c, costs', route');
    ImproveRelaxed(adj, costs, settled, node, done, v, c, costs');
    ImproveQueued(adj, costs, queue, settled, v, c, costs', queue');
    ImproveProgress(costs, v, c);
  }

  /** The target of an improving edge is not settled, and the route through `node` keeps the estimates attained. */
  lemma ImproveTarget(adj: seq<seq<Edge>>, start: nat, costs: seq<Estimate>, settled: set<nat>, route: seq<seq<nat>>,
                      node: nat, cost: nat, done: nat, v: nat, c: nat, costs': seq<Estimate>, route': seq<seq<nat>>)
    requires WellFormed(adj)
    requires Estimated(adj, start, costs, route) && SettledFinal(adj, start, costs, settled)
    requires node < |adj| && costs[node] == Finite(cost) && done < |adj[node]|
    requires v == adj[node][done].node && c == cost + adj[node][done].weight
    requires LessThan(Finite(c), costs[v])
    requires costs' == costs[v := Finite(c)]
    requires route' == route[v := route[node] + [v]]
    ensures v < |adj| && v !in settled && v != start
    ensures Estimated(adj, start, costs', route') && SettledFinal(adj, start, costs', settled)
  {
    assert HasEdge(adj, node, v);
    PathSnoc(adj, route[node], v);
    assert PathWeight(adj, route[node] + [v]) <= c;
    assert PathFromTo(adj, route[node] + [v], start, v);
  }

  /** Lowering the estimate of an unsettled node keeps every relaxed edge relaxed and relaxes the edge into it. */
  lemma ImproveRelaxed(adj: seq<seq<Edge>>, costs: seq<Estimate>, settled: set<nat>, node: nat, done: nat,
                       v: nat, c: nat, costs': seq<Estimate>)
    requires |costs| == |adj| && node < |adj| && done < |adj[node]| && v == adj[node][done].node
    requires v < |adj| && v !in settled && node in settled && costs[node].Finite?
    requires c == costs[node].value + adj[node][done].weight && LessThan(Finite(c), costs[v])
    requires costs' == costs[v := Finite(c)]
    requires AllRelaxed(adj, costs, settled - {node})
    requires forall k :: 0 <= k < done ==> Relaxed(costs, node, adj[node][k])
    ensures AllRelaxed(adj, costs', settled - {node})
    ensures forall k :: 0 <= k < done + 1 ==> Relaxed(costs', node, adj[node][k])
  {
  }

  /** The fresh entry covers the new estimate, and the older entries of `v` are dearer than it. */
  lemma ImproveQueued(adj: seq<seq<Edge>>, costs: seq<Estimate>, queue: multiset<NodeCost>, settled: set<nat>,
                      v: nat, c: nat, costs': seq<Estimate>, queue': multiset<NodeCost>)
    requires |costs| == |adj| && v < |adj| && LessThan(Finite(c), costs[v])
    requires Queued(adj, costs, queue, settled)
    requires costs' == costs[v := Finite(c)] && queue' == queue + multiset{NodeCost(v, c)}
    ensures Queued(adj, costs', queue', settled)
  {
  }

  /** An edge of `node` that does not improve its target's estimate is already relaxed. */
  lemma Keep(adj: seq<seq<Edge>>, start: nat, goal: nat, costs: seq<Estimate>,
             queue: multiset<NodeCost>, settled: set<nat>, route: seq<seq<nat>>, node: nat, cost: nat, done: nat)
    requires WellFormed(adj)
    requires Relaxing(adj, start, goal, costs, queue, settled, route, node, cost, done)
    requires done < |adj[node]| && !LessThan(Finite(cost + adj[node][done].weight), costs[adj[node][done].node])
    ensures Relaxing(adj, start, goal, costs, queue, settled, route, node, cost, done + 1)
  {
  }

  /** Once every edge of `node` is relaxed, the state is back at the head of the loop. */
  lemma FinishRelaxing(adj: seq<seq<Edge>>, start: nat, goal: nat, costs: seq<Estimate>,
                       queue: multiset<NodeCost>, settled: set<nat>, route: seq<seq<nat>>, node: nat, cost: nat)
    requires node < |adj|
    requires Relaxing(adj, start, goal, costs, queue, settled, route, node, cost, |adj[node]|)
    ensures Searching(adj, start, goal, costs, queue, settled, route)
  {
  }

  /**
   * When the queue is empty every node with a finite estimate is settled,
   * the settled nodes are closed under edges, and the goal, never settled,
   * is unreachable.
   */
  lemma Exhausted(adj: seq<seq<Edge>>, start: nat, goal: nat, costs: seq<Estimate>,
                  settled: set<nat>, route: seq<seq<nat>>)
    requires Searching(adj, start, goal, costs, multiset{}, settled, route)
    ensures !Reachable(adj, start, goal)
  {
    forall u, k | u in settled && u < |adj| && 0 <= k < |adj[u]|
      ensures adj[u][k].node in settled
    {
      assert Relaxed(costs, u, adj[u][k]);
    }
    ClosedSetBlocks(adj, settled, start, goal);
  }

  /**
   * The body of the `for edge in &graph.adjacencies[node]` loop of
   * `distance_to`: every edge of the settled node that improves the estimate
   * of its target pushes a fresh entry and lowers the estimate.
   */
  method Expand(adj: seq<seq<Edge>>, start: nat, goal: nat, node: nat, cost: nat,
                costs0: seq<Estimate>, queue0: multiset<NodeCost>,
                ghost settled: set<nat>, ghost route0: seq<seq<nat>>)
    returns (costs: seq<Estimate>, queue: multiset<NodeCost>, ghost route: seq<seq<nat>>)
    requires WellFormed(adj)
    requires Relaxing(adj, start, goal, costs0, queue0, settled, route0, node, cost, 0)
    ensures Searching(adj, start, goal, costs, queue, settled, route)
    ensures Progress(costs0, costs) || (costs == costs0 && queue == queue0)
    ensures Lowered(costs0, costs)
  {
    costs, queue, route := costs0, queue0, route0;
    for i := 0 to |adj[node]|
      invariant Relaxing(adj, start, goal, costs, queue, settled, route, node, cost, i)
      invariant Progress(costs0, costs) || (costs == costs0 && queue == queue0)
      invariant Lowered(costs0, costs)
    {
      var edge := adj[node][i];
      var newCost := cost + edge.weight;
      if LessThan(Finite(newCost), costs[edge.node]) {
        ghost var costs1, queue1, route1 := costs, queue, route;
        LowerOne(costs0, costs, edge.node, newCost);
        queue := queue + multiset{NodeCost(edge.node, newCost)};
        costs := costs[edge.node := Finite(newCost)];
        route := route[edge.node := route[node] + [edge.node]];
        Improve(adj, start, goal, costs1, queue1, settled, route1, node, cost, i, edge.node, newCost, costs, queue, route);
      } else {
        Keep(adj, start, goal, costs, queue, settled, route, node, cost, i);
      }
    }
    FinishRelaxing(adj, start, goal, costs, queue, settled, route, node, cost);
  }

  /**
   * `dijkstra::distance_to`: the least weight of a path from `start` to
   * `goal`, or `None` when there is no path.
   */
  method DistanceTo(adj: seq<seq<Edge>>, start: nat, goal: nat) returns (r: Option<nat>)
    requires WellFormed(adj) && start < |adj|
    ensures r.Some? <==> Reachable(adj, start, goal)
    ensures r.Some? ==> IsMinWeight(adj, start, goal, r.value)
    ensures start == goal ==> r == Some(0)
  {
    var n := |adj|;
    var costs: seq<Estimate> := seq(n, _ => Infinity);
    var queue: multiset<NodeCost> := multiset{};

    queue := queue + multiset{NodeCost(start, 0)};
    costs := costs[start := Finite(0)];

    ghost var settled: set<nat> := {};
    ghost var route: seq<seq<nat>> := seq(n, v => [v]);
    Initial(adj, start, goal, costs, route);

    while queue != multiset{}
      invariant Searching(adj, start, goal, costs, queue, settled, route)
      decreases Unreached(costs), Total(costs), |queue|
    {
      ghost var full := queue;
      var entry, rest := Pop(queue);
      queue := rest;
      var node, cost := entry.node, entry.cost;
      if node == goal {
        FoundGoal(adj, start, goal, costs, full, settled, route, entry);
        return Some(cost);
      }
      if LessThan(costs[node], Finite(cost)) {
        Stale(adj, start, goal, costs, full, settled, route, entry);
        continue;
      }
      Settle(adj, start, goal, costs, full, settled, route, entry);
      settled := settled + {node};
      costs, queue, route := Expand(adj, start, goal, node, cost, costs, queue, settled, route);
    }

    Exhausted(adj, start, goal, costs, settled, route);
    return None;
  }

  /**
   * `u` is a settled node with an edge to `v`, and `u`'s estimate plus the
   * lightest such edge is within `v`'s estimate.
   */
  ghost predicate Link(adj: seq<seq<Edge>>, costs: seq<Estimate>, settled: set<nat>, u: nat, v: nat)
  {
    && u in settled && u < |adj| && v < |adj| && |costs| == |adj|
    && HasEdge(adj, u, v)
    && costs[u].Finite? && costs[v].Finite?
    && costs[u].value + MinWeight(adj[u], v) <= costs[v].value
  }

  /**
   * Every node other than `start` with a finite estimate is linked from its
   * `previous` node. `rank` numbers the settled nodes in the order they were
   * settled, all below `count`, and rises along every link into a settled
   * node.
   */
  ghost predicate Linked(adj: seq<seq<Edge>>, start: nat, costs: seq<Estimate>, settled: set<nat>,
                         previous: seq<nat>, rank: seq<nat>, count: nat)
  {
    && |previous| == |adj| == |rank| == |costs|
    && (forall v :: 0 <= v < |adj| && v != start && costs[v].Finite? ==> Link(adj, costs, settled, previous[v], v))
    && (forall v :: v in settled ==> v < |adj| && rank[v] < count)
    && (forall v :: v in settled && v < |adj| && v != start && costs[v].Finite? ==>
          previous[v] < |adj| && rank[previous[v]] < rank[v])
  }

  /** Settling a node that was not settled before gives it the next rank. */
  lemma SettleLinked(adj: seq<seq<Edge>>, start: nat, costs: seq<Estimate>, settled: set<nat>,
                     previous: seq<nat>, rank: seq<nat>, count: nat, node: nat, rank': seq<nat>, count': nat)
    requires Linked(adj, start, costs, settled, previous, rank, count)
    requires node < |adj| && costs[node].Finite?
    requires node in settled ==> rank' == rank && count' == count
    requires node !in settled ==> rank' == rank[node := count] && count' == count + 1
    ensures Linked(adj, start, costs, settled + {node}, previous, rank', count')
  {
  }

  /** The improved node is linked from the node whose edge improved it. */
  lemma ImproveLinked(adj: seq<seq<Edge>>, start: nat, costs: seq<Estimate>, settled: set<nat>,
                      previous: seq<nat>, rank: seq<nat>, count: nat, node: nat, cost: nat, done: nat,
                      v: nat, c: nat, costs': seq<Estimate>, previous': seq<nat>)
    requires Linked(adj, start, costs, settled, previous, rank, count)
    requires node in settled && node < |adj| && costs[node] == Finite(cost)
    requires done < |adj[node]| && v == adj[node][done].node && c == cost + adj[node][done].weight
    requires v < |adj| && v !in settled && v != start && LessThan(Finite(c), costs[v])
    requires costs' == costs[v := Finite(c)] && previous' == previous[v := node]
    ensures Linked(adj, start, costs', settled, previous', rank, count)
  {
    assert HasEdge(adj, node, v);
    assert Link(adj, costs', settled, node, v);
  }

  /**
   * Following links back from `start` gives a path whose weight is within
   * the estimate of its last node: each link adds at most the difference of
   * the estimates it joins.
   */
  lemma {:induction false} LinkedWeight(adj: seq<seq<Edge>>, start: nat, costs: seq<Estimate>, settled: set<nat>,
                                        path: seq<nat>)
    requires start < |adj| == |costs| && costs[start] == Finite(0)
    requires |path| > 0 && path[0] == start
    requires forall i :: 0 < i < |path| ==> Link(adj, costs, settled, path[i - 1], path[i])
    ensures IsPath(adj, path) && costs[path[|path| - 1]].Finite?
    ensures PathWeight(adj, path) <= costs[path[|path| - 1]].value
    decreases |path|
  {
    if |path| > 1 {
      var q, t := path[..|path| - 1], path[|path| - 1];
      LinkedWeight(adj, start, costs, settled, q);
      assert Link(adj, costs, settled, q[|q| - 1], t);
      PathSnoc(adj, q, t);
      assert q + [t] == path;
    }
  }

  /** The settled nodes, `start` and the goal meet the requirements of the back-walk from the goal. */
  lemma LinkedTree(adj: seq<seq<Edge>>, start: nat, goal: nat, costs: seq<Estimate>, settled: set<nat>,
                   previous: seq<nat>, rank: seq<nat>, count: nat)
    requires Linked(adj, start, costs, settled, previous, rank, count) && SettledFinal(adj, start, costs, settled)
    requires start < |adj| && goal < |adj| && costs[goal].Finite? && goal !in settled
    ensures var tree, rank' := settled + {start, goal}, rank[goal := count];
            && (forall v :: v in tree ==> v < |previous| && v < |rank'|)
            && (forall v :: v in tree && v != start ==> previous[v] in tree && rank'[previous[v]] < rank'[v])
  {
    var tree, rank' := settled + {start, goal}, rank[goal := count];
    forall v | v in tree && v != start
      ensures previous[v] in tree && rank'[previous[v]] < rank'[v]
    {
      assert Link(adj, costs, settled, previous[v], v);
    }
  }

  /** Every step of the back-walk from the goal follows a link. */
  lemma WalkLinks(adj: seq<seq<Edge>>, start: nat, goal: nat, costs: seq<Estimate>, settled: set<nat>,
                  previous: seq<nat>, rank: seq<nat>, count: nat, path: seq<nat>)
    requires Linked(adj, start, costs, settled, previous, rank, count) && SettledFinal(adj, start, costs, settled)
    requires goal < |adj| && costs[goal].Finite?
    requires forall i :: 0 <= i < |path| ==> path[i] in settled + {start, goal}
    requires forall i :: 0 < i < |path| ==> path[i] != start && previous[path[i]] == path[i - 1]
    ensures forall i :: 0 < i < |path| ==> Link(adj, costs, settled, path[i - 1], path[i])
  {
    forall i | 0 < i < |path|
      ensures Link(adj, costs, settled, path[i - 1], path[i])
    {
      assert costs[path[i]].Finite?;
    }
  }

  /**
   * The back-walk from the goal, popped first at `entry.cost`, follows
   * links, so it weighs no more than the least weight of a path to the
   * goal; it rises in `ranks`, so no node repeats.
   */
  lemma FoundLightest(adj: seq<seq<Edge>>, start: nat, goal: nat, costs: seq<Estimate>,
                      queue: multiset<NodeCost>, settled: set<nat>, route: seq<seq<nat>>,
                      entry: NodeCost, ranks: seq<nat>, path: seq<nat>)
    requires Searching(adj, start, goal, costs, queue, settled, route)
    requires IsMin(entry, queue) && entry.node == goal
    requires |path| > 0 && path[0] == start && path[|path| - 1] == goal
    requires forall i :: 0 < i < |path| ==> path[i] != start && Link(adj, costs, settled, path[i - 1], path[i])
    requires forall i :: 0 <= i < |path| ==> path[i] < |ranks|
    requires forall i :: 0 < i < |path| ==> ranks[path[i - 1]] < ranks[path[i]]
    ensures IsLightestPath(adj, path, start, goal) && NoDuplicates(path)
    ensures PathWeight(adj, path) == entry.cost
    ensures start == goal ==> path == [start]
  {
    FoundGoal(adj, start, goal, costs, queue, settled, route, entry);
    LinkedWeight(adj, start, costs, settled, path);
    RisingRanks(path, ranks);
  }

  /**
   * The body of the `for edge in &graph.adjacencies[node]` loop of
   * `shortest_path_to`: as in `distance_to`, and every improved node is
   * linked back to the settled node.
   */
  method ExpandLinked(adj: seq<seq<Edge>>, start: nat, goal: nat, node: nat, cost: nat,
                      costs0: seq<Estimate>, previous0: seq<nat>, queue0: multiset<NodeCost>,
                      ghost settled: set<nat>, ghost route0: seq<seq<nat>>, ghost rank: seq<nat>, ghost count: nat)
    returns (costs: seq<Estimate>, previous: seq<nat>, queue: multiset<NodeCost>, ghost route: seq<seq<nat>>)
    requires WellFormed(adj)
    requires Relaxing(adj, start, goal, costs0, queue0, settled, route0, node, cost, 0)
    requires Linked(adj, start, costs0, settled, previous0, rank, count)
    ensures Searching(adj, start, goal, costs, queue, settled, route)
    ensures Linked(adj, start, costs, settled, previous, rank, count)
    ensures Progress(costs0, costs) || (costs == costs0 && queue == queue0)
    ensures Lowered(costs0, costs)
  {
    costs, previous, queue, route := costs0, previous0, queue0, route0;
    for i := 0 to |adj[node]|
      invariant Relaxing(adj, start, goal, costs, queue, settled, route, node, cost, i)
      invariant Linked(adj, start, costs, settled, previous, rank, count)
      invariant Progress(costs0, costs) || (costs == costs0 && queue == queue0)
      invariant Lowered(costs0, costs)
    {
      var edge := adj[node][i];
      var newCost := cost + edge.weight;
      if LessThan(Finite(newCost), costs[edge.node]) {
        ghost var costs1, previous1, queue1, route1 := costs, previous, queue, route;
        LowerOne(costs0, costs, edge.node, newCost);
        queue := queue + multiset{NodeCost(edge.node, newCost)};
        costs := costs[edge.node := Finite(newCost)];
        previous := previous[edge.node := node];
        route := route[edge.node := route[node] + [edge.node]];
        Improve(adj, start, goal, costs1, queue1, settled, route1, node, cost, i, edge.node, newCost, costs, queue, route);
        ImproveLinked(adj, start, costs1, settled, previous1, rank, count, node, cost, i, edge.node, newCost, costs, previous);
      } else {
        Keep(adj, start, goal, costs, queue, settled, route, node, cost, i);
      }
    }
    FinishRelaxing(adj, start, goal, costs, queue, settled, route, node, cost);
  }

  /**
   * `dijkstra::shortest_path_to`: a path from `start` to `goal` of least
   * weight, or `None` when there is no path.
   */
  method ShortestPathTo(adj: seq<seq<Edge>>, start: nat, goal: nat) returns (r: Option<seq<nat>>)
    requires WellFormed(adj) && start < |adj|
    ensures r.Some? <==> Reachable(adj, start, goal)
    ensures r.Some? ==> IsLightestPath(adj, r.value, start, goal) && NoDuplicates(r.value)
    ensures start == goal ==> r == Some([start])
  {
    var n := |adj|;
    var costs: seq<Estimate> := seq(n, _ => Infinity);
    var previous: seq<nat> := seq(n, _ => start);
    var queue: multiset<NodeCost> := multiset{};

    queue := queue + multiset{NodeCost(start, 0)};
    costs := costs[start := Finite(0)];

    ghost var settled: set<nat> := {};
    ghost var route: seq<seq<nat>> := seq(n, v => [v]);
    ghost var rank: seq<nat> := seq(n, _ => 0);
    ghost var count := 0;
    Initial(adj, start, goal, costs, route);

    while queue != multiset{}
      invariant Searching(adj, start, goal, costs, queue, settled, route)
      invariant Linked(adj, start, costs, settled, previous, rank, count)
      decreases Unreached(costs), Total(costs), |queue|
    {
      ghost var full := queue;
      var entry, rest := Pop(queue);
      queue := rest;
      var node, cost := entry.node, entry.cost;
      if node == goal {
        FoundGoal(adj, start, goal, costs, full, settled, route, entry);
        LinkedTree(adj, start, goal, costs, settled, previous, rank, count);
        var path := WalkBack(previous, start, goal, settled + {start, goal}, rank[goal := count]);
        WalkLinks(adj, start, goal, costs, settled, previous, rank, count, path);
        FoundLightest(adj, start, goal, costs, full, settled, route, entry, rank[goal := count], path);
        return Some(path);
      }
      if LessThan(costs[node], Finite(cost)) {
        Stale(adj, start, goal, costs, full, settled, route, entry);
        continue;
      }
      Settle(adj, start, goal, costs, full, settled, route, entry);
      ghost var rank0, count0 := rank, count;
      if node !in settled {
        rank, count := rank[node := count], count + 1;
      }
      SettleLinked(adj, start, costs, settled, previous, rank0, count0, node, rank, count);
      settled := settled + {node};
      costs, previous, queue, route := ExpandLinked(adj, start, goal, node, cost, costs, previous, queue, settled, route, rank, count);
    }

    Exhausted(adj, start, goal, costs, settled, route);
    return None;
  }
}
