/**
 * Breadth-first search. Nodes are marked visited when they are enqueued, so
 * each node enters the FIFO queue at most once; the first time the goal is
 * popped, its recorded cost is the least number of edges from the start.
 */
module Bfs {
  import opened Options
  import opened Graphs
  import opened Paths
  import opened Backtrack

  /**
   * The search state at the head of the `while let` loop. `order` lists the
   * nodes in the order they were enqueued; the queue holds `order[head..]`
   * and `order[..head]` have been popped and expanded. `dist[v]` is the cost
   * recorded for a visited node `v`. Along the queue, costs never drop and
   * grow by at most one; no path reaches a visited node in fewer edges than
   * its cost; every edge of an expanded node leads to a visited node; the
   * goal has not been popped.
   */
  ghost predicate Frontier(adj: seq<seq<Edge>>, start: nat, goal: nat,
                           visited: seq<bool>, dist: seq<nat>, order: seq<nat>, head: nat)
  {
    && Enqueued(adj, start, visited, order, head)
    && |dist| == |adj|
    && QueueSorted(dist, order, head)
    && LowerBounds(adj, start, visited, dist)
    && Expanded(adj, visited, order, head)
    && goal !in order[..head]
  }

  /** `order` lists, without repetition, exactly the visited nodes; `start` came first. */
  ghost predicate Enqueued(adj: seq<seq<Edge>>, start: nat, visited: seq<bool>, order: seq<nat>, head: nat)
  {
    && start < |adj| == |visited|
    && 0 < |order| <= |adj| && order[0] == start && head <= |order|
    && NoDuplicates(order)
    && (forall i :: 0 <= i < |order| ==> order[i] < |adj|)
    && (forall v :: 0 <= v < |adj| ==> (visited[v] <==> v in order))
  }

  /** Along the queue `order[head..]` costs never drop and span at most one. */
  ghost predicate QueueSorted(dist: seq<nat>, order: seq<nat>, head: nat)
    requires forall i :: 0 <= i < |order| ==> order[i] < |dist|
  {
    forall i, j :: head <= i <= j < |order| ==> dist[order[i]] <= dist[order[j]] <= dist[order[i]] + 1
  }

  /** No path reaches a visited node in fewer edges than its recorded cost. */
  ghost predicate LowerBounds(adj: seq<seq<Edge>>, start: nat, visited: seq<bool>, dist: seq<nat>)
    requires |visited| == |dist| == |adj|
  {
    forall v :: 0 <= v < |adj| && visited[v] ==> NoShorterPath(adj, start, v, dist[v])
  }

  /** Every edge of an expanded node `order[..head]` leads to a visited node. */
  ghost predicate Expanded(adj: seq<seq<Edge>>, visited: seq<bool>, order: seq<nat>, head: nat)
    requires head <= |order| && forall i :: 0 <= i < |order| ==> order[i] < |adj|
  {
    forall i, k :: 0 <= i < head && 0 <= k < |adj[order[i]]| ==> adj[order[i]][k].node < |visited| && visited[adj[order[i]][k].node]
  }

  /**
   * In the middle of expanding the node at the front of the queue: its first
   * `done` edges lead to visited nodes, and every node not yet visited is
   * more than one edge further from the start than the front node.
   */
  ghost predicate Expanding(adj: seq<seq<Edge>>, start: nat, goal: nat,
                            visited: seq<bool>, dist: seq<nat>, order: seq<nat>, head: nat, done: nat)
  {
    && Frontier(adj, start, goal, visited, dist, order, head)
    && head < |order| && order[head] != goal
    && done <= |adj[order[head]]|
    && (forall k :: 0 <= k < done ==> adj[order[head]][k].node < |visited| && visited[adj[order[head]][k].node])
    && Unvisited(adj, start, visited, dist[order[head]] + 1)
  }

  /** No path reaches a node that is not yet visited in fewer than `d` edges. */
  ghost predicate Unvisited(adj: seq<seq<Edge>>, start: nat, visited: seq<bool>, d: nat)
    requires |visited| == |adj|
  {
    forall v :: 0 <= v < |adj| && !visited[v] ==> NoShorterPath(adj, start, v, d)
  }

  /** Every visited node `v` is the end of the path `route[v]`, which has `dist[v]` edges. */
  ghost predicate Routed(adj: seq<seq<Edge>>, start: nat, visited: seq<bool>, dist: seq<nat>, route: seq<seq<nat>>)
    requires |visited| == |dist| == |adj|
  {
    |route| == |adj| &&
    forall v :: 0 <= v < |adj| && visited[v] ==> PathFromTo(adj, route[v], start, v) && |route[v]| - 1 == dist[v]
  }

  /**
   * `previous[v]` is the node from which a visited `v` was discovered: it is
   * visited, one edge before `v`, and one step nearer the start.
   */
  ghost predicate Links(adj: seq<seq<Edge>>, start: nat, visited: seq<bool>, dist: seq<nat>, previous: seq<nat>)
    requires |visited| == |dist| == |adj|
  {
    && |previous| == |adj|
    && (forall v :: 0 <= v < |adj| ==> previous[v] < |adj|)
    && (forall v :: 0 <= v < |adj| && visited[v] && v != start ==>
          visited[previous[v]] && HasEdge(adj, previous[v], v) && dist[previous[v]] + 1 == dist[v])
  }

  /** The state right after `start` is marked visited and enqueued. */
  lemma Initial(adj: seq<seq<Edge>>, start: nat, goal: nat, visited: seq<bool>, dist: seq<nat>)
    requires start < |adj| == |visited| == |dist|
    requires forall v :: 0 <= v < |adj| ==> visited[v] == (v == start)
    requires dist[start] == 0
    ensures Frontier(adj, start, goal, visited, dist, [start], 0)
  {
    forall v | 0 <= v < |adj| && visited[v]
      ensures NoShorterPath(adj, start, v, dist[v])
    {
      assert v == start;
    }
  }

  /** No path reaches a node that is not yet visited in as few edges as the front node's cost. */
  lemma {:induction false} UnvisitedAreFar(adj: seq<seq<Edge>>, start: nat, goal: nat,
                                           visited: seq<bool>, dist: seq<nat>, order: seq<nat>, head: nat, p: seq<nat>)
    requires Frontier(adj, start, goal, visited, dist, order, head) && head < |order|
    requires IsPath(adj, p) && p[0] == start && !visited[p[|p| - 1]]
    ensures |p| - 1 > dist[order[head]]
    decreases |p|
  {
    assert start in order;
    var q := p[..|p| - 1];
    assert IsPath(adj, q);
    var x, t := q[|q| - 1], p[|p| - 1];
    if !visited[x] {
      UnvisitedAreFar(adj, start, goal, visited, dist, order, head, q);
    } else {
      var k :| 0 <= k < |order| && order[k] == x;
      assert HasEdge(adj, x, t);
      if k >= head {
        assert PathFromTo(adj, q, start, x);
      }
    }
  }

  /** Popping a front node that is not the goal starts its expansion. */
  lemma BeginExpanding(adj: seq<seq<Edge>>, start: nat, goal: nat,
                       visited: seq<bool>, dist: seq<nat>, order: seq<nat>, head: nat)
    requires Frontier(adj, start, goal, visited, dist, order, head)
    requires head < |order| && order[head] != goal
    ensures Expanding(adj, start, goal, visited, dist, order, head, 0)
  {
    forall v, p | 0 <= v < |adj| && !visited[v] && PathFromTo(adj, p, start, v)
      ensures |p| - 1 >= dist[order[head]] + 1
    {
      UnvisitedAreFar(adj, start, goal, visited, dist, order, head, p);
    }
  }

  /** An edge of the front node to an unvisited node: mark it, enqueue it, cost it one more than the front. */
  lemma Discover(adj: seq<seq<Edge>>, start: nat, goal: nat,
                 visited: seq<bool>, dist: seq<nat>, order: seq<nat>, head: nat, done: nat)
    requires WellFormed(adj)
    requires Expanding(adj, start, goal, visited, dist, order, head, done)
    requires done < |adj[order[head]]| && !visited[adj[order[head]][done].node]
    ensures var v := adj[order[head]][done].node;
            Expanding(adj, start, goal, visited[v := true], dist[v := dist[order[head]] + 1], order + [v], head, done + 1)
  {
    var u := order[head];
    var v := adj[u][done].node;
    var visited', dist', order' := visited[v := true], dist[v := dist[u] + 1], order + [v];
    assert v !in order;
    DiscoverEnqueued(adj, start, visited, order, head, v);
    DiscoverSorted(dist, order, head, v);
    DiscoverLower(adj, start, visited, dist, v, dist[u]);
    DiscoverExpanded(adj, visited, order, head, done, v);
    assert order'[..head] == order[..head];
  }

  lemma DiscoverLower(adj: seq<seq<Edge>>, start: nat, visited: seq<bool>, dist: seq<nat>, v: nat, front: nat)
    requires |visited| == |dist| == |adj| && v < |adj| && !visited[v]
    requires LowerBounds(adj, start, visited, dist)
    requires Unvisited(adj, start, visited, front + 1)
    ensures LowerBounds(adj, start, visited[v := true], dist[v := front + 1])
    ensures Unvisited(adj, start, visited[v := true], front + 1)
  {
  }

  lemma DiscoverExpanded(adj: seq<seq<Edge>>, visited: seq<bool>, order: seq<nat>, head: nat, done: nat, v: nat)
    requires head < |order| && forall i :: 0 <= i < |order| ==> order[i] < |adj|
    requires |visited| == |adj| && v < |adj|
    requires Expanded(adj, visited, order, head)
    requires done < |adj[order[head]]| && v == adj[order[head]][done].node
    requires forall k :: 0 <= k < done ==> adj[order[head]][k].node < |visited| && visited[adj[order[head]][k].node]
    ensures Expanded(adj, visited[v := true], order + [v], head)
    ensures forall k :: 0 <= k < done + 1 ==>
              adj[order[head]][k].node < |visited| && visited[v := true][adj[order[head]][k].node]
  {
    var order' := order + [v];
    assert forall i :: 0 <= i < head ==> order'[i] == order[i];
  }

  lemma DiscoverEnqueued(adj: seq<seq<Edge>>, start: nat, visited: seq<bool>, order: seq<nat>, head: nat, v: nat)
    requires Enqueued(adj, start, visited, order, head) && v < |adj| && !visited[v]
    ensures Enqueued(adj, start, visited[v := true], order + [v], head)
  {
    var order' := order + [v];
    assert NoDuplicates(order');
    DistinctBelow(order', |adj|);
  }

  lemma DiscoverSorted(dist: seq<nat>, order: seq<nat>, head: nat, v: nat)
    requires forall i :: 0 <= i < |order| ==> order[i] < |dist|
    requires head < |order| && v < |dist| && v !in order
    requires QueueSorted(dist, order, head)
    ensures QueueSorted(dist[v := dist[order[head]] + 1], order + [v], head)
  {
    var dist', order' := dist[v := dist[order[head]] + 1], order + [v];
    forall i, j | head <= i <= j < |order'|
      ensures dist'[order'[i]] <= dist'[order'[j]] <= dist'[order'[i]] + 1
    {
      if j < |order| {
        assert order'[i] == order[i] != v && order'[j] == order[j] != v;
      } else if i < |order| {
        assert order'[i] == order[i] != v;
        assert dist[order[head]] <= dist[order[i]] <= dist[order[head]] + 1;
      }
    }
  }

  /** The route to a newly discovered node is the route to the front node plus one edge. */
  lemma DiscoverRoute(adj: seq<seq<Edge>>, start: nat, visited: seq<bool>, dist: seq<nat>,
                      route: seq<seq<nat>>, u: nat, k: nat)
    requires WellFormed(adj)
    requires |visited| == |dist| == |adj| && Routed(adj, start, visited, dist, route)
    requires u < |adj| && visited[u] && k < |adj[u]| && !visited[adj[u][k].node]
    ensures var v := adj[u][k].node;
            v < |adj| && Routed(adj, start, visited[v := true], dist[v := dist[u] + 1], route[v := route[u] + [v]])
  {
    var v := adj[u][k].node;
    PathSnoc(adj, route[u], v);
  }

  /** An edge of the front node to a node already visited changes nothing. */
  lemma Skip(adj: seq<seq<Edge>>, start: nat, goal: nat,
             visited: seq<bool>, dist: seq<nat>, order: seq<nat>, head: nat, done: nat)
    requires Expanding(adj, start, goal, visited, dist, order, head, done)
    requires done < |adj[order[head]]| && adj[order[head]][done].node < |adj| && visited[adj[order[head]][done].node]
    ensures Expanding(adj, start, goal, visited, dist, order, head, done + 1)
  {
  }

  /** Once every edge of the front node is examined, it joins the expanded nodes. */
  lemma FinishExpanding(adj: seq<seq<Edge>>, start: nat, goal: nat,
                        visited: seq<bool>, dist: seq<nat>, order: seq<nat>, head: nat)
    requires WellFormed(adj)
    requires head < |order| && order[head] < |adj|
    requires Expanding(adj, start, goal, visited, dist, order, head, |adj[order[head]]|)
    ensures Frontier(adj, start, goal, visited, dist, order, head + 1)
  {
    var u := order[head];
    assert order[..head + 1] == order[..head] + [u];
  }

  /** When the queue is empty the visited nodes are closed under edges, so the goal, never popped, is unreachable. */
  lemma Exhausted(adj: seq<seq<Edge>>, start: nat, goal: nat,
                  visited: seq<bool>, dist: seq<nat>, order: seq<nat>)
    requires Frontier(adj, start, goal, visited, dist, order, |order|)
    ensures !Reachable(adj, start, goal)
  {
    var c := Elements(order);
    forall u, k | u in c && u < |adj| && 0 <= k < |adj[u]|
      ensures adj[u][k].node in c
    {
      var i :| 0 <= i < |order| && order[i] == u;
    }
    assert order[..|order|] == order;
    ClosedSetBlocks(adj, c, start, goal);
  }

  /** Every node enqueued so far is reachable: its route path leads to it. */
  lemma EnqueuedReachable(adj: seq<seq<Edge>>, start: nat, goal: nat, visited: seq<bool>,
                          dist: seq<nat>, order: seq<nat>, head: nat, route: seq<seq<nat>>)
    requires Frontier(adj, start, goal, visited, dist, order, head)
    requires Routed(adj, start, visited, dist, route)
    ensures forall v :: v in order ==> Reachable(adj, start, v)
  {
    forall v | v in order
      ensures Reachable(adj, start, v)
    {
      assert PathFromTo(adj, route[v], start, v);
    }
  }

  /**
   * The body of the `for edge in &graph.adjacencies[node]` loop of
   * `distance_to`: every unvisited neighbour of the popped node is enqueued,
   * marked visited and costed one more than the node.
   */
  method Expand(adj: seq<seq<Edge>>, start: nat, goal: nat, node: nat,
                visited0: seq<bool>, costs0: seq<nat>, queue0: seq<nat>,
                ghost enqueued0: seq<nat>, ghost head: nat, ghost route0: seq<seq<nat>>)
    returns (visited: seq<bool>, costs: seq<nat>, queue: seq<nat>,
             ghost enqueued: seq<nat>, ghost route: seq<seq<nat>>)
    requires WellFormed(adj) && start < |adj|
    requires Expanding(adj, start, goal, visited0, costs0, enqueued0, head, 0)
    requires enqueued0[head] == node
    requires queue0 == enqueued0[head + 1..]
    requires Routed(adj, start, visited0, costs0, route0)
    ensures Frontier(adj, start, goal, visited, costs, enqueued, head + 1)
    ensures queue == enqueued[head + 1..]
    ensures Routed(adj, start, visited, costs, route)
  {
    visited, costs, queue, enqueued, route := visited0, costs0, queue0, enqueued0, route0;
    for i := 0 to |adj[node]|
      invariant Expanding(adj, start, goal, visited, costs, enqueued, head, i)
      invariant enqueued[head] == node
      invariant queue == enqueued[head + 1..]
      invariant Routed(adj, start, visited, costs, route)
    {
      var edge := adj[node][i];
      if !visited[edge.node] {
        ghost var visited1, costs1 := visited, costs;
        Discover(adj, start, goal, visited1, costs1, enqueued, head, i);
        DiscoverRoute(adj, start, visited1, costs1, route, node, i);
        queue := queue + [edge.node];
        visited := visited[edge.node := true];
        costs := costs[edge.node := costs[node] + 1];
        enqueued := enqueued + [edge.node];
        route := route[edge.node := route[node] + [edge.node]];
        assert visited == visited1[edge.node := true];
        assert costs == costs1[edge.node := costs1[node] + 1];
      } else {
        Skip(adj, start, goal, visited, costs, enqueued, head, i);
      }
    }
    FinishExpanding(adj, start, goal, visited, costs, enqueued, head);
  }

  /**
   * `bfs::distance_to`: the number of edges on a shortest path from `start`
   * to `goal`, or `None` when there is no path. `enqueued` (proof only)
   * lists the nodes in the order they entered the queue.
   */
  method DistanceTo(adj: seq<seq<Edge>>, start: nat, goal: nat) returns (r: Option<nat>, ghost enqueued: seq<nat>)
    requires WellFormed(adj) && start < |adj|
    ensures r.Some? <==> Reachable(adj, start, goal)
    ensures r.Some? ==> IsHopDistance(adj, start, goal, r.value)
    ensures start == goal ==> r == Some(0)
    ensures |enqueued| > 0 && enqueued[0] == start && NoDuplicates(enqueued)
    ensures forall v :: v in enqueued ==> Reachable(adj, start, v)
  {
    var n := |adj|;
    var costs: seq<nat> := seq(n, _ => 0);
    var visited: seq<bool> := seq(n, _ => false);
    var queue: seq<nat> := [];

    visited := visited[start := true];
    queue := queue + [start];

    enqueued := [start];
    ghost var head := 0;
    ghost var route: seq<seq<nat>> := seq(n, v => [v]);
    Initial(adj, start, goal, visited, costs);

    while queue != []
      invariant Frontier(adj, start, goal, visited, costs, enqueued, head)
      invariant queue == enqueued[head..]
      invariant Routed(adj, start, visited, costs, route)
      decreases n - head
    {
      var node := queue[0];
      queue := queue[1..];
      if node == goal {
        EnqueuedReachable(adj, start, goal, visited, costs, enqueued, head, route);
        return Some(costs[goal]), enqueued;
      }
      BeginExpanding(adj, start, goal, visited, costs, enqueued, head);
      visited, costs, queue, enqueued, route := Expand(adj, start, goal, node, visited, costs, queue, enqueued, head, route);
      head := head + 1;
    }

    Exhausted(adj, start, goal, visited, costs, enqueued);
    EnqueuedReachable(adj, start, goal, visited, costs, enqueued, head, route);
    return None, enqueued;
  }

  /** Discovering `v` from the front node `u` records `u` as its predecessor. */
  lemma DiscoverLink(adj: seq<seq<Edge>>, start: nat, visited: seq<bool>, dist: seq<nat>,
                     previous: seq<nat>, u: nat, k: nat)
    requires WellFormed(adj)
    requires |visited| == |dist| == |adj| && Links(adj, start, visited, dist, previous)
    requires u < |adj| && visited[u] && k < |adj[u]| && !visited[adj[u][k].node]
    ensures var v := adj[u][k].node;
            v < |adj| && Links(adj, start, visited[v := true], dist[v := dist[u] + 1], previous[v := u])
  {
    var v := adj[u][k].node;
    assert HasEdge(adj, u, v);
  }

  /** `Discover` for `shortest_path_to`, which also links the new node back to the front node. */
  lemma DiscoverLinked(adj: seq<seq<Edge>>, start: nat, goal: nat, visited: seq<bool>, dist: seq<nat>,
                       previous: seq<nat>, order: seq<nat>, head: nat, done: nat,
                       visited': seq<bool>, dist': seq<nat>, previous': seq<nat>, order': seq<nat>)
    requires WellFormed(adj)
    requires Expanding(adj, start, goal, visited, dist, order, head, done)
    requires Links(adj, start, visited, dist, previous)
    requires done < |adj[order[head]]| && !visited[adj[order[head]][done].node]
    requires var u := order[head];
             var v := adj[u][done].node;
             && visited' == visited[v := true] && dist' == dist[v := dist[u] + 1]
             && previous' == previous[v := u] && order' == order + [v]
    ensures Expanding(adj, start, goal, visited', dist', order', head, done + 1)
    ensures Links(adj, start, visited', dist', previous')
  {
    Discover(adj, start, goal, visited, dist, order, head, done);
    DiscoverLink(adj, start, visited, dist, previous, order[head], done);
  }

  /**
   * A walk along `previous` links from `start` through visited nodes is a
   * path, and its length in edges is the cost of its last node.
   */
  lemma {:induction false} LinkedPath(adj: seq<seq<Edge>>, start: nat, visited: seq<bool>, dist: seq<nat>,
                                      previous: seq<nat>, path: seq<nat>)
    requires |visited| == |dist| == |adj| && Links(adj, start, visited, dist, previous)
    requires start < |adj| && dist[start] == 0
    requires |path| > 0 && path[0] == start
    requires forall i :: 0 <= i < |path| ==> path[i] < |adj| && visited[path[i]]
    requires forall i :: 0 < i < |path| ==> path[i] != start && previous[path[i]] == path[i - 1]
    ensures PathFromTo(adj, path, start, path[|path| - 1]) && dist[path[|path| - 1]] == |path| - 1
    decreases |path|
  {
    if |path| > 1 {
      var q := path[..|path| - 1];
      LinkedPath(adj, start, visited, dist, previous, q);
      assert HasEdge(adj, q[|q| - 1], path[|path| - 1]);
    }
  }

  /** The visited nodes and their costs meet the requirements of the back-walk from a visited goal. */
  lemma LinkedTree(adj: seq<seq<Edge>>, start: nat, goal: nat, visited: seq<bool>, dist: seq<nat>,
                   order: seq<nat>, head: nat, previous: seq<nat>)
    requires Frontier(adj, start, goal, visited, dist, order, head)
    requires Links(adj, start, visited, dist, previous)
    requires goal in order
    ensures var tree := VisitedSet(visited);
            && start in tree && goal in tree
            && (forall v :: v in tree ==> v < |previous| && v < |dist|)
            && (forall v :: v in tree && v != start ==> previous[v] in tree && dist[previous[v]] < dist[v])
  {
    assert start in order;
  }

  /**
   * The back-walk from a visited goal yields a path with as few edges as
   * possible, since its length is the goal's cost.
   */
  lemma FoundShortest(adj: seq<seq<Edge>>, start: nat, goal: nat, visited: seq<bool>, dist: seq<nat>,
                      order: seq<nat>, head: nat, previous: seq<nat>, path: seq<nat>)
    requires Frontier(adj, start, goal, visited, dist, order, head)
    requires Links(adj, start, visited, dist, previous)
    requires |path| > 0 && path[0] == start && path[|path| - 1] == goal
    requires forall i :: 0 <= i < |path| ==> path[i] < |adj| && path[i] in VisitedSet(visited)
    requires forall i :: 0 < i < |path| ==>
               path[i] != start && previous[path[i]] == path[i - 1] && dist[path[i - 1]] < dist[path[i]]
    ensures IsShortestPath(adj, path, start, goal) && NoDuplicates(path)
    ensures start == goal ==> path == [start]
  {
    assert PathFromTo(adj, [start], start, start);
    LinkedPath(adj, start, visited, dist, previous, path);
    RisingRanks(path, dist);
  }

  /**
   * The body of the `for edge in &graph.adjacencies[node]` loop of
   * `shortest_path_to`: every unvisited neighbour of the popped node is
   * enqueued, marked visited and linked back to the node. The costs are
   * kept for the proof only.
   */
  method ExpandLinked(adj: seq<seq<Edge>>, start: nat, goal: nat, node: nat,
                      visited0: seq<bool>, previous0: seq<nat>, queue0: seq<nat>,
                      ghost costs0: seq<nat>, ghost enqueued0: seq<nat>, ghost head: nat)
    returns (visited: seq<bool>, previous: seq<nat>, queue: seq<nat>,
             ghost costs: seq<nat>, ghost enqueued: seq<nat>)
    requires WellFormed(adj) && start < |adj|
    requires Expanding(adj, start, goal, visited0, costs0, enqueued0, head, 0)
    requires enqueued0[head] == node
    requires queue0 == enqueued0[head + 1..]
    requires Links(adj, start, visited0, costs0, previous0)
    ensures Frontier(adj, start, goal, visited, costs, enqueued, head + 1)
    ensures queue == enqueued[head + 1..]
    ensures Links(adj, start, visited, costs, previous)
  {
    visited, previous, queue, costs, enqueued := visited0, previous0, queue0, costs0, enqueued0;
    for i := 0 to |adj[node]|
      invariant Expanding(adj, start, goal, visited, costs, enqueued, head, i)
      invariant enqueued[head] == node
      invariant queue == enqueued[head + 1..]
      invariant Links(adj, start, visited, costs, previous)
    {
      var edge := adj[node][i];
      if !visited[edge.node] {
        ghost var visited1, costs1, previous1, enqueued1 := visited, costs, previous, enqueued;
        queue := queue + [edge.node];
        visited := visited[edge.node := true];
        previous := previous[edge.node := node];
        costs := costs[edge.node := costs[node] + 1];
        enqueued := enqueued + [edge.node];
        DiscoverLinked(adj, start, goal, visited1, costs1, previous1, enqueued1, head, i, visited, costs, previous, enqueued);
      } else {
        Skip(adj, start, goal, visited, costs, enqueued, head, i);
      }
    }
    FinishExpanding(adj, start, goal, visited, costs, enqueued, head);
  }

  /**
   * `bfs::shortest_path_to`: a path from `start` to `goal` with as few edges
   * as possible, or `None` when there is no path.
   */
  method ShortestPathTo(adj: seq<seq<Edge>>, start: nat, goal: nat) returns (r: Option<seq<nat>>)
    requires WellFormed(adj) && start < |adj|
    ensures r.Some? <==> Reachable(adj, start, goal)
    ensures r.Some? ==> IsShortestPath(adj, r.value, start, goal) && NoDuplicates(r.value)
    ensures start == goal ==> r == Some([start])
  {
    var n := |adj|;
    var previous: seq<nat> := seq(n, _ => start);
    var visited: seq<bool> := seq(n, _ => false);
    var queue: seq<nat> := [];

    visited := visited[start := true];
    queue := queue + [start];

    ghost var costs: seq<nat> := seq(n, _ => 0);
    ghost var enqueued := [start];
    ghost var head := 0;
    Initial(adj, start, goal, visited, costs);

    while queue != []
      invariant Frontier(adj, start, goal, visited, costs, enqueued, head)
      invariant queue == enqueued[head..]
      invariant Links(adj, start, visited, costs, previous)
      decreases n - head
    {
      var node := queue[0];
      queue := queue[1..];
      if node == goal {
        ghost var tree := VisitedSet(visited);
        LinkedTree(adj, start, goal, visited, costs, enqueued, head, previous);
        var path := WalkBack(previous, start, goal, tree, costs);
        FoundShortest(adj, start, goal, visited, costs, enqueued, head, previous, path);
        return Some(path);
      }
      BeginExpanding(adj, start, goal, visited, costs, enqueued, head);
      visited, previous, queue, costs, enqueued := ExpandLinked(adj, start, goal, node, visited, previous, queue, costs, enqueued, head);
      head := head + 1;
    }

    Exhausted(adj, start, goal, visited, costs, enqueued);
    return None;
  }
}
