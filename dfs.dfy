/**
 * Depth-first search. Like the breadth-first search it marks nodes visited
 * when they are pushed, so each node enters the LIFO stack at most once,
 * and it records for every pushed node the node it was discovered from.
 * The path it returns follows those links; it leads to the goal but need
 * not be short.
 */
module Dfs {
  import opened Options
  import opened Graphs
  import opened Paths
  import opened Backtrack

  /** `order` lists, without repetition, exactly the visited nodes; `start` came first. */
  ghost predicate Marked(adj: seq<seq<Edge>>, start: nat, visited: seq<bool>, order: seq<nat>)
  {
    && start < |adj| == |visited|
    && 0 < |order| <= |adj| && order[0] == start
    && NoDuplicates(order)
    && (forall i :: 0 <= i < |order| ==> order[i] < |adj|)
    && (forall v :: 0 <= v < |adj| ==> (visited[v] <==> v in order))
  }

  /**
   * The stack holds distinct visited nodes that have not been popped; every
   * visited node is popped, on the stack, or in `extra` (the node being
   * expanded); every edge of a popped node leads to a visited node.
   */
  ghost predicate Stacked(adj: seq<seq<Edge>>, visited: seq<bool>, stack: seq<nat>, popped: set<nat>, extra: set<nat>)
    requires |visited| == |adj|
  {
    && NoDuplicates(stack)
    && (forall i :: 0 <= i < |stack| ==> stack[i] < |adj| && visited[stack[i]] && stack[i] !in popped)
    && (forall v :: v in popped ==> v < |adj| && visited[v])
    && (forall v :: 0 <= v < |adj| && visited[v] ==> v in popped || v in stack || v in extra)
    && (forall u, k :: u in popped && u < |adj| && 0 <= k < |adj[u]| ==>
          adj[u][k].node < |adj| && visited[adj[u][k].node])
  }

  /**
   * `previous[v]` is the node a visited `v` was discovered from: it is
   * visited, has an edge to `v`, and was discovered earlier (`disc` numbers
   * the nodes in discovery order).
   */
  ghost predicate Linked(adj: seq<seq<Edge>>, start: nat, visited: seq<bool>, order: seq<nat>,
                         previous: seq<nat>, disc: seq<nat>)
    requires |visited| == |adj|
  {
    && |previous| == |adj| == |disc|
    && (forall v :: 0 <= v < |adj| && visited[v] ==> disc[v] < |order|)
    && (forall v :: 0 <= v < |adj| && visited[v] && v != start ==>
          previous[v] < |adj| && visited[previous[v]] && HasEdge(adj, previous[v], v) && disc[previous[v]] < disc[v])
  }

  /** The search state at the head of the `while let` loop; the goal has not been popped. */
  ghost predicate Searching(adj: seq<seq<Edge>>, start: nat, goal: nat, visited: seq<bool>, order: seq<nat>,
                            stack: seq<nat>, popped: set<nat>, previous: seq<nat>, disc: seq<nat>)
  {
    && Marked(adj, start, visited, order)
    && Stacked(adj, visited, stack, popped, {})
    && Linked(adj, start, visited, order, previous, disc)
    && goal !in popped
  }

  /** In the middle of expanding the popped `node`: its first `done` edges lead to visited nodes. */
  ghost predicate Expanding(adj: seq<seq<Edge>>, start: nat, goal: nat, visited: seq<bool>, order: seq<nat>,
                            stack: seq<nat>, popped: set<nat>, previous: seq<nat>, disc: seq<nat>,
                            node: nat, done: nat)
  {
    && Marked(adj, start, visited, order)
    && Stacked(adj, visited, stack, popped, {node})
    && Linked(adj, start, visited, order, previous, disc)
    && goal !in popped
    && node < |adj| && visited[node] && node !in popped && node !in stack && node != goal
    && done <= |adj[node]|
    && (forall k :: 0 <= k < done ==> adj[node][k].node < |adj| && visited[adj[node][k].node])
  }

  /** The state right after `start` is marked visited and pushed. */
  lemma Initial(adj: seq<seq<Edge>>, start: nat, goal: nat, visited: seq<bool>, previous: seq<nat>, disc: seq<nat>)
    requires start < |adj| == |visited| == |previous| == |disc|
    requires forall v :: 0 <= v < |adj| ==> visited[v] == (v == start)
    requires disc[start] == 0
    ensures Searching(adj, start, goal, visited, [start], [start], {}, previous, disc)
  {
  }

  /** Popping a node that is not the goal starts its expansion. */
  lemma Pop(adj: seq<seq<Edge>>, start: nat, goal: nat, visited: seq<bool>, order: seq<nat>,
            stack: seq<nat>, popped: set<nat>, previous: seq<nat>, disc: seq<nat>)
    requires Searching(adj, start, goal, visited, order, stack, popped, previous, disc)
    requires stack != [] && stack[|stack| - 1] != goal
    ensures Expanding(adj, start, goal, visited, order, stack[..|stack| - 1], popped, previous, disc, stack[|stack| - 1], 0)
  {
    PopStacked(adj, visited, stack, popped);
  }

  /** Taking the top off the stack moves it into `extra`. */
  lemma PopStacked(adj: seq<seq<Edge>>, visited: seq<bool>, stack: seq<nat>, popped: set<nat>)
    requires |visited| == |adj| && Stacked(adj, visited, stack, popped, {}) && stack != []
    ensures var node := stack[|stack| - 1];
            && Stacked(adj, visited, stack[..|stack| - 1], popped, {node})
            && node < |adj| && visited[node] && node !in popped && node !in stack[..|stack| - 1]
  {
    var node, rest := stack[|stack| - 1], stack[..|stack| - 1];
    assert stack == rest + [node];
    forall i | 0 <= i < |rest|
      ensures rest[i] != node
    {
      assert rest[i] == stack[i];
    }
  }

  /** An edge of `node` to an unvisited node: mark it, push it, link it back to `node`. */
  lemma Discover(adj: seq<seq<Edge>>, start: nat, goal: nat, visited: seq<bool>, order: seq<nat>,
                 stack: seq<nat>, popped: set<nat>, previous: seq<nat>, disc: seq<nat>, node: nat, done: nat,
                 visited': seq<bool>, order': seq<nat>, stack': seq<nat>, previous': seq<nat>, disc': seq<nat>)
    requires WellFormed(adj)
    requires Expanding(adj, start, goal, visited, order, stack, popped, previous, disc, node, done)
    requires done < |adj[node]| && !visited[adj[node][done].node]
    requires var v := adj[node][done].node;
             && visited' == visited[v := true] && order' == order + [v] && stack' == stack + [v]
             && previous' == previous[v := node] && disc' == disc[v := |order|]
    ensures Expanding(adj, start, goal, visited', order', stack', popped, previous', disc', node, done + 1)
  {
    var v := adj[node][done].node;
    DiscoverMarked(adj, start, visited, order, v);
    DiscoverStacked(adj, visited, stack, popped, node, v);
    DiscoverLinked(adj, start, visited, order, previous, disc, node, v);
  }

  /** Marking an unvisited node appends it to the visiting order. */
  lemma DiscoverMarked(adj: seq<seq<Edge>>, start: nat, visited: seq<bool>, order: seq<nat>, v: nat)
    requires Marked(adj, start, visited, order) && v < |adj| && !visited[v]
    ensures Marked(adj, start, visited[v := true], order + [v])
  {
    var order' := order + [v];
    assert v !in order;
    assert NoDuplicates(order');
    DistinctBelow(order', |adj|);
  }

  /** Pushing an unvisited node that is now marked keeps the stack invariant. */
  lemma DiscoverStacked(adj: seq<seq<Edge>>, visited: seq<bool>, stack: seq<nat>, popped: set<nat>, node: nat, v: nat)
    requires |visited| == |adj| && Stacked(adj, visited, stack, popped, {node}) && v < |adj| && !visited[v]
    ensures Stacked(adj, visited[v := true], stack + [v], popped, {node})
  {
    assert v !in stack;
    assert NoDuplicates(stack + [v]);
  }

  /** Linking the newly marked `v` back to `node`, an earlier discovery with an edge to it. */
  lemma DiscoverLinked(adj: seq<seq<Edge>>, start: nat, visited: seq<bool>, order: seq<nat>,
                       previous: seq<nat>, disc: seq<nat>, node: nat, v: nat)
    requires |visited| == |adj| && Linked(adj, start, visited, order, previous, disc)
    requires node < |adj| && visited[node] && v < |adj| && !visited[v] && HasEdge(adj, node, v)
    ensures Linked(adj, start, visited[v := true], order + [v], previous[v := node], disc[v := |order|])
  {
    var visited', previous', disc' := visited[v := true], previous[v := node], disc[v := |order|];
    forall w | 0 <= w < |adj| && visited'[w] && w != start
      ensures previous'[w] < |adj| && visited'[previous'[w]] && HasEdge(adj, previous'[w], w) && disc'[previous'[w]] < disc'[w]
    {
      if w != v {
        assert visited[w] && previous[w] != v;
      }
    }
  }

  /** An edge of `node` to a node already visited changes nothing. */
  lemma Skip(adj: seq<seq<Edge>>, start: nat, goal: nat, visited: seq<bool>, order: seq<nat>,
             stack: seq<nat>, popped: set<nat>, previous: seq<nat>, disc: seq<nat>, node: nat, done: nat)
    requires Expanding(adj, start, goal, visited, order, stack, popped, previous, disc, node, done)
    requires done < |adj[node]| && adj[node][done].node < |adj| && visited[adj[node][done].node]
    ensures Expanding(adj, start, goal, visited, order, stack, popped, previous, disc, node, done + 1)
  {
  }

  /** Once every edge of `node` is examined, it joins the popped nodes. */
  lemma FinishExpanding(adj: seq<seq<Edge>>, start: nat, goal: nat, visited: seq<bool>, order: seq<nat>,
                        stack: seq<nat>, popped: set<nat>, previous: seq<nat>, disc: seq<nat>, node: nat)
    requires node < |adj|
    requires Expanding(adj, start, goal, visited, order, stack, popped, previous, disc, node, |adj[node]|)
    ensures Searching(adj, start, goal, visited, order, stack, popped + {node}, previous, disc)
  {
  }

  /** When the stack is empty the popped nodes are closed under edges, so the goal, never popped, is unreachable. */
  lemma Exhausted(adj: seq<seq<Edge>>, start: nat, goal: nat, visited: seq<bool>, order: seq<nat>,
                  popped: set<nat>, previous: seq<nat>, disc: seq<nat>)
    requires Searching(adj, start, goal, visited, order, [], popped, previous, disc)
    ensures !Reachable(adj, start, goal)
  {
    assert start in order;
    ClosedSetBlocks(adj, popped, start, goal);
  }

  /** The visited nodes and their discovery numbers meet the requirements of the back-walk from a visited goal. */
  lemma LinkedTree(adj: seq<seq<Edge>>, start: nat, goal: nat, visited: seq<bool>, order: seq<nat>,
                   stack: seq<nat>, popped: set<nat>, previous: seq<nat>, disc: seq<nat>)
    requires Searching(adj, start, goal, visited, order, stack, popped, previous, disc)
    requires stack != [] && stack[|stack| - 1] == goal
    ensures var tree := VisitedSet(visited);
            && start in tree && goal in tree
            && (forall v :: v in tree ==> v < |previous| && v < |disc|)
            && (forall v :: v in tree && v != start ==> previous[v] in tree && disc[previous[v]] < disc[v])
  {
    assert start in order;
  }

  /**
   * The back-walk from a visited goal yields a path without repeated nodes,
   * so with at most as many nodes as the graph has.
   */
  lemma FoundPath(adj: seq<seq<Edge>>, start: nat, goal: nat, visited: seq<bool>, order: seq<nat>,
                  previous: seq<nat>, disc: seq<nat>, path: seq<nat>)
    requires Marked(adj, start, visited, order) && Linked(adj, start, visited, order, previous, disc)
    requires |path| > 0 && path[0] == start && path[|path| - 1] == goal
    requires forall i :: 0 <= i < |path| ==> path[i] < |adj| && path[i] in VisitedSet(visited)
    requires forall i :: 0 < i < |path| ==>
               path[i] != start && previous[path[i]] == path[i - 1] && disc[path[i - 1]] < disc[path[i]]
    ensures PathFromTo(adj, path, start, goal) && NoDuplicates(path) && |path| <= |adj|
    ensures start == goal ==> path == [start]
  {
    forall i | 0 <= i < |path| - 1
      ensures HasEdge(adj, path[i], path[i + 1])
    {
      assert visited[path[i + 1]];
    }
    RisingRanks(path, disc);
    DistinctBelow(path, |adj|);
  }

  /**
   * The body of the `for edge in &graph.adjacencies[node]` loop: every
   * unvisited neighbour of the popped node is pushed, marked visited and
   * linked back to the node. Each push also extends the discovery order.
   */
  method Expand(adj: seq<seq<Edge>>, start: nat, goal: nat, node: nat,
                visited0: seq<bool>, previous0: seq<nat>, stack0: seq<nat>,
                ghost order0: seq<nat>, ghost popped: set<nat>, ghost disc0: seq<nat>)
    returns (visited: seq<bool>, previous: seq<nat>, stack: seq<nat>,
             ghost order: seq<nat>, ghost disc: seq<nat>)
    requires WellFormed(adj)
    requires Expanding(adj, start, goal, visited0, order0, stack0, popped, previous0, disc0, node, 0)
    ensures Searching(adj, start, goal, visited, order, stack, popped + {node}, previous, disc)
    ensures |order| >= |order0| && |stack| - |stack0| == |order| - |order0|
  {
    visited, previous, stack, order, disc := visited0, previous0, stack0, order0, disc0;
    for i := 0 to |adj[node]|
      invariant Expanding(adj, start, goal, visited, order, stack, popped, previous, disc, node, i)
      invariant |order| >= |order0| && |stack| - |stack0| == |order| - |order0|
    {
      var edge := adj[node][i];
      if !visited[edge.node] {
        ghost var visited1, order1, stack1, previous1, disc1 := visited, order, stack, previous, disc;
        stack := stack + [edge.node];
        visited := visited[edge.node := true];
        previous := previous[edge.node := node];
        disc := disc[edge.node := |order|];
        order := order + [edge.node];
        Discover(adj, start, goal, visited1, order1, stack1, popped, previous1, disc1, node, i,
                 visited, order, stack, previous, disc);
      } else {
        Skip(adj, start, goal, visited, order, stack, popped, previous, disc, node, i);
      }
    }
    FinishExpanding(adj, start, goal, visited, order, stack, popped, previous, disc, node);
  }

  /**
   * `dfs::path_to`: a path from `start` to `goal` without repeated nodes,
   * or `None` when there is no path.
   */
  method PathTo(adj: seq<seq<Edge>>, start: nat, goal: nat) returns (r: Option<seq<nat>>)
    requires WellFormed(adj) && start < |adj|
    ensures r.Some? <==> Reachable(adj, start, goal)
    ensures r.Some? ==> PathFromTo(adj, r.value, start, goal) && NoDuplicates(r.value) && |r.value| <= |adj|
    ensures start == goal ==> r == Some([start])
  {
    var n := |adj|;
    var previous: seq<nat> := seq(n, _ => start);
    var visited: seq<bool> := seq(n, _ => false);
    var stack: seq<nat> := [];

    visited := visited[start := true];
    stack := stack + [start];

    ghost var order := [start];
    ghost var popped: set<nat> := {};
    ghost var disc: seq<nat> := seq(n, _ => 0);
    Initial(adj, start, goal, visited, previous, disc);

    while stack != []
      invariant Searching(adj, start, goal, visited, order, stack, popped, previous, disc)
      decreases n - |order|, |stack|
    {
      ghost var full := stack;
      var node := stack[|stack| - 1];
      stack := stack[..|stack| - 1];
      if node == goal {
        ghost var tree := VisitedSet(visited);
        LinkedTree(adj, start, goal, visited, order, full, popped, previous, disc);
        var path := WalkBack(previous, start, goal, tree, disc);
        FoundPath(adj, start, goal, visited, order, previous, disc, path);
        return Some(path);
      }
      Pop(adj, start, goal, visited, order, full, popped, previous, disc);
      visited, previous, stack, order, disc := Expand(adj, start, goal, node, visited, previous, stack, order, popped, disc);
      popped := popped + {node};
    }

    Exhausted(adj, start, goal, visited, order, popped, previous, disc);
    return None;
  }
}
