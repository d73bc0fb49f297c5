/**
 * The five-node graph of the repository's Dijkstra tests, built with
 * `Graph::new` and `add_edge`, and the answers those tests expect:
 *
 *   0 -> 2 (10), 0 -> 1 (1), 1 -> 3 (2), 2 -> 1 (1),
 *   2 -> 3 (3), 2 -> 4 (1), 3 -> 0 (7), 3 -> 4 (2).
 *
 * The expected answers follow from the contracts of `Dijkstra.DistanceTo`
 * and `Dijkstra.ShortestPathTo` alone: a potential on the nodes bounds the
 * weight of every path from below, and the edges on which it is tight form
 * a tree, so each lightest path is the tree path.
 */
module DijkstraScenario {
  import opened Options
  import opened Graphs
  import opened Paths
  import Dijkstra

  /** The adjacency lists that the tests build. */
  function TestGraph(): seq<seq<Edge>>
  {
    [[Edge(2, 10), Edge(1, 1)], [Edge(3, 2)], [Edge(1, 1), Edge(3, 3), Edge(4, 1)], [Edge(0, 7), Edge(4, 2)], []]
  }

  /** No edge lowers the potential `pot` by more than its weight. */
  ghost predicate Feasible(adj: seq<seq<Edge>>, pot: seq<nat>)
  {
    && |pot| == |adj|
    && WellFormed(adj)
    && forall u, k :: 0 <= u < |adj| && 0 <= k < |adj[u]| ==> pot[adj[u][k].node] <= pot[u] + adj[u][k].weight
  }

  /** Every step of `p` raises the potential by exactly its weight. */
  ghost predicate Tight(adj: seq<seq<Edge>>, pot: seq<nat>, p: seq<nat>)
    requires IsPath(adj, p) && |pot| == |adj|
  {
    forall i :: 0 <= i < |p| - 1 ==> pot[p[i + 1]] == pot[p[i]] + MinWeight(adj[p[i]], p[i + 1])
  }

  /**
   * `tree[v]` is a path from `root` to `v`, and every edge on which the
   * potential is tight is the last step of the tree path of its target.
   */
  ghost predicate TightTree(adj: seq<seq<Edge>>, pot: seq<nat>, tree: seq<seq<nat>>, root: nat)
  {
    && WellFormed(adj) && |pot| == |adj| && |tree| == |adj| && root < |adj|
    && tree[root] == [root]
    && forall u, k :: 0 <= u < |adj| && 0 <= k < |adj[u]| && pot[adj[u][k].node] == pot[u] + adj[u][k].weight ==>
         adj[u][k].node != root && tree[adj[u][k].node] == tree[u] + [adj[u][k].node]
  }

  /** Along any path the potential rises by at most the path's weight, and by exactly that only on a tight path. */
  lemma {:induction false} PotentialBound(adj: seq<seq<Edge>>, pot: seq<nat>, p: seq<nat>)
    requires Feasible(adj, pot) && IsPath(adj, p)
    ensures pot[p[0]] + PathWeight(adj, p) >= pot[p[|p| - 1]]
    ensures pot[p[0]] + PathWeight(adj, p) == pot[p[|p| - 1]] ==> Tight(adj, pot, p)
    decreases |p|
  {
    if |p| > 1 {
      var q := p[..|p| - 1];
      assert IsPath(adj, q);
      PotentialBound(adj, pot, q);
      var u, v := p[|p| - 2], p[|p| - 1];
      assert HasEdge(adj, u, v);
      var k :| 0 <= k < |adj[u]| && adj[u][k].node == v && adj[u][k].weight == MinWeight(adj[u], v);
      if pot[p[0]] + PathWeight(adj, p) == pot[v] {
        forall i | 0 <= i < |p| - 1
          ensures pot[p[i + 1]] == pot[p[i]] + MinWeight(adj[p[i]], p[i + 1])
        {
          if i < |p| - 2 {
            assert p[i] == q[i] && p[i + 1] == q[i + 1];
          }
        }
      }
    }
  }

  /** A tight path from the root is the tree path to its last node. */
  lemma {:induction false} TightPathIsTreePath(adj: seq<seq<Edge>>, pot: seq<nat>, tree: seq<seq<nat>>, root: nat, p: seq<nat>)
    requires TightTree(adj, pot, tree, root) && IsPath(adj, p) && p[0] == root && Tight(adj, pot, p)
    ensures p == tree[p[|p| - 1]]
    decreases |p|
  {
    if |p| > 1 {
      var q := p[..|p| - 1];
      assert IsPath(adj, q);
      assert Tight(adj, pot, q) by {
        forall i | 0 <= i < |q| - 1
          ensures pot[q[i + 1]] == pot[q[i]] + MinWeight(adj[q[i]], q[i + 1])
        {
          assert q[i] == p[i] && q[i + 1] == p[i + 1];
        }
      }
      TightPathIsTreePath(adj, pot, tree, root, q);
      var u, v := p[|p| - 2], p[|p| - 1];
      assert HasEdge(adj, u, v);
      var k :| 0 <= k < |adj[u]| && adj[u][k].node == v && adj[u][k].weight == MinWeight(adj[u], v);
      assert q + [v] == p;
    }
  }

  /**
   * With a feasible potential that is 0 at the root and a tight tree, the
   * potential of `t` is the least weight of a path from the root to `t`,
   * and the tree path is the only lightest path.
   */
  lemma LightestByPotential(adj: seq<seq<Edge>>, pot: seq<nat>, tree: seq<seq<nat>>, root: nat, t: nat)
    requires Feasible(adj, pot) && TightTree(adj, pot, tree, root) && pot[root] == 0 && t < |adj|
    requires PathFromTo(adj, tree[t], root, t) && PathWeight(adj, tree[t]) == pot[t]
    ensures IsMinWeight(adj, root, t, pot[t])
    ensures forall p :: IsLightestPath(adj, p, root, t) ==> p == tree[t]
  {
    forall p | PathFromTo(adj, p, root, t)
      ensures PathWeight(adj, p) >= pot[t]
    {
      PotentialBound(adj, pot, p);
    }
    forall p | IsLightestPath(adj, p, root, t)
      ensures p == tree[t]
    {
      PotentialBound(adj, pot, p);
      TightPathIsTreePath(adj, pot, tree, root, p);
    }
  }

  /** The test graph is well formed, and the lightest weights of its edges are their weights. */
  lemma TestGraphWeights()
    ensures WellFormed(TestGraph())
    ensures var adj := TestGraph();
            && Targets(adj[0], 1) && Targets(adj[0], 2) && Targets(adj[1], 3) && Targets(adj[3], 0) && Targets(adj[3], 4)
            && MinWeight(adj[0], 1) == 1 && MinWeight(adj[0], 2) == 10 && MinWeight(adj[1], 3) == 2
            && MinWeight(adj[3], 0) == 7 && MinWeight(adj[3], 4) == 2
  {
    var adj: seq<seq<Edge>> := TestGraph();
    assert adj[0][0].node == 2 && adj[0][1].node == 1 && adj[1][0].node == 3 && adj[3][0].node == 0 && adj[3][1].node == 4;
  }

  /** The potential that the distances from node 0 give. */
  function PotentialFromZero(): seq<nat>
  {
    [0, 1, 10, 3, 5]
  }

  /** The paths from node 0 along the edges on which that potential is tight. */
  function TreeFromZero(): seq<seq<nat>>
  {
    [[0], [0, 1], [0, 2], [0, 1, 3], [0, 1, 3, 4]]
  }

  lemma ZeroPotentialFeasible()
    ensures Feasible(TestGraph(), PotentialFromZero())
  {
    TestGraphWeights();
  }

  lemma ZeroPotentialTight()
    ensures TightTree(TestGraph(), PotentialFromZero(), TreeFromZero(), 0)
  {
    TestGraphWeights();
  }

  /** The tree path to node 1 from node 0. */
  lemma WeightZeroOne()
    ensures PathFromTo(TestGraph(), [0, 1], 0, 1) && PathWeight(TestGraph(), [0, 1]) == 1
  {
    TestGraphWeights();
    assert PathFromTo(TestGraph(), [0], 0, 0);
    PathSnoc(TestGraph(), [0], 1);
    assert [0] + [1] == [0, 1];
  }

  /** The tree path to node 3 from node 0. */
  lemma WeightZeroThree()
    ensures PathFromTo(TestGraph(), [0, 1, 3], 0, 3) && PathWeight(TestGraph(), [0, 1, 3]) == 3
  {
    TestGraphWeights();
    WeightZeroOne();
    PathSnoc(TestGraph(), [0, 1], 3);
    assert [0, 1] + [3] == [0, 1, 3];
  }

  /** The tree path to node 4 from node 0. */
  lemma WeightZeroFour()
    ensures PathFromTo(TestGraph(), [0, 1, 3, 4], 0, 4) && PathWeight(TestGraph(), [0, 1, 3, 4]) == 5
  {
    TestGraphWeights();
    WeightZeroThree();
    PathSnoc(TestGraph(), [0, 1, 3], 4);
    assert [0, 1, 3] + [4] == [0, 1, 3, 4];
  }

  /** The tree path to node 0 from node 3. */
  lemma WeightThreeZero()
    ensures PathFromTo(TestGraph(), [3, 0], 3, 0) && PathWeight(TestGraph(), [3, 0]) == 7
  {
    TestGraphWeights();
    assert PathFromTo(TestGraph(), [3], 3, 3);
    PathSnoc(TestGraph(), [3], 0);
    assert [3] + [0] == [3, 0];
  }

  /** The least path weights from node 0, and the paths that attain them. */
  lemma FromNodeZero()
    ensures var adj := TestGraph();
            && IsMinWeight(adj, 0, 1, 1) && IsMinWeight(adj, 0, 3, 3) && IsMinWeight(adj, 0, 4, 5)
            && (forall p :: IsLightestPath(adj, p, 0, 1) ==> p == [0, 1])
            && (forall p :: IsLightestPath(adj, p, 0, 3) ==> p == [0, 1, 3])
            && (forall p :: IsLightestPath(adj, p, 0, 4) ==> p == [0, 1, 3, 4])
  {
    var adj, pot, tree := TestGraph(), PotentialFromZero(), TreeFromZero();
    ZeroPotentialFeasible();
    ZeroPotentialTight();
    WeightZeroOne();
    WeightZeroThree();
    WeightZeroFour();
    LightestByPotential(adj, pot, tree, 0, 1);
    LightestByPotential(adj, pot, tree, 0, 3);
    LightestByPotential(adj, pot, tree, 0, 4);
  }

  /** The potential that the distances from node 3 give. */
  function PotentialFromThree(): seq<nat>
  {
    [7, 8, 17, 0, 2]
  }

  /** The paths from node 3 along the edges on which that potential is tight. */
  function TreeFromThree(): seq<seq<nat>>
  {
    [[3, 0], [3, 0, 1], [3, 0, 2], [3], [3, 4]]
  }

  lemma ThreePotentialFeasible()
    ensures Feasible(TestGraph(), PotentialFromThree())
  {
    TestGraphWeights();
  }

  lemma ThreePotentialTight()
    ensures TightTree(TestGraph(), PotentialFromThree(), TreeFromThree(), 3)
  {
    TestGraphWeights();
  }

  /** The least path weight from node 3 to node 0, and the path that attains it. */
  lemma FromNodeThree()
    ensures var adj := TestGraph();
            && IsMinWeight(adj, 3, 0, 7)
            && (forall p :: IsLightestPath(adj, p, 3, 0) ==> p == [3, 0])
  {
    var adj, pot, tree := TestGraph(), PotentialFromThree(), TreeFromThree();
    ThreePotentialFeasible();
    ThreePotentialTight();
    WeightThreeZero();
    LightestByPotential(adj, pot, tree, 3, 0);
  }

  /** Node 4 has no outgoing edge, so nothing else is reachable from it. */
  lemma NothingFromNodeFour()
    ensures !Reachable(TestGraph(), 4, 0)
  {
    ClosedSetBlocks(TestGraph(), {4}, 4, 0);
  }

  /** The first four `add_edge` calls of the tests, those from nodes 0, 1 and 2. */
  method AddFirstEdges(g: Graph)
    requires g.Valid() && g.adjacencies == [[], [], [], [], []]
    modifies g
    ensures g.Valid() && g.adjacencies == [[Edge(2, 10), Edge(1, 1)], [Edge(3, 2)], [Edge(1, 1)], [], []]
  {
    g.AddEdge(0, 2, 10);
    g.AddEdge(0, 1, 1);
    g.AddEdge(1, 3, 2);
    g.AddEdge(2, 1, 1);
    assert g.adjacencies[0] == [Edge(2, 10), Edge(1, 1)];
    assert g.adjacencies[1] == [Edge(3, 2)] && g.adjacencies[2] == [Edge(1, 1)];
  }

  /** The last four `add_edge` calls of the tests, those from nodes 2 and 3. */
  method AddLastEdges(g: Graph)
    requires g.Valid() && g.adjacencies == [[Edge(2, 10), Edge(1, 1)], [Edge(3, 2)], [Edge(1, 1)], [], []]
    modifies g
    ensures g.Valid() && g.adjacencies == TestGraph()
  {
    g.AddEdge(2, 3, 3);
    g.AddEdge(2, 4, 1);
    g.AddEdge(3, 0, 7);
    g.AddEdge(3, 4, 2);
    assert g.adjacencies[2] == [Edge(1, 1), Edge(3, 3), Edge(4, 1)];
    assert g.adjacencies[3] == [Edge(0, 7), Edge(4, 2)];
  }

  /** `Graph::new(5)` followed by the eight `add_edge` calls of the tests. */
  method BuildTestGraph() returns (g: Graph)
    ensures fresh(g) && g.Valid() && g.adjacencies == TestGraph()
  {
    g := new Graph(5);
    assert g.adjacencies == [[], [], [], [], []];
    AddFirstEdges(g);
    AddLastEdges(g);
  }

  /** `check_distance_to`: the distances the test asserts. */
  method CheckDistanceTo() returns (d01: Option<nat>, d03: Option<nat>, d30: Option<nat>, d04: Option<nat>, d40: Option<nat>)
    ensures d01 == Some(1) && d03 == Some(3) && d30 == Some(7) && d04 == Some(5) && d40 == None
  {
    var g := BuildTestGraph();
    var adj := g.adjacencies;
    TestGraphWeights();
    FromNodeZero();
    FromNodeThree();
    NothingFromNodeFour();
    d01 := Dijkstra.DistanceTo(adj, 0, 1);
    MinWeightUnique(adj, 0, 1, d01.value, 1);
    d03 := Dijkstra.DistanceTo(adj, 0, 3);
    MinWeightUnique(adj, 0, 3, d03.value, 3);
    d30 := Dijkstra.DistanceTo(adj, 3, 0);
    MinWeightUnique(adj, 3, 0, d30.value, 7);
    d04 := Dijkstra.DistanceTo(adj, 0, 4);
    MinWeightUnique(adj, 0, 4, d04.value, 5);
    d40 := Dijkstra.DistanceTo(adj, 4, 0);
  }

  /** `check_shortest_path_to`: the paths the test asserts. */
  method CheckShortestPathTo() returns (p01: Option<seq<nat>>, p03: Option<seq<nat>>, p30: Option<seq<nat>>, p04: Option<seq<nat>>, p40: Option<seq<nat>>)
    ensures p01 == Some([0, 1]) && p03 == Some([0, 1, 3]) && p30 == Some([3, 0]) && p04 == Some([0, 1, 3, 4]) && p40 == None
  {
    var g := BuildTestGraph();
    var adj := g.adjacencies;
    TestGraphWeights();
    FromNodeZero();
    FromNodeThree();
    NothingFromNodeFour();
    p01 := Dijkstra.ShortestPathTo(adj, 0, 1);
    p03 := Dijkstra.ShortestPathTo(adj, 0, 3);
    p30 := Dijkstra.ShortestPathTo(adj, 3, 0);
    p04 := Dijkstra.ShortestPathTo(adj, 0, 4);
    p40 := Dijkstra.ShortestPathTo(adj, 4, 0);
  }
}
