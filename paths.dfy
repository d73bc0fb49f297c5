/**
 * What the algorithms are proved against: paths as node sequences, their
 * length in edges and their weight, reachability, and the facts about them
 * that every search relies on.
 */
module Paths {
  import opened Graphs

  /**
   * Every edge target names a node. `add_edge` never checks its `end`, and
   * every search indexes its working vectors with edge targets, so callers
   * of the searches must build graphs like this.
   */
  ghost predicate WellFormed(adj: seq<seq<Edge>>)
  {
    forall u, k :: 0 <= u < |adj| && 0 <= k < |adj[u]| ==> adj[u][k].node < |adj|
  }

  /** A graph built from a log of insertions is well formed when no insertion names an end outside it. */
  lemma LoggedGraphWellFormed(log: seq<Insertion>, adj: seq<seq<Edge>>)
    requires forall u :: 0 <= u < |adj| ==> adj[u] == EdgesFrom(log, u)
    requires forall ins :: ins in log ==> ins.end < |adj|
    ensures WellFormed(adj)
  {
    forall u, k | 0 <= u < |adj| && 0 <= k < |adj[u]|
      ensures adj[u][k].node < |adj|
    {
      EdgesFromMember(log, u, adj[u][k]);
    }
  }

  /** Some edge of the list leads to `v`. */
  ghost predicate Targets(edges: seq<Edge>, v: nat)
  {
    exists k :: 0 <= k < |edges| && edges[k].node == v
  }

  /** Some edge of `u` leads to `v`. */
  ghost predicate HasEdge(adj: seq<seq<Edge>>, u: nat, v: nat)
  {
    u < |adj| && Targets(adj[u], v)
  }

  /** A non-empty sequence of nodes of the graph, each joined to the next by an edge. */
  ghost predicate IsPath(adj: seq<seq<Edge>>, p: seq<nat>)
  {
    && |p| > 0
    && (forall i :: 0 <= i < |p| ==> p[i] < |adj|)
    && (forall i :: 0 <= i < |p| - 1 ==> HasEdge(adj, p[i], p[i + 1]))
  }

  ghost predicate PathFromTo(adj: seq<seq<Edge>>, p: seq<nat>, s: nat, t: nat)
  {
    IsPath(adj, p) && p[0] == s && p[|p| - 1] == t
  }

  ghost predicate Reachable(adj: seq<seq<Edge>>, s: nat, t: nat)
  {
    exists p :: PathFromTo(adj, p, s, t)
  }

  /** The lightest of the parallel edges to `v` in one adjacency list. */
  ghost function MinWeight(edges: seq<Edge>, v: nat): (w: nat)
    requires Targets(edges, v)
    ensures exists k :: 0 <= k < |edges| && edges[k].node == v && edges[k].weight == w
    ensures forall k :: 0 <= k < |edges| && edges[k].node == v ==> w <= edges[k].weight
  {
    var rest := edges[1..];
    assert forall k :: 0 < k < |edges| ==> edges[k] == rest[k - 1];
    if edges[0].node != v then
      MinWeight(rest, v)
    else if Targets(rest, v) then
      var m := MinWeight(rest, v);
      if edges[0].weight <= m then edges[0].weight else m
    else
      edges[0].weight
  }

  /** The weight of a path: each step costs the lightest edge that makes it. */
  ghost function PathWeight(adj: seq<seq<Edge>>, p: seq<nat>): nat
    requires IsPath(adj, p)
    decreases |p|
  {
    if |p| == 1 then 0
    else PathWeight(adj, p[..|p| - 1]) + MinWeight(adj[p[|p| - 2]], p[|p| - 1])
  }

  /** No path from `s` to `t` has fewer than `d` edges. */
  ghost predicate NoShorterPath(adj: seq<seq<Edge>>, s: nat, t: nat, d: nat)
  {
    forall p {:trigger PathFromTo(adj, p, s, t)} :: PathFromTo(adj, p, s, t) ==> |p| - 1 >= d
  }

  /** `d` is the least number of edges on a path from `s` to `t`. */
  ghost predicate IsHopDistance(adj: seq<seq<Edge>>, s: nat, t: nat, d: nat)
  {
    (exists p {:trigger PathFromTo(adj, p, s, t)} :: PathFromTo(adj, p, s, t) && |p| - 1 == d) && NoShorterPath(adj, s, t, d)
  }

  /** `p` leads from `s` to `t` with as few edges as possible. */
  ghost predicate IsShortestPath(adj: seq<seq<Edge>>, p: seq<nat>, s: nat, t: nat)
  {
    PathFromTo(adj, p, s, t) && NoShorterPath(adj, s, t, |p| - 1)
  }

  /** No path from `s` to `t` weighs less than `d`. */
  ghost predicate NoLighterPath(adj: seq<seq<Edge>>, s: nat, t: nat, d: nat)
  {
    forall p {:trigger PathFromTo(adj, p, s, t)} :: PathFromTo(adj, p, s, t) ==> PathWeight(adj, p) >= d
  }

  /** `d` is the least weight of a path from `s` to `t`. */
  ghost predicate IsMinWeight(adj: seq<seq<Edge>>, s: nat, t: nat, d: nat)
  {
    (exists p {:trigger PathFromTo(adj, p, s, t)} :: PathFromTo(adj, p, s, t) && PathWeight(adj, p) == d) && NoLighterPath(adj, s, t, d)
  }

  /** `p` leads from `s` to `t` with the least possible weight. */
  ghost predicate IsLightestPath(adj: seq<seq<Edge>>, p: seq<nat>, s: nat, t: nat)
  {
    PathFromTo(adj, p, s, t) && NoLighterPath(adj, s, t, PathWeight(adj, p))
  }

  /** Extending a path by one edge adds the weight of that step. */
  lemma PathSnoc(adj: seq<seq<Edge>>, p: seq<nat>, v: nat)
    requires IsPath(adj, p) && HasEdge(adj, p[|p| - 1], v) && v < |adj|
    ensures IsPath(adj, p + [v])
    ensures PathWeight(adj, p + [v]) == PathWeight(adj, p) + MinWeight(adj[p[|p| - 1]], v)
  {
    var q := p + [v];
    assert q[..|q| - 1] == p;
    forall i | 0 <= i < |q| - 1
      ensures HasEdge(adj, q[i], q[i + 1])
    {
      if i < |p| - 1 {
        assert q[i] == p[i] && q[i + 1] == p[i + 1];
      }
    }
  }

  /** A contiguous piece of a path is a path. */
  lemma PathSlice(adj: seq<seq<Edge>>, p: seq<nat>, a: nat, b: nat)
    requires IsPath(adj, p) && a < b <= |p|
    ensures IsPath(adj, p[a..b])
  {
    var q := p[a..b];
    assert forall l :: 0 <= l < |q| ==> q[l] == p[a + l];
  }

  /** The weight of a path of several nodes is that of the path without its last node, plus the last step. */
  lemma WeightLast(adj: seq<seq<Edge>>, p: seq<nat>)
    requires IsPath(adj, p) && |p| > 1
    ensures IsPath(adj, p[..|p| - 1])
    ensures PathWeight(adj, p) == PathWeight(adj, p[..|p| - 1]) + MinWeight(adj[p[|p| - 2]], p[|p| - 1])
  {
    PathSlice(adj, p, 0, |p| - 1);
    assert p[0..|p| - 1] == p[..|p| - 1];
  }

  /** Every prefix of a path is a path, and weighs no more than the whole. */
  lemma {:induction false} PrefixWeight(adj: seq<seq<Edge>>, p: seq<nat>, j: nat)
    requires IsPath(adj, p) && 0 < j <= |p|
    ensures IsPath(adj, p[..j]) && PathWeight(adj, p[..j]) <= PathWeight(adj, p)
    decreases |p| - j
  {
    if j < |p| {
      var q := p[..|p| - 1];
      assert IsPath(adj, q);
      PrefixWeight(adj, q, j);
      assert q[..j] == p[..j];
    } else {
      assert p[..j] == p;
    }
  }

  /** A set of nodes that no edge leaves. */
  ghost predicate ClosedUnder(adj: seq<seq<Edge>>, c: set<nat>)
  {
    forall u, k :: u in c && u < |adj| && 0 <= k < |adj[u]| ==> adj[u][k].node in c
  }

  /** A path that starts inside a closed set ends inside it. */
  lemma {:induction false} ClosedSetKeepsPath(adj: seq<seq<Edge>>, c: set<nat>, p: seq<nat>)
    requires ClosedUnder(adj, c) && IsPath(adj, p) && p[0] in c
    ensures p[|p| - 1] in c
    decreases |p|
  {
    if |p| > 1 {
      var q := p[..|p| - 1];
      assert IsPath(adj, q);
      ClosedSetKeepsPath(adj, c, q);
      assert HasEdge(adj, p[|p| - 2], p[|p| - 1]);
    }
  }

  /** Nothing outside a closed set is reachable from inside it. */
  lemma ClosedSetBlocks(adj: seq<seq<Edge>>, c: set<nat>, s: nat, t: nat)
    requires ClosedUnder(adj, c) && s in c && t !in c
    ensures !Reachable(adj, s, t)
  {
    forall p | PathFromTo(adj, p, s, t)
      ensures false
    {
      ClosedSetKeepsPath(adj, c, p);
    }
  }

  predicate NoDuplicates(s: seq<nat>)
  {
    forall i, j :: 0 <= i < j < |s| ==> s[i] != s[j]
  }

  /** The nodes 0 .. n-1. */
  function Below(n: nat): (r: set<nat>)
    ensures forall x: nat :: x in r <==> x < n
    ensures |r| == n
  {
    if n == 0 then {} else Below(n - 1) + {n - 1}
  }

  /** The nodes marked in a visited vector. */
  function VisitedSet(visited: seq<bool>): set<nat>
  {
    set v: nat | v < |visited| && visited[v]
  }

  function Elements(s: seq<nat>): set<nat>
  {
    set x | x in s
  }

  lemma {:induction false} DistinctSize(s: seq<nat>)
    requires NoDuplicates(s)
    ensures |Elements(s)| == |s|
  {
    if s != [] {
      DistinctSize(s[1..]);
      assert Elements(s) == Elements(s[1..]) + {s[0]};
      assert s[0] !in Elements(s[1..]);
    }
  }

  /** A sequence of distinct nodes below `n` has at most `n` elements. */
  lemma DistinctBelow(s: seq<nat>, n: nat)
    requires NoDuplicates(s) && forall i :: 0 <= i < |s| ==> s[i] < n
    ensures |s| <= n
  {
    var elems, range := Elements(s), Below(n);
    DistinctSize(s);
    assert elems <= range;
    assert range == elems + (range - elems);
  }

  /** Every edge weighs one, so weights count edges. */
  ghost predicate UnitWeights(adj: seq<seq<Edge>>)
  {
    forall u, k :: 0 <= u < |adj| && 0 <= k < |adj[u]| ==> adj[u][k].weight == 1
  }

  lemma {:induction false} UnitPathWeight(adj: seq<seq<Edge>>, p: seq<nat>)
    requires UnitWeights(adj) && IsPath(adj, p)
    ensures PathWeight(adj, p) == |p| - 1
    decreases |p|
  {
    if |p| > 1 {
      var q := p[..|p| - 1];
      assert IsPath(adj, q);
      UnitPathWeight(adj, q);
    }
  }

  /** With unit weights, the least weight and the least number of edges coincide. */
  lemma UnitWeightsAgree(adj: seq<seq<Edge>>, s: nat, t: nat, d: nat)
    requires UnitWeights(adj)
    ensures IsMinWeight(adj, s, t, d) <==> IsHopDistance(adj, s, t, d)
  {
    forall p | IsPath(adj, p)
      ensures PathWeight(adj, p) == |p| - 1
    {
      UnitPathWeight(adj, p);
    }
  }

  /** The least number of edges is unique, so every query for it answers the same. */
  lemma HopDistanceUnique(adj: seq<seq<Edge>>, s: nat, t: nat, d1: nat, d2: nat)
    requires IsHopDistance(adj, s, t, d1) && IsHopDistance(adj, s, t, d2)
    ensures d1 == d2
  {
  }

  /** The least path weight is unique. */
  lemma MinWeightUnique(adj: seq<seq<Edge>>, s: nat, t: nat, d1: nat, d2: nat)
    requires IsMinWeight(adj, s, t, d1) && IsMinWeight(adj, s, t, d2)
    ensures d1 == d2
  {
  }

  /** A shortest path has as many edges as the hop distance. */
  lemma ShortestPathLength(adj: seq<seq<Edge>>, p: seq<nat>, s: nat, t: nat, d: nat)
    requires IsShortestPath(adj, p, s, t) && IsHopDistance(adj, s, t, d)
    ensures |p| - 1 == d
  {
  }

  /** A lightest path weighs exactly the least weight. */
  lemma LightestPathWeight(adj: seq<seq<Edge>>, p: seq<nat>, s: nat, t: nat, d: nat)
    requires IsLightestPath(adj, p, s, t) && IsMinWeight(adj, s, t, d)
    ensures PathWeight(adj, p) == d
  {
  }
}
