/**
 * All-pairs distances by Floyd–Warshall relaxation, as the repository
 * writes it. The matrix starts at infinity, with 0 on the diagonal, and
 * every edge then overwrites its entry with its weight, so of several
 * parallel edges the last one inserted wins and a self-loop replaces the
 * diagonal 0. Each pass through an intermediate node `k` visits every
 * `(i, j)` in row-major order and lowers `d[i][j]` in place to
 * `d[i][k] + d[j][k]` when that is strictly smaller.
 *
 * The sum reads the distance from `j` to `k` where the textbook algorithm
 * reads the distance from `k` to `j`; it is kept here as written.
 */
module FloydWarshall {
  import opened Options
  import opened Graphs
  import opened Paths
  import opened Estimates

  type Matrix = seq<seq<Estimate>>

  /** An `n` by `n` matrix. */
  predicate Square(d: Matrix, n: nat)
  {
    |d| == n && forall i :: 0 <= i < n ==> |d[i]| == n
  }

  /** No entry of `after` exceeds the same entry of `before`. */
  ghost predicate Below(after: Matrix, before: Matrix)
    requires Square(after, |before|) && Square(before, |before|)
  {
    forall i, j :: 0 <= i < |before| && 0 <= j < |before| ==> AtMost(after[i][j], before[i][j])
  }

  /** The weight of the last edge to `v` in the list, if there is one. */
  function LastWeight(edges: seq<Edge>, v: nat): (r: Option<nat>)
    ensures r.Some? <==> Targets(edges, v)
    ensures r.Some? ==> exists k :: 0 <= k < |edges| && edges[k].node == v && edges[k].weight == r.value &&
                                   forall l :: k < l < |edges| ==> edges[l].node != v
  {
    if edges == [] then None
    else if edges[|edges| - 1].node == v then Some(edges[|edges| - 1].weight)
    else
      var r := LastWeight(edges[..|edges| - 1], v);
      assert forall k :: 0 <= k < |edges| - 1 ==> edges[..|edges| - 1][k] == edges[k];
      r
  }

  /**
   * The entry for `u`, `v` once the first `count` edges of `u` are written:
   * the weight of the last of them that leads to `v`; failing that, 0 on the
   * diagonal and infinity elsewhere.
   */
  function Written(adj: seq<seq<Edge>>, u: nat, count: nat, v: nat): Estimate
    requires u < |adj| && count <= |adj[u]|
  {
    match LastWeight(adj[u][..count], v)
    case Some(w) => Finite(w)
    case None => if u == v then Finite(0) else Infinity
  }

  /** The matrix before any relaxation. */
  function Initial(adj: seq<seq<Edge>>): (d: Matrix)
    ensures Square(d, |adj|)
  {
    seq(|adj|, u requires 0 <= u < |adj| => seq(|adj|, v requires 0 <= v => Written(adj, u, |adj[u]|, v)))
  }

  /** Lines 19-20 for one pair: lower `d[i][j]` to `d[i][k] + d[j][k]` when that is strictly smaller. */
  function Step(d: Matrix, k: nat, i: nat, j: nat): (r: Matrix)
    requires Square(d, |d|) && k < |d| && i < |d| && j < |d|
    ensures Square(r, |d|) && Below(r, d)
    ensures forall a, b :: 0 <= a < |d| && 0 <= b < |d| && (a != i || b != j) ==> r[a][b] == d[a][b]
    ensures r[i][j] == d[i][j] || r[i][j] == Plus(d[i][k], d[j][k])
    ensures LessThan(Plus(d[i][k], d[j][k]), d[i][j]) ==> r[i][j] == Plus(d[i][k], d[j][k])
  {
    var through := Plus(d[i][k], d[j][k]);
    if LessThan(through, d[i][j]) then d[i := d[i][j := through]] else d
  }

  /** The first `j` steps of row `i` in pass `k`. */
  function Cells(d: Matrix, k: nat, i: nat, j: nat): (r: Matrix)
    requires Square(d, |d|) && k < |d| && i < |d| && j <= |d|
    ensures Square(r, |d|) && Below(r, d)
  {
    if j == 0 then d
    else
      var prev := Cells(d, k, i, j - 1);
      Step(prev, k, i, j - 1)
  }

  /** The first `i` rows of pass `k`. */
  function Rows(d: Matrix, k: nat, i: nat): (r: Matrix)
    requires Square(d, |d|) && k < |d| && i <= |d|
    ensures Square(r, |d|) && Below(r, d)
  {
    if i == 0 then d
    else
      var prev := Rows(d, k, i - 1);
      Cells(prev, k, i - 1, |d|)
  }

  /** The first `k` passes. */
  function Passes(d: Matrix, k: nat): (r: Matrix)
    requires Square(d, |d|) && k <= |d|
    ensures Square(r, |d|) && Below(r, d)
  {
    if k == 0 then d
    else
      var prev := Passes(d, k - 1);
      Rows(prev, k - 1, |d|)
  }

  /** A row in which no sum undercuts its entry is left as it was. */
  lemma {:induction false} RowIdle(d: Matrix, k: nat, i: nat, j: nat)
    requires Square(d, |d|) && k < |d| && i < |d| && j <= |d|
    requires forall b :: 0 <= b < j ==> !LessThan(Plus(d[i][k], d[b][k]), d[i][b])
    ensures Cells(d, k, i, j) == d
  {
    if j > 0 {
      RowIdle(d, k, i, j - 1);
    }
  }

  /** The steps of row `i` leave every other row as it was. */
  lemma {:induction false} CellsKeepOtherRows(d: Matrix, k: nat, i: nat, j: nat, a: nat)
    requires Square(d, |d|) && k < |d| && i < |d| && j <= |d| && a < |d| && a != i
    ensures Cells(d, k, i, j)[a] == d[a]
  {
    if j > 0 {
      CellsKeepOtherRows(d, k, i, j - 1, a);
    }
  }

  /** The initial matrix holds the last-inserted edge weight, else 0 on the diagonal, else infinity. */
  lemma InitialEntries(adj: seq<seq<Edge>>, u: nat, v: nat)
    requires u < |adj| && v < |adj|
    ensures Targets(adj[u], v) ==>
              exists k :: 0 <= k < |adj[u]| && adj[u][k].node == v && Initial(adj)[u][v] == Finite(adj[u][k].weight) &&
                          forall l :: k < l < |adj[u]| ==> adj[u][l].node != v
    ensures !Targets(adj[u], v) ==> Initial(adj)[u][v] == if u == v then Finite(0) else Infinity
  {
    assert adj[u][..|adj[u]|] == adj[u];
  }

  /** Relaxation never raises an entry, so a diagonal entry that starts at 0 ends at 0. */
  lemma DiagonalStaysZero(d: Matrix, v: nat)
    requires Square(d, |d|) && v < |d| && d[v][v] == Finite(0)
    ensures Passes(d, |d|)[v][v] == Finite(0)
  {
  }

  /** Lines 9-14 for node `v`: every edge of `v` in turn overwrites its entry with its weight. */
  method WriteEdges(adj: seq<seq<Edge>>, d0: Matrix, v: nat) returns (d: Matrix)
    requires WellFormed(adj) && v < |adj| && Square(d0, |adj|)
    requires forall a, b :: 0 <= a < |adj| && 0 <= b < |adj| ==>
               d0[a][b] == Written(adj, a, if a < v then |adj[a]| else 0, b)
    ensures Square(d, |adj|)
    ensures forall a, b :: 0 <= a < |adj| && 0 <= b < |adj| ==>
              d[a][b] == Written(adj, a, if a <= v then |adj[a]| else 0, b)
  {
    var n := |adj|;
    d := d0;
    for e := 0 to |adj[v]|
      invariant Square(d, n)
      invariant forall a, b :: 0 <= a < n && 0 <= b < n ==>
                  d[a][b] == Written(adj, a, if a < v then |adj[a]| else if a == v then e else 0, b)
    {
      var edge := adj[v][e];
      d := d[v := d[v][edge.node := Finite(edge.weight)]];
      assert adj[v][..e + 1][..e] == adj[v][..e];
    }
  }

  /** Lines 18-22 for one row `i` of pass `k`. */
  method RelaxRow(d0: Matrix, k: nat, i: nat) returns (d: Matrix)
    requires Square(d0, |d0|) && k < |d0| && i < |d0|
    ensures d == Cells(d0, k, i, |d0|)
  {
    d := d0;
    for j := 0 to |d0|
      invariant d == Cells(d0, k, i, j)
    {
      if LessThan(Plus(d[i][k], d[j][k]), d[i][j]) {
        d := d[i := d[i][j := Plus(d[i][k], d[j][k])]];
      }
    }
  }

  /** Lines 17-23 for one intermediate node `k`. */
  method RelaxPass(d0: Matrix, k: nat) returns (d: Matrix)
    requires Square(d0, |d0|) && k < |d0|
    ensures d == Rows(d0, k, |d0|)
  {
    d := d0;
    for i := 0 to |d0|
      invariant d == Rows(d0, k, i)
    {
      d := RelaxRow(d, k, i);
    }
  }

  /** Lines 5-15: the matrix of diagonal zeros, with every edge written over it. */
  method InitialMatrix(adj: seq<seq<Edge>>) returns (d: Matrix)
    requires WellFormed(adj)
    ensures d == Initial(adj)
  {
    var n := |adj|;
    d := seq(n, _ => seq(n, _ => Infinity));

    for v := 0 to n
      invariant Square(d, n)
      invariant forall a, b :: 0 <= a < n && 0 <= b < n ==>
                  d[a][b] == if a == b && a < v then Finite(0) else Infinity
    {
      d := d[v := d[v][v := Finite(0)]];
    }

    for v := 0 to n
      invariant Square(d, n)
      invariant forall a, b :: 0 <= a < n && 0 <= b < n ==>
                  d[a][b] == Written(adj, a, if a < v then |adj[a]| else 0, b)
    {
      d := WriteEdges(adj, d, v);
    }
    forall a | 0 <= a < n
      ensures d[a] == Initial(adj)[a]
    {
    }
  }

  /**
   * `floyd_warshall::all_pairs_distances`: the initial matrix, relaxed
   * through every intermediate node in turn.
   */
  method AllPairsDistances(adj: seq<seq<Edge>>) returns (distances: Matrix)
    requires WellFormed(adj)
    ensures Square(distances, |adj|)
    ensures distances == Passes(Initial(adj), |adj|)
  {
    distances := InitialMatrix(adj);
    for k := 0 to |adj|
      invariant distances == Passes(Initial(adj), k)
    {
      distances := RelaxPass(distances, k);
    }
  }
}

module FloydWarshallExamples {
  import opened Options
  import opened Graphs
  import opened Paths
  import opened Estimates
  import opened FloydWarshall

  /** The matrix of the first example before any pass. */
  lemma TwoWayInitial()
    ensures Initial([[Edge(1, 1)], [Edge(0, 5)]]) == [[Finite(0), Finite(1)], [Finite(5), Finite(0)]]
  {
    var adj := [[Edge(1, 1)], [Edge(0, 5)]];
    var m0 := [[Finite(0), Finite(1)], [Finite(5), Finite(0)]];
    assert adj[0][..1] == [Edge(1, 1)] && adj[1][..1] == [Edge(0, 5)];
    assert LastWeight([Edge(1, 1)], 0) == None && LastWeight([Edge(0, 5)], 1) == None;
    assert Initial(adj)[0] == m0[0] && Initial(adj)[1] == m0[1];
  }

  /**
   * Two nodes whose entries are all finite, 0 on the diagonal, with the
   * entry `a` from 0 to 1 below the entry `b` from 1 to 0: the pass through
   * node 0 changes nothing, and the one through node 1 lowers the entry
   * from 1 to 0 to `d[1][1] + d[0][1] = a`. No entry is ever the sentinel.
   */
  lemma TwoNodePasses(m0: Matrix, a: nat, b: nat)
    requires Square(m0, 2) && a < b
    requires m0[0][0] == Finite(0) && m0[0][1] == Finite(a) && m0[1][0] == Finite(b) && m0[1][1] == Finite(0)
    ensures Passes(m0, 2)[0][1] == Finite(a) && Passes(m0, 2)[1][0] == Finite(a)
  {
    RowIdle(m0, 0, 0, 2);
    RowIdle(m0, 0, 1, 2);
    assert Rows(m0, 0, 1) == m0;
    assert Passes(m0, 1) == m0;
    RowIdle(m0, 1, 0, 2);
    assert Rows(m0, 1, 1) == m0;
    var m1 := m0[1 := m0[1][0 := Finite(a)]];
    assert Cells(m0, 1, 1, 1) == m1;
    assert Cells(m0, 1, 1, 2) == m1;
    assert Passes(m0, 2) == Rows(m0, 1, 2) == m1;
  }

  /** In the first example the only way from 1 to 0 is the edge of weight 5. */
  lemma TwoWayLightest()
    ensures IsMinWeight([[Edge(1, 1)], [Edge(0, 5)]], 1, 0, 5)
  {
    var adj := [[Edge(1, 1)], [Edge(0, 5)]];
    var p := [1, 0];
    assert p[..1] == [1];
    assert PathFromTo(adj, p, 1, 0) && PathWeight(adj, p) == 5;
    forall q | PathFromTo(adj, q, 1, 0)
      ensures PathWeight(adj, q) >= 5
    {
      var u := q[|q| - 2];
      assert HasEdge(adj, u, 0);
    }
  }

  /**
   * With the edges 0 -> 1 of weight 1 and 1 -> 0 of weight 5, the pass
   * through node 1 sets the entry from 1 to 0 to `d[1][1] + d[0][1] = 1`,
   * although every path from 1 to 0 weighs at least 5. Every entry is
   * finite throughout, so no `usize` sum overflows on the way.
   */
  lemma TransposedSum()
    ensures var adj := [[Edge(1, 1)], [Edge(0, 5)]];
            Passes(Initial(adj), 2)[1][0] == Finite(1) && IsMinWeight(adj, 1, 0, 5)
  {
    var adj := [[Edge(1, 1)], [Edge(0, 5)]];
    TwoWayInitial();
    TwoNodePasses(Initial(adj), 1, 5);
    TwoWayLightest();
  }

  /** The largest `usize`, which the source stores for "no path". */
  const UsizeMax: nat := 0xFFFF_FFFF_FFFF_FFFF

  /** The `usize` the source stores for an entry: its value, or the sentinel for infinity. */
  function Stored(e: Estimate): nat
  {
    if e.Finite? then e.value else UsizeMax
  }

  /**
   * When neither node 0 nor node 1 has an edge to node 0, the comparison
   * for the pair (1, 1) in the pass through node 0 adds the entry from 1
   * to 0 to itself while that entry still holds the sentinel, and the
   * `usize` sum exceeds `usize::MAX`.
   */
  lemma SentinelSumOverflows(adj: seq<seq<Edge>>)
    requires |adj| >= 2 && !Targets(adj[0], 0) && !Targets(adj[1], 0)
    ensures var d := Cells(Rows(Initial(adj), 0, 1), 0, 1, 1);
            d[1][0] == Infinity && Stored(d[1][0]) + Stored(d[1][0]) > UsizeMax
  {
    InitialEntries(adj, 0, 0);
    InitialEntries(adj, 1, 0);
    SentinelSurvives(Initial(adj));
  }

  /** With `d[0][0]` at 0 and `d[1][0]` infinite, the entry from 1 to 0 is still infinite at the pair (1, 1) of the pass through 0. */
  lemma SentinelSurvives(m0: Matrix)
    requires Square(m0, |m0|) && |m0| >= 2 && m0[0][0] == Finite(0) && m0[1][0] == Infinity
    ensures Cells(Rows(m0, 0, 1), 0, 1, 1)[1][0] == Infinity
  {
    CellsKeepOtherRows(m0, 0, 0, |m0|, 1);
    assert Rows(m0, 0, 0) == m0;
    var r := Rows(m0, 0, 1);
    assert r == Cells(m0, 0, 0, |m0|);
    assert AtMost(r[0][0], m0[0][0]);
    assert Cells(r, 0, 1, 0) == r;
  }

  /** The matrix of the second example before any pass. */
  lemma ParallelEdgesInitial()
    ensures Initial([[Edge(1, 1), Edge(1, 5)], [Edge(0, 7)]]) == [[Finite(0), Finite(5)], [Finite(7), Finite(0)]]
  {
    var adj := [[Edge(1, 1), Edge(1, 5)], [Edge(0, 7)]];
    var m0 := [[Finite(0), Finite(5)], [Finite(7), Finite(0)]];
    assert adj[0][..2] == adj[0] && adj[1][..1] == adj[1];
    assert adj[0][..1] == [Edge(1, 1)];
    assert LastWeight(adj[0], 0) == None && LastWeight(adj[1], 1) == None;
    assert Initial(adj)[0] == m0[0] && Initial(adj)[1] == m0[1];
  }

  /**
   * With two parallel edges 0 -> 1, of weights 1 and then 5, and an edge
   * 1 -> 0 of weight 7, the entry from 0 to 1 keeps the later weight 5,
   * although the lightest path weighs 1. Every entry is finite throughout.
   */
  lemma LastEdgeWins()
    ensures var adj := [[Edge(1, 1), Edge(1, 5)], [Edge(0, 7)]];
            Passes(Initial(adj), 2)[0][1] == Finite(5) && IsMinWeight(adj, 0, 1, 1)
  {
    var adj := [[Edge(1, 1), Edge(1, 5)], [Edge(0, 7)]];
    ParallelEdgesInitial();
    TwoNodePasses(Initial(adj), 5, 7);
    ParallelEdgesLightest();
  }

  /** In the second example the lightest path from 0 to 1 weighs 1. */
  lemma ParallelEdgesLightest()
    ensures IsMinWeight([[Edge(1, 1), Edge(1, 5)], [Edge(0, 7)]], 0, 1, 1)
  {
    var adj := [[Edge(1, 1), Edge(1, 5)], [Edge(0, 7)]];
    var p := [0, 1];
    assert p[..1] == [0];
    assert PathFromTo(adj, p, 0, 1) && PathWeight(adj, p) == 1;
    forall q | PathFromTo(adj, q, 0, 1)
      ensures PathWeight(adj, q) >= 1
    {
      var u := q[|q| - 2];
      assert HasEdge(adj, u, 1);
    }
  }

  /**
   * A single node with a self-loop of weight 5: the loop overwrites the
   * diagonal 0, and the only pass leaves the 5 there, although the path
   * `[0]` weighs 0.
   */
  lemma SelfLoopReplacesZero()
    ensures var adj := [[Edge(0, 5)]];
            Passes(Initial(adj), 1)[0][0] == Finite(5) && IsMinWeight(adj, 0, 0, 0)
  {
    var adj := [[Edge(0, 5)]];
    var m0 := Initial(adj);
    assert adj[0][..1] == adj[0];
    assert m0[0][0] == Finite(5);
    RowIdle(m0, 0, 0, 1);
    assert Passes(m0, 1) == Rows(m0, 0, 1) == m0;
    assert PathFromTo(adj, [0], 0, 0) && PathWeight(adj, [0]) == 0;
  }
}
