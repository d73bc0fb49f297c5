/**
 * Floyd–Warshall as it is meant to work: the diagonal is 0, a direct edge
 * enters the matrix only when it is lighter than what is there already, and
 * the pass through `k` lowers `d[i][j]` to `d[i][k] + d[k][j]`. The loops
 * are those of `FloydWarshall.AllPairsDistances`, in the same order and in
 * place, and the result is proved to hold, for every pair, the least weight
 * of a path, or infinity exactly when there is none.
 */
module CanonicalFloydWarshall {
  import opened Graphs
  import opened Paths
  import opened Estimates
  import FloydWarshall

  type Matrix = FloydWarshall.Matrix

  /** Every node strictly inside `p`, that is other than its ends, is below `k`. */
  ghost predicate Inside(p: seq<nat>, k: nat)
  {
    forall m :: 0 < m < |p| - 1 ==> p[m] < k
  }

  /** Every finite entry is the weight of some path through nodes below `k`, or more. */
  ghost predicate Witnessed(adj: seq<seq<Edge>>, d: Matrix, k: nat)
    requires FloydWarshall.Square(d, |adj|)
  {
    forall i, j :: 0 <= i < |adj| && 0 <= j < |adj| && d[i][j].Finite? ==>
      exists p {:trigger PathFromTo(adj, p, i, j)} ::
        PathFromTo(adj, p, i, j) && Inside(p, k) && PathWeight(adj, p) <= d[i][j].value
  }

  /** No path through nodes below `k` weighs less than its entry. */
  ghost predicate Bounded(adj: seq<seq<Edge>>, d: Matrix, k: nat)
    requires FloydWarshall.Square(d, |adj|)
  {
    forall i, j, p {:trigger PathFromTo(adj, p, i, j)} ::
      0 <= i < |adj| && 0 <= j < |adj| && PathFromTo(adj, p, i, j) && Inside(p, k) ==>
        AtMost(d[i][j], Finite(PathWeight(adj, p)))
  }

  /** In pass `k`, the pairs before `(i, j)` in row-major order already bound the paths through `k`. */
  ghost predicate Done(adj: seq<seq<Edge>>, d: Matrix, k: nat, i: nat, j: nat)
    requires FloydWarshall.Square(d, |adj|)
  {
    forall a, b, p {:trigger PathFromTo(adj, p, a, b)} ::
      0 <= a < |adj| && 0 <= b < |adj| && (a < i || (a == i && b < j)) &&
      PathFromTo(adj, p, a, b) && Inside(p, k + 1) ==>
        AtMost(d[a][b], Finite(PathWeight(adj, p)))
  }

  /** The state of pass `k` before the pair `(i, j)`. */
  ghost predicate Relaxing(adj: seq<seq<Edge>>, d: Matrix, k: nat, i: nat, j: nat)
  {
    && FloydWarshall.Square(d, |adj|)
    && k < |adj|
    && Witnessed(adj, d, k + 1)
    && Bounded(adj, d, k)
    && Done(adj, d, k, i, j)
  }

  /** Every entry is the least weight of a path between its nodes, and infinite exactly when there is no path. */
  ghost predicate AllLightest(adj: seq<seq<Edge>>, d: Matrix)
  {
    && FloydWarshall.Square(d, |adj|)
    && forall i, j :: 0 <= i < |adj| && 0 <= j < |adj| ==>
         (d[i][j].Finite? <==> Reachable(adj, i, j)) &&
         (d[i][j].Finite? ==> IsMinWeight(adj, i, j, d[i][j].value))
  }

  /** A prefix of a path is a path, with no new inner nodes. */
  lemma PrefixInside(adj: seq<seq<Edge>>, p: seq<nat>, j: nat, k: nat)
    requires IsPath(adj, p) && Inside(p, k) && 0 < j <= |p|
    ensures IsPath(adj, p[..j]) && Inside(p[..j], k)
  {
    var q := p[..j];
    assert forall m :: 0 <= m < j ==> q[m] == p[m];
  }

  /** A suffix of a path is a path, with no new inner nodes. */
  lemma SuffixInside(adj: seq<seq<Edge>>, p: seq<nat>, m: nat, k: nat)
    requires IsPath(adj, p) && Inside(p, k) && m < |p|
    ensures IsPath(adj, p[m..]) && Inside(p[m..], k)
  {
    var r := p[m..];
    assert forall l :: 0 <= l < |r| ==> r[l] == p[m + l];
  }

  /** Cutting a path at a node splits its weight between the two parts. */
  lemma {:induction false} CutWeight(adj: seq<seq<Edge>>, p: seq<nat>, m: nat)
    requires IsPath(adj, p) && m < |p|
    ensures IsPath(adj, p[..m + 1]) && IsPath(adj, p[m..])
    ensures PathWeight(adj, p[..m + 1]) + PathWeight(adj, p[m..]) == PathWeight(adj, p)
    decreases |p|
  {
    PathSlice(adj, p, 0, m + 1);
    PathSlice(adj, p, m, |p|);
    assert p[0..m + 1] == p[..m + 1] && p[m..|p|] == p[m..];
    if m == |p| - 1 {
      assert p[..m + 1] == p;
    } else {
      var p', s := p[..|p| - 1], p[m..];
      WeightLast(adj, p);
      WeightLast(adj, s);
      CutWeight(adj, p', m);
      CutSlices(p, m);
    }
  }

  /** How the pieces of `p` cut at `m` relate to the pieces of `p` without its last node. */
  lemma CutSlices(p: seq<nat>, m: nat)
    requires m < |p| - 1
    ensures p[..|p| - 1][..m + 1] == p[..m + 1]
    ensures p[m..][..|p| - m - 1] == p[..|p| - 1][m..]
    ensures p[m..][|p| - m - 2] == p[|p| - 2] && p[m..][|p| - m - 1] == p[|p| - 1]
  {
  }

  /** Joining a path to `x` and a path from `x` adds their weights. */
  lemma PathConcat(adj: seq<seq<Edge>>, q: seq<nat>, r: seq<nat>)
    requires IsPath(adj, q) && IsPath(adj, r) && q[|q| - 1] == r[0]
    ensures IsPath(adj, q + r[1..])
    ensures PathWeight(adj, q + r[1..]) == PathWeight(adj, q) + PathWeight(adj, r)
  {
    var p := q + r[1..];
    forall l | 0 <= l < |p| - 1
      ensures HasEdge(adj, p[l], p[l + 1])
    {
      if l < |q| - 1 {
        assert p[l] == q[l] && p[l + 1] == q[l + 1];
      } else {
        assert p[l] == r[l - |q| + 1] && p[l + 1] == r[l - |q| + 2];
      }
    }
    ConcatSlices(q, r);
    CutWeight(adj, p, |q| - 1);
  }

  /** Cutting `q + r[1..]` where `q` ends gives back `q` and `r`. */
  lemma ConcatSlices(q: seq<nat>, r: seq<nat>)
    requires |q| > 0 && |r| > 0 && q[|q| - 1] == r[0]
    ensures (q + r[1..])[..|q|] == q && (q + r[1..])[|q| - 1..] == r
  {
    var p := q + r[1..];
    assert p[|q| - 1..] == [r[0]] + r[1..];
  }

  /** A path to `k` through nodes up to `k` has a shortcut, no heavier, through nodes below `k`. */
  lemma {:induction false} ShortcutTo(adj: seq<seq<Edge>>, p: seq<nat>, i: nat, k: nat) returns (q: seq<nat>)
    requires PathFromTo(adj, p, i, k) && Inside(p, k + 1)
    ensures PathFromTo(adj, q, i, k) && Inside(q, k) && PathWeight(adj, q) <= PathWeight(adj, p)
    decreases |p|
  {
    if Inside(p, k) {
      q := p;
    } else {
      var m :| 0 < m < |p| - 1 && p[m] >= k;
      CutWeight(adj, p, m);
      PrefixInside(adj, p, m + 1, k + 1);
      q := ShortcutTo(adj, p[..m + 1], i, k);
    }
  }

  /** A path from `k` through nodes up to `k` has a shortcut, no heavier, through nodes below `k`. */
  lemma {:induction false} ShortcutFrom(adj: seq<seq<Edge>>, p: seq<nat>, k: nat, j: nat) returns (r: seq<nat>)
    requires PathFromTo(adj, p, k, j) && Inside(p, k + 1)
    ensures PathFromTo(adj, r, k, j) && Inside(r, k) && PathWeight(adj, r) <= PathWeight(adj, p)
    decreases |p|
  {
    if Inside(p, k) {
      r := p;
    } else {
      var m :| 0 < m < |p| - 1 && p[m] >= k;
      CutWeight(adj, p, m);
      SuffixInside(adj, p, m, k + 1);
      r := ShortcutFrom(adj, p[m..], k, j);
    }
  }

  /** A path through `k` splits at `k` into two paths through nodes below `k`, weighing no more together. */
  lemma SplitAt(adj: seq<seq<Edge>>, p: seq<nat>, i: nat, j: nat, k: nat) returns (q: seq<nat>, r: seq<nat>)
    requires PathFromTo(adj, p, i, j) && Inside(p, k + 1) && !Inside(p, k)
    ensures PathFromTo(adj, q, i, k) && Inside(q, k)
    ensures PathFromTo(adj, r, k, j) && Inside(r, k)
    ensures PathWeight(adj, q) + PathWeight(adj, r) <= PathWeight(adj, p)
  {
    var m :| 0 < m < |p| - 1 && p[m] >= k;
    CutWeight(adj, p, m);
    PrefixInside(adj, p, m + 1, k + 1);
    SuffixInside(adj, p, m, k + 1);
    q := ShortcutTo(adj, p[..m + 1], i, k);
    r := ShortcutFrom(adj, p[m..], k, j);
  }

  /** Lowering entries keeps every bound they satisfied. */
  lemma Lowered(adj: seq<seq<Edge>>, d: Matrix, d': Matrix, k: nat, i: nat, j: nat)
    requires FloydWarshall.Square(d, |adj|) && FloydWarshall.Square(d', |adj|)
    requires forall a, b :: 0 <= a < |adj| && 0 <= b < |adj| ==> AtMost(d'[a][b], d[a][b])
    requires Bounded(adj, d, k) && Done(adj, d, k, i, j)
    ensures Bounded(adj, d', k) && Done(adj, d', k, i, j)
  {
    forall a, b, w: nat | 0 <= a < |adj| && 0 <= b < |adj| && AtMost(d[a][b], Finite(w))
      ensures AtMost(d'[a][b], Finite(w))
    {
      AtMostTotal(d'[a][b], d[a][b], Finite(w));
    }
  }

  /** A relaxed entry is still witnessed: the two witnesses joined at `k` make a path through nodes up to `k`. */
  lemma StepWitnessed(adj: seq<seq<Edge>>, d: Matrix, k: nat, i: nat, j: nat, e: Estimate, d': Matrix)
    requires FloydWarshall.Square(d, |adj|) && k < |adj| && i < |adj| && j < |adj|
    requires Witnessed(adj, d, k + 1)
    requires e == d[i][j] || e == Plus(d[i][k], d[k][j])
    requires d' == d[i := d[i][j := e]]
    ensures FloydWarshall.Square(d', |adj|) && Witnessed(adj, d', k + 1)
  {
    forall a, b | 0 <= a < |adj| && 0 <= b < |adj| && d'[a][b].Finite?
      ensures exists p :: PathFromTo(adj, p, a, b) && Inside(p, k + 1) && PathWeight(adj, p) <= d'[a][b].value
    {
      if a != i || b != j {
        assert d'[a][b] == d[a][b];
      } else if e != d[i][j] {
        var q :| PathFromTo(adj, q, i, k) && Inside(q, k + 1) && PathWeight(adj, q) <= d[i][k].value;
        var r :| PathFromTo(adj, r, k, j) && Inside(r, k + 1) && PathWeight(adj, r) <= d[k][j].value;
        JoinInside(adj, q, r, k + 1);
        var p := q + r[1..];
        assert PathFromTo(adj, p, i, j) && Inside(p, k + 1) && PathWeight(adj, p) <= e.value;
      }
    }
  }

  /** Joining two paths whose inner nodes and meeting node lie below `k` gives such a path. */
  lemma JoinInside(adj: seq<seq<Edge>>, q: seq<nat>, r: seq<nat>, k: nat)
    requires IsPath(adj, q) && IsPath(adj, r) && q[|q| - 1] == r[0] < k
    requires Inside(q, k) && Inside(r, k)
    ensures var p := q + r[1..];
            && PathFromTo(adj, p, q[0], r[|r| - 1]) && Inside(p, k)
            && PathWeight(adj, p) == PathWeight(adj, q) + PathWeight(adj, r)
  {
    PathConcat(adj, q, r);
    var p := q + r[1..];
    forall m | 0 < m < |p| - 1
      ensures p[m] < k
    {
      if m >= |q| {
        assert p[m] == r[m - |q| + 1];
      }
    }
  }

  /** After the pair `(i, j)` of pass `k`, every path from `i` to `j` through nodes up to `k` bounds its entry. */
  lemma StepDone(adj: seq<seq<Edge>>, d: Matrix, k: nat, i: nat, j: nat, e: Estimate)
    requires FloydWarshall.Square(d, |adj|) && k < |adj| && i < |adj| && j < |adj|
    requires Bounded(adj, d, k)
    requires AtMost(e, d[i][j]) && AtMost(e, Plus(d[i][k], d[k][j]))
    ensures forall p {:trigger PathFromTo(adj, p, i, j)} ::
              PathFromTo(adj, p, i, j) && Inside(p, k + 1) ==> AtMost(e, Finite(PathWeight(adj, p)))
  {
    forall p | PathFromTo(adj, p, i, j) && Inside(p, k + 1)
      ensures AtMost(e, Finite(PathWeight(adj, p)))
    {
      if Inside(p, k) {
        AtMostTotal(e, d[i][j], Finite(PathWeight(adj, p)));
      } else {
        var q, r := SplitAt(adj, p, i, j, k);
        assert AtMost(d[i][k], Finite(PathWeight(adj, q)));
        assert AtMost(d[k][j], Finite(PathWeight(adj, r)));
        AtMostTotal(e, Plus(d[i][k], d[k][j]), Finite(PathWeight(adj, p)));
      }
    }
  }

  /** One pair of pass `k`: the relaxation keeps the pass's invariant and moves it past `(i, j)`. */
  lemma RelaxStep(adj: seq<seq<Edge>>, d: Matrix, k: nat, i: nat, j: nat, d': Matrix)
    requires Relaxing(adj, d, k, i, j) && i < |adj| && j < |adj|
    requires d' == if LessThan(Plus(d[i][k], d[k][j]), d[i][j]) then d[i := d[i][j := Plus(d[i][k], d[k][j])]] else d
    ensures Relaxing(adj, d', k, i, j + 1)
  {
    var through := Plus(d[i][k], d[k][j]);
    var e := if LessThan(through, d[i][j]) then through else d[i][j];
    if !LessThan(through, d[i][j]) {
      assert d[i][j := e] == d[i];
    }
    StepWitnessed(adj, d, k, i, j, e, d');
    Lowered(adj, d, d', k, i, j);
    StepDone(adj, d, k, i, j, e);
  }

  /** Paths through nodes below `k` also pass only through nodes below `k + 1`. */
  lemma WitnessedGrows(adj: seq<seq<Edge>>, d: Matrix, k: nat)
    requires FloydWarshall.Square(d, |adj|) && Witnessed(adj, d, k)
    ensures Witnessed(adj, d, k + 1)
  {
    forall i, j | 0 <= i < |adj| && 0 <= j < |adj| && d[i][j].Finite?
      ensures exists p {:trigger PathFromTo(adj, p, i, j)} ::
                PathFromTo(adj, p, i, j) && Inside(p, k + 1) && PathWeight(adj, p) <= d[i][j].value
    {
      var p :| PathFromTo(adj, p, i, j) && Inside(p, k) && PathWeight(adj, p) <= d[i][j].value;
      assert Inside(p, k + 1);
    }
  }

  /** The entry for `u`, `v` once the first `count` edges of `u` are considered: 0 on the diagonal, else the lightest of them to `v`. */
  ghost function Lightest(adj: seq<seq<Edge>>, u: nat, count: nat, v: nat): Estimate
    requires u < |adj| && count <= |adj[u]|
  {
    if u == v then Finite(0)
    else if Targets(adj[u][..count], v) then Finite(MinWeight(adj[u][..count], v))
    else Infinity
  }

  /** `MinWeight` is the only weight of an edge to `v` that no other edge to `v` undercuts. */
  lemma MinWeightIs(edges: seq<Edge>, v: nat, w: nat, k: nat)
    requires 0 <= k < |edges| && edges[k].node == v && edges[k].weight == w
    requires forall l :: 0 <= l < |edges| && edges[l].node == v ==> w <= edges[l].weight
    ensures Targets(edges, v) && MinWeight(edges, v) == w
  {
  }

  /** Considering one more edge keeps the lighter of it and the entry. */
  lemma LightestStep(adj: seq<seq<Edge>>, u: nat, e: nat, v: nat)
    requires u < |adj| && e < |adj[u]|
    ensures Lightest(adj, u, e + 1, v) ==
              if adj[u][e].node == v && LessThan(Finite(adj[u][e].weight), Lightest(adj, u, e, v))
              then Finite(adj[u][e].weight) else Lightest(adj, u, e, v)
  {
    var before, after := adj[u][..e], adj[u][..e + 1];
    assert forall l :: 0 <= l < e ==> after[l] == before[l];
    assert after[e] == adj[u][e];
    if u != v {
      if Targets(before, v) {
        var m := MinWeight(before, v);
        var l :| 0 <= l < e && before[l].node == v && before[l].weight == m;
        if adj[u][e].node == v && adj[u][e].weight < m {
          MinWeightIs(after, v, adj[u][e].weight, e);
        } else {
          MinWeightIs(after, v, m, l);
        }
      } else if adj[u][e].node == v {
        MinWeightIs(after, v, adj[u][e].weight, e);
      } else {
        assert !Targets(after, v);
      }
    }
  }

  /** The matrix before any pass: every path with no inner node is witnessed and bounds its entry. */
  lemma InitialLevel(adj: seq<seq<Edge>>, d: Matrix)
    requires WellFormed(adj) && FloydWarshall.Square(d, |adj|)
    requires forall a, b :: 0 <= a < |adj| && 0 <= b < |adj| ==> d[a][b] == Lightest(adj, a, |adj[a]|, b)
    ensures Witnessed(adj, d, 0) && Bounded(adj, d, 0)
  {
    forall a | 0 <= a < |adj|
      ensures adj[a][..|adj[a]|] == adj[a]
    {
    }
    forall a, b | 0 <= a < |adj| && 0 <= b < |adj| && d[a][b].Finite?
      ensures exists p {:trigger PathFromTo(adj, p, a, b)} ::
                PathFromTo(adj, p, a, b) && Inside(p, 0) && PathWeight(adj, p) <= d[a][b].value
    {
      if a == b {
        assert PathFromTo(adj, [a], a, b);
      } else {
        var p := [a, b];
        assert p[..1] == [a];
        assert HasEdge(adj, a, b);
        assert PathFromTo(adj, p, a, b) && PathWeight(adj, p) == MinWeight(adj[a], b);
      }
    }
    forall a, b, p | 0 <= a < |adj| && 0 <= b < |adj| && PathFromTo(adj, p, a, b) && Inside(p, 0)
      ensures AtMost(d[a][b], Finite(PathWeight(adj, p)))
    {
      var second := if |p| > 1 then p[1] else a;
      assert |p| <= 2;
      if a != b && |p| == 2 {
        assert p[..1] == [a];
        assert HasEdge(adj, a, b);
      }
    }
  }

  /** Once every node may be inside, the two bounds give the least path weight. */
  lemma Conclude(adj: seq<seq<Edge>>, d: Matrix)
    requires FloydWarshall.Square(d, |adj|)
    requires Witnessed(adj, d, |adj|) && Bounded(adj, d, |adj|)
    ensures AllLightest(adj, d)
  {
    forall i, j | 0 <= i < |adj| && 0 <= j < |adj|
      ensures d[i][j].Finite? <==> Reachable(adj, i, j)
      ensures d[i][j].Finite? ==> IsMinWeight(adj, i, j, d[i][j].value)
    {
      forall p | PathFromTo(adj, p, i, j)
        ensures AtMost(d[i][j], Finite(PathWeight(adj, p)))
      {
        assert Inside(p, |adj|);
      }
      if d[i][j].Finite? {
        var p :| PathFromTo(adj, p, i, j) && Inside(p, |adj|) && PathWeight(adj, p) <= d[i][j].value;
        assert PathWeight(adj, p) == d[i][j].value;
      }
    }
  }

  /** Lines 10-14, keeping the lighter weight: each edge of `v` lowers its entry when it is lighter. */
  method LightestEdges(adj: seq<seq<Edge>>, d0: Matrix, v: nat) returns (d: Matrix)
    requires WellFormed(adj) && v < |adj| && FloydWarshall.Square(d0, |adj|)
    requires forall a, b :: 0 <= a < |adj| && 0 <= b < |adj| ==>
               d0[a][b] == Lightest(adj, a, if a < v then |adj[a]| else 0, b)
    ensures FloydWarshall.Square(d, |adj|)
    ensures forall a, b :: 0 <= a < |adj| && 0 <= b < |adj| ==>
              d[a][b] == Lightest(adj, a, if a <= v then |adj[a]| else 0, b)
  {
    var n := |adj|;
    d := d0;
    for e := 0 to |adj[v]|
      invariant FloydWarshall.Square(d, n)
      invariant forall a, b :: 0 <= a < n && 0 <= b < n ==>
                  d[a][b] == Lightest(adj, a, if a < v then |adj[a]| else if a == v then e else 0, b)
    {
      var edge := adj[v][e];
      if LessThan(Finite(edge.weight), d[v][edge.node]) {
        d := d[v := d[v][edge.node := Finite(edge.weight)]];
      }
      forall b | 0 <= b < n
        ensures Lightest(adj, v, e + 1, b) == d[v][b]
      {
        LightestStep(adj, v, e, b);
      }
    }
  }

  /** Lines 4-14, keeping the lighter weight: the matrix before any pass. */
  method LightestInitial(adj: seq<seq<Edge>>) returns (d: Matrix)
    requires WellFormed(adj)
    ensures FloydWarshall.Square(d, |adj|)
    ensures Witnessed(adj, d, 0) && Bounded(adj, d, 0)
  {
    var n := |adj|;
    d := seq(n, _ => seq(n, _ => Infinity));

    for v := 0 to n
      invariant FloydWarshall.Square(d, n)
      invariant forall a, b :: 0 <= a < n && 0 <= b < n ==>
                  d[a][b] == if a == b && a < v then Finite(0) else Infinity
    {
      d := d[v := d[v][v := Finite(0)]];
    }

    for v := 0 to n
      invariant FloydWarshall.Square(d, n)
      invariant forall a, b :: 0 <= a < n && 0 <= b < n ==>
                  d[a][b] == Lightest(adj, a, if a < v then |adj[a]| else 0, b)
    {
      d := LightestEdges(adj, d, v);
    }
    InitialLevel(adj, d);
  }

  /** Lines 18-22 for row `i` of pass `k`, with `d[k][j]` in the sum. */
  method RelaxRow(adj: seq<seq<Edge>>, d0: Matrix, k: nat, i: nat) returns (d: Matrix)
    requires Relaxing(adj, d0, k, i, 0) && i < |adj|
    ensures Relaxing(adj, d, k, i, |adj|)
  {
    d := d0;
    for j := 0 to |adj|
      invariant Relaxing(adj, d, k, i, j)
    {
      ghost var before := d;
      if LessThan(Plus(d[i][k], d[k][j]), d[i][j]) {
        d := d[i := d[i][j := Plus(d[i][k], d[k][j])]];
      }
      RelaxStep(adj, before, k, i, j, d);
    }
  }

  /** Lines 17-23 for pass `k`: afterwards every path through nodes up to `k` bounds its entry. */
  method RelaxPass(adj: seq<seq<Edge>>, d0: Matrix, k: nat) returns (d: Matrix)
    requires FloydWarshall.Square(d0, |adj|) && k < |adj|
    requires Witnessed(adj, d0, k) && Bounded(adj, d0, k)
    ensures FloydWarshall.Square(d, |adj|)
    ensures Witnessed(adj, d, k + 1) && Bounded(adj, d, k + 1)
  {
    WitnessedGrows(adj, d0, k);
    d := d0;
    for i := 0 to |adj|
      invariant Relaxing(adj, d, k, i, 0)
    {
      d := RelaxRow(adj, d, k, i);
    }
  }

  /** All-pairs distances with the canonical relaxation: every entry is the least path weight, or infinity when there is no path. */
  method AllPairsDistances(adj: seq<seq<Edge>>) returns (distances: Matrix)
    requires WellFormed(adj)
    ensures AllLightest(adj, distances)
  {
    distances := LightestInitial(adj);
    for k := 0 to |adj|
      invariant FloydWarshall.Square(distances, |adj|)
      invariant Witnessed(adj, distances, k) && Bounded(adj, distances, k)
    {
      distances := RelaxPass(adj, distances, k);
    }
    Conclude(adj, distances);
  }
}
