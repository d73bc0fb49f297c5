/**
 * The path reconstruction at the end of the BFS, DFS and Dijkstra path
 * queries: follow `previous` from the goal back to the start, collecting
 * nodes into `backwards`, then reverse.
 */
module Backtrack {
  import opened Paths

  /** Rust's `into_iter().rev().collect()`. */
  function Reverse(s: seq<nat>): (r: seq<nat>)
    ensures |r| == |s|
    ensures forall i :: 0 <= i < |s| ==> r[i] == s[|s| - 1 - i]
  {
    if s == [] then [] else Reverse(s[1..]) + [s[0]]
  }

  /**
   * `c` is the walk so far, goal first: every node but the last differs from
   * `start` and is followed by its `previous`, whose rank is strictly lower.
   */
  ghost predicate BackChain(previous: seq<nat>, start: nat, goal: nat, tree: set<nat>, rank: seq<nat>, c: seq<nat>)
  {
    && |c| > 0 && c[0] == goal
    && (forall i :: 0 <= i < |c| ==> c[i] in tree && c[i] < |previous| && c[i] < |rank|)
    && (forall i :: 0 <= i < |c| - 1 ==> c[i] != start && previous[c[i]] == c[i + 1] && rank[c[i + 1]] < rank[c[i]])
  }

  /**
   * The back-walk. `tree` (the nodes whose `previous` entry the search has
   * set, plus `start`) and `rank` (a measure that drops along every
   * `previous` link) exist for the proof only: they show that the walk
   * reaches `start`.
   */
  method WalkBack(previous: seq<nat>, start: nat, goal: nat, ghost tree: set<nat>, ghost rank: seq<nat>)
    returns (path: seq<nat>)
    requires start in tree && goal in tree
    requires forall v :: v in tree ==> v < |previous| && v < |rank|
    requires forall v :: v in tree && v != start ==> previous[v] in tree && rank[previous[v]] < rank[v]
    ensures |path| > 0 && path[0] == start && path[|path| - 1] == goal
    ensures forall i :: 0 <= i < |path| ==> path[i] in tree
    ensures forall i :: 0 < i < |path| ==>
              path[i] != start && previous[path[i]] == path[i - 1] && rank[path[i - 1]] < rank[path[i]]
  {
    var backwards: seq<nat> := [];
    var aux := goal;
    while aux != start
      invariant aux in tree
      invariant BackChain(previous, start, goal, tree, rank, backwards + [aux])
      decreases rank[aux]
    {
      backwards := backwards + [aux];
      aux := previous[aux];
    }
    backwards := backwards + [start];
    path := Reverse(backwards);
  }

  /** Along a path whose rank rises at every step, it rises by at least the number of steps. */
  lemma {:induction false} RisingRanks(path: seq<nat>, rank: seq<nat>)
    requires forall i :: 0 <= i < |path| ==> path[i] < |rank|
    requires forall i :: 0 <= i < |path| - 1 ==> rank[path[i]] < rank[path[i + 1]]
    ensures forall i, j :: 0 <= i <= j < |path| ==> rank[path[j]] >= rank[path[i]] + (j - i)
    ensures NoDuplicates(path)
    decreases |path|
  {
    if |path| > 1 {
      var q := path[..|path| - 1];
      RisingRanks(q, rank);
      forall i, j | 0 <= i <= j < |path|
        ensures rank[path[j]] >= rank[path[i]] + (j - i)
      {
        if j == |path| - 1 && i < j {
          assert rank[q[i]] + (j - 1 - i) <= rank[q[j - 1]];
        } else if j < |path| - 1 {
          assert rank[q[i]] + (j - i) <= rank[q[j]];
        }
      }
    }
  }
}
