/**
 * The graph representation shared by every algorithm: nodes are the dense
 * indices 0 .. N-1 and node `u` owns the list of its outgoing edges, in the
 * order in which they were added.
 */
module Graphs {

  /** A directed edge to `node`. Weights are unsigned, so never negative. */
  datatype Edge = Edge(node: nat, weight: nat)

  /** One call of `add_edge`, as remembered by the proof-only log of a graph. */
  datatype Insertion = Insertion(start: nat, end: nat, weight: nat)

  /** The edges that a log of insertions gives node `u`, oldest first. */
  function EdgesFrom(log: seq<Insertion>, u: nat): seq<Edge>
  {
    if log == [] then []
    else (if log[0].start == u then [Edge(log[0].end, log[0].weight)] else []) + EdgesFrom(log[1..], u)
  }

  /** Logging one more insertion appends one edge to its start node and nothing elsewhere. */
  lemma {:induction false} EdgesFromSnoc(log: seq<Insertion>, ins: Insertion, u: nat)
    ensures EdgesFrom(log + [ins], u)
         == if ins.start == u then EdgesFrom(log, u) + [Edge(ins.end, ins.weight)] else EdgesFrom(log, u)
  {
    if log == [] {
      assert log + [ins] == [ins];
    } else {
      assert (log + [ins])[1..] == log[1..] + [ins];
      EdgesFromSnoc(log[1..], ins, u);
    }
  }

  /** Every edge of node `u` comes from an insertion that started at `u`. */
  lemma {:induction false} EdgesFromMember(log: seq<Insertion>, u: nat, e: Edge)
    requires e in EdgesFrom(log, u)
    ensures exists ins :: ins in log && ins.start == u && e == Edge(ins.end, ins.weight)
  {
    if log[0].start == u && e == Edge(log[0].end, log[0].weight) {
      assert log[0] in log;
    } else {
      EdgesFromMember(log[1..], u, e);
      var ins :| ins in log[1..] && ins.start == u && e == Edge(ins.end, ins.weight);
      assert ins in log;
    }
  }

  class Graph {
    var adjacencies: seq<seq<Edge>>
    /** Every insertion made so far, oldest first (proof only). */
    ghost var log: seq<Insertion>

    /** Each adjacency list holds exactly the edges inserted from its node, in insertion order. */
    ghost predicate Valid()
      reads this
    {
      && (forall ins :: ins in log ==> ins.start < |adjacencies|)
      && (forall u :: 0 <= u < |adjacencies| ==> adjacencies[u] == EdgesFrom(log, u))
    }

    /** `Graph::new`: `numberOfNodes` empty adjacency lists. */
    constructor (numberOfNodes: nat)
      ensures Valid() && log == []
      ensures |adjacencies| == numberOfNodes
      ensures forall u :: 0 <= u < numberOfNodes ==> adjacencies[u] == []
    {
      adjacencies := seq(numberOfNodes, _ => []);
      log := [];
    }

    /**
     * `Graph::add_edge`: pushes `Edge(end, weight)` onto the list of `start`.
     * Only `start` is used as an index; `end` is not checked.
     */
    method AddEdge(start: nat, end: nat, weight: nat)
      requires Valid()
      requires start < |adjacencies|
      modifies this
      ensures Valid() && log == old(log) + [Insertion(start, end, weight)]
      ensures |adjacencies| == old(|adjacencies|)
      ensures adjacencies[start] == old(adjacencies[start]) + [Edge(end, weight)]
      ensures forall u :: 0 <= u < |adjacencies| && u != start ==> adjacencies[u] == old(adjacencies[u])
    {
      var e := Edge(end, weight);
      adjacencies := adjacencies[start := adjacencies[start] + [e]];
      log := log + [Insertion(start, end, weight)];
      forall u | 0 <= u < |adjacencies|
        ensures adjacencies[u] == EdgesFrom(log, u)
      {
        EdgesFromSnoc(old(log), Insertion(start, end, weight), u);
      }
    }
  }
}
