/**
 * The entries of Dijkstra's priority queue: a node with the cost at which it
 * was pushed, ordered by cost and then by node. The queue is a
 * `BinaryHeap<Reverse<NodeCost>>`, a max-heap over the reversed order, so
 * every pop removes the least entry.
 */
module NodeCosts {
  import opened Options

  datatype Ordering = Less | Equal | Greater

  /** The ordering of the same pair taken the other way round. */
  function Flip(o: Ordering): Ordering
  {
    match o
    case Less => Greater
    case Equal => Equal
    case Greater => Less
  }

  /** `usize::cmp`. */
  function CmpNat(a: nat, b: nat): (o: Ordering)
    ensures o == Less <==> a < b
    ensures o == Equal <==> a == b
    ensures o == Greater <==> a > b
  {
    if a < b then Less else if a == b then Equal else Greater
  }

  /** `Ordering::then_with`: the second comparison decides only a tie of the first. */
  function ThenWith(o: Ordering, next: Ordering): Ordering
  {
    if o == Equal then next else o
  }

  datatype NodeCost = NodeCost(node: nat, cost: nat)

  /** `Ord::cmp`: lexicographic on `(cost, node)`. */
  function Cmp(a: NodeCost, b: NodeCost): (o: Ordering)
    ensures o == Less <==> a.cost < b.cost || (a.cost == b.cost && a.node < b.node)
    ensures o == Equal <==> a == b
  {
    ThenWith(CmpNat(a.cost, b.cost), CmpNat(a.node, b.node))
  }

  /** `PartialOrd::partial_cmp`: every pair is comparable, and the answer is the total order's. */
  function PartialCmp(a: NodeCost, b: NodeCost): (o: Option<Ordering>)
    ensures o != None
    ensures o == Some(Less) <==> Cmp(b, a) == Greater
    ensures o == Some(Equal) <==> a == b
  {
    Some(Cmp(a, b))
  }

  /** Comparing the other way round flips the answer. */
  lemma CmpFlip(a: NodeCost, b: NodeCost)
    ensures Cmp(b, a) == Flip(Cmp(a, b))
  {
  }

  /** `Cmp` is transitive, so with `CmpFlip` it is a total order. */
  lemma CmpTransitive(a: NodeCost, b: NodeCost, c: NodeCost)
    requires Cmp(a, b) != Greater && Cmp(b, c) != Greater
    ensures Cmp(a, c) != Greater
    ensures Cmp(a, b) == Less || Cmp(b, c) == Less ==> Cmp(a, c) == Less
  {
  }

  /** `m` is a least entry of the queue. */
  ghost predicate IsMin(m: NodeCost, queue: multiset<NodeCost>)
  {
    m in queue && forall x :: x in queue ==> Cmp(m, x) != Greater
  }

  /** Every non-empty queue has a least entry. */
  lemma {:induction false} MinExists(queue: multiset<NodeCost>)
    requires queue != multiset{}
    ensures exists m :: IsMin(m, queue)
    decreases |queue|
  {
    var y :| y in queue;
    var rest := queue - multiset{y};
    forall x | x in queue && x != y
      ensures x in rest
    {
      assert rest[x] == queue[x];
    }
    if rest == multiset{} {
      assert IsMin(y, queue);
    } else {
      MinExists(rest);
      var m :| IsMin(m, rest);
      if Cmp(y, m) != Greater {
        forall x | x in queue
          ensures Cmp(y, x) != Greater
        {
          if x != y {
            CmpTransitive(y, m, x);
          }
        }
        assert IsMin(y, queue);
      } else {
        CmpFlip(y, m);
        assert IsMin(m, queue);
      }
    }
  }

  /** The least entry is unique, so the pop is determined by the queue's contents. */
  lemma MinUnique(a: NodeCost, b: NodeCost, queue: multiset<NodeCost>)
    requires IsMin(a, queue) && IsMin(b, queue)
    ensures a == b
  {
    CmpFlip(a, b);
  }

  /** `BinaryHeap::<Reverse<NodeCost>>::pop` on a non-empty heap: remove one copy of the least entry. */
  method Pop(queue: multiset<NodeCost>) returns (m: NodeCost, rest: multiset<NodeCost>)
    requires queue != multiset{}
    ensures IsMin(m, queue)
    ensures rest == queue - multiset{m} && |rest| == |queue| - 1
  {
    MinExists(queue);
    m :| m in queue && forall x :: x in queue ==> Cmp(m, x) != Greater;
    rest := queue - multiset{m};
  }
}
