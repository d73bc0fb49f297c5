/**
 * Costs and distances that may be infinite. The source uses `usize::MAX`
 * for "no path yet"; here it is a value of its own, so that adding to it
 * never overflows.
 */
module Estimates {
  datatype Estimate = Finite(value: nat) | Infinity

  /** Addition, with infinity absorbing. */
  function Plus(a: Estimate, b: Estimate): (r: Estimate)
    ensures r.Finite? <==> a.Finite? && b.Finite?
    ensures r.Finite? ==> r.value == a.value + b.value
  {
    if a.Finite? && b.Finite? then Finite(a.value + b.value) else Infinity
  }

  /** The strict order: every finite value lies below infinity, and infinity below nothing. */
  predicate LessThan(a: Estimate, b: Estimate)
  {
    a.Finite? && (b.Infinity? || a.value < b.value)
  }

  predicate AtMost(a: Estimate, b: Estimate)
  {
    !LessThan(b, a)
  }

  /** `AtMost` is a total order. */
  lemma AtMostTotal(a: Estimate, b: Estimate, c: Estimate)
    ensures AtMost(a, a)
    ensures AtMost(a, b) && AtMost(b, a) ==> a == b
    ensures AtMost(a, b) && AtMost(b, c) ==> AtMost(a, c)
    ensures AtMost(a, b) || AtMost(b, a)
  {
  }
}
