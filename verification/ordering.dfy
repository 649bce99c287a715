/** The three-way comparators of the engine and what it means for one to be a total order. */
module Ordering {

  datatype Option<+T> = None | Some(value: T)

  /** `cmp(a, b)` is negative, zero or positive as `a` is before, equal to or after `b`. */
  ghost predicate TotalOrder<K(!new)>(cmp: (K, K) -> int) {
    && (forall a, b :: cmp(a, b) == 0 <==> a == b)
    && (forall a, b :: cmp(a, b) < 0 <==> cmp(b, a) > 0)
    && (forall a, b, c :: cmp(a, b) < 0 && cmp(b, c) < 0 ==> cmp(a, c) < 0)
  }

  ghost predicate StrictlySorted<K, V>(cmp: (K, K) -> int, xs: seq<(K, V)>) {
    forall i, j :: 0 <= i < j < |xs| ==> cmp(xs[i].0, xs[j].0) < 0
  }

  lemma Transitive<K(!new)>(cmp: (K, K) -> int, a: K, b: K, c: K)
    requires TotalOrder(cmp)
    ensures cmp(a, b) < 0 && cmp(b, c) < 0 ==> cmp(a, c) < 0
  {
  }

  lemma Reflexive<K(!new)>(cmp: (K, K) -> int, a: K)
    requires TotalOrder(cmp)
    ensures cmp(a, a) == 0
  {
  }
}
