/** The contract of the `Iterator` interface: a cursor over a sorted list. */
module Cursors {
  import opened Ordering

  /** The operations of the interface. */
  datatype Op<K> = SeekToFirst | SeekToLast | Seek(target: K) | Next | Prev

  function LowerBound<K, V>(cmp: (K, K) -> int, xs: seq<(K, V)>, target: K): (p: nat)
    ensures p <= |xs|
    ensures forall i :: 0 <= i < p ==> cmp(xs[i].0, target) < 0
    ensures p < |xs| ==> cmp(xs[p].0, target) >= 0
  {
    if xs == [] || cmp(xs[0].0, target) >= 0 then 0 else 1 + LowerBound(cmp, xs[1..], target)
  }

  lemma {:induction false} LowerBoundIs<K(!new), V(!new)>(cmp: (K, K) -> int, xs: seq<(K, V)>, target: K, p: nat)
    requires TotalOrder(cmp) && StrictlySorted(cmp, xs)
    requires p <= |xs|
    requires p > 0 ==> cmp(xs[p - 1].0, target) < 0
    requires p < |xs| ==> cmp(xs[p].0, target) >= 0
    ensures LowerBound(cmp, xs, target) == p
  {
    hide TotalOrder;
    var q := LowerBound(cmp, xs, target);
    if q < p - 1 {
      Transitive(cmp, xs[q].0, xs[p - 1].0, target);
    }
  }

  lemma {:induction false} BelowLowerBound<K(!new), V(!new)>(cmp: (K, K) -> int, xs: seq<(K, V)>, target: K, j: nat)
    requires TotalOrder(cmp) && StrictlySorted(cmp, xs) && j < |xs|
    ensures j < LowerBound(cmp, xs, target) <==> cmp(xs[j].0, target) < 0
  {
    hide TotalOrder;
    var p := LowerBound(cmp, xs, target);
    if p < j {
      Transitive(cmp, xs[p].0, xs[j].0, target);
    }
  }

  function LastPos(n: nat): nat { if n == 0 then 0 else n - 1 }

  function PrevPos(n: nat, p: nat): nat
    requires p < n
  {
    if p == 0 then n else p - 1
  }

  /** An iterator over `entries`. Positions run from 0 to n, and n is the one invalid position. */
  datatype Cursor<K, V> = Cursor(entries: seq<(K, V)>, pos: nat) {
    predicate Ok() { pos <= |entries| }

    predicate Valid() { pos < |entries| }

    function Key(): K
      requires Valid()
    {
      entries[pos].0
    }

    function Value(): V
      requires Valid()
    {
      entries[pos].1
    }

    function SeekToFirst(): Cursor<K, V> { this.(pos := 0) }

    function SeekToLast(): Cursor<K, V> { this.(pos := LastPos(|entries|)) }

    function Seek(cmp: (K, K) -> int, target: K): Cursor<K, V> { this.(pos := LowerBound(cmp, entries, target)) }

    function Next(): Cursor<K, V>
      requires Valid()
    {
      this.(pos := pos + 1)
    }

    function Prev(): Cursor<K, V>
      requires Valid()
    {
      this.(pos := PrevPos(|entries|, pos))
    }

    /** One operation of a run; Next and Prev leave an invalid cursor alone. */
    function Do(cmp: (K, K) -> int, op: Op<K>): (c: Cursor<K, V>)
      requires Ok()
      ensures c.Ok() && c.entries == entries
    {
      match op
      case SeekToFirst => SeekToFirst()
      case SeekToLast => SeekToLast()
      case Seek(target) => Seek(cmp, target)
      case Next => if Valid() then Next() else this
      case Prev => if Valid() then Prev() else this
    }

    function Current(): Option<(K, V)> { if Valid() then Some(entries[pos]) else None }

    /** What a caller sees after each operation of a run. */
    function Trace(cmp: (K, K) -> int, ops: seq<Op<K>>): seq<Option<(K, V)>>
      requires Ok()
      decreases |ops|
    {
      if ops == [] then []
      else
        var c := Do(cmp, ops[0]);
        [c.Current()] + c.Trace(cmp, ops[1..])
    }
  }
}
