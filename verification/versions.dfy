/** Internal keys, their order, and what a snapshot of a sorted run of entries shows (dbformat.cc). */
module Versions {
  import opened Ordering

  /** Sequence numbers have 56 bits, so that a type fits beside them in 64. */
  const MAX_SEQUENCE: nat := 0xFF_FFFF_FFFF_FFFF

  datatype ValueType = Deletion | Value

  datatype InternalKey<+K> = InternalKey(user: K, sequence: nat, kind: ValueType)

  type Entry<+K, +V> = (InternalKey<K>, V)

  /** Sequence and type in one number; a seek uses type Value, the larger one. */
  function Pack(sequence: nat, kind: ValueType): nat {
    sequence * 256 + if kind == Value then 1 else 0
  }

  /** Increasing user key, then decreasing sequence and type. */
  function InternalCompare<K>(ucmp: (K, K) -> int, a: InternalKey<K>, b: InternalKey<K>): int {
    var r := ucmp(a.user, b.user);
    if r != 0 then r
    else
      var anum, bnum := Pack(a.sequence, a.kind), Pack(b.sequence, b.kind);
      if anum > bnum then -1 else if anum < bnum then 1 else 0
  }

  function InternalOrder<K>(ucmp: (K, K) -> int): (InternalKey<K>, InternalKey<K>) -> int {
    (a, b) => InternalCompare(ucmp, a, b)
  }

  lemma {:induction false} InternalOrderIsTotal<K(!new)>(ucmp: (K, K) -> int)
    requires TotalOrder(ucmp)
    ensures TotalOrder(InternalOrder(ucmp))
  {
    var cmp := InternalOrder(ucmp);
    forall a, b
      ensures cmp(a, b) == 0 <==> a == b
    {
      assert Pack(a.sequence, a.kind) == Pack(b.sequence, b.kind) ==> a.sequence == b.sequence && a.kind == b.kind;
    }
  }

  ghost predicate SortedRun<K(!new), V(!new)>(ucmp: (K, K) -> int, xs: seq<Entry<K, V>>) {
    StrictlySorted(InternalOrder(ucmp), xs)
  }

  datatype Answer<+V> = Absent | Deleted | Found(value: V)

  /** The newest entry for `key` that snapshot s can see, in a run sorted newest first. */
  function Find<K(==), V>(xs: seq<Entry<K, V>>, s: nat, key: K): Answer<V> {
    if xs == [] then Absent
    else if xs[0].0.user == key && xs[0].0.sequence <= s then
      if xs[0].0.kind == Value then Found(xs[0].1) else Deleted
    else Find(xs[1..], s, key)
  }

  ghost predicate Visible<K, V>(xs: seq<Entry<K, V>>, s: nat, i: nat)
    requires i < |xs|
  {
    xs[i].0.sequence <= s
  }

  /** Entry i is what snapshot s shows for its user key. */
  ghost predicate Shown<K, V>(xs: seq<Entry<K, V>>, s: nat, i: nat)
    requires i < |xs|
  {
    && Visible(xs, s, i) && xs[i].0.kind == Value
    && forall j :: 0 <= j < i && xs[j].0.user == xs[i].0.user ==> !Visible(xs, s, j)
  }

  /** The user keys and values a snapshot shows among the first n entries. */
  ghost function View<K(!new), V(!new)>(xs: seq<Entry<K, V>>, s: nat, n: nat): (view: seq<(K, V)>)
    requires n <= |xs|
    ensures |view| <= n
  {
    if n == 0 then []
    else
      var view := View(xs, s, n - 1);
      if Shown(xs, s, n - 1) then view + [(xs[n - 1].0.user, xs[n - 1].1)] else view
  }

  /** How many of the first n entries are shown. */
  ghost function Rank<K(!new), V(!new)>(xs: seq<Entry<K, V>>, s: nat, n: nat): nat
    requires n <= |xs|
  {
    |View(xs, s, n)|
  }

  lemma {:induction false} FindIs<K(!new), V(!new)>(xs: seq<Entry<K, V>>, s: nat, i: nat)
    requires i < |xs| && Visible(xs, s, i)
    requires forall j :: 0 <= j < i && xs[j].0.user == xs[i].0.user ==> !Visible(xs, s, j)
    ensures Find(xs, s, xs[i].0.user) == if xs[i].0.kind == Value then Found(xs[i].1) else Deleted
  {
    if i > 0 {
      forall j | 0 <= j < i - 1 && xs[1..][j].0.user == xs[i].0.user
        ensures !Visible(xs[1..], s, j)
      {
        assert xs[1..][j] == xs[j + 1];
        assert !Visible(xs, s, j + 1);
      }
      assert !(xs[0].0.user == xs[i].0.user && xs[0].0.sequence <= s) by {
        assert xs[0].0.user == xs[i].0.user ==> !Visible(xs, s, 0);
      }
      FindIs(xs[1..], s, i - 1);
    }
  }

  lemma {:induction false} FindWitness<K(!new), V(!new)>(xs: seq<Entry<K, V>>, s: nat, key: K) returns (i: nat)
    ensures Find(xs, s, key) == Absent ==> forall j :: 0 <= j < |xs| && xs[j].0.user == key ==> !Visible(xs, s, j)
    ensures Find(xs, s, key) != Absent ==>
      && i < |xs| && xs[i].0.user == key && Visible(xs, s, i)
      && (forall j :: 0 <= j < i && xs[j].0.user == key ==> !Visible(xs, s, j))
  {
    i := 0;
    if xs != [] && !(xs[0].0.user == key && xs[0].0.sequence <= s) {
      var k := FindWitness(xs[1..], s, key);
      i := k + 1;
      forall j | 0 <= j < |xs| && (Find(xs, s, key) == Absent || j < i) && xs[j].0.user == key
        ensures !Visible(xs, s, j)
      {
        if j > 0 {
          assert xs[1..][j - 1] == xs[j];
          assert !Visible(xs[1..], s, j - 1);
        }
      }
    }
  }

  lemma {:induction false} ViewGrows<K(!new), V(!new)>(xs: seq<Entry<K, V>>, s: nat, m: nat, n: nat)
    requires m <= n <= |xs|
    ensures View(xs, s, m) <= View(xs, s, n)
    ensures (forall j :: m <= j < n ==> !Shown(xs, s, j)) ==> View(xs, s, m) == View(xs, s, n)
    decreases n - m
  {
    if m < n {
      ViewGrows(xs, s, m, n - 1);
    }
  }

  /** A shown entry sits in the view at its rank. */
  lemma {:induction false} ShownAtRank<K(!new), V(!new)>(xs: seq<Entry<K, V>>, s: nat, i: nat)
    requires i < |xs| && Shown(xs, s, i)
    ensures Rank(xs, s, i) < Rank(xs, s, |xs|)
    ensures Rank(xs, s, i + 1) == Rank(xs, s, i) + 1
    ensures View(xs, s, |xs|)[Rank(xs, s, i)] == (xs[i].0.user, xs[i].1)
  {
    ViewGrows(xs, s, i + 1, |xs|);
  }

  lemma {:induction false} ViewEntry<K(!new), V(!new)>(xs: seq<Entry<K, V>>, s: nat, n: nat, p: nat) returns (i: nat)
    requires n <= |xs| && p < |View(xs, s, n)|
    ensures i < n && Shown(xs, s, i) && Rank(xs, s, i) == p
    ensures View(xs, s, n)[p] == (xs[i].0.user, xs[i].1)
  {
    if Shown(xs, s, n - 1) && p == |View(xs, s, n - 1)| {
      i := n - 1;
    } else {
      i := ViewEntry(xs, s, n - 1, p);
    }
  }

  /** The view holds exactly the pairs a lookup at the snapshot finds. */
  lemma {:induction false} ViewIsLookup<K(!new), V(!new)>(xs: seq<Entry<K, V>>, s: nat, key: K, value: V)
    ensures (key, value) in View(xs, s, |xs|) <==> Find(xs, s, key) == Found(value)
  {
    if (key, value) in View(xs, s, |xs|) {
      var p :| 0 <= p < |View(xs, s, |xs|)| && View(xs, s, |xs|)[p] == (key, value);
      var i := ViewEntry(xs, s, |xs|, p);
      FindIs(xs, s, i);
    }
    var i := FindWitness(xs, s, key);
    if Find(xs, s, key) == Found(value) {
      FindIs(xs, s, i);
      ShownAtRank(xs, s, i);
    }
  }

  lemma {:induction false} UsersAscend<K(!new), V(!new)>(ucmp: (K, K) -> int, xs: seq<Entry<K, V>>, i: nat, j: nat)
    requires TotalOrder(ucmp) && SortedRun(ucmp, xs) && i <= j < |xs|
    ensures ucmp(xs[i].0.user, xs[j].0.user) <= 0
  {
    if i < j {
      assert InternalOrder(ucmp)(xs[i].0, xs[j].0) < 0;
    }
  }

  /** Entries of one user key are adjacent. */
  lemma {:induction false} UsersAdjacent<K(!new), V(!new)>(ucmp: (K, K) -> int, xs: seq<Entry<K, V>>, i: nat, j: nat,
      k: nat)
    requires TotalOrder(ucmp) && SortedRun(ucmp, xs) && i <= j <= k < |xs|
    requires ucmp(xs[k].0.user, xs[i].0.user) <= 0
    ensures xs[i].0.user == xs[j].0.user == xs[k].0.user
  {
    UsersAscend(ucmp, xs, i, j);
    UsersAscend(ucmp, xs, j, k);
  }

  /** Among the entries of one user key the newer come first. */
  lemma {:induction false} NewestFirst<K(!new), V(!new)>(ucmp: (K, K) -> int, xs: seq<Entry<K, V>>, i: nat, j: nat)
    requires TotalOrder(ucmp) && SortedRun(ucmp, xs) && i < j < |xs| && xs[i].0.user == xs[j].0.user
    ensures xs[i].0.sequence >= xs[j].0.sequence
  {
    assert InternalOrder(ucmp)(xs[i].0, xs[j].0) < 0;
    assert ucmp(xs[i].0.user, xs[j].0.user) == 0;
  }

  /** The view of a sorted run is sorted by user key. */
  lemma {:induction false} ViewIsSorted<K(!new), V(!new)>(ucmp: (K, K) -> int, xs: seq<Entry<K, V>>, s: nat)
    requires TotalOrder(ucmp) && SortedRun(ucmp, xs)
    ensures StrictlySorted(ucmp, View(xs, s, |xs|))
  {
    var view := View(xs, s, |xs|);
    forall p, q | 0 <= p < q < |view|
      ensures ucmp(view[p].0, view[q].0) < 0
    {
      var i := ViewEntry(xs, s, |xs|, p);
      var j := ViewEntry(xs, s, |xs|, q);
      if j <= i {
        ViewGrows(xs, s, j, i);
      }
      UsersAscend(ucmp, xs, i, j);
      assert Visible(xs, s, i);
    }
  }
}
