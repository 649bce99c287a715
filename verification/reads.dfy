/** Point lookups and iterators over the same runs agree (db.cc, versionset.cc). */
module Reads {
  import opened Ordering
  import opened Versions
  import opened Merger

  /** Every entry of a run is newer than the entries of its key in the runs after it. */
  ghost predicate Layered<K, V>(runs: seq<seq<Entry<K, V>>>) {
    forall i, j, m, n :: 0 <= i < j < |runs| && 0 <= m < |runs[i]| && 0 <= n < |runs[j]|
      && runs[i][m].0.user == runs[j][n].0.user
      ==> runs[i][m].0.sequence > runs[j][n].0.sequence
  }

  /** The answer of the first run that knows the key. */
  function Search<K(==), V>(runs: seq<seq<Entry<K, V>>>, s: nat, key: K): Answer<V> {
    if runs == [] then Absent
    else if Find(runs[0], s, key) != Absent then Find(runs[0], s, key)
    else Search(runs[1..], s, key)
  }

  /** A lookup tries the memory table, the one being written out, and the tables, newest first. */
  method Get<K(==), V(==)>(runs: seq<seq<Entry<K, V>>>, s: nat, key: K) returns (a: Answer<V>)
    ensures a == Search(runs, s, key)
  {
    assert runs[0..] == runs;
    for i := 0 to |runs|
      invariant Search(runs, s, key) == Search(runs[i..], s, key)
    {
      assert runs[i..][1..] == runs[i + 1..];
      a := Find(runs[i], s, key);
      if a != Absent {
        return;
      }
    }
    a := Absent;
  }

  lemma {:induction false} SearchRun<K(!new), V(!new)>(runs: seq<seq<Entry<K, V>>>, s: nat, key: K) returns (i: nat)
    ensures Search(runs, s, key) != Absent ==> i < |runs| && Find(runs[i], s, key) == Search(runs, s, key)
    ensures forall j :: 0 <= j < |runs| && (Search(runs, s, key) == Absent || j < i) ==> Find(runs[j], s, key) == Absent
  {
    hide Find;
    i := 0;
    if runs != [] && Find(runs[0], s, key) == Absent {
      var k := SearchRun(runs[1..], s, key);
      i := k + 1;
      forall j | 0 <= j < |runs| && (Search(runs, s, key) == Absent || j < i)
        ensures Find(runs[j], s, key) == Absent
      {
        if j > 0 {
          assert runs[1..][j - 1] == runs[j];
        }
      }
    }
  }

  lemma {:induction false} AbsentMeans<K(!new), V(!new)>(xs: seq<Entry<K, V>>, s: nat, key: K, j: nat)
    requires Find(xs, s, key) == Absent && j < |xs| && xs[j].0.user == key
    ensures !Visible(xs, s, j)
  {
    var i := FindWitness(xs, s, key);
  }

  lemma UnionIndex<K(!new), V(!new)>(cmp: (K, K) -> int, all: seq<(K, V)>, lists: seq<seq<(K, V)>>, i: nat, j: nat)
      returns (p: nat)
    requires SortedUnion(cmp, all, lists) && i < |lists| && j < |lists[i]|
    ensures p < |all| && all[p] == lists[i][j]
  {
    assert lists[i][j] in all;
    p :| 0 <= p < |all| && all[p] == lists[i][j];
  }

  lemma UnionSource<K(!new), V(!new)>(cmp: (K, K) -> int, all: seq<(K, V)>, lists: seq<seq<(K, V)>>, p: nat)
      returns (i: nat, j: nat)
    requires SortedUnion(cmp, all, lists) && p < |all|
    ensures i < |lists| && j < |lists[i]| && lists[i][j] == all[p]
  {
    assert all[p] in all;
    i :| 0 <= i < |lists| && all[p] in lists[i];
    j :| 0 <= j < |lists[i]| && lists[i][j] == all[p];
  }

  /** Entry m of run i, the newest visible one of its key there and in the runs before, is so in the union. */
  lemma {:induction false} NewestInUnion<K(!new), V(!new)>(
    ucmp: (K, K) -> int, runs: seq<seq<Entry<K, V>>>, all: seq<Entry<K, V>>, s: nat, i: nat, m: nat, p: nat, q: nat)
    requires TotalOrder(ucmp) && SortedUnion(InternalOrder(ucmp), all, runs) && Layered(runs)
    requires forall r :: 0 <= r < |runs| ==> SortedRun(ucmp, runs[r])
    requires i < |runs| && m < |runs[i]| && p < |all| && all[p] == runs[i][m] && q < p && all[q].0.user == all[p].0.user
    requires forall j :: 0 <= j < i ==> Find(runs[j], s, all[p].0.user) == Absent
    requires forall n :: 0 <= n < m && runs[i][n].0.user == all[p].0.user ==> !Visible(runs[i], s, n)
    ensures !Visible(all, s, q)
  {
    var j, n := UnionSource(InternalOrder(ucmp), all, runs, q);
    NewestFirst(ucmp, all, q, p);
    assert all[q] != all[p] by {
      assert InternalOrder(ucmp)(all[q].0, all[p].0) < 0;
    }
    hide TotalOrder, StrictlySorted, Find;
    if j < i {
      AbsentMeans(runs[j], s, all[p].0.user, n);
    } else if j == i {
      if m < n {
        SameOrder(ucmp, runs[i], all, m, n, p, q);
      }
    }
  }

  /** Two entries keep their order between a run and the union. */
  lemma SameOrder<K(!new), V(!new)>(
    ucmp: (K, K) -> int, run: seq<Entry<K, V>>, all: seq<Entry<K, V>>, m: nat, n: nat, p: nat, q: nat)
    requires TotalOrder(ucmp) && SortedRun(ucmp, run) && SortedRun(ucmp, all)
    requires m < n < |run| && p < |all| && q < |all| && run[m] == all[p] && run[n] == all[q]
    ensures p < q
  {
    InternalOrderIsTotal(ucmp);
    assert InternalOrder(ucmp)(run[m].0, run[n].0) < 0;
  }

  /** Searching the runs one after the other finds what the sorted union of all of them holds. */
  lemma {:induction false} SearchIsFind<K(!new), V(!new)>(
    ucmp: (K, K) -> int, runs: seq<seq<Entry<K, V>>>, all: seq<Entry<K, V>>, s: nat, key: K)
    requires TotalOrder(ucmp) && SortedUnion(InternalOrder(ucmp), all, runs) && Layered(runs)
    requires forall r :: 0 <= r < |runs| ==> SortedRun(ucmp, runs[r])
    ensures Search(runs, s, key) == Find(all, s, key)
  {
    hide TotalOrder, StrictlySorted, Find, Search, Layered;
    var i := SearchRun(runs, s, key);
    if Search(runs, s, key) == Absent {
      var p := FindWitness(all, s, key);
      if Find(all, s, key) != Absent {
        var j, n := UnionSource(InternalOrder(ucmp), all, runs, p);
        AbsentMeans(runs[j], s, key, n);
      }
    } else {
      var m := FindWitness(runs[i], s, key);
      FindIs(runs[i], s, m);
      var p := UnionIndex(InternalOrder(ucmp), all, runs, i, m);
      forall q | 0 <= q < p && all[q].0.user == all[p].0.user
        ensures !Visible(all, s, q)
      {
        NewestInUnion(ucmp, runs, all, s, i, m, p, q);
      }
      FindIs(all, s, p);
    }
  }

  /**
   * An iterator over the merged runs shows a key with a value exactly if a lookup at the same snapshot
   * finds that value.
   */
  lemma {:induction false} IteratorAgreesWithGet<K(!new), V(!new)>(
    ucmp: (K, K) -> int, runs: seq<seq<Entry<K, V>>>, all: seq<Entry<K, V>>, s: nat, key: K, value: V)
    requires TotalOrder(ucmp) && SortedUnion(InternalOrder(ucmp), all, runs) && Layered(runs)
    requires forall r :: 0 <= r < |runs| ==> SortedRun(ucmp, runs[r])
    ensures (key, value) in View(all, s, |all|) <==> Search(runs, s, key) == Found(value)
  {
    hide TotalOrder, StrictlySorted, Find, Search, Layered, View;
    SearchIsFind(ucmp, runs, all, s, key);
    ViewIsLookup(all, s, key, value);
  }
}
