/** The merging iterator: n sorted children behind one cursor (merger.cc). */
module Merger {
  import opened Ordering
  import opened Cursors
  import opened Lists

  /** `all` is the sorted union of `lists`. */
  ghost predicate SortedUnion<K(!new), V(!new)>(cmp: (K, K) -> int, all: seq<(K, V)>, lists: seq<seq<(K, V)>>) {
    && StrictlySorted(cmp, all)
    && (forall i, j :: 0 <= i < |lists| && 0 <= j < |lists[i]| ==> lists[i][j] in all)
    && (forall e :: e in all ==> exists i :: 0 <= i < |lists| && e in lists[i])
  }

  /** Every child is sorted and no key occurs in two children. */
  ghost predicate DistinctSorted<K(!new), V(!new)>(cmp: (K, K) -> int, lists: seq<seq<(K, V)>>) {
    && (forall i :: 0 <= i < |lists| ==> StrictlySorted(cmp, lists[i]))
    && (forall i, j, x, y :: 0 <= i < j < |lists| && 0 <= x < |lists[i]| && 0 <= y < |lists[j]|
          ==> lists[i][x].0 != lists[j][y].0)
  }

  ghost function Insert<K(!new), V(!new)>(cmp: (K, K) -> int, xs: seq<(K, V)>, e: (K, V)): (ys: seq<(K, V)>)
    ensures forall x :: x in ys <==> x == e || x in xs
  {
    if xs == [] then [e]
    else if cmp(e.0, xs[0].0) < 0 then [e] + xs
    else
      var rest := Insert(cmp, xs[1..], e);
      assert xs == [xs[0]] + xs[1..];
      [xs[0]] + rest
  }

  ghost function Sort<K(!new), V(!new)>(cmp: (K, K) -> int, xs: seq<(K, V)>): (ys: seq<(K, V)>)
    ensures forall x :: x in ys <==> x in xs
  {
    if xs == [] then []
    else
      assert xs == [xs[0]] + xs[1..];
      Insert(cmp, Sort(cmp, xs[1..]), xs[0])
  }

  lemma {:induction false} InsertSorts<K(!new), V(!new)>(cmp: (K, K) -> int, xs: seq<(K, V)>, e: (K, V))
    requires TotalOrder(cmp) && StrictlySorted(cmp, xs)
    requires forall x :: x in xs ==> x.0 != e.0
    ensures StrictlySorted(cmp, Insert(cmp, xs, e))
  {
    assert xs != [] ==> xs[0] in xs && (cmp(e.0, xs[0].0) < 0 || cmp(xs[0].0, e.0) < 0);
    hide TotalOrder;
    if xs == [] {
    } else if cmp(e.0, xs[0].0) < 0 {
      forall x | x in xs
        ensures cmp(e.0, x.0) < 0
      {
        Transitive(cmp, e.0, xs[0].0, x.0);
      }
      ConsSorts(cmp, e, xs);
    } else {
      InsertSorts(cmp, xs[1..], e);
      var rest := Insert(cmp, xs[1..], e);
      forall x | x in rest
        ensures cmp(xs[0].0, x.0) < 0
      {
      }
      ConsSorts(cmp, xs[0], rest);
    }
  }

  lemma {:induction false} ConsSorts<K(!new), V(!new)>(cmp: (K, K) -> int, x: (K, V), ys: seq<(K, V)>)
    requires StrictlySorted(cmp, ys)
    requires forall y :: y in ys ==> cmp(x.0, y.0) < 0
    ensures StrictlySorted(cmp, [x] + ys)
  {
  }

  lemma {:induction false} SortSorts<K(!new), V(!new)>(cmp: (K, K) -> int, xs: seq<(K, V)>)
    requires TotalOrder(cmp)
    requires forall i, j :: 0 <= i < j < |xs| ==> xs[i].0 != xs[j].0
    ensures StrictlySorted(cmp, Sort(cmp, xs))
  {
    if xs != [] {
      SortSorts(cmp, xs[1..]);
      InsertSorts(cmp, Sort(cmp, xs[1..]), xs[0]);
    }
  }

  lemma {:induction false} FlattenMembers<T>(lists: seq<seq<T>>, e: T)
    ensures e in Flatten(lists) <==> exists i :: 0 <= i < |lists| && e in lists[i]
  {
    if lists != [] {
      var n := |lists| - 1;
      FlattenMembers(lists[..n], e);
      hide Flatten;
      assert Flatten(lists) == Flatten(lists[..n]) + lists[n] by {
        FlattenAppend(lists[..n], lists[n]);
        assert lists[..n] + [lists[n]] == lists;
      }
      if e in Flatten(lists[..n]) {
        var i :| 0 <= i < n && e in lists[..n][i];
        assert e in lists[i];
      } else if i: nat :| i < n && e in lists[i] {
        assert e in lists[..n][i];
      }
    }
  }

  lemma {:induction false} FlattenDistinct<K(!new), V(!new)>(cmp: (K, K) -> int, lists: seq<seq<(K, V)>>)
    requires TotalOrder(cmp) && DistinctSorted(cmp, lists)
    ensures forall i, j :: 0 <= i < j < |Flatten(lists)| ==> Flatten(lists)[i].0 != Flatten(lists)[j].0
  {
    if lists != [] {
      var n := |lists| - 1;
      var front, last := Flatten(lists[..n]), lists[n];
      FlattenDistinct(cmp, lists[..n]);
      forall i, j | 0 <= i < |front| && 0 <= j < |last|
        ensures front[i].0 != last[j].0
      {
        FlattenMembers(lists[..n], front[i]);
      }
    }
  }

  /** Distinct sorted lists have a sorted union. */
  lemma {:induction false} UnionExists<K(!new), V(!new)>(cmp: (K, K) -> int, lists: seq<seq<(K, V)>>)
      returns (all: seq<(K, V)>)
    requires TotalOrder(cmp) && DistinctSorted(cmp, lists)
    ensures SortedUnion(cmp, all, lists)
  {
    all := Sort(cmp, Flatten(lists));
    FlattenDistinct(cmp, lists);
    SortSorts(cmp, Flatten(lists));
    forall e
      ensures e in all <==> exists i :: 0 <= i < |lists| && e in lists[i]
    {
      FlattenMembers(lists, e);
    }
  }

  /** The rank of an entry is its index in the union; the slot of a rank is the child and index that hold it. */
  datatype Ranking = Ranking(rank: seq<seq<nat>>, slot: seq<(nat, nat)>) {
    ghost predicate Fits<K(!new), V(!new)>(all: seq<(K, V)>, lists: seq<seq<(K, V)>>) {
      && |rank| == |lists|
      && |slot| == |all|
      && (forall i :: 0 <= i < |lists| ==> |rank[i]| == |lists[i]|)
      && (forall i, j :: 0 <= i < |lists| && 0 <= j < |lists[i]| ==>
            rank[i][j] < |all| && all[rank[i][j]] == lists[i][j] && slot[rank[i][j]] == (i, j))
      && (forall i, j, k :: 0 <= i < |lists| && 0 <= j < k < |lists[i]| ==> rank[i][j] < rank[i][k])
      && (forall r :: 0 <= r < |all| ==>
            slot[r].0 < |lists| && slot[r].1 < |lists[slot[r].0]| && rank[slot[r].0][slot[r].1] == r)
    }
  }

  lemma {:induction false} LowerBoundAt<K(!new), V(!new)>(cmp: (K, K) -> int, all: seq<(K, V)>, r: nat)
    requires TotalOrder(cmp) && StrictlySorted(cmp, all) && r < |all|
    ensures LowerBound(cmp, all, all[r].0) == r
  {
    assert r > 0 ==> cmp(all[r - 1].0, all[r].0) < 0;
    LowerBoundIs(cmp, all, all[r].0, r);
  }

  lemma {:induction false} LowerBoundOfMember<K(!new), V(!new)>(cmp: (K, K) -> int, all: seq<(K, V)>, e: (K, V))
    requires TotalOrder(cmp) && StrictlySorted(cmp, all) && e in all
    ensures LowerBound(cmp, all, e.0) < |all| && all[LowerBound(cmp, all, e.0)] == e
  {
    var r :| 0 <= r < |all| && all[r] == e;
    LowerBoundAt(cmp, all, r);
  }

  ghost function RanksIn<K(!new), V(!new)>(cmp: (K, K) -> int, all: seq<(K, V)>, xs: seq<(K, V)>): (ranks: seq<nat>)
    ensures |ranks| == |xs|
    ensures forall j :: 0 <= j < |xs| ==> ranks[j] == LowerBound(cmp, all, xs[j].0)
  {
    seq(|xs|, j requires 0 <= j < |xs| => LowerBound(cmp, all, xs[j].0))
  }

  lemma {:induction false} RanksIncrease<K(!new), V(!new)>(cmp: (K, K) -> int, all: seq<(K, V)>, xs: seq<(K, V)>,
      j: nat, k: nat)
    requires TotalOrder(cmp) && StrictlySorted(cmp, all) && StrictlySorted(cmp, xs)
    requires forall i :: 0 <= i < |xs| ==> xs[i] in all
    requires j < k < |xs|
    ensures LowerBound(cmp, all, xs[j].0) < LowerBound(cmp, all, xs[k].0)
  {
    hide TotalOrder, LowerBound;
    LowerBoundOfMember(cmp, all, xs[j]);
    LowerBoundOfMember(cmp, all, xs[k]);
    PositionsInOrder(cmp, all, LowerBound(cmp, all, xs[j].0), LowerBound(cmp, all, xs[k].0));
  }

  lemma PositionsInOrder<K(!new), V(!new)>(cmp: (K, K) -> int, all: seq<(K, V)>, a: nat, b: nat)
    requires TotalOrder(cmp) && StrictlySorted(cmp, all) && a < |all| && b < |all| && cmp(all[a].0, all[b].0) < 0
    ensures a < b
  {
    SortedAt(cmp, all, b, a);
    hide StrictlySorted;
  }

  lemma SortedAt<K, V>(cmp: (K, K) -> int, all: seq<(K, V)>, a: nat, b: nat)
    requires StrictlySorted(cmp, all) && a < |all| && b < |all|
    ensures a < b ==> cmp(all[a].0, all[b].0) < 0
  {
  }

  lemma {:induction false} FindSlot<K(!new), V(!new)>(cmp: (K, K) -> int, all: seq<(K, V)>, lists: seq<seq<(K, V)>>,
      r: nat)
    returns (i: nat, j: nat)
    requires TotalOrder(cmp) && SortedUnion(cmp, all, lists) && r < |all|
    ensures i < |lists| && j < |lists[i]| && LowerBound(cmp, all, lists[i][j].0) == r
  {
    assert all[r] in all;
    i :| 0 <= i < |lists| && all[r] in lists[i];
    j :| 0 <= j < |lists[i]| && lists[i][j] == all[r];
    LowerBoundAt(cmp, all, r);
  }

  lemma {:induction false} SlotsInvertRanks<K(!new), V(!new)>(cmp: (K, K) -> int, lists: seq<seq<(K, V)>>,
                                                              ranks: seq<seq<nat>>, slots: seq<(nat, nat)>)
    requires DistinctSorted(cmp, lists) && |ranks| == |lists|
    requires forall i :: 0 <= i < |lists| ==> |ranks[i]| == |lists[i]|
    requires forall i, j, k, l ::
      0 <= i < |lists| && 0 <= j < |lists[i]| && 0 <= k < |lists| && 0 <= l < |lists[k]| && ranks[i][j] == ranks[k][l]
      ==> lists[i][j] == lists[k][l]
    requires forall i, j, k :: 0 <= i < |lists| && 0 <= j < k < |lists[i]| ==> ranks[i][j] < ranks[i][k]
    requires forall i, j :: 0 <= i < |lists| && 0 <= j < |lists[i]| ==> ranks[i][j] < |slots|
    requires forall r :: 0 <= r < |slots| ==>
      slots[r].0 < |lists| && slots[r].1 < |lists[slots[r].0]| && ranks[slots[r].0][slots[r].1] == r
    ensures forall i, j :: 0 <= i < |lists| && 0 <= j < |lists[i]| ==> slots[ranks[i][j]] == (i, j)
  {
    hide StrictlySorted;
    forall i, j | 0 <= i < |lists| && 0 <= j < |lists[i]|
      ensures slots[ranks[i][j]] == (i, j)
    {
      var (k, l) := slots[ranks[i][j]];
      assert ranks[k][l] == ranks[i][j];
      assert lists[k][l] == lists[i][j];
      assert k == i;
    }
  }

  /** Every sorted union of distinct sorted lists has a ranking. */
  lemma {:induction false} RankingExists<K(!new), V(!new)>(cmp: (K, K) -> int, all: seq<(K, V)>,
      lists: seq<seq<(K, V)>>)
    returns (rs: Ranking)
    requires TotalOrder(cmp) && SortedUnion(cmp, all, lists)
    requires DistinctSorted(cmp, lists)
    ensures rs.Fits(all, lists)
  {
    hide TotalOrder, StrictlySorted;
    var ranks := seq(|lists|, i requires 0 <= i < |lists| => RanksIn(cmp, all, lists[i]));
    forall i, j | 0 <= i < |lists| && 0 <= j < |lists[i]|
      ensures ranks[i][j] < |all| && all[ranks[i][j]] == lists[i][j]
    {
      LowerBoundOfMember(cmp, all, lists[i][j]);
    }
    forall i, j, k | 0 <= i < |lists| && 0 <= j < k < |lists[i]|
      ensures ranks[i][j] < ranks[i][k]
    {
      RanksIncrease(cmp, all, lists[i], j, k);
    }
    var slots: seq<(nat, nat)> := [];
    while |slots| < |all|
      invariant |slots| <= |all|
      invariant forall r :: 0 <= r < |slots| ==>
        slots[r].0 < |lists| && slots[r].1 < |lists[slots[r].0]| && ranks[slots[r].0][slots[r].1] == r
    {
      var i, j := FindSlot(cmp, all, lists, |slots|);
      slots := slots + [(i, j)];
    }
    SlotsInvertRanks(cmp, lists, ranks, slots);
    rs := Ranking(ranks, slots);
  }

  /** Seeking a child by a key splits its ranks where seeking the union does. */
  lemma {:induction false} SeekSplits<K(!new), V(!new)>(cmp: (K, K) -> int, all: seq<(K, V)>, xs: seq<(K, V)>,
                                                        ranks: seq<nat>, target: K)
    requires TotalOrder(cmp) && StrictlySorted(cmp, all)
    requires |ranks| == |xs|
    requires forall j :: 0 <= j < |xs| ==> ranks[j] < |all| && all[ranks[j]] == xs[j]
    ensures OnOrAfter(ranks, LowerBound(cmp, xs, target), LowerBound(cmp, all, target))
  {
    var p := LowerBound(cmp, xs, target);
    if p > 0 {
      BelowLowerBound(cmp, all, target, ranks[p - 1]);
    }
    if p < |xs| {
      BelowLowerBound(cmp, all, target, ranks[p]);
    }
  }

  lemma {:induction false} SeekChild<K(!new), V(!new)>(cmp: (K, K) -> int, all: seq<(K, V)>, lists: seq<seq<(K, V)>>,
      rs: Ranking, i: nat, target: K)
    requires World(cmp, all, lists, rs) && i < |lists|
    ensures i < |rs.rank| && OnOrAfter(rs.rank[i], LowerBound(cmp, lists[i], target), LowerBound(cmp, all, target))
  {
    hide TotalOrder, StrictlySorted, LowerBound;
    SeekSplits(cmp, all, lists[i], rs.rank[i], target);
  }

  /** p is the first position of rank at least r. */
  ghost predicate OnOrAfter(ranks: seq<nat>, p: nat, r: nat) {
    && p <= |ranks|
    && (p > 0 ==> ranks[p - 1] < r)
    && (p < |ranks| ==> ranks[p] >= r)
  }

  /** p is the last position of rank below r; the invalid position when there is none. */
  ghost predicate JustBefore(ranks: seq<nat>, p: nat, r: nat) {
    && p <= |ranks|
    && if p < |ranks| then ranks[p] < r && (p + 1 < |ranks| ==> ranks[p + 1] >= r)
       else |ranks| > 0 ==> ranks[0] >= r
  }

  datatype Direction = Forward | Reverse

  ghost predicate World<K(!new), V(!new)>(cmp: (K, K) -> int, all: seq<(K, V)>, lists: seq<seq<(K, V)>>, rs: Ranking) {
    TotalOrder(cmp) && StrictlySorted(cmp, all) && rs.Fits(all, lists)
  }

  ghost predicate Walks<K(!new), V(!new)>(children: seq<Cursor<K, V>>, lists: seq<seq<(K, V)>>, rs: Ranking) {
    && |children| == |lists| == |rs.rank|
    && forall i :: 0 <= i < |children| ==>
         children[i].Ok() && children[i].entries == lists[i] && |rs.rank[i]| == |lists[i]|
  }

  ghost predicate AllOnOrAfter<K(!new), V(!new)>(rs: Ranking, children: seq<Cursor<K, V>>, n: nat, r: nat)
    requires n <= |children| == |rs.rank|
  {
    forall i :: 0 <= i < n ==> OnOrAfter(rs.rank[i], children[i].pos, r)
  }

  ghost predicate AllJustBefore<K(!new), V(!new)>(rs: Ranking, children: seq<Cursor<K, V>>, n: nat, r: nat)
    requires n <= |children| == |rs.rank|
  {
    forall i :: 0 <= i < n ==> JustBefore(rs.rank[i], children[i].pos, r)
  }

  /** The current child is the one that owns rank r; the others stand on the far side of r. */
  ghost predicate Around<K(!new), V(!new)>(rs: Ranking, children: seq<Cursor<K, V>>, r: nat, o: nat, d: Direction)
    requires |children| == |rs.rank|
  {
    && r < |rs.slot| && o < |children| && rs.slot[r] == (o, children[o].pos)
    && forall i :: 0 <= i < |children| && i != o ==>
         if d == Forward then OnOrAfter(rs.rank[i], children[i].pos, r) else JustBefore(rs.rank[i], children[i].pos, r)
  }

  ghost function RankAt<K(!new), V(!new)>(rs: Ranking, children: seq<Cursor<K, V>>, i: nat): nat
    requires i < |children| == |rs.rank| && children[i].pos < |rs.rank[i]|
  {
    rs.rank[i][children[i].pos]
  }

  lemma {:induction false} KeysCompareAsRanks<K(!new), V(!new)>(cmp: (K, K) -> int, all: seq<(K, V)>,
      lists: seq<seq<(K, V)>>, rs: Ranking, children: seq<Cursor<K, V>>, i: nat, j: nat)
    requires World(cmp, all, lists, rs) && Walks(children, lists, rs)
    requires i < |children| && j < |children| && children[i].Valid() && children[j].Valid()
    ensures cmp(children[i].Key(), children[j].Key()) < 0 <==> RankAt(rs, children, i) < RankAt(rs, children, j)
    ensures cmp(children[i].Key(), children[j].Key()) > 0 <==> RankAt(rs, children, i) > RankAt(rs, children, j)
  {
    var a, b := RankAt(rs, children, i), RankAt(rs, children, j);
    assert all[a] == lists[i][children[i].pos] && all[b] == lists[j][children[j].pos];
    assert a < b ==> cmp(all[a].0, all[b].0) < 0;
    assert b < a ==> cmp(all[b].0, all[a].0) < 0;
  }

  lemma {:induction false} NotOwner<K(!new), V(!new)>(cmp: (K, K) -> int, all: seq<(K, V)>, lists: seq<seq<(K, V)>>,
      rs: Ranking, children: seq<Cursor<K, V>>, q: nat, o: nat, i: nat)
    requires World(cmp, all, lists, rs) && Walks(children, lists, rs)
    requires i < |children| && i != o && q < |all| && rs.slot[q].0 == o
    requires JustBefore(rs.rank[i], children[i].pos, q + 1)
    ensures JustBefore(rs.rank[i], children[i].pos, q)
  {
    hide TotalOrder, StrictlySorted;
    assert children[i].Valid() ==> rs.slot[RankAt(rs, children, i)] == (i, children[i].pos);
  }

  /** After a forward move: the smallest child owns rank r, or r is the end. */
  lemma {:induction false} SmallestOwns<K(!new), V(!new)>(cmp: (K, K) -> int, all: seq<(K, V)>,
      lists: seq<seq<(K, V)>>, rs: Ranking, children: seq<Cursor<K, V>>, current: Option<nat>, r: nat)
    requires World(cmp, all, lists, rs) && Walks(children, lists, rs) && r <= |all|
    requires AllOnOrAfter(rs, children, |children|, r)
    requires current == None ==> forall k :: 0 <= k < |children| ==> !children[k].Valid()
    requires current.Some? ==>
      && current.value < |children| && children[current.value].Valid()
      && forall k :: 0 <= k < |children| && children[k].Valid()
           ==> RankAt(rs, children, current.value) <= RankAt(rs, children, k)
    ensures current == None <==> r == |all|
    ensures current.Some? ==> Around(rs, children, r, current.value, Forward)
  {
    hide TotalOrder, StrictlySorted;
    if r < |all| {
      var (o, j) := rs.slot[r];
      assert OnOrAfter(rs.rank[o], children[o].pos, r);
      assert children[o].Valid() && RankAt(rs, children, o) == r;
    }
    if current.Some? {
      var s := current.value;
      assert OnOrAfter(rs.rank[s], children[s].pos, r);
      assert rs.slot[RankAt(rs, children, s)] == (s, children[s].pos);
    }
  }

  /** After a backward move: the largest child stands at rank r - 1, and there is one unless r is the beginning. */
  lemma {:induction false} LargestRank<K(!new), V(!new)>(cmp: (K, K) -> int, all: seq<(K, V)>, lists: seq<seq<(K, V)>>,
      rs: Ranking, children: seq<Cursor<K, V>>, current: Option<nat>, r: nat)
    requires World(cmp, all, lists, rs) && Walks(children, lists, rs) && r <= |all|
    requires AllJustBefore(rs, children, |children|, r)
    requires current == None ==> forall k :: 0 <= k < |children| ==> !children[k].Valid()
    requires current.Some? ==>
      && current.value < |children| && children[current.value].Valid()
      && forall k :: 0 <= k < |children| && children[k].Valid()
           ==> RankAt(rs, children, current.value) >= RankAt(rs, children, k)
    ensures current == None <==> r == 0
    ensures current.Some? ==> RankAt(rs, children, current.value) == r - 1
  {
    hide TotalOrder, StrictlySorted;
    if r > 0 {
      var (o, j) := rs.slot[r - 1];
      assert JustBefore(rs.rank[o], children[o].pos, r);
      assert children[o].Valid() && RankAt(rs, children, o) == r - 1;
    }
    if current.Some? {
      assert JustBefore(rs.rank[current.value], children[current.value].pos, r);
    }
  }

  /** After a backward move: the largest child owns rank r - 1, the others stand below it, or r is the beginning. */
  lemma {:induction false} LargestOwns<K(!new), V(!new)>(cmp: (K, K) -> int, all: seq<(K, V)>, lists: seq<seq<(K, V)>>,
      rs: Ranking, children: seq<Cursor<K, V>>, current: Option<nat>, r: nat)
    requires World(cmp, all, lists, rs) && Walks(children, lists, rs) && r <= |all|
    requires AllJustBefore(rs, children, |children|, r)
    requires current == None ==> forall k :: 0 <= k < |children| ==> !children[k].Valid()
    requires current.Some? ==>
      && current.value < |children| && children[current.value].Valid()
      && forall k :: 0 <= k < |children| && children[k].Valid()
           ==> RankAt(rs, children, current.value) >= RankAt(rs, children, k)
    ensures current == None <==> r == 0
    ensures current.Some? ==> Around(rs, children, r - 1, current.value, Reverse)
  {
    hide TotalOrder, StrictlySorted;
    LargestRank(cmp, all, lists, rs, children, current, r);
    if current.Some? {
      var s, q := current.value, r - 1;
      assert rs.slot[RankAt(rs, children, s)] == (s, children[s].pos);
      forall i: nat | i < |children| && i != s
        ensures JustBefore(rs.rank[i], children[i].pos, q)
      {
        NotOwner(cmp, all, lists, rs, children, q, s, i);
      }
    }
  }

  lemma {:induction false} LastIsBeforeEnd<K(!new), V(!new)>(cmp: (K, K) -> int, all: seq<(K, V)>,
      lists: seq<seq<(K, V)>>, rs: Ranking, i: nat)
    requires World(cmp, all, lists, rs) && i < |lists|
    ensures i < |rs.rank| && JustBefore(rs.rank[i], LastPos(|lists[i]|), |all|)
  {
    hide TotalOrder, StrictlySorted;
  }

  /** With the owner of rank r moved one step on, every child is on its first rank above r. */
  lemma {:induction false} PastOwner<K(!new), V(!new)>(cmp: (K, K) -> int, all: seq<(K, V)>, lists: seq<seq<(K, V)>>,
      rs: Ranking, children: seq<Cursor<K, V>>, r: nat, o: nat)
    requires World(cmp, all, lists, rs) && Walks(children, lists, rs) && r < |all|
    requires Around(rs, children, r, o, Forward)
    ensures children[o].Valid()
    ensures var after := children[o := children[o].Next()];
            Walks(after, lists, rs) && AllOnOrAfter(rs, after, |after|, r + 1)
  {
    hide TotalOrder, StrictlySorted;
    assert children[o].Valid();
    var after, q := children[o := children[o].Next()], r + 1;
    forall i: nat | i < |after|
      ensures OnOrAfter(rs.rank[i], after[i].pos, q)
    {
      assert i != o ==> OnOrAfter(rs.rank[i], children[i].pos, r);
      assert children[i].Valid() ==> rs.slot[RankAt(rs, children, i)] == (i, children[i].pos);
    }
  }

  /** With the owner of rank r moved one step back, every child is on its last rank below r. */
  lemma {:induction false} BeforeOwner<K(!new), V(!new)>(cmp: (K, K) -> int, all: seq<(K, V)>, lists: seq<seq<(K, V)>>,
      rs: Ranking, children: seq<Cursor<K, V>>, r: nat, o: nat)
    requires World(cmp, all, lists, rs) && Walks(children, lists, rs) && r < |all|
    requires Around(rs, children, r, o, Reverse)
    ensures children[o].Valid()
    ensures var after := children[o := children[o].Prev()];
            Walks(after, lists, rs) && AllJustBefore(rs, after, |after|, r)
  {
    hide TotalOrder, StrictlySorted;
    assert children[o].Valid();
    var after := children[o := children[o].Prev()];
    forall i: nat | i < |after|
      ensures JustBefore(rs.rank[i], after[i].pos, r)
    {
      assert i != o ==> JustBefore(rs.rank[i], children[i].pos, r);
    }
  }

  /** Where the switch to forward puts a child: after `key`. */
  function SkipPast<K, V>(cmp: (K, K) -> int, child: Cursor<K, V>, key: K): Cursor<K, V> {
    var c := child.Seek(cmp, key);
    if c.Valid() && cmp(key, c.Key()) == 0 then c.Next() else c
  }

  /** Where the switch to reverse puts a child: before `key`. */
  function BackBefore<K, V>(cmp: (K, K) -> int, child: Cursor<K, V>, key: K): Cursor<K, V> {
    var c := child.Seek(cmp, key);
    if c.Valid() then c.Prev() else c.SeekToLast()
  }

  /** Seeking another child by the key at rank r stops on the first rank from r on, and never on that key. */
  lemma {:induction false} SeekOther<K(!new), V(!new)>(cmp: (K, K) -> int, all: seq<(K, V)>, lists: seq<seq<(K, V)>>,
      rs: Ranking, r: nat, i: nat)
    requires World(cmp, all, lists, rs)
    requires r < |all| && i < |lists| && i != rs.slot[r].0
    ensures i < |rs.rank|
    ensures var p := LowerBound(cmp, lists[i], all[r].0);
            OnOrAfter(rs.rank[i], p, r) && (p < |lists[i]| ==> cmp(all[r].0, lists[i][p].0) != 0)
  {
    hide LowerBound, StrictlySorted;
    var key := all[r].0;
    LowerBoundAt(cmp, all, r);
    SeekSplits(cmp, all, lists[i], rs.rank[i], key);
    var p := LowerBound(cmp, lists[i], key);
    if p < |lists[i]| {
      var q := rs.rank[i][p];
      assert all[q] == lists[i][p] && rs.slot[q] == (i, p);
      KeysDiffer(cmp, all, r, q);
    }
  }

  lemma {:induction false} SwitchOther<K(!new), V(!new)>(cmp: (K, K) -> int, all: seq<(K, V)>, lists: seq<seq<(K, V)>>,
      rs: Ranking, children: seq<Cursor<K, V>>, r: nat, o: nat, i: nat)
    requires World(cmp, all, lists, rs) && Walks(children, lists, rs)
    requires r < |all| && o < |children| && i < |children| && i != o && rs.slot[r] == (o, children[o].pos)
    ensures children[o].Valid()
    ensures var c := SkipPast(cmp, children[i], children[o].Key());
            c.Ok() && c.entries == lists[i] && OnOrAfter(rs.rank[i], c.pos, r)
    ensures var c := BackBefore(cmp, children[i], children[o].Key());
            c.Ok() && c.entries == lists[i] && JustBefore(rs.rank[i], c.pos, r)
  {
    hide LowerBound, TotalOrder, StrictlySorted;
    assert all[r] == children[o].entries[children[o].pos];
    SeekOther(cmp, all, lists, rs, r, i);
  }

  lemma {:induction false} KeysDiffer<K(!new), V(!new)>(cmp: (K, K) -> int, all: seq<(K, V)>, a: nat, b: nat)
    requires TotalOrder(cmp) && StrictlySorted(cmp, all) && a < |all| && b < |all| && a != b
    ensures cmp(all[a].0, all[b].0) != 0
  {
    assert cmp(all[if a < b then a else b].0, all[if a < b then b else a].0) < 0;
  }

  ghost function ListsOf<K(!new), V(!new)>(children: seq<Cursor<K, V>>): (ls: seq<seq<(K, V)>>)
    ensures |ls| == |children|
    ensures forall i :: 0 <= i < |children| ==> ls[i] == children[i].entries
  {
    seq(|children|, i requires 0 <= i < |children| => children[i].entries)
  }

  class MergingIterator<K(==,!new), V(==,!new)> {
    const cmp: (K, K) -> int
    var children: seq<Cursor<K, V>>
    var current: Option<nat>
    var direction: Direction

    ghost const all: seq<(K, V)>
    ghost const lists: seq<seq<(K, V)>>
    ghost const rs: Ranking
    ghost var pos: nat

    ghost predicate Shape()
      reads this
    {
      World(cmp, all, lists, rs) && Walks(children, lists, rs)
    }

    ghost predicate Inv()
      reads this
    {
      && Shape()
      && pos <= |all|
      && (current == None <==> pos == |all|)
      && (current.Some? ==> Around(rs, children, pos, current.value, direction))
    }

    method FindSmallest()
      requires Shape()
      modifies `current
      ensures current == None ==> forall k :: 0 <= k < |children| ==> !children[k].Valid()
      ensures current.Some? ==>
        && current.value < |children| && children[current.value].Valid()
        && forall k :: 0 <= k < |children| && children[k].Valid()
             ==> RankAt(rs, children, current.value) <= RankAt(rs, children, k)
    {
      hide TotalOrder, StrictlySorted, World;
      var smallest: Option<nat> := None;
      for i := 0 to |children|
        invariant smallest == None ==> forall k :: 0 <= k < i ==> !children[k].Valid()
        invariant smallest.Some? ==>
          && smallest.value < i && children[smallest.value].Valid()
          && forall k :: 0 <= k < i && children[k].Valid()
               ==> RankAt(rs, children, smallest.value) <= RankAt(rs, children, k)
      {
        var child := children[i];
        if child.Valid() {
          if smallest == None {
            smallest := Some(i);
          } else {
            KeysCompareAsRanks(cmp, all, lists, rs, children, i, smallest.value);
            if cmp(child.Key(), children[smallest.value].Key()) < 0 {
              smallest := Some(i);
            }
          }
        }
      }
      current := smallest;
    }

    method FindLargest()
      requires Shape()
      modifies `current
      ensures current == None ==> forall k :: 0 <= k < |children| ==> !children[k].Valid()
      ensures current.Some? ==>
        && current.value < |children| && children[current.value].Valid()
        && forall k :: 0 <= k < |children| && children[k].Valid()
             ==> RankAt(rs, children, current.value) >= RankAt(rs, children, k)
    {
      hide TotalOrder, StrictlySorted, World;
      var largest: Option<nat> := None;
      for i := |children| downto 0
        invariant largest == None ==> forall k :: i <= k < |children| ==> !children[k].Valid()
        invariant largest.Some? ==>
          && i <= largest.value < |children| && children[largest.value].Valid()
          && forall k :: i <= k < |children| && children[k].Valid()
               ==> RankAt(rs, children, largest.value) >= RankAt(rs, children, k)
      {
        var child := children[i];
        if child.Valid() {
          if largest == None {
            largest := Some(i);
          } else {
            KeysCompareAsRanks(cmp, all, lists, rs, children, i, largest.value);
            if cmp(child.Key(), children[largest.value].Key()) > 0 {
              largest := Some(i);
            }
          }
        }
      }
      current := largest;
    }

    constructor (cmp: (K, K) -> int, children: seq<Cursor<K, V>>)
      requires TotalOrder(cmp) && DistinctSorted(cmp, ListsOf(children))
      requires forall i :: 0 <= i < |children| ==> children[i].Ok()
      ensures Inv() && !Valid() && this.cmp == cmp
      ensures SortedUnion(cmp, View().entries, ListsOf(children))
    {
      ghost var union := UnionExists(cmp, ListsOf(children));
      ghost var ranking := RankingExists(cmp, union, ListsOf(children));
      this.cmp, this.children, this.all, this.lists, this.rs := cmp, children, union, ListsOf(children), ranking;
      current, direction, pos := None, Forward, |union|;
    }

    predicate Valid()
      reads this
    {
      current.Some?
    }

    /** The cursor over the sorted union that this iterator must behave as. */
    ghost function View(): (c: Cursor<K, V>)
      requires Inv()
      reads this
      ensures c.Ok()
    {
      Cursor(all, pos)
    }

    function Current(): (e: Option<(K, V)>)
      requires Inv()
      reads this
      ensures e == View().Current()
    {
      assert current.Some? ==> rs.slot[pos] == (current.value, children[current.value].pos);
      if current.Some? then Some((children[current.value].Key(), children[current.value].Value())) else None
    }

    method SeekToFirst()
      requires Inv()
      modifies this
      ensures Inv() && View() == old(View()).SeekToFirst()
    {
      hide World;
      for i := 0 to |children|
        invariant Shape() && AllOnOrAfter(rs, children, i, 0)
      {
        children := children[i := children[i].SeekToFirst()];
      }
      FindSmallest();
      direction := Forward;
      SmallestOwns(cmp, all, lists, rs, children, current, 0);
      pos := 0;
    }

    method SeekToLast()
      requires Inv()
      modifies this
      ensures Inv() && View() == old(View()).SeekToLast()
    {
      ghost var r := |all|;
      hide World;
      for i := 0 to |children|
        invariant Shape() && AllJustBefore(rs, children, i, r)
      {
        LastIsBeforeEnd(cmp, all, lists, rs, i);
        children := children[i := children[i].SeekToLast()];
      }
      FindLargest();
      direction := Reverse;
      LargestOwns(cmp, all, lists, rs, children, current, r);
      pos := LastPos(r);
    }

    method Seek(target: K)
      requires Inv()
      modifies this
      ensures Inv() && View() == old(View()).Seek(cmp, target)
    {
      hide World, LowerBound;
      ghost var r := LowerBound(cmp, all, target);
      for i := 0 to |children|
        invariant Shape() && AllOnOrAfter(rs, children, i, r)
      {
        SeekChild(cmp, all, lists, rs, i, target);
        children := children[i := children[i].Seek(cmp, target)];
      }
      FindSmallest();
      direction := Forward;
      SmallestOwns(cmp, all, lists, rs, children, current, r);
      pos := r;
    }

    method Next()
      requires Inv() && Valid()
      modifies this
      ensures Inv() && View() == old(View()).Next()
    {
      hide World;
      if direction != Forward {
        SwitchForward();
      }
      PastOwner(cmp, all, lists, rs, children, pos, current.value);
      children := children[current.value := children[current.value].Next()];
      FindSmallest();
      SmallestOwns(cmp, all, lists, rs, children, current, pos + 1);
      pos := pos + 1;
    }

    method Prev()
      requires Inv() && Valid()
      modifies this
      ensures Inv() && View() == old(View()).Prev()
    {
      hide World;
      if direction != Reverse {
        SwitchReverse();
      }
      BeforeOwner(cmp, all, lists, rs, children, pos, current.value);
      children := children[current.value := children[current.value].Prev()];
      FindLargest();
      LargestOwns(cmp, all, lists, rs, children, current, pos);
      pos := PrevPos(|all|, pos);
    }

    method Do(op: Op<K>)
      requires Inv()
      modifies this
      ensures Inv() && View() == old(View()).Do(cmp, op)
    {
      match op {
        case SeekToFirst => SeekToFirst();
        case SeekToLast => SeekToLast();
        case Seek(target) => Seek(target);
        case Next => if Valid() { Next(); }
        case Prev => if Valid() { Prev(); }
      }
    }

    /** Any mixed run of operations shows what the cursor over the union shows. */
    method Run(ops: seq<Op<K>>) returns (seen: seq<Option<(K, V)>>)
      requires Inv()
      modifies this
      ensures Inv() && seen == old(View()).Trace(cmp, ops)
    {
      hide Inv, Cursor.Do;
      seen := [];
      for i := 0 to |ops|
        invariant Inv()
        invariant seen + View().Trace(cmp, ops[i..]) == old(View()).Trace(cmp, ops)
      {
        Do(ops[i]);
        assert ops[i..][1..] == ops[i + 1..];
        seen := seen + [Current()];
      }
    }

    /** Positions the children other than the current one after its key. */
    method SwitchForward()
      requires Inv() && Valid()
      modifies `children, `direction
      ensures Inv() && direction == Forward
    {
      hide World, SkipPast, BackBefore;
      ghost var o := current.value;
      for i := 0 to |children|
        invariant Shape() && |children| == |old(children)| && children[o] == old(children[o])
        invariant forall k :: 0 <= k < i && k != o ==> OnOrAfter(rs.rank[k], children[k].pos, pos)
      {
        if i != current.value {
          SwitchOther(cmp, all, lists, rs, children, pos, o, i);
          children := children[i := SkipPast(cmp, children[i], children[current.value].Key())];
        }
      }
      direction := Forward;
    }

    /** Positions the children other than the current one before its key. */
    method SwitchReverse()
      requires Inv() && Valid()
      modifies `children, `direction
      ensures Inv() && direction == Reverse
    {
      hide World, SkipPast, BackBefore;
      ghost var o := current.value;
      for i := 0 to |children|
        invariant Shape() && |children| == |old(children)| && children[o] == old(children[o])
        invariant forall k :: 0 <= k < i && k != o ==> JustBefore(rs.rank[k], children[k].pos, pos)
      {
        if i != current.value {
          SwitchOther(cmp, all, lists, rs, children, pos, o, i);
          children := children[i := BackBefore(cmp, children[i], children[current.value].Key())];
        }
      }
      direction := Reverse;
    }
  }
}
