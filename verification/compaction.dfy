/** Compaction: which entries a merge of two levels may drop (db.cc, versionset.cc). */
module Compactions {
  import opened Ordering
  import opened Cursors
  import opened Lists
  import opened Versions

  /** A table of a deeper level, by the range of its user keys. */
  datatype File<K> = File(smallest: K, largest: K)

  predicate Covers<K>(ucmp: (K, K) -> int, f: File<K>, key: K) {
    ucmp(f.smallest, key) <= 0 && ucmp(key, f.largest) <= 0
  }

  /** The tables of a level follow each other; a user key may end one and start the next. */
  predicate SortedFiles<K>(ucmp: (K, K) -> int, files: seq<File<K>>) {
    && (forall f :: 0 <= f < |files| ==> ucmp(files[f].smallest, files[f].largest) <= 0)
    && (forall f, g :: 0 <= f < g < |files| ==> ucmp(files[f].largest, files[g].smallest) <= 0)
  }

  ghost predicate OutsideLevel<K>(ucmp: (K, K) -> int, files: seq<File<K>>, key: K) {
    forall f :: 0 <= f < |files| ==> !Covers(ucmp, files[f], key)
  }

  /** No table below the compaction can hold the key. */
  ghost predicate IsBase<K>(ucmp: (K, K) -> int, levels: seq<seq<File<K>>>, key: K) {
    forall l :: 0 <= l < |levels| ==> OutsideLevel(ucmp, levels[l], key)
  }

  /** That is, the key is before or behind every table. */
  lemma IsBaseIff<K(!new)>(ucmp: (K, K) -> int, levels: seq<seq<File<K>>>, key: K)
    requires TotalOrder(ucmp)
    ensures IsBase(ucmp, levels, key) <==>
      forall l, f :: 0 <= l < |levels| && 0 <= f < |levels[l]| ==>
        ucmp(key, levels[l][f].smallest) < 0 || ucmp(levels[l][f].largest, key) < 0
  {
    hide TotalOrder;
    forall l, f | 0 <= l < |levels| && 0 <= f < |levels[l]|
      ensures Covers(ucmp, levels[l][f], key) <==>
        !(ucmp(key, levels[l][f].smallest) < 0 || ucmp(levels[l][f].largest, key) < 0)
    {
      AtMostTransitive(ucmp, key, levels[l][f].smallest, key);
      AtMostTransitive(ucmp, levels[l][f].largest, key, levels[l][f].largest);
    }
    assert forall l :: 0 <= l < |levels| ==> (OutsideLevel(ucmp, levels[l], key) <==>
      forall f :: 0 <= f < |levels[l]| ==> !Covers(ucmp, levels[l][f], key));
  }

  ghost predicate Beyond<K>(ucmp: (K, K) -> int, files: seq<File<K>>, ptr: nat, key: K) {
    && ptr <= |files|
    && forall f :: 0 <= f < ptr ==> ucmp(files[f].largest, key) < 0
  }

  lemma {:induction false} AtMostTransitive<K(!new)>(ucmp: (K, K) -> int, a: K, b: K, c: K)
    requires TotalOrder(ucmp)
    ensures ucmp(a, b) <= 0 && ucmp(b, c) <= 0 ==> ucmp(a, c) <= 0
    ensures ucmp(a, b) < 0 && ucmp(b, c) <= 0 ==> ucmp(a, c) < 0
    ensures ucmp(a, b) <= 0 && ucmp(b, c) < 0 ==> ucmp(a, c) < 0
    ensures ucmp(a, b) < 0 <==> ucmp(b, a) > 0
  {
  }

  /** A key before the table at the pointer is in no table of the level. */
  lemma {:induction false} StopsEarly<K(!new)>(ucmp: (K, K) -> int, files: seq<File<K>>, ptr: nat, key: K)
    requires TotalOrder(ucmp) && SortedFiles(ucmp, files) && Beyond(ucmp, files, ptr, key)
    requires ptr < |files| ==> ucmp(key, files[ptr].largest) <= 0 && ucmp(key, files[ptr].smallest) < 0
    ensures OutsideLevel(ucmp, files, key)
  {
    hide TotalOrder;
    forall f | 0 <= f < |files|
      ensures !Covers(ucmp, files[f], key)
    {
      if f < ptr {
        AtMostTransitive(ucmp, files[f].largest, key, key);
      } else if f == ptr {
        AtMostTransitive(ucmp, key, files[f].smallest, key);
      } else {
        AtMostTransitive(ucmp, files[ptr].smallest, files[ptr].largest, files[f].smallest);
        AtMostTransitive(ucmp, key, files[ptr].smallest, files[f].smallest);
        AtMostTransitive(ucmp, key, files[f].smallest, key);
      }
    }
  }

  lemma {:induction false} BeyondLater<K(!new)>(ucmp: (K, K) -> int, files: seq<File<K>>, ptr: nat, key: K, later: K)
    requires TotalOrder(ucmp) && Beyond(ucmp, files, ptr, key) && ucmp(key, later) <= 0
    ensures Beyond(ucmp, files, ptr, later)
  {
    hide TotalOrder;
    forall f | 0 <= f < ptr
      ensures ucmp(files[f].largest, later) < 0
    {
      AtMostTransitive(ucmp, files[f].largest, key, later);
    }
  }

  lemma BeyondNone<K>(ucmp: (K, K) -> int, files: seq<File<K>>, key: K)
    ensures Beyond(ucmp, files, 0, key)
  {
  }

  // ----- What may be dropped -----

  /** A newer entry for the same user key is already visible at the smallest snapshot. */
  ghost predicate Overwritten<K, V>(xs: seq<Entry<K, V>>, snapshot: nat, i: nat)
    requires i < |xs|
  {
    exists j :: 0 <= j < i && xs[j].0.user == xs[i].0.user && xs[j].0.sequence <= snapshot
  }

  ghost predicate Dropped<K, V>(ucmp: (K, K) -> int, levels: seq<seq<File<K>>>, xs: seq<Entry<K, V>>, snapshot: nat,
      i: nat)
    requires i < |xs|
  {
    || Overwritten(xs, snapshot, i)
    || (xs[i].0.kind == Deletion && xs[i].0.sequence <= snapshot && IsBase(ucmp, levels, xs[i].0.user))
  }

  ghost function Kept<K(!new), V>(
    ucmp: (K, K) -> int, levels: seq<seq<File<K>>>, xs: seq<Entry<K, V>>, snapshot: nat,
    n: nat): (kept: seq<Entry<K, V>>)
    requires n <= |xs|
    ensures |kept| <= n
  {
    if n == 0 then []
    else
      var kept := Kept(ucmp, levels, xs, snapshot, n - 1);
      if Dropped(ucmp, levels, xs, snapshot, n - 1) then kept else kept + [xs[n - 1]]
  }

  lemma {:induction false} KeptGrows<K(!new), V>(
    ucmp: (K, K) -> int, levels: seq<seq<File<K>>>, xs: seq<Entry<K, V>>, snapshot: nat, m: nat, n: nat)
    requires m <= n <= |xs|
    ensures Kept(ucmp, levels, xs, snapshot, m) <= Kept(ucmp, levels, xs, snapshot, n)
    decreases n - m
  {
    hide Dropped;
    if m < n {
      KeptGrows(ucmp, levels, xs, snapshot, m, n - 1);
    }
  }

  /** Every kept entry is an input, and kept entries keep their order. */
  lemma {:induction false} KeptEntry<K(!new), V>(
    ucmp: (K, K) -> int, levels: seq<seq<File<K>>>, xs: seq<Entry<K, V>>, snapshot: nat, n: nat, p: nat)
    returns (i: nat)
    requires n <= |xs| && p < |Kept(ucmp, levels, xs, snapshot, n)|
    ensures i < n && !Dropped(ucmp, levels, xs, snapshot, i)
    ensures p == |Kept(ucmp, levels, xs, snapshot, i)| && Kept(ucmp, levels, xs, snapshot, n)[p] == xs[i]
  {
    hide Dropped;
    if !Dropped(ucmp, levels, xs, snapshot, n - 1) && p == |Kept(ucmp, levels, xs, snapshot, n - 1)| {
      i := n - 1;
    } else {
      i := KeptEntry(ucmp, levels, xs, snapshot, n - 1, p);
    }
  }

  lemma {:induction false} KeptIndex<K(!new), V>(
    ucmp: (K, K) -> int, levels: seq<seq<File<K>>>, xs: seq<Entry<K, V>>, snapshot: nat, i: nat)
    requires i < |xs| && !Dropped(ucmp, levels, xs, snapshot, i)
    ensures var kept, p := Kept(ucmp, levels, xs, snapshot, |xs|), |Kept(ucmp, levels, xs, snapshot, i)|;
      p < |kept| && kept[p] == xs[i]
  {
    hide Dropped;
    KeptGrows(ucmp, levels, xs, snapshot, i + 1, |xs|);
  }

  /** The order of two kept entries is their order in the input. */
  lemma {:induction false} KeptOrder<K(!new), V>(
    ucmp: (K, K) -> int, levels: seq<seq<File<K>>>, xs: seq<Entry<K, V>>, snapshot: nat, p: nat, q: nat)
    returns (i: nat, j: nat)
    requires p < q < |Kept(ucmp, levels, xs, snapshot, |xs|)|
    ensures i < j < |xs|
    ensures Kept(ucmp, levels, xs, snapshot, |xs|)[p] == xs[i] && Kept(ucmp, levels, xs, snapshot, |xs|)[q] == xs[j]
  {
    hide Dropped;
    i := KeptEntry(ucmp, levels, xs, snapshot, |xs|, p);
    j := KeptEntry(ucmp, levels, xs, snapshot, |xs|, q);
    if j <= i {
      KeptGrows(ucmp, levels, xs, snapshot, j, i);
    }
  }

  lemma {:induction false} KeptIsSorted<K(!new), V(!new)>(
    ucmp: (K, K) -> int, levels: seq<seq<File<K>>>, xs: seq<Entry<K, V>>, snapshot: nat)
    requires SortedRun(ucmp, xs)
    ensures SortedRun(ucmp, Kept(ucmp, levels, xs, snapshot, |xs|))
  {
    hide Dropped, Kept;
    var kept := Kept(ucmp, levels, xs, snapshot, |xs|);
    forall p, q | 0 <= p < q < |kept|
      ensures InternalOrder(ucmp)(kept[p].0, kept[q].0) < 0
    {
      var i, j := KeptOrder(ucmp, levels, xs, snapshot, p, q);
      assert InternalOrder(ucmp)(xs[i].0, xs[j].0) < 0;
    }
  }

  // ----- What a reader sees -----

  /** A read looks at the newer part first; a deletion there ends the search with nothing. */
  function Below<V>(newer: Answer<V>, older: Answer<V>): Answer<V> {
    if newer == Absent then older else newer
  }

  function Seen<V>(a: Answer<V>): Option<V> {
    if a.Found? then Some(a.value) else None
  }

  /** The deeper entries are inside the tables of the deeper levels. */
  ghost predicate InFiles<K, V>(ucmp: (K, K) -> int, levels: seq<seq<File<K>>>, deeper: seq<Entry<K, V>>) {
    forall d :: 0 <= d < |deeper| ==>
      exists l, f :: 0 <= l < |levels| && 0 <= f < |levels[l]|
        && ucmp(levels[l][f].smallest, deeper[d].0.user) <= 0 && ucmp(deeper[d].0.user, levels[l][f].largest) <= 0
  }

  lemma InFilesIsNotBase<K, V>(
    ucmp: (K, K) -> int, levels: seq<seq<File<K>>>, deeper: seq<Entry<K, V>>, d: nat)
    requires InFiles(ucmp, levels, deeper) && d < |deeper|
    ensures !IsBase(ucmp, levels, deeper[d].0.user)
  {
    var key := deeper[d].0.user;
    var l, f :| 0 <= l < |levels| && 0 <= f < |levels[l]|
      && ucmp(levels[l][f].smallest, key) <= 0 && ucmp(key, levels[l][f].largest) <= 0;
    assert Covers(ucmp, levels[l][f], key);
  }

  lemma {:induction false} NothingFound<K(!new), V(!new)>(xs: seq<Entry<K, V>>, s: nat, key: K)
    requires forall j :: 0 <= j < |xs| && xs[j].0.user == key ==> !Visible(xs, s, j)
    ensures Find(xs, s, key) == Absent
  {
    var i := FindWitness(xs, s, key);
  }

  /** The entry a snapshot sees is dropped only if it is a deletion that hides nothing. */
  lemma {:induction false} SeenIsKept<K(!new), V(!new)>(
    ucmp: (K, K) -> int, levels: seq<seq<File<K>>>, xs: seq<Entry<K, V>>, snapshot: nat, s: nat, i: nat)
    requires snapshot <= s && i < |xs| && Visible(xs, s, i) && !Dropped(ucmp, levels, xs, snapshot, i)
    requires forall j :: 0 <= j < i && xs[j].0.user == xs[i].0.user ==> !Visible(xs, s, j)
    ensures Find(Kept(ucmp, levels, xs, snapshot, |xs|), s, xs[i].0.user) == Find(xs, s, xs[i].0.user)
  {
    hide Dropped, Kept, Find;
    var kept, p := Kept(ucmp, levels, xs, snapshot, |xs|), |Kept(ucmp, levels, xs, snapshot, i)|;
    KeptIndex(ucmp, levels, xs, snapshot, i);
    forall q | 0 <= q < p && kept[q].0.user == kept[p].0.user
      ensures !Visible(kept, s, q)
    {
      var j := KeptEntry(ucmp, levels, xs, snapshot, |xs|, q);
      if i <= j {
        KeptGrows(ucmp, levels, xs, snapshot, i, j);
      }
      assert !Visible(xs, s, j);
    }
    FindIs(kept, s, p);
    FindIs(xs, s, i);
  }

  /** Nothing of the key is kept that the snapshot could see, when what it saw was dropped. */
  lemma {:induction false} SeenIsDropped<K(!new), V(!new)>(
    ucmp: (K, K) -> int, levels: seq<seq<File<K>>>, xs: seq<Entry<K, V>>, snapshot: nat, s: nat, i: nat)
    requires snapshot <= s && i < |xs| && Visible(xs, s, i) && Dropped(ucmp, levels, xs, snapshot, i)
    requires forall j :: 0 <= j < i && xs[j].0.user == xs[i].0.user ==> !Visible(xs, s, j)
    ensures xs[i].0.kind == Deletion && IsBase(ucmp, levels, xs[i].0.user)
    ensures Find(Kept(ucmp, levels, xs, snapshot, |xs|), s, xs[i].0.user) == Absent
  {
    hide Kept, Find, IsBase;
    var key, kept := xs[i].0.user, Kept(ucmp, levels, xs, snapshot, |xs|);
    assert !Overwritten(xs, snapshot, i) by {
      assert forall j :: 0 <= j < i && xs[j].0.user == xs[i].0.user ==> !Visible(xs, s, j);
    }
    assert forall j :: i < j < |xs| && xs[j].0.user == key ==> Overwritten(xs, snapshot, j);
    forall q | 0 <= q < |kept| && kept[q].0.user == key
      ensures !Visible(kept, s, q)
    {
      var j := KeptEntry(ucmp, levels, xs, snapshot, |xs|, q);
      if j < i {
        assert !Visible(xs, s, j);
      }
    }
    NothingFound(kept, s, key);
  }

  /**
   * At every snapshot not older than the smallest one, a read of the outputs and then of the deeper levels
   * sees what a read of the inputs and then of the deeper levels saw.
   */
  lemma {:induction false} ReadsPreserved<K(!new), V(!new)>(
    ucmp: (K, K) -> int, levels: seq<seq<File<K>>>, xs: seq<Entry<K, V>>, deeper: seq<Entry<K, V>>,
    snapshot: nat, s: nat, key: K)
    requires snapshot <= s && InFiles(ucmp, levels, deeper)
    ensures Seen(Below(Find(Kept(ucmp, levels, xs, snapshot, |xs|), s, key), Find(deeper, s, key)))
      == Seen(Below(Find(xs, s, key), Find(deeper, s, key)))
  {
    hide Dropped, Kept, Find, IsBase, InFiles;
    var kept := Kept(ucmp, levels, xs, snapshot, |xs|);
    var i := FindWitness(xs, s, key);
    if Find(xs, s, key) == Absent {
      forall q | 0 <= q < |kept| && kept[q].0.user == key
        ensures !Visible(kept, s, q)
      {
        var j := KeptEntry(ucmp, levels, xs, snapshot, |xs|, q);
        assert !Visible(xs, s, j);
      }
      NothingFound(kept, s, key);
    } else if Dropped(ucmp, levels, xs, snapshot, i) {
      SeenIsDropped(ucmp, levels, xs, snapshot, s, i);
      FindIs(xs, s, i);
      forall j: nat | j < |deeper|
        ensures !IsBase(ucmp, levels, deeper[j].0.user)
      {
        InFilesIsNotBase(ucmp, levels, deeper, j);
      }
      NothingFound(deeper, s, key);
    } else {
      SeenIsKept(ucmp, levels, xs, snapshot, s, i);
    }
  }

  /** Sorted lists with the same members are the same list. */
  lemma {:induction false} SameMembers<K(!new), V(!new)>(cmp: (K, K) -> int, a: seq<(K, V)>, b: seq<(K, V)>)
    requires TotalOrder(cmp) && StrictlySorted(cmp, a) && StrictlySorted(cmp, b)
    requires forall x :: x in a <==> x in b
    ensures a == b
    decreases |a|
  {
    hide TotalOrder, StrictlySorted;
    assert (a == [] || a[0] in b) && (b == [] || b[0] in a);
    if a != [] && b != [] {
      var p, q := a[..|a| - 1], b[..|b| - 1];
      LastIsSame(cmp, a, b);
      LastSplits(cmp, a, a[0]);
      LastSplits(cmp, b, b[0]);
      forall x
        ensures x in p <==> x in q
      {
        LastSplits(cmp, a, x);
        LastSplits(cmp, b, x);
      }
      SameMembers(cmp, p, q);
    }
  }

  lemma LastSplits<K(!new), V(!new)>(cmp: (K, K) -> int, a: seq<(K, V)>, x: (K, V))
    requires TotalOrder(cmp) && StrictlySorted(cmp, a) && a != []
    ensures StrictlySorted(cmp, a[..|a| - 1]) && a == a[..|a| - 1] + [a[|a| - 1]]
    ensures x in a[..|a| - 1] <==> x in a && x != a[|a| - 1]
  {
    assert a == a[..|a| - 1] + [a[|a| - 1]];
  }

  lemma LastIsSame<K(!new), V(!new)>(cmp: (K, K) -> int, a: seq<(K, V)>, b: seq<(K, V)>)
    requires TotalOrder(cmp) && StrictlySorted(cmp, a) && StrictlySorted(cmp, b) && a != [] && b != []
    requires forall x :: x in a <==> x in b
    ensures a[|a| - 1] == b[|b| - 1]
  {
    var m, n := |a| - 1, |b| - 1;
    assert a[m] in b && b[n] in a;
    var i :| 0 <= i < |b| && b[i] == a[m];
    var j :| 0 <= j < |a| && a[j] == b[n];
  }

  /** At every snapshot not older than the smallest one, an iterator shows the same before and after. */
  lemma {:induction false} ViewPreserved<K(!new), V(!new)>(
    ucmp: (K, K) -> int, levels: seq<seq<File<K>>>, xs: seq<Entry<K, V>>, snapshot: nat, s: nat)
    requires TotalOrder(ucmp) && SortedRun(ucmp, xs) && snapshot <= s
    ensures var kept := Kept(ucmp, levels, xs, snapshot, |xs|);
      View(kept, s, |kept|) == View(xs, s, |xs|)
  {
    hide TotalOrder, StrictlySorted, Kept, View, Find;
    var kept := Kept(ucmp, levels, xs, snapshot, |xs|);
    KeptIsSorted(ucmp, levels, xs, snapshot);
    ViewIsSorted(ucmp, kept, s);
    ViewIsSorted(ucmp, xs, s);
    forall x: (K, V)
      ensures x in View(kept, s, |kept|) <==> x in View(xs, s, |xs|)
    {
      ReadsPreserved(ucmp, levels, xs, [], snapshot, s, x.0);
      NothingFound<K, V>([], s, x.0);
      ViewIsLookup(kept, s, x.0, x.1);
      ViewIsLookup(xs, s, x.0, x.1);
    }
    SameMembers(ucmp, View(kept, s, |kept|), View(xs, s, |xs|));
  }

  /** A kept entry is one that some snapshot still needs, or a deletion that may hide a deeper entry. */
  lemma {:induction false} KeptIsNeeded<K(!new), V(!new)>(
    ucmp: (K, K) -> int, levels: seq<seq<File<K>>>, xs: seq<Entry<K, V>>, snapshot: nat, i: nat)
    requires TotalOrder(ucmp) && SortedRun(ucmp, xs) && i < |xs| && !Dropped(ucmp, levels, xs, snapshot, i)
    requires xs[i].0.kind == Value || IsBase(ucmp, levels, xs[i].0.user)
    requires forall j :: 0 <= j < |xs| && j != i && xs[j].0.user == xs[i].0.user
               ==> xs[j].0.sequence != xs[i].0.sequence
    ensures var s := if xs[i].0.sequence <= snapshot then snapshot else xs[i].0.sequence;
      Find(xs, s, xs[i].0.user) == if xs[i].0.kind == Value then Found(xs[i].1) else Deleted
  {
    hide IsBase, TotalOrder;
    var s := if xs[i].0.sequence <= snapshot then snapshot else xs[i].0.sequence;
    forall j | 0 <= j < i && xs[j].0.user == xs[i].0.user
      ensures !Visible(xs, s, j)
    {
      NewestFirst(ucmp, xs, j, i);
      if xs[i].0.sequence <= snapshot {
        assert !Overwritten(xs, snapshot, i);
      }
    }
    FindIs(xs, s, i);
  }

  // ----- The loop -----

  /** What the loop remembers of the entries before i: their last user key and its last sequence. */
  ghost predicate Remembers<K(!new), V(!new)>(xs: seq<Entry<K, V>>, i: nat, current: Option<K>, last: nat) {
    && i <= |xs|
    && (current.None? <==> i == 0)
    && (i > 0 ==> current == Some(xs[i - 1].0.user) && last == xs[i - 1].0.sequence)
  }

  /** The sequence of the entry before i if it has the same user key decides whether i is overwritten. */
  lemma {:induction false} OverwrittenBy<K(!new), V(!new)>(ucmp: (K, K) -> int, xs: seq<Entry<K, V>>, snapshot: nat,
      i: nat)
    requires TotalOrder(ucmp) && SortedRun(ucmp, xs) && i < |xs|
    ensures Overwritten(xs, snapshot, i)
      <==> i > 0 && xs[i - 1].0.user == xs[i].0.user && xs[i - 1].0.sequence <= snapshot
  {
    hide TotalOrder;
    if Overwritten(xs, snapshot, i) {
      var j :| 0 <= j < i && xs[j].0.user == xs[i].0.user && xs[j].0.sequence <= snapshot;
      UsersAscend(ucmp, xs, i, i);
      SameUserBetween(ucmp, xs, j, i - 1, i);
      if j < i - 1 {
        NewestFirst(ucmp, xs, j, i - 1);
      }
    }
  }

  lemma {:induction false} SameUserBetween<K(!new), V(!new)>(ucmp: (K, K) -> int, xs: seq<Entry<K, V>>, i: nat, j: nat,
      k: nat)
    requires TotalOrder(ucmp) && SortedRun(ucmp, xs) && i <= j <= k < |xs| && xs[i].0.user == xs[k].0.user
    ensures xs[j].0.user == xs[i].0.user
  {
    UsersAdjacent(ucmp, xs, i, j, k);
  }

  class Compaction<K(==,!new), V(!new)> {
    const ucmp: (K, K) -> int
    /** The levels two below the compacted one and deeper. */
    const levels: seq<seq<File<K>>>
    /** For each deeper level, how many of its tables lie before every key asked about so far. */
    const levelptrs: array<nat>

    ghost predicate Valid()
      reads levelptrs
    {
      && TotalOrder(ucmp) && levelptrs.Length == |levels|
      && forall l :: 0 <= l < |levels| ==> SortedFiles(ucmp, levels[l])
    }

    /** The pointers have not passed a table that could hold the key or a later one. */
    ghost predicate Behind(key: K)
      requires levelptrs.Length == |levels|
      reads levelptrs
    {
      forall l :: 0 <= l < |levels| ==> Beyond(ucmp, levels[l], levelptrs[l], key)
    }

    constructor (ucmp: (K, K) -> int, levels: seq<seq<File<K>>>)
      requires TotalOrder(ucmp) && forall l :: 0 <= l < |levels| ==> SortedFiles(ucmp, levels[l])
      ensures Valid() && this.ucmp == ucmp && this.levels == levels && fresh(levelptrs)
      ensures forall l :: 0 <= l < |levels| ==> levelptrs[l] == 0
    {
      this.ucmp, this.levels := ucmp, levels;
      levelptrs := new nat[|levels|](_ => 0);
    }

    method SkipFiles(lvl: nat, key: K) returns (inside: bool)
      requires Valid() && Behind(key) && lvl < |levels|
      modifies levelptrs
      ensures Valid() && Behind(key)
      ensures inside <==> !OutsideLevel(ucmp, levels[lvl], key)
    {
      hide TotalOrder;
      var files := levels[lvl];
      while levelptrs[lvl] < |files|
        invariant Valid() && Behind(key)
        decreases |files| - levelptrs[lvl]
      {
        var f := files[levelptrs[lvl]];
        if ucmp(key, f.largest) <= 0 {
          if ucmp(key, f.smallest) >= 0 {
            AtMostTransitive(ucmp, key, f.smallest, key);
            AtMostTransitive(ucmp, f.smallest, key, f.smallest);
            return true;
          }
          break;
        }
        AtMostTransitive(ucmp, f.largest, key, f.largest);
        levelptrs[lvl] := levelptrs[lvl] + 1;
      }
      StopsEarly(ucmp, files, levelptrs[lvl], key);
      return false;
    }

    /** True exactly if no deeper table covers the key; the keys asked about must not go down. */
    method IsBaseLevelForKey(key: K) returns (base: bool)
      requires Valid() && Behind(key)
      modifies levelptrs
      ensures Valid() && Behind(key)
      ensures base <==> IsBase(ucmp, levels, key)
    {
      hide TotalOrder, SortedFiles, OutsideLevel, Beyond;
      var lvl := 0;
      while lvl < |levels|
        invariant Valid() && Behind(key) && lvl <= |levels|
        invariant forall l :: 0 <= l < lvl ==> OutsideLevel(ucmp, levels[l], key)
      {
        var inside := SkipFiles(lvl, key);
        if inside {
          return false;
        }
        lvl := lvl + 1;
      }
      return true;
    }

    /**
     * Add a kept entry to the table being built, opening it if needed and closing it if it is big enough. The file
     * may not be created, or not be finished.
     */
    method Emit(
      outputs: seq<seq<Entry<K, V>>>, builder: Option<seq<Entry<K, V>>>, x: Entry<K, V>, big: bool,
      opens: nat -> bool, finishes: nat -> bool)
      returns (status: bool, outputs': seq<seq<Entry<K, V>>>, builder': Option<seq<Entry<K, V>>>)
      requires Finished(outputs, builder, opens, finishes)
      ensures !status ==> Fails(opens, finishes)
      ensures status ==> Finished(outputs', builder', opens, finishes)
      ensures status ==> Gathered(outputs', builder') == Gathered(outputs, builder) + [x]
    {
      hide Flatten;
      outputs', builder' := outputs, builder;
      if builder.None? && !opens(|outputs|) {
        return false, outputs', builder';
      }
      var built := (if builder.Some? then builder.value else []) + [x];
      builder' := Some(built);
      status := true;
      if big {
        Close(outputs, built);
        status := finishes(|outputs|);
        outputs', builder' := outputs + [built], None;
      }
    }

    ghost predicate Fresh()
      requires levelptrs.Length == |levels|
      reads levelptrs
    {
      forall l :: 0 <= l < |levels| ==> levelptrs[l] == 0
    }

    /** The drop rules for entry i, given what the loop remembers. */
    method Drop(ghost xs: seq<Entry<K, V>>, ghost i: nat, ikey: InternalKey<K>, last: nat, snapshot: nat)
        returns (drop: bool)
      requires Valid() && i < |xs| && ikey == xs[i].0 && Behind(ikey.user)
      requires last <= snapshot <==> Overwritten(xs, snapshot, i)
      modifies levelptrs
      ensures Valid() && Behind(ikey.user)
      ensures drop <==> Dropped(ucmp, levels, xs, snapshot, i)
    {
      hide IsBase, Overwritten;
      drop := false;
      if last <= snapshot {
        drop := true;
      } else if ikey.kind == Deletion && ikey.sequence <= snapshot {
        drop := IsBaseLevelForKey(ikey.user);
      }
      // The log message asks once more, for every entry.
      var _ := IsBaseLevelForKey(ikey.user);
    }

    lemma StillBehind(xs: seq<Entry<K, V>>, i: nat)
      requires Valid() && SortedRun(ucmp, xs) && i < |xs|
      requires if i == 0 then Fresh() else Behind(xs[i - 1].0.user)
      ensures Behind(xs[i].0.user)
    {
      hide TotalOrder, StrictlySorted, SortedFiles, Beyond;
      if i > 0 {
        UsersAscend(ucmp, xs, i - 1, i);
      }
      forall l | 0 <= l < |levels|
        ensures Beyond(ucmp, levels[l], levelptrs[l], xs[i].0.user)
      {
        if i > 0 {
          BeyondLater(ucmp, levels[l], levelptrs[l], xs[i - 1].0.user, xs[i].0.user);
        } else {
          BeyondNone(ucmp, levels[l], xs[i].0.user);
        }
      }
    }

    /**
     * The compaction loop. When an output table is closed is up to two tests of sizes and of overlap with the level
     * after next, which may fall either way at every entry: none of it changes what is kept. Output files may fail,
     * and a shutdown is noticed once some number of entries has been read; then nothing is installed.
     */
    method DoCompactionWork(
      xs: seq<Entry<K, V>>, snapshot: nat, stopBefore: nat -> bool, bigEnough: nat -> bool,
      opens: nat -> bool, finishes: nat -> bool, shutdown: nat)
      returns (installed: Option<seq<seq<Entry<K, V>>>>)
      requires Valid() && Fresh() && SortedRun(ucmp, xs) && snapshot < MAX_SEQUENCE
      modifies levelptrs
      ensures installed.None? ==> shutdown <= |xs| || Fails(opens, finishes)
      ensures installed.Some? ==>
        && shutdown > |xs| && Finished(installed.value, None, opens, finishes)
        && Flatten(installed.value) == Kept(ucmp, levels, xs, snapshot, |xs|)
    {
      hide TotalOrder, StrictlySorted, SortedFiles, Dropped, Overwritten, Beyond, Gathered, Fails, Finished;
      installed := None;
      var status, outputs := true, [];
      var builder: Option<seq<Entry<K, V>>> := None;
      Unbuilt(outputs);
      NoneFinished<K, V>(opens, finishes);
      var input := Cursor(xs, 0);
      var current: Option<K> := None;
      var last := MAX_SEQUENCE;
      while input.Valid() && input.pos < shutdown
        invariant Valid() && input.entries == xs && input.Ok()
        invariant if input.pos == 0 then Fresh() else Behind(xs[input.pos - 1].0.user)
        invariant Remembers(xs, input.pos, current, last)
        invariant status && Finished(outputs, builder, opens, finishes)
        invariant Gathered(outputs, builder) == Kept(ucmp, levels, xs, snapshot, input.pos)
        decreases |xs| - input.pos
      {
        ghost var i := input.pos;
        var ikey := input.Key();
        if stopBefore(input.pos) && builder.Some? {
          Close(outputs, builder.value);
          FinishOne(outputs, builder.value, opens, finishes);
          status := finishes(|outputs|);
          outputs, builder := outputs + [builder.value], None;
          if !status {
            break;
          }
        }
        if current.None? || ucmp(ikey.user, current.value) != 0 {
          current := Some(ikey.user);
          last := MAX_SEQUENCE;
        }
        LastDecides(ucmp, xs, snapshot, i, last);
        StillBehind(xs, i);
        var drop := Drop(xs, i, ikey, last, snapshot);
        last := ikey.sequence;
        if !drop {
          status, outputs, builder :=
            Emit(outputs, builder, (ikey, input.Value()), bigEnough(input.pos), opens, finishes);
          if !status {
            break;
          }
        }
        input := input.Next();
      }
      if status && shutdown <= input.pos {
        status := false;
      }
      if status && builder.Some? {
        Close(outputs, builder.value);
        FinishOne(outputs, builder.value, opens, finishes);
        status := finishes(|outputs|);
        outputs := outputs + [builder.value];
      }
      Unbuilt(outputs);
      if status {
        installed := Some(outputs);
      }
    }
  }

  /** Some output file cannot be created, or not be finished. */
  ghost predicate Fails(opens: nat -> bool, finishes: nat -> bool) {
    exists o: nat :: !opens(o) || !finishes(o)
  }

  /** Every closed output has been created and finished, the one being built has been created, and none is empty. */
  ghost predicate Finished<K, V>(
    outputs: seq<seq<Entry<K, V>>>, builder: Option<seq<Entry<K, V>>>, opens: nat -> bool, finishes: nat -> bool)
  {
    && (forall o :: 0 <= o < |outputs| ==> opens(o) && finishes(o) && outputs[o] != [])
    && (builder.Some? ==> builder.value != [] && opens(|outputs|))
  }

  lemma NoneFinished<K, V>(opens: nat -> bool, finishes: nat -> bool)
    ensures Finished<K, V>([], None, opens, finishes)
  {
  }

  /** Finishing the output that is being built. */
  lemma FinishOne<K, V>(
    outputs: seq<seq<Entry<K, V>>>, built: seq<Entry<K, V>>, opens: nat -> bool, finishes: nat -> bool)
    requires Finished(outputs, Some(built), opens, finishes)
    ensures if finishes(|outputs|) then Finished(outputs + [built], None, opens, finishes) else Fails(opens, finishes)
  {
  }

  /** The outputs closed so far and the one being built, in order. */
  function Gathered<T>(outputs: seq<seq<T>>, builder: Option<seq<T>>): seq<T> {
    Flatten(outputs) + if builder.Some? then builder.value else []
  }

  lemma Unbuilt<T>(outputs: seq<seq<T>>)
    ensures Gathered<T>(outputs, None) == Flatten(outputs)
  {
  }

  lemma Close<T>(outputs: seq<seq<T>>, built: seq<T>)
    ensures Flatten(outputs + [built]) == Gathered(outputs, Some(built)) == Gathered(outputs + [built], None)
  {
    FlattenAppend(outputs, built);
  }

  /** The remembered sequence, reset at a new user key, decides rule (A). */
  lemma LastDecides<K(!new), V(!new)>(ucmp: (K, K) -> int, xs: seq<Entry<K, V>>, snapshot: nat, i: nat, last: nat)
    requires TotalOrder(ucmp) && SortedRun(ucmp, xs) && i < |xs| && snapshot < MAX_SEQUENCE
    requires last == if i > 0 && ucmp(xs[i].0.user, xs[i - 1].0.user) == 0 then xs[i - 1].0.sequence else MAX_SEQUENCE
    ensures last <= snapshot <==> Overwritten(xs, snapshot, i)
    ensures i > 0 && ucmp(xs[i].0.user, xs[i - 1].0.user) == 0 ==> xs[i].0.user == xs[i - 1].0.user
  {
    hide Overwritten, StrictlySorted;
    OverwrittenBy(ucmp, xs, snapshot, i);
  }
}
