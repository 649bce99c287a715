/** The database iterator: one entry per user key, as a snapshot sees it (dbiter.cc). */
module DbIter {
  import opened Ordering
  import opened Cursors
  import opened Versions

  function Max(a: nat, b: nat): nat { if a < b then b else a }

  ghost predicate Hidden<K, V>(xs: seq<Entry<K, V>>, s: nat, a: nat, b: nat)
    requires b <= |xs|
  {
    forall j :: a <= j < b ==> !Visible(xs, s, j)
  }

  /**
   * A forward scan stands at i and must find the first shown entry at or after f. The key to skip is the
   * user key of the newest visible entry behind max(i, f); between i and f everything visible has that key.
   */
  ghost predicate Skips<K(!new), V(!new)>(xs: seq<Entry<K, V>>, s: nat, i: nat, f: nat, skip: Option<K>)
    ensures Skips(xs, s, i, f, skip) ==> Max(i, f) <= |xs|
  {
    && i <= |xs| && f <= |xs|
    && (skip.Some? ==> exists j :: 0 <= j < Max(i, f) && Visible(xs, s, j) && xs[j].0.user == skip.value)
    && (forall j, k :: 0 <= j < Max(i, f) <= k < |xs| && Visible(xs, s, j) && xs[j].0.user == xs[k].0.user
          ==> skip == Some(xs[j].0.user))
    && (forall j :: i <= j < f && Visible(xs, s, j) ==> skip == Some(xs[j].0.user))
  }

  lemma {:induction false} UsersEqualBetween<K(!new), V(!new)>(ucmp: (K, K) -> int, xs: seq<Entry<K, V>>, i: nat,
      j: nat, k: nat)
    requires TotalOrder(ucmp) && SortedRun(ucmp, xs) && i <= j <= k < |xs| && xs[i].0.user == xs[k].0.user
    ensures xs[j].0.user == xs[i].0.user
  {
    UsersAdjacent(ucmp, xs, i, j, k);
  }

  /** An entry that is skipped, because it is invisible or has the key to skip, changes nothing. */
  lemma {:induction false} SkipHidden<K(!new), V(!new)>(ucmp: (K, K) -> int, xs: seq<Entry<K, V>>, s: nat, i: nat,
      f: nat, skip: Option<K>)
    requires TotalOrder(ucmp) && SortedRun(ucmp, xs) && i < |xs| && Skips(xs, s, i, f, skip)
    requires !Visible(xs, s, i) || (skip.Some? && ucmp(xs[i].0.user, skip.value) <= 0)
    ensures Skips(xs, s, i + 1, f, skip)
    ensures Rank(xs, s, Max(i + 1, f)) == Rank(xs, s, Max(i, f))
  {
    hide TotalOrder, StrictlySorted;
    assert f <= |xs|;
    if f <= i && Visible(xs, s, i) {
      var j :| 0 <= j < i && Visible(xs, s, j) && xs[j].0.user == skip.value;
      UsersAdjacent(ucmp, xs, j, i, i);
    }
  }

  /** A visible deletion makes its own key the one to skip. */
  lemma {:induction false} SkipDeleted<K(!new), V(!new)>(ucmp: (K, K) -> int, xs: seq<Entry<K, V>>, s: nat, i: nat,
      f: nat, skip: Option<K>)
    requires TotalOrder(ucmp) && SortedRun(ucmp, xs) && i < |xs| && Skips(xs, s, i, f, skip)
    requires Visible(xs, s, i) && xs[i].0.kind == Deletion
    ensures Skips(xs, s, i + 1, f, Some(xs[i].0.user))
    ensures Rank(xs, s, Max(i + 1, f)) == Rank(xs, s, Max(i, f))
  {
    hide TotalOrder, StrictlySorted;
    forall j, k | 0 <= j < Max(i + 1, f) <= k < |xs| && Visible(xs, s, j) && xs[j].0.user == xs[k].0.user
      ensures xs[j].0.user == xs[i].0.user
    {
      if j <= i {
        UsersEqualBetween(ucmp, xs, j, i, k);
      }
    }
  }

  /** A visible value with another key is shown. */
  lemma {:induction false} SkipEnds<K(!new), V(!new)>(ucmp: (K, K) -> int, xs: seq<Entry<K, V>>, s: nat, i: nat,
      f: nat, skip: Option<K>)
    requires TotalOrder(ucmp) && i < |xs| && Skips(xs, s, i, f, skip)
    requires Visible(xs, s, i) && xs[i].0.kind == Value
    requires !(skip.Some? && ucmp(xs[i].0.user, skip.value) <= 0)
    ensures f <= i && Shown(xs, s, i) && Rank(xs, s, i) < Rank(xs, s, |xs|)
  {
    ShownAtRank(xs, s, i);
  }

  lemma {:induction false} SeekCuts<K(!new), V(!new)>(ucmp: (K, K) -> int, xs: seq<Entry<K, V>>, s: nat, target: K,
      j: nat)
    requires TotalOrder(ucmp) && SortedRun(ucmp, xs) && j < |xs|
    ensures var i := LowerBound(InternalOrder(ucmp), xs, InternalKey(target, s, Value));
            && (j < i && Visible(xs, s, j) ==> ucmp(xs[j].0.user, target) < 0)
            && (i <= j ==> ucmp(xs[j].0.user, target) >= 0)
  {
    hide TotalOrder, StrictlySorted, LowerBound;
    InternalOrderIsTotal(ucmp);
    BelowLowerBound(InternalOrder(ucmp), xs, InternalKey(target, s, Value), j);
  }

  /** Where a seek by user key lands, in the run and in the view. */
  lemma {:induction false} SeekStart<K(!new), V(!new)>(ucmp: (K, K) -> int, xs: seq<Entry<K, V>>, s: nat, target: K,
      i: nat)
    requires TotalOrder(ucmp) && SortedRun(ucmp, xs)
    requires i == LowerBound(InternalOrder(ucmp), xs, InternalKey(target, s, Value))
    ensures Skips(xs, s, i, 0, None)
    ensures Rank(xs, s, i) == LowerBound(ucmp, View(xs, s, |xs|), target)
  {
    hide TotalOrder, StrictlySorted, LowerBound, View, Rank, Shown;
    forall j | 0 <= j < |xs|
      ensures j < i && Visible(xs, s, j) ==> ucmp(xs[j].0.user, target) < 0
      ensures i <= j ==> ucmp(xs[j].0.user, target) >= 0
    {
      SeekCuts(ucmp, xs, s, target, j);
    }
    ViewSplit(ucmp, xs, s, target, i);
  }

  lemma {:induction false} ViewSplit<K(!new), V(!new)>(ucmp: (K, K) -> int, xs: seq<Entry<K, V>>, s: nat, target: K,
      i: nat)
    requires TotalOrder(ucmp) && SortedRun(ucmp, xs) && i <= |xs|
    requires forall j :: 0 <= j < i && Visible(xs, s, j) ==> ucmp(xs[j].0.user, target) < 0
    requires forall j :: i <= j < |xs| ==> ucmp(xs[j].0.user, target) >= 0
    ensures Rank(xs, s, i) == LowerBound(ucmp, View(xs, s, |xs|), target)
  {
    hide TotalOrder, StrictlySorted;
    var view, p := View(xs, s, |xs|), Rank(xs, s, i);
    ViewGrows(xs, s, i, |xs|);
    if p > 0 {
      var k := ViewEntry(xs, s, i, p - 1);
    }
    if p < |view| {
      var k := ViewEntry(xs, s, |xs|, p);
      if k < i {
        ShownAtRank(xs, s, k);
        ViewGrows(xs, s, k + 1, i);
      }
    }
    ViewIsSorted(ucmp, xs, s);
    LowerBoundIs(ucmp, view, target, p);
  }

  /**
   * A backward scan has passed every entry from c on. What it found last is a visible deletion or nothing
   * (kind Deletion), or the value at m, saved, with only invisible entries between c and m. The scan looks
   * for the p-th shown entry.
   */
  ghost predicate Scanned<K(!new), V(!new)>(xs: seq<Entry<K, V>>, s: nat, c: nat, kind: ValueType, m: nat, p: nat) {
    && c <= |xs|
    && match kind
       case Deletion => Rank(xs, s, c) == p
       case Value =>
         c <= m < |xs| && Visible(xs, s, m) && xs[m].0.kind == Value && Hidden(xs, s, c, m) && Rank(xs, s, m + 1) == p
  }

  lemma ScanStart<K(!new), V(!new)>(xs: seq<Entry<K, V>>, s: nat, c: nat, p: nat)
    requires c <= |xs| && Rank(xs, s, c) == p
    ensures Scanned(xs, s, c, Deletion, 0, p)
  {
  }

  lemma {:induction false} ScanHidden<K(!new), V(!new)>(xs: seq<Entry<K, V>>, s: nat, c: nat, kind: ValueType, m: nat,
      p: nat)
    requires 0 < c && Scanned(xs, s, c, kind, m, p) && !Visible(xs, s, c - 1)
    ensures Scanned(xs, s, c - 1, kind, m, p)
  {
  }

  /** A visible entry takes the place of an older entry of its key. */
  lemma {:induction false} ScanVisible<K(!new), V(!new)>(ucmp: (K, K) -> int, xs: seq<Entry<K, V>>, s: nat, c: nat,
      kind: ValueType, m: nat, p: nat)
    requires TotalOrder(ucmp) && SortedRun(ucmp, xs)
    requires 0 < c && Scanned(xs, s, c, kind, m, p) && Visible(xs, s, c - 1)
    requires kind == Value ==> ucmp(xs[c - 1].0.user, xs[m].0.user) >= 0
    ensures Scanned(xs, s, c - 1, xs[c - 1].0.kind, c - 1, p)
  {
    if kind == Value {
      UsersAscend(ucmp, xs, c - 1, m);
      assert !Shown(xs, s, m) by {
        assert xs[c - 1].0.user == xs[m].0.user;
      }
      ViewGrows(xs, s, c, m);
    }
  }

  /** A value with nothing visible of its key before it is shown. */
  lemma {:induction false} ScanEnds<K(!new), V(!new)>(ucmp: (K, K) -> int, xs: seq<Entry<K, V>>, s: nat, c: nat,
      m: nat, p: nat)
    requires TotalOrder(ucmp) && SortedRun(ucmp, xs)
    requires Scanned(xs, s, c, Value, m, p)
    requires c > 0 ==> ucmp(xs[c - 1].0.user, xs[m].0.user) < 0
    ensures Shown(xs, s, m) && Rank(xs, s, m) == p - 1 && p <= Rank(xs, s, |xs|)
    ensures c <= m < |xs| && Hidden(xs, s, c, m)
  {
    forall j | 0 <= j < c
      ensures xs[j].0.user != xs[m].0.user
    {
      UsersAscend(ucmp, xs, j, c - 1);
    }
    ShownAtRank(xs, s, m);
  }

  lemma {:induction false} ScanFailed<K(!new), V(!new)>(xs: seq<Entry<K, V>>, s: nat, m: nat, p: nat)
    requires Scanned(xs, s, 0, Deletion, m, p)
    ensures p == 0
  {
  }

  /** Past the shown entry m its key is the one to skip, from any point that only invisible entries separate from m. */
  lemma {:induction false} SkipShown<K(!new), V(!new)>(ucmp: (K, K) -> int, xs: seq<Entry<K, V>>, s: nat, a: nat,
      m: nat)
    requires TotalOrder(ucmp) && SortedRun(ucmp, xs)
    requires a <= m + 1 <= |xs| && Shown(xs, s, m) && Hidden(xs, s, a, m)
    ensures Skips(xs, s, a, m + 1, Some(xs[m].0.user))
    ensures Rank(xs, s, m + 1) == Rank(xs, s, m) + 1
  {
    hide TotalOrder, StrictlySorted;
    ShownAtRank(xs, s, m);
    forall j, k | 0 <= j < m + 1 <= k < |xs| && xs[j].0.user == xs[k].0.user
      ensures xs[j].0.user == xs[m].0.user
    {
      UsersEqualBetween(ucmp, xs, j, m, k);
    }
  }

  /** Nothing before a shown entry with its key is shown. */
  lemma {:induction false} StepBack<K(!new), V(!new)>(ucmp: (K, K) -> int, xs: seq<Entry<K, V>>, s: nat, i: nat, m: nat)
    requires TotalOrder(ucmp) && SortedRun(ucmp, xs)
    requires 0 < i <= m < |xs| && Shown(xs, s, m) && Rank(xs, s, i) == Rank(xs, s, m)
    ensures ucmp(xs[i - 1].0.user, xs[m].0.user) >= 0
      ==> xs[i - 1].0.user == xs[m].0.user && Rank(xs, s, i - 1) == Rank(xs, s, m)
  {
    UsersAscend(ucmp, xs, i - 1, m);
  }

  datatype Direction = Forward | Reverse

  class DBIter<K(==,!new), V(!new)> {
    const ucmp: (K, K) -> int
    const sequence: nat
    var iter: Cursor<InternalKey<K>, V>
    var savedkey: Option<K>
    var savedvalue: Option<V>
    var direction: Direction
    var vali: bool

    ghost const xs: seq<Entry<K, V>>
    ghost var pos: nat

    ghost predicate Base()
      reads this
    {
      && TotalOrder(ucmp) && SortedRun(ucmp, xs)
      && iter.entries == xs && iter.Ok()
    }

    /** The first entry not yet passed by a backward scan. */
    ghost function Behind(): nat
      reads this
    {
      if iter.Valid() then iter.pos + 1 else 0
    }

    ghost predicate Inv()
      reads this
    {
      && Base()
      && pos <= Rank(xs, sequence, |xs|)
      && (vali <==> pos < Rank(xs, sequence, |xs|))
      && (vali && direction == Forward ==>
            iter.Valid() && Shown(xs, sequence, iter.pos) && Rank(xs, sequence, iter.pos) == pos)
      && (vali && direction == Reverse ==>
            exists m :: SavedAt(m) && Shown(xs, sequence, m) && Rank(xs, sequence, m) == pos)
    }

    /**
     * Moving backwards: entry m is saved, only invisible entries lie between it and the internal iterator, and
     * the internal iterator is at a visible entry of an earlier key or in front of everything.
     */
    ghost predicate SavedAt(m: nat)
      requires Base()
      reads this
    {
      && m < |xs| && savedkey == Some(xs[m].0.user) && savedvalue == Some(xs[m].1)
      && Behind() <= m && Hidden(xs, sequence, Behind(), m)
      && (Behind() > 0 ==> Visible(xs, sequence, Behind() - 1) && ucmp(xs[Behind() - 1].0.user, xs[m].0.user) < 0)
    }

    /**
     * The direction rules. Forward, the internal iterator is at the entry shown. In reverse it is before all
     * entries of the key shown; it is just before the first of them, f, exactly when the entry in front of f
     * is visible or there is none.
     */
    lemma DirectionRule(f: nat)
      requires Inv() && vali
      ensures direction == Forward ==> iter.Valid() && View().Current() == Some((iter.Key().user, iter.Value()))
      ensures direction == Reverse
        ==> savedkey.Some? && View().Current().Some? && View().Current().value.0 == savedkey.value
      ensures direction == Reverse ==> forall j :: 0 <= j < Behind() ==> ucmp(xs[j].0.user, savedkey.value) < 0
      ensures direction == Reverse && f < |xs| && xs[f].0.user == savedkey.value
              && (forall j :: 0 <= j < f ==> xs[j].0.user != savedkey.value) ==>
                Behind() <= f && (Behind() == f <==> f == 0 || Visible(xs, sequence, f - 1))
    {
      hide TotalOrder, StrictlySorted, Shown, Rank, Inv;
      if direction == Forward {
        ForwardIsCurrent();
      } else {
        SavedIsCurrent();
        var m := AllBehind();
        if f < |xs| && xs[f].0.user == savedkey.value && forall j :: 0 <= j < f ==> xs[j].0.user != savedkey.value {
          assert f <= m;
          if Behind() > f {
            Reflexive(ucmp, savedkey.value);
          }
          if Behind() < f {
            assert !Visible(xs, sequence, f - 1);
          }
        }
      }
    }

    lemma ValidIs()
      requires Inv()
      ensures vali <==> View().Current().Some?
    {
    }

    lemma ForwardIsCurrent()
      requires Inv() && vali && direction == Forward
      ensures iter.Valid() && View().Current() == Some((iter.Key().user, iter.Value()))
    {
      ShownAtRank(xs, sequence, iter.pos);
    }

    lemma AllBehind() returns (m: nat)
      requires Inv() && vali && direction == Reverse
      ensures Base() && SavedAt(m)
      ensures forall j :: 0 <= j < Behind() ==> ucmp(xs[j].0.user, savedkey.value) < 0
    {
      m :| SavedAt(m) && Shown(xs, sequence, m) && Rank(xs, sequence, m) == pos;
      forall j | 0 <= j < Behind()
        ensures ucmp(xs[j].0.user, savedkey.value) < 0
      {
        UsersAscend(ucmp, xs, j, Behind() - 1);
      }
    }

    method FindNextUserEntry(skip: bool, ghost f: nat)
      requires Base() && iter.Valid() && direction == Forward
      requires Skips(xs, sequence, iter.pos, f, if skip then savedkey else None) && (skip ==> savedkey.Some?)
      modifies `iter, `savedkey, `vali, `pos
      ensures Inv() && pos == Rank(xs, sequence, Max(old(iter.pos), f))
    {
      hide TotalOrder, StrictlySorted, Skips, Shown, Rank;
      ghost var p := Rank(xs, sequence, Max(iter.pos, f));
      pos := p;
      var skipping := skip;
      while iter.Valid()
        invariant Base()
        invariant Skips(xs, sequence, iter.pos, f, if skipping then savedkey else None)
        invariant Rank(xs, sequence, Max(iter.pos, f)) == p == pos
        invariant skipping ==> savedkey.Some?
        decreases |xs| - iter.pos
      {
        var ikey := iter.Key();
        ghost var i, key := iter.pos, if skipping then savedkey else None;
        if ikey.sequence <= sequence {
          match ikey.kind
          case Deletion =>
            SkipDeleted(ucmp, xs, sequence, i, f, key);
            savedkey := Some(ikey.user);
            skipping := true;
          case Value =>
            if skipping && ucmp(ikey.user, savedkey.value) <= 0 {
              SkipHidden(ucmp, xs, sequence, i, f, key);
            } else {
              SkipEnds(ucmp, xs, sequence, i, f, key);
              vali := true;
              savedkey := None;
              return;
            }
        } else {
          SkipHidden(ucmp, xs, sequence, i, f, key);
        }
        iter := iter.Next();
      }
      savedkey := None;
      vali := false;
    }

    /** Saves the entry under the internal iterator, or forgets what was saved when it is a deletion. */
    method Save()
      requires iter.Valid()
      modifies `savedkey, `savedvalue
      ensures iter.Key().kind == Value ==> savedkey == Some(iter.Key().user) && savedvalue == Some(iter.Value())
    {
      if iter.Key().kind == Deletion {
        savedkey, savedvalue := None, None;
      } else {
        savedkey, savedvalue := Some(iter.Key().user), Some(iter.Value());
      }
    }

    /** The scan: keeps the oldest entry of the current key until a visible entry of an earlier key. */
    method ScanBack(ghost p: nat) returns (kind: ValueType, ghost m: nat)
      requires Base() && Rank(xs, sequence, Behind()) == p
      modifies `iter, `savedkey, `savedvalue
      ensures Base() && Scanned(xs, sequence, Behind(), kind, m, p)
      ensures kind == Value ==> savedkey == Some(xs[m].0.user) && savedvalue == Some(xs[m].1)
      ensures iter.Valid() ==>
                kind == Value && Visible(xs, sequence, iter.pos) && ucmp(xs[iter.pos].0.user, xs[m].0.user) < 0
    {
      hide TotalOrder, StrictlySorted, Scanned, Shown, Rank;
      m, kind := 0, Deletion;
      ScanStart(xs, sequence, Behind(), p);
      while iter.Valid()
        invariant Base()
        invariant Scanned(xs, sequence, Behind(), kind, m, p)
        invariant kind == Value ==> m < |xs| && savedkey == Some(xs[m].0.user) && savedvalue == Some(xs[m].1)
        decreases Behind()
      {
        var ikey := iter.Key();
        if ikey.sequence <= sequence {
          if kind != Deletion && ucmp(ikey.user, savedkey.value) < 0 {
            break;
          }
          ScanVisible(ucmp, xs, sequence, Behind(), kind, m, p);
          m, kind := iter.pos, ikey.kind;
          Save();
        } else {
          ScanHidden(xs, sequence, Behind(), kind, m, p);
        }
        iter := iter.Prev();
      }
    }

    method FindPrevUserEntry()
      requires Base() && direction == Reverse
      modifies this
      ensures Inv()
      ensures vali ==> direction == Reverse
      ensures var p := Rank(xs, sequence, old(Behind())); pos == if p == 0 then Rank(xs, sequence, |xs|) else p - 1
    {
      hide TotalOrder, StrictlySorted, Scanned, Shown, Rank;
      ghost var p: nat := Rank(xs, sequence, Behind());
      ghost var m;
      var kind;
      kind, m := ScanBack(p);
      if kind == Deletion {
        ScanFailed(xs, sequence, m, p);
        vali := false;
        savedkey, savedvalue := None, None;
        direction := Forward;
        pos := Rank(xs, sequence, |xs|);
      } else {
        vali := true;
        ScanEnds(ucmp, xs, sequence, Behind(), m, p);
        pos := p - 1;
        assert SavedAt(m);
      }
    }

    constructor (ucmp: (K, K) -> int, iter: Cursor<InternalKey<K>, V>, sequence: nat)
      requires TotalOrder(ucmp) && SortedRun(ucmp, iter.entries) && iter.Ok()
      ensures Inv() && !Valid() && this.ucmp == ucmp
      ensures xs == iter.entries && this.sequence == sequence
      ensures View().entries == Versions.View(iter.entries, sequence, |iter.entries|)
    {
      this.ucmp, this.iter, this.sequence, this.xs := ucmp, iter, sequence, iter.entries;
      savedkey, savedvalue, direction, vali := None, None, Forward, false;
      pos := Rank(iter.entries, sequence, |iter.entries|);
    }

    predicate Valid()
      reads this
    {
      vali
    }

    /** The cursor over the snapshot's view that this iterator must behave as. */
    ghost function View(): (c: Cursor<K, V>)
      requires Inv()
      reads this
      ensures c.Ok()
    {
      Cursor(Versions.View(xs, sequence, |xs|), pos)
    }

    function Current(): (e: Option<(K, V)>)
      requires Inv()
      reads this
      ensures e == View().Current()
    {
      if !vali then None
      else if direction == Forward then
        ShownAtRank(xs, sequence, iter.pos);
        Some((iter.Key().user, iter.Value()))
      else
        SavedIsCurrent();
        Some((savedkey.value, savedvalue.value))
    }

    lemma SavedIsCurrent()
      requires Inv() && vali && direction == Reverse
      ensures savedkey.Some? && savedvalue.Some? && View().Current() == Some((savedkey.value, savedvalue.value))
    {
      var m :| SavedAt(m) && Shown(xs, sequence, m) && Rank(xs, sequence, m) == pos;
      ShownAtRank(xs, sequence, m);
    }

    lemma SavedIsAhead()
      requires Inv() && vali && direction == Reverse
      ensures Rank(xs, sequence, Behind()) == pos
    {
      var m :| SavedAt(m) && Shown(xs, sequence, m) && Rank(xs, sequence, m) == pos;
      ViewGrows(xs, sequence, Behind(), m);
    }

    method SeekToFirst()
      requires Inv()
      modifies this
      ensures Inv() && View() == old(View()).SeekToFirst()
    {
      direction := Forward;
      savedvalue := None;
      iter := iter.SeekToFirst();
      if iter.Valid() {
        FindNextUserEntry(false, 0);
      } else {
        vali := false;
        pos := 0;
      }
    }

    method SeekToLast()
      requires Inv()
      modifies this
      ensures Inv() && View() == old(View()).SeekToLast() && (vali ==> direction == Reverse)
    {
      direction := Reverse;
      savedvalue := None;
      iter := iter.SeekToLast();
      FindPrevUserEntry();
    }

    method Seek(target: K)
      requires Inv()
      modifies this
      ensures Inv() && View() == old(View()).Seek(ucmp, target)
    {
      hide TotalOrder, StrictlySorted, Skips, Shown, LowerBound;
      direction := Forward;
      savedvalue, savedkey := None, None;
      iter := iter.Seek(InternalOrder(ucmp), InternalKey(target, sequence, Value));
      SeekStart(ucmp, xs, sequence, target, iter.pos);
      if iter.Valid() {
        FindNextUserEntry(false, 0);
      } else {
        vali := false;
        pos := Rank(xs, sequence, |xs|);
      }
    }

    method Next()
      requires Inv() && Valid()
      modifies this
      ensures Inv() && View() == old(View()).Next()
    {
      hide TotalOrder, StrictlySorted, Shown, Rank, Skips;
      ghost var m: nat := iter.pos;
      if direction == Reverse {
        m :| SavedAt(m) && Shown(xs, sequence, m) && Rank(xs, sequence, m) == pos;
        direction := Forward;
        iter := if iter.Valid() then iter.Next() else iter.SeekToFirst();
      } else {
        savedkey := Some(iter.Key().user);
        iter := iter.Next();
      }
      SkipShown(ucmp, xs, sequence, iter.pos, m);
      if !iter.Valid() {
        vali := false;
        savedkey := None;
        pos := pos + 1;
        return;
      }
      FindNextUserEntry(true, m + 1);
    }

    method Prev()
      requires Inv() && Valid()
      modifies this
      ensures Inv() && View() == old(View()).Prev()
    {
      hide TotalOrder, StrictlySorted, Shown;
      if direction == Forward {
        ghost var m := iter.pos;
        savedkey := Some(iter.Key().user);
        while true
          invariant Base() && iter.Valid() && iter.pos <= m && vali
          invariant savedkey == Some(xs[m].0.user)
          invariant Rank(xs, sequence, iter.pos) == pos == old(pos)
          decreases iter.pos
        {
          if iter.pos > 0 {
            StepBack(ucmp, xs, sequence, iter.pos, m);
          }
          iter := iter.Prev();
          if !iter.Valid() {
            vali := false;
            savedkey, savedvalue := None, None;
            pos := Rank(xs, sequence, |xs|);
            return;
          }
          if ucmp(iter.Key().user, savedkey.value) < 0 {
            break;
          }
        }
        direction := Reverse;
      } else {
        SavedIsAhead();
      }
      FindPrevUserEntry();
    }

    method Do(op: Op<K>)
      requires Inv()
      modifies this
      ensures Inv() && View() == old(View()).Do(ucmp, op)
    {
      match op {
        case SeekToFirst => SeekToFirst();
        case SeekToLast => SeekToLast();
        case Seek(target) => Seek(target);
        case Next => if Valid() { Next(); }
        case Prev => if Valid() { Prev(); }
      }
    }

    /** Any mixed run of operations shows what the cursor over the snapshot's view shows. */
    method Run(ops: seq<Op<K>>) returns (seen: seq<Option<(K, V)>>)
      requires Inv()
      modifies this
      ensures Inv() && seen == old(View()).Trace(ucmp, ops)
    {
      hide Inv, Cursor.Do;
      seen := [];
      for i := 0 to |ops|
        invariant Inv()
        invariant seen + View().Trace(ucmp, ops[i..]) == old(View()).Trace(ucmp, ops)
      {
        Do(ops[i]);
        assert ops[i..][1..] == ops[i + 1..];
        seen := seen + [Current()];
      }
    }
  }

  // ----- In reverse, before all entries of a key but not just before them -----

  function Minus(): (int, int) -> int { (a, b) => a - b }

  /** Snapshot 3 cannot see the entry of key 1. */
  function NewerInFront(): seq<Entry<int, int>> { [(InternalKey(1, 5, Value), 0), (InternalKey(2, 1, Value), 0)] }

  lemma OneShown()
    ensures TotalOrder(Minus()) && SortedRun(Minus(), NewerInFront())
    ensures View(NewerInFront(), 3, 2) == [(2, 0)]
  {
    var xs := NewerInFront();
    assert View(xs, 3, 0) == [] && View(xs, 3, 1) == [];
  }

  /** After SeekToLast the internal iterator is in front of the invisible entry, so not just before the key shown. */
  method InvisibleInFront() returns (it: DBIter<int, int>)
    ensures it.Inv() && it.vali && it.direction == Reverse && it.View().Current() == Some((2, 0))
    ensures it.xs == NewerInFront() && it.Behind() == 0
  {
    hide TotalOrder, StrictlySorted, Versions.View, DBIter.Inv;
    OneShown();
    it := new DBIter(Minus(), Cursor(NewerInFront(), 2), 3);
    it.SeekToLast();
    it.ValidIs();
    it.DirectionRule(1);
  }
}
