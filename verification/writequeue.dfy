/** Group commit: the queue of concurrent writers and its leader (db.cc). */
module WriteQueue {
  import opened Ordering

  // ----- Requests and groups -----

  /** The operations of a batch; size is the length of its encoding. */
  datatype Batch<T> = Batch(ops: seq<T>, size: nat)

  datatype Request<T> = Request(batch: Option<Batch<T>>, sync: bool)

  function Ops<T>(r: Request<T>): seq<T> { if r.batch.Some? then r.batch.value.ops else [] }

  /** The operations of requests lo to hi, in order. */
  function Concat<T>(rs: seq<Request<T>>, lo: nat, hi: nat): seq<T>
    requires lo <= hi <= |rs|
  {
    if lo == hi then [] else Concat(rs, lo, hi - 1) + Ops(rs[hi - 1])
  }

  lemma {:induction false} ConcatOf<T>(rs: seq<Request<T>>, at: nat, all: seq<Request<T>>, lo: nat, hi: nat)
    requires lo <= hi <= |rs| && at + hi <= |all|
    requires forall k :: lo <= k < hi ==> all[at + k] == rs[k]
    ensures Concat(rs, lo, hi) == Concat(all, at + lo, at + hi)
  {
    if lo < hi {
      ConcatOf(rs, at, all, lo, hi - 1);
      assert all[at + (hi - 1)] == rs[hi - 1];
    }
  }

  function MaxSize(size: nat): nat {
    if size <= 0x20000 then size + 0x20000 else 0x100000
  }

  /** May writer i join a group of the writers before it, of total size so far? */
  predicate Joins<T>(rs: seq<Request<T>>, i: nat, size: nat)
    requires 0 < i < |rs| && rs[0].batch.Some?
  {
    && !(rs[i].sync && !rs[0].sync)
    && (rs[i].batch.Some? ==> size + rs[i].batch.value.size <= MaxSize(rs[0].batch.value.size))
  }

  function SizeWith<T>(size: nat, r: Request<T>): nat {
    size + if r.batch.Some? then r.batch.value.size else 0
  }

  /** The length of the group that the first writer of the queue leads. */
  function GroupFrom<T>(rs: seq<Request<T>>, i: nat, size: nat): (n: nat)
    requires 0 < i <= |rs| && rs[0].batch.Some?
    ensures i <= n <= |rs|
    decreases |rs| - i
  {
    if i == |rs| || !Joins(rs, i, size) then i else GroupFrom(rs, i + 1, SizeWith(size, rs[i]))
  }

  function GroupLength<T>(rs: seq<Request<T>>): nat
    requires rs != [] && rs[0].batch.Some?
  {
    GroupFrom(rs, 1, rs[0].batch.value.size)
  }

  /** The size of the first i batches of the queue together. */
  function SizeTo<T>(rs: seq<Request<T>>, i: nat): nat
    requires i <= |rs|
  {
    if i == 0 then 0 else SizeWith(SizeTo(rs, i - 1), rs[i - 1])
  }

  /**
   * A writer joins unless it asks for a sync and the leader does not, or its batch would make the group larger than
   * 1 MiB, or larger than the first batch and 128 KiB if the first batch is of at most 128 KiB.
   */
  lemma JoinsIff<T>(rs: seq<Request<T>>, i: nat, size: nat)
    requires 0 < i < |rs| && rs[0].batch.Some?
    ensures var first := rs[0].batch.value.size;
      Joins(rs, i, size) <==>
        && (rs[i].sync ==> rs[0].sync)
        && (rs[i].batch.Some? && first <= 131072 ==> size + rs[i].batch.value.size <= first + 131072)
        && (rs[i].batch.Some? && first > 131072 ==> size + rs[i].batch.value.size <= 1048576)
  {
  }

  /** The group is the longest run of writers of which each may join those before it. */
  lemma {:induction false} GroupIsLongest<T>(rs: seq<Request<T>>)
    requires rs != [] && rs[0].batch.Some?
    ensures var n := GroupLength(rs);
      && (forall i :: 0 < i < n ==> Joins(rs, i, SizeTo(rs, i)))
      && (n == |rs| || !Joins(rs, n, SizeTo(rs, n)))
  {
    hide Joins;
    assert SizeTo(rs, 1) == rs[0].batch.value.size by {
      assert SizeTo(rs, 0) == 0;
    }
    LongestFrom(rs, 1);
  }

  lemma {:induction false} LongestFrom<T>(rs: seq<Request<T>>, i: nat)
    requires 0 < i <= |rs| && rs[0].batch.Some?
    ensures var n := GroupFrom(rs, i, SizeTo(rs, i));
      && (forall j :: i <= j < n ==> Joins(rs, j, SizeTo(rs, j)))
      && (n == |rs| || !Joins(rs, n, SizeTo(rs, n)))
    decreases |rs| - i
  {
    hide Joins;
    if i < |rs| && Joins(rs, i, SizeTo(rs, i)) {
      LongestFrom(rs, i + 1);
    }
  }

  /** So a group that takes another batch in is no larger than the limit its first batch sets. */
  lemma {:induction false} GroupIsBounded<T>(rs: seq<Request<T>>)
    requires rs != [] && rs[0].batch.Some?
    ensures var n := GroupLength(rs);
      SizeTo(rs, n) <= if Merges(rs, n) then MaxSize(rs[0].batch.value.size) else rs[0].batch.value.size
    ensures SizeTo(rs, GroupLength(rs)) <= 1048576 || SizeTo(rs, GroupLength(rs)) <= rs[0].batch.value.size
  {
    assert MaxSize(rs[0].batch.value.size) <= 1048576;
    hide MaxSize;
    GroupIsLongest(rs);
    var i := 1;
    assert SizeTo(rs, 1) == rs[0].batch.value.size by {
      assert SizeTo(rs, 0) == 0;
    }
    while i < GroupLength(rs)
      invariant 0 < i <= GroupLength(rs)
      invariant SizeTo(rs, i) <= if Merges(rs, i) then MaxSize(rs[0].batch.value.size) else rs[0].batch.value.size
    {
      assert Joins(rs, i, SizeTo(rs, i));
      i := i + 1;
    }
  }

  lemma {:induction false} GroupSyncs<T>(rs: seq<Request<T>>, i: nat, size: nat)
    requires 0 < i <= |rs| && rs[0].batch.Some?
    requires forall j :: 0 <= j < i ==> rs[j].sync ==> rs[0].sync
    ensures forall j :: 0 <= j < GroupFrom(rs, i, size) ==> rs[j].sync ==> rs[0].sync
    decreases |rs| - i
  {
    if i < |rs| && Joins(rs, i, size) {
      GroupSyncs(rs, i + 1, SizeWith(size, rs[i]));
    }
  }

  /** Does the group need the temporary batch? */
  predicate Merges<T>(rs: seq<Request<T>>, n: nat)
    requires 0 < n <= |rs|
  {
    n > 1 && (rs[n - 1].batch.Some? || Merges(rs, n - 1))
  }

  /** It does if anyone but the leader brings a batch. */
  lemma {:induction false} MergesIff<T>(rs: seq<Request<T>>, n: nat)
    requires 0 < n <= |rs|
    ensures Merges(rs, n) <==> exists i :: 1 <= i < n && rs[i].batch.Some?
  {
    if n > 1 {
      MergesIff(rs, n - 1);
    }
  }

  lemma {:induction false} UnmergedConcat<T>(rs: seq<Request<T>>, n: nat)
    requires 0 < n <= |rs| && !Merges(rs, n)
    ensures Concat(rs, 0, n) == Ops(rs[0])
  {
    if n > 1 {
      UnmergedConcat(rs, n - 1);
    }
  }

  lemma GroupStart<T>(rs: seq<Request<T>>)
    requires rs != [] && rs[0].batch.Some?
    ensures GroupFrom(rs, 1, rs[0].batch.value.size) == GroupLength(rs) && !Merges(rs, 1)
      && Concat(rs, 0, 1) == Ops(rs[0])
  {
    assert Concat(rs, 0, 0) == [];
  }

  lemma GroupEnd<T>(rs: seq<Request<T>>, size: nat)
    requires rs != [] && rs[0].batch.Some?
    ensures GroupFrom(rs, |rs|, size) == |rs|
  {
  }

  /** What one more writer does to the group. */
  lemma GroupStep<T>(rs: seq<Request<T>>, n: nat, size: nat)
    requires 0 < n < |rs| && rs[0].batch.Some?
    ensures GroupFrom(rs, n, size) == if Joins(rs, n, size) then GroupFrom(rs, n + 1, SizeWith(size, rs[n])) else n
    ensures Merges(rs, n + 1) == (rs[n].batch.Some? || Merges(rs, n))
    ensures Concat(rs, 0, n + 1) == if rs[n].batch.Some? then Concat(rs, 0, n) + rs[n].batch.value.ops
      else Concat(rs, 0, n)
    ensures Joins(rs, n, size) <==>
      && !(rs[n].sync && !rs[0].sync)
      && (rs[n].batch.Some? ==> size + rs[n].batch.value.size <= MaxSize(rs[0].batch.value.size))
    ensures SizeWith(size, rs[n]) == if rs[n].batch.Some? then size + rs[n].batch.value.size else size
  {
    hide MaxSize;
    if rs[n].batch.None? {
      assert Concat(rs, 0, n) + [] == Concat(rs, 0, n);
    }
  }

  lemma NothingBefore<T>(xs: seq<T>, ys: seq<T>)
    requires xs == []
    ensures xs + ys == ys
  {
  }

  /**
   * The loop that builds the group: its length, whether the operations were copied into the
   * temporary batch, and the operations of all its members in order. Without copying they are the leader's own.
   */
  method BuildBatchGroup<T>(rs: seq<Request<T>>, tmpbatch: seq<T>)
    returns (n: nat, merged: bool, result: seq<T>)
    requires rs != [] && rs[0].batch.Some? && tmpbatch == []
    ensures n == GroupLength(rs) && merged == Merges(rs, n) && result == Concat(rs, 0, n)
    ensures !merged ==> result == Ops(rs[0])
  {
    result := rs[0].batch.value.ops;
    var size: nat := rs[0].batch.value.size;
    var maxSize := 0x100000;
    if size <= 0x20000 {
      maxSize := size + 0x20000;
    }
    assert maxSize == MaxSize(rs[0].batch.value.size);
    GroupStart(rs);
    hide MaxSize, GroupFrom, GroupLength, Merges, Concat, Joins, SizeWith;
    n, merged := 1, false;
    while n < |rs|
      invariant 0 < n <= |rs|
      invariant GroupFrom(rs, n, size) == GroupLength(rs)
      invariant merged == Merges(rs, n)
      invariant result == Concat(rs, 0, n)
    {
      GroupStep(rs, n, size);
      var w := rs[n];
      if w.sync && !rs[0].sync {
        break;
      }
      if w.batch.Some? {
        if size + w.batch.value.size > maxSize {
          break;
        }
        size := size + w.batch.value.size;
        if !merged {
          NothingBefore(tmpbatch, result);
          merged, result := true, tmpbatch + result;
        }
        result := result + w.batch.value.ops;
      }
      n := n + 1;
    }
    GroupEnd(rs, size);
    if !merged {
      UnmergedConcat(rs, n);
    }
  }
}
