/** The iterator over an index of blocks and the blocks it points to (iterator.h). */
module TwoLevel {
  import opened Ordering
  import opened Cursors

  /** The entries of the first n blocks, one block after the other. */
  function AllTo<K, H, V>(read: H -> seq<(K, V)>, index: seq<(K, H)>, n: nat): seq<(K, V)>
    requires n <= |index|
  {
    if n == 0 then [] else AllTo(read, index, n - 1) + read(index[n - 1].1)
  }

  function All<K, H, V>(read: H -> seq<(K, V)>, index: seq<(K, H)>): seq<(K, V)> {
    AllTo(read, index, |index|)
  }

  function Offset<K, H, V>(read: H -> seq<(K, V)>, index: seq<(K, H)>, n: nat): nat
    requires n <= |index|
  {
    |AllTo(read, index, n)|
  }

  /** Each index key is at or above the keys of its block and below those of the later blocks. */
  ghost predicate Indexed<K(!new), H, V>(cmp: (K, K) -> int, read: H -> seq<(K, V)>, index: seq<(K, H)>) {
    && StrictlySorted(cmp, index) && StrictlySorted(cmp, All(read, index))
    && (forall i, k :: 0 <= i < |index| && 0 <= k < |read(index[i].1)| ==> cmp(read(index[i].1)[k].0, index[i].0) <= 0)
    && (forall i, j, k :: 0 <= i < j < |index| && 0 <= k < |read(index[j].1)|
          ==> cmp(index[i].0, read(index[j].1)[k].0) < 0)
  }

  lemma {:induction false} OffsetsAscend<K, H, V>(read: H -> seq<(K, V)>, index: seq<(K, H)>, m: nat, n: nat)
    requires m <= n <= |index|
    ensures AllTo(read, index, m) <= AllTo(read, index, n)
    decreases n - m
  {
    if m < n {
      OffsetsAscend(read, index, m, n - 1);
    }
  }

  /** Entry k of block j in the whole. */
  lemma {:induction false} EntryOf<K, H, V>(read: H -> seq<(K, V)>, index: seq<(K, H)>, j: nat, k: nat)
    requires j < |index| && k < |read(index[j].1)|
    ensures Offset(read, index, j) + k < Offset(read, index, j + 1) <= |All(read, index)|
    ensures All(read, index)[Offset(read, index, j) + k] == read(index[j].1)[k]
  {
    OffsetsAscend(read, index, j + 1, |index|);
    assert AllTo(read, index, j + 1)[Offset(read, index, j) + k] == read(index[j].1)[k];
  }

  /** Every entry of the whole is in some block. */
  lemma {:induction false} BlockOf<K, H, V>(read: H -> seq<(K, V)>, index: seq<(K, H)>, n: nat, p: nat)
      returns (j: nat, k: nat)
    requires n <= |index| && p < Offset(read, index, n)
    ensures j < n && k < |read(index[j].1)| && p == Offset(read, index, j) + k
    ensures AllTo(read, index, n)[p] == read(index[j].1)[k]
  {
    if p < Offset(read, index, n - 1) {
      j, k := BlockOf(read, index, n - 1, p);
    } else {
      j, k := n - 1, p - Offset(read, index, n - 1);
    }
  }

  /** Seeking in the index and then in its block finds the first entry not below the target. */
  lemma {:induction false} SeekInBlock<K(!new), H, V(!new)>(
    cmp: (K, K) -> int, read: H -> seq<(K, V)>, index: seq<(K, H)>, target: K, i: nat, k: nat)
    requires TotalOrder(cmp) && Indexed(cmp, read, index) && i <= |index|
    requires i == LowerBound(cmp, index, target)
    requires if i < |index| then k == LowerBound(cmp, read(index[i].1), target) else k == 0
    ensures Offset(read, index, i) + k == LowerBound(cmp, All(read, index), target)
  {
    hide TotalOrder, LowerBound, StrictlySorted, AllTo;
    var all, p := All(read, index), Offset(read, index, i) + k;
    OffsetsAscend(read, index, i, |index|);
    if i < |index| {
      BlockEnd(read, index, i);
    }
    if p > 0 {
      BelowTarget(cmp, read, index, target, i, k);
    }
    if p < |all| {
      AboveTarget(cmp, read, index, target, i, k);
    }
    LowerBoundIs(cmp, all, target, p);
  }

  lemma BlockEnd<K, H, V>(read: H -> seq<(K, V)>, index: seq<(K, H)>, i: nat)
    requires i < |index|
    ensures Offset(read, index, i) + |read(index[i].1)| == Offset(read, index, i + 1) <= |All(read, index)|
  {
    OffsetsAscend(read, index, i + 1, |index|);
  }

  lemma Chain<K(!new)>(cmp: (K, K) -> int, a: K, b: K, c: K)
    requires TotalOrder(cmp)
    ensures cmp(a, b) <= 0 && cmp(b, c) < 0 ==> cmp(a, c) < 0
    ensures cmp(a, b) < 0 && cmp(c, b) <= 0 ==> cmp(b, a) > 0
    ensures cmp(b, c) >= 0 && cmp(b, a) < 0 ==> cmp(a, c) >= 0
  {
  }

  lemma {:induction false} BelowTarget<K(!new), H, V(!new)>(
    cmp: (K, K) -> int, read: H -> seq<(K, V)>, index: seq<(K, H)>, target: K, i: nat, k: nat)
    requires TotalOrder(cmp) && Indexed(cmp, read, index) && i <= |index|
    requires i == LowerBound(cmp, index, target)
    requires if i < |index| then k == LowerBound(cmp, read(index[i].1), target) else k == 0
    requires 0 < Offset(read, index, i) + k <= |All(read, index)|
    ensures cmp(All(read, index)[Offset(read, index, i) + k - 1].0, target) < 0
  {
    hide TotalOrder, StrictlySorted, AllTo;
    if k > 0 {
      EntryOf(read, index, i, k - 1);
    } else {
      var j, m := BlockOf(read, index, i, Offset(read, index, i) - 1);
      EntryOf(read, index, j, m);
      Chain(cmp, read(index[j].1)[m].0, index[j].0, target);
    }
  }

  lemma {:induction false} AboveTarget<K(!new), H, V(!new)>(
    cmp: (K, K) -> int, read: H -> seq<(K, V)>, index: seq<(K, H)>, target: K, i: nat, k: nat)
    requires TotalOrder(cmp) && Indexed(cmp, read, index) && i <= |index|
    requires i == LowerBound(cmp, index, target)
    requires if i < |index| then k == LowerBound(cmp, read(index[i].1), target) else k == 0
    requires Offset(read, index, i) + k < |All(read, index)|
    ensures cmp(All(read, index)[Offset(read, index, i) + k].0, target) >= 0
  {
    hide TotalOrder, StrictlySorted, AllTo;
    var p := Offset(read, index, i) + k;
    if i < |index| {
      BlockEnd(read, index, i);
    }
    if i < |index| && k < |read(index[i].1)| {
      EntryOf(read, index, i, k);
    } else {
      var j, m := BlockOf(read, index, |index|, p);
      EntryOf(read, index, j, m);
      if j <= i {
        OffsetsAscend(read, index, j + 1, i + 1);
      }
      Chain(cmp, read(index[j].1)[m].0, index[i].0, target);
    }
  }

  /** The position before p among n. */
  function Before(n: nat, p: nat): nat { if p == 0 then n else p - 1 }

  /** The data iterator is over the block the index points to, and there is none past the end. */
  ghost predicate Matched<K, H, V>(read: H -> seq<(K, V)>, indexIter: Cursor<K, H>, dataIter: Option<Cursor<K, V>>) {
    && indexIter.Ok()
    && (if indexIter.Valid()
        then dataIter.Some? && dataIter.value.entries == read(indexIter.Value()) && dataIter.value.Ok()
        else dataIter.None?)
  }

  /** A forward search is at position `goal` of the whole. */
  ghost predicate Ahead<K, H, V>(read: H -> seq<(K, V)>, indexIter: Cursor<K, H>, dataIter: Option<Cursor<K, V>>,
      goal: nat) {
    && Matched(read, indexIter, dataIter)
    && goal == Offset(read, indexIter.entries, indexIter.pos) + if dataIter.Some? then dataIter.value.pos else 0
  }

  /** A backward search is at position `goal`, or before the block's first entry if its iterator is not valid. */
  ghost predicate Back<K, H, V>(read: H -> seq<(K, V)>, indexIter: Cursor<K, H>, dataIter: Option<Cursor<K, V>>,
      goal: nat) {
    && Matched(read, indexIter, dataIter)
    && var all := |All(read, indexIter.entries)|;
       if !indexIter.Valid() then goal == all
       else if dataIter.value.Valid() then goal == Offset(read, indexIter.entries, indexIter.pos) + dataIter.value.pos
       else goal == Before(all, Offset(read, indexIter.entries, indexIter.pos))
  }

  class TwoLevelIterator<K(!new), H(==), V(!new)> {
    const cmp: (K, K) -> int
    const read: H -> seq<(K, V)>
    ghost const index: seq<(K, H)>
    var indexIter: Cursor<K, H>
    var dataIter: Option<Cursor<K, V>>
    /** The handle the data iterator was opened with. */
    var dataBlockHandle: Option<H>
    ghost var pos: nat

    ghost predicate Fixed()
      reads this
    {
      && TotalOrder(cmp) && Indexed(cmp, read, index) && indexIter.entries == index && indexIter.Ok()
      && (dataIter.Some? ==>
            && dataIter.value.Ok() && dataBlockHandle.Some?
            && dataIter.value.entries == read(dataBlockHandle.value))
    }

    ghost predicate Inv()
      reads this
    {
      && Fixed() && pos <= |All(read, index)|
      && if dataIter.Some? then
        && dataIter.value.Valid() && indexIter.Valid() && dataIter.value.entries == read(indexIter.Value())
        && pos == Offset(read, index, indexIter.pos) + dataIter.value.pos
      else
        pos == |All(read, index)|
    }

    ghost function View(): Cursor<K, V>
      reads this
    {
      Cursor(All(read, index), pos)
    }

    constructor (cmp: (K, K) -> int, read: H -> seq<(K, V)>, index: seq<(K, H)>)
      requires TotalOrder(cmp) && Indexed(cmp, read, index)
      ensures Inv() && View() == Cursor(All(read, index), |All(read, index)|)
      ensures this.cmp == cmp
    {
      this.cmp, this.read, this.index := cmp, read, index;
      indexIter, dataIter, dataBlockHandle := Cursor(index, |index|), None, None;
      pos := |All(read, index)|;
    }

    predicate Valid()
      reads this
    {
      dataIter.Some? && dataIter.value.Valid()
    }

    function Current(): Option<(K, V)>
      reads this
    {
      if dataIter.Some? then dataIter.value.Current() else None
    }

    lemma CurrentIsView()
      requires Inv()
      ensures Valid() <==> View().Valid()
      ensures Current() == View().Current() && View().Ok()
    {
      hide TotalOrder, Indexed, AllTo;
      if dataIter.Some? {
        EntryOf(read, index, indexIter.pos, dataIter.value.pos);
      }
    }

    /** Open the block the index points to, unless it is read already. */
    method InitDataBlock()
      requires Fixed()
      modifies `dataIter, `dataBlockHandle
      ensures Fixed() && Matched(read, indexIter, dataIter)
    {
      hide TotalOrder, Indexed;
      if !indexIter.Valid() {
        dataIter := None;
      } else {
        var handle := indexIter.Value();
        if !(dataIter.Some? && Some(handle) == dataBlockHandle) {
          dataBlockHandle := Some(handle);
          dataIter := Some(Cursor(read(handle), |read(handle)|));
        }
      }
    }

    method SkipEmptyDataBlocksForward(ghost goal: nat)
      requires Fixed() && Ahead(read, indexIter, dataIter, goal)
      modifies this
      ensures Inv() && pos == goal
    {
      hide TotalOrder, Indexed;
      while dataIter.None? || !dataIter.value.Valid()
        invariant Fixed() && Ahead(read, indexIter, dataIter, goal)
        decreases |index| - indexIter.pos
      {
        if !indexIter.Valid() {
          dataIter := None;
          pos := goal;
          return;
        }
        BlockEnd(read, index, indexIter.pos);
        indexIter := indexIter.Next();
        InitDataBlock();
        if dataIter.Some? {
          dataIter := Some(dataIter.value.SeekToFirst());
        }
      }
      pos := goal;
      BlockEnd(read, index, indexIter.pos);
    }

    method SkipEmptyDataBlocksBackward(ghost goal: nat)
      requires Fixed() && Back(read, indexIter, dataIter, goal)
      modifies this
      ensures Inv() && pos == goal
    {
      hide TotalOrder, Indexed;
      while dataIter.None? || !dataIter.value.Valid()
        invariant Fixed() && Back(read, indexIter, dataIter, goal)
        decreases if indexIter.Valid() then indexIter.pos + 1 else 0
      {
        if !indexIter.Valid() {
          dataIter := None;
          pos := goal;
          return;
        }
        if indexIter.pos > 0 {
          BlockEnd(read, index, indexIter.pos - 1);
        }
        indexIter := indexIter.Prev();
        InitDataBlock();
        if dataIter.Some? {
          dataIter := Some(dataIter.value.SeekToLast());
        }
      }
      pos := goal;
      BlockEnd(read, index, indexIter.pos);
    }

    method SeekToFirst()
      requires Inv()
      modifies this
      ensures Inv() && View() == old(View()).SeekToFirst()
    {
      hide TotalOrder, Indexed;
      indexIter := indexIter.SeekToFirst();
      InitDataBlock();
      if dataIter.Some? {
        dataIter := Some(dataIter.value.SeekToFirst());
      }
      SkipEmptyDataBlocksForward(0);
    }

    method SeekToLast()
      requires Inv()
      modifies this
      ensures Inv() && View() == old(View()).SeekToLast()
    {
      hide TotalOrder, Indexed;
      indexIter := indexIter.SeekToLast();
      InitDataBlock();
      if dataIter.Some? {
        dataIter := Some(dataIter.value.SeekToLast());
        BlockEnd(read, index, |index| - 1);
      }
      SkipEmptyDataBlocksBackward(LastPos(|All(read, index)|));
    }

    method Seek(target: K)
      requires Inv()
      modifies this
      ensures Inv() && View() == old(View()).Seek(cmp, target)
    {
      hide TotalOrder, Indexed, LowerBound, AllTo;
      indexIter := indexIter.Seek(cmp, target);
      InitDataBlock();
      if dataIter.Some? {
        dataIter := Some(dataIter.value.Seek(cmp, target));
      }
      SeekInBlock(cmp, read, index, target, indexIter.pos, if dataIter.Some? then dataIter.value.pos else 0);
      SkipEmptyDataBlocksForward(LowerBound(cmp, All(read, index), target));
    }

    method Next()
      requires Inv() && Valid()
      modifies this
      ensures Inv() && old(View()).Valid() && View() == old(View()).Next()
    {
      hide TotalOrder, Indexed, AllTo;
      CurrentIsView();
      dataIter := Some(dataIter.value.Next());
      SkipEmptyDataBlocksForward(pos + 1);
    }

    method Prev()
      requires Inv() && Valid()
      modifies this
      ensures Inv() && old(View()).Valid() && View() == old(View()).Prev()
    {
      hide TotalOrder, Indexed, AllTo;
      CurrentIsView();
      dataIter := Some(dataIter.value.Prev());
      SkipEmptyDataBlocksBackward(Before(|All(read, index)|, pos));
    }

    /** One operation as a caller makes it: stepping needs a valid iterator. */
    method Do(op: Op<K>)
      requires Inv()
      modifies this
      ensures Inv() && View() == old(View()).Do(cmp, op)
    {
      hide TotalOrder, Indexed, AllTo, LowerBound;
      CurrentIsView();
      match op
      case SeekToFirst => SeekToFirst();
      case SeekToLast => SeekToLast();
      case Seek(target) => Seek(target);
      case Next => if Valid() { Next(); }
      case Prev => if Valid() { Prev(); }
    }

    /** Any run of operations shows what a cursor over the concatenated blocks shows. */
    method Run(ops: seq<Op<K>>) returns (seen: seq<Option<(K, V)>>)
      requires Inv()
      modifies this
      ensures Inv() && seen == old(View()).Trace(cmp, ops)
    {
      hide TotalOrder, Indexed, AllTo, LowerBound;
      seen := [];
      for i := 0 to |ops|
        invariant Inv()
        invariant seen + View().Trace(cmp, ops[i..]) == old(View()).Trace(cmp, ops)
      {
        Do(ops[i]);
        assert ops[i..][1..] == ops[i + 1..];
        CurrentIsView();
        seen := seen + [Current()];
      }
    }
  }
}
