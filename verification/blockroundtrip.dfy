/** A finished block opens, and its iterator is a cursor over the pairs that were added. */
module BlockRoundTrip {
  import opened Lists
  import opened Ordering
  import opened Cursors
  import opened Bytes
  import opened Coding
  import opened BlockFormat
  import opened BlockBuilding
  import opened BlockReading

  lemma {:induction false} RestartBytesAt(restarts: seq<nat>, r: nat)
    requires r < |restarts|
    ensures RestartBytes(restarts)[4 * r..4 * r + 4] == Fixed(restarts[r] % TWO32, 4)
  {
    var n := |restarts| - 1;
    if r < n {
      RestartBytesAt(restarts[..n], r);
      assert RestartBytes(restarts)[4 * r..4 * r + 4] == RestartBytes(restarts[..n])[4 * r..4 * r + 4];
    }
  }

  /** A 32-bit number written with memcpy reads back. */
  lemma FixedReads(data: seq<byte>, p: nat, v: nat)
    requires v < TWO32 && p + 4 <= |data| && data[p..p + 4] == Fixed(v, 4)
    ensures ReadFixed32(data, p) == v
  {
    Pow256Values();
    FixedRoundTrip(v, 4);
  }

  lemma RestartReads(buffer: seq<byte>, restarts: seq<nat>, r: nat)
    requires r < |restarts| && restarts[r] < TWO32
    ensures ReadFixed32(Finished(buffer, restarts), |buffer| + 4 * r) == restarts[r]
  {
    hide RestartBytes, Fixed;
    var data := Finished(buffer, restarts);
    var p := |buffer| + 4 * r;
    RestartBytesAt(restarts, r);
    assert data[p..p + 4] == RestartBytes(restarts)[4 * r..4 * r + 4];
    FixedReads(data, p, restarts[r]);
  }

  lemma CountReads(buffer: seq<byte>, restarts: seq<nat>)
    requires |restarts| < TWO32
    ensures var data := Finished(buffer, restarts); ReadFixed32(data, |data| - 4) == |restarts|
  {
    hide RestartBytes, Fixed;
    var data := Finished(buffer, restarts);
    var p := |data| - 4;
    assert data[p..p + 4] == Fixed(|restarts| % TWO32, 4);
    FixedReads(data, p, |restarts|);
  }

  lemma StillLaidOut(l: Layout, data: seq<byte>, more: seq<byte>)
    requires LaidOut(l, data, |data|)
    ensures LaidOut(l, data + more, |data|)
  {
    hide EntryBytes, At;
    forall i | 0 <= i < |l.entries|
      ensures EntryAt(l, data + more, i)
    {
      assert EntryAt(l, data, i);
      AtGrows(data, more, l.starts[i], EntryBytes(l.shared[i], l.entries[i].0, l.entries[i].1));
    }
  }

  /** Opening what Finish returns finds the restart array, in any block of less than 4 GiB. */
  lemma FinishedOpens(
    cmp: (seq<byte>, seq<byte>) -> int, interval: nat, l: Layout,
    buffer: seq<byte>, restarts: seq<nat>, counter: nat, lastkey: seq<byte>)
    requires Building(cmp, interval, l, buffer, restarts, counter, lastkey)
    requires |Finished(buffer, restarts)| < TWO32
    ensures var data := Finished(buffer, restarts);
      && Open(data) == Readable(|buffer|, |l.heads|)
      && Block(l, data, |buffer|)
  {
    hide RestartBytes, Fixed, EntryAt, Compressed, StrictlySorted, CommonPrefix;
    var data := Finished(buffer, restarts);
    var n := |restarts|;
    assert |data| == |buffer| + 4 * n + 4;
    CountReads(buffer, restarts);
    var more := RestartBytes(restarts) + Fixed(n % TWO32, 4);
    assert data == buffer + more;
    StillLaidOut(l, buffer, more);
    forall r | 0 <= r < n
      ensures ReadFixed32(data, |buffer| + 4 * r) == l.starts[l.heads[r]]
    {
      StartsCompareEnd(l, buffer, l.heads[r]);
      RestartReads(buffer, restarts, r);
    }
  }

  lemma StartsCompareEnd(l: Layout, buffer: seq<byte>, i: nat)
    requires LaidOut(l, buffer, |buffer|) && i <= |l.entries|
    ensures l.starts[i] <= |buffer|
  {
    hide EntryAt;
    if i < |l.entries| {
      StartsAscend(l, buffer, |buffer|, i, |l.entries|);
    }
  }

  method Build(cmp: (seq<byte>, seq<byte>) -> int, interval: nat, pairs: seq<Pair>)
    returns (block: seq<byte>, ghost l: Layout)
    requires TotalOrder(cmp) && StrictlySorted(cmp, pairs) && interval >= 1
    ensures l.entries == pairs
    ensures |block| < TWO32 ==>
              exists restarts :: Open(block) == Readable(restarts, |l.heads|) && Block(l, block, restarts)
  {
    hide TotalOrder, Building, Block, Open, Finished;
    var builder := new BlockBuilder(cmp, interval);
    for i := 0 to |pairs|
      invariant builder.Valid() && builder.layout.entries == pairs[..i]
      invariant builder.cmp == cmp && builder.interval == interval
    {
      LastIs(cmp, pairs, i, builder.interval, builder.layout, builder.buffer, builder.restarts, builder.counter,
        builder.lastkey);
      builder.Add(pairs[i].0, pairs[i].1);
    }
    l := builder.layout;
    ghost var buffer, restarts, counter, last := builder.buffer, builder.restarts, builder.counter, builder.lastkey;
    block := builder.Finish();
    if |block| < TWO32 {
      FinishedOpens(cmp, interval, l, buffer, restarts, counter, last);
    }
  }

  /** The next pair's key is above the last key added. */
  lemma LastIs(
    cmp: (seq<byte>, seq<byte>) -> int, pairs: seq<Pair>, i: nat, interval: nat, l: Layout,
    buffer: seq<byte>, restarts: seq<nat>, counter: nat, lastkey: seq<byte>)
    requires TotalOrder(cmp) && StrictlySorted(cmp, pairs) && i < |pairs| && l.entries == pairs[..i]
    requires Building(cmp, interval, l, buffer, restarts, counter, lastkey)
    ensures i == 0 || cmp(pairs[i].0, lastkey) > 0
  {
    hide LaidOut, Headed, Spaced, Compressed;
    if i > 0 {
      assert lastkey == pairs[i - 1].0;
      assert cmp(pairs[i - 1].0, pairs[i].0) < 0;
    }
  }

  /**
   * Build a block of any increasing pairs with any restart interval, open it, and run any operations on
   * its iterator: they show what a cursor over the pairs shows.
   */
  method BuildAndRead(cmp: (seq<byte>, seq<byte>) -> int, interval: nat, pairs: seq<Pair>, ops: seq<Op<seq<byte>>>)
    returns (block: seq<byte>, seen: seq<Option<Pair>>)
    requires TotalOrder(cmp) && StrictlySorted(cmp, pairs) && interval >= 1
    ensures |block| < TWO32 ==> Open(block).Readable? && seen == Cursor(pairs, |pairs|).Trace(cmp, ops)
  {
    hide TotalOrder, Block, Open, StrictlySorted;
    ghost var l;
    block, l := Build(cmp, interval, pairs);
    seen := [];
    if |block| < TWO32 {
      var found := Open(block);
      match found
      case Readable(restartOffset, numRestarts) =>
        var it := new BlockIterator(cmp, block, restartOffset, numRestarts, l);
        seen := it.Run(ops);
      case _ =>
        assert false;
    }
  }
}
