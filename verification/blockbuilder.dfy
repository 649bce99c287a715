/** The writer of prefix-compressed blocks (blockbuilder.cc). */
module BlockBuilding {
  import opened Lists
  import opened Ordering
  import opened Bytes
  import opened Coding
  import opened BlockFormat

  function LastKey(entries: seq<Pair>): seq<byte> {
    if entries == [] then [] else entries[|entries| - 1].0
  }

  /** The restart offsets, in 32 bits, and a restart point after every `interval` entries. */
  ghost predicate Spaced(l: Layout, restarts: seq<nat>, interval: nat, counter: nat)
    requires Shaped(l)
  {
    && |restarts| == |l.heads|
    && (forall r :: 0 <= r < |l.heads| ==> l.heads[r] <= |l.entries| && restarts[r] == l.starts[l.heads[r]] % TWO32)
    && (forall r :: 0 < r < |l.heads| ==> l.heads[r] == l.heads[r - 1] + interval)
    && |l.heads| > 0 && l.heads[|l.heads| - 1] + counter == |l.entries|
  }

  /** A key shares as much as it can with the key before it, and nothing at a restart point. */
  ghost predicate Compressed(l: Layout)
    requires Shaped(l)
  {
    forall i :: 0 <= i < |l.entries| ==>
      l.shared[i] == if i in l.heads then 0 else CommonPrefix(LastKey(l.entries[..i]), l.entries[i].0)
  }

  lemma AtGrows(data: seq<byte>, more: seq<byte>, p: nat, part: seq<byte>)
    requires At(data, p, part)
    ensures At(data + more, p, part)
  {
    assert (data + more)[p..p + |part|] == data[p..p + |part|];
  }

  ghost function Grown(l: Layout, head: bool, shared: nat, key: seq<byte>, value: seq<byte>, end: nat): Layout
    requires Shaped(l)
  {
    Layout(l.entries + [(key, value)], l.starts + [end], l.shared + [shared],
           if head then l.heads + [|l.entries|] else l.heads)
  }

  /** Appending the bytes of an entry lays it out after the others. */
  lemma {:induction false} Extend(l: Layout, data: seq<byte>, head: bool, shared: nat, key: seq<byte>, value: seq<byte>)
    requires LaidOut(l, data, |data|) && shared <= |key|
    requires shared <= |LastKey(l.entries)| && LastKey(l.entries)[..shared] == key[..shared]
    ensures var more := data + EntryBytes(shared, key, value);
      LaidOut(Grown(l, head, shared, key, value, |more|), more, |more|)
  {
    hide EntryBytes;
    var bytes := EntryBytes(shared, key, value);
    var l' := Grown(l, head, shared, key, value, |data + bytes|);
    assert At(data + bytes, |data|, bytes);
    hide At;
    forall i | 0 <= i < |l'.entries|
      ensures EntryAt(l', data + bytes, i)
    {
      if i < |l.entries| {
        assert EntryAt(l, data, i);
        AtGrows(data, bytes, l.starts[i], EntryBytes(l.shared[i], l.entries[i].0, l.entries[i].1));
      }
    }
  }

  lemma {:induction false} ExtendCompressed(l: Layout, head: bool, shared: nat, key: seq<byte>, value: seq<byte>,
      end: nat)
    requires Shaped(l) && Compressed(l)
    requires forall r :: 0 <= r < |l.heads| ==> l.heads[r] < |l.entries| || (!head && l.heads[r] == |l.entries|)
    requires |l.entries| in l.heads ==> shared == 0
    requires if head then shared == 0 else |l.entries| !in l.heads ==> shared == CommonPrefix(LastKey(l.entries), key)
    ensures Compressed(Grown(l, head, shared, key, value, end))
  {
    hide CommonPrefix;
    var l', n := Grown(l, head, shared, key, value, end), |l.entries|;
    assert l'.entries[..n] == l.entries;
    forall i | 0 <= i < n
      ensures l'.entries[..i] == l.entries[..i] && (i in l'.heads <==> i in l.heads)
    {
    }
  }

  /** What a builder keeps between calls. */
  ghost predicate Building(
    cmp: (seq<byte>, seq<byte>) -> int, interval: nat, l: Layout,
    buffer: seq<byte>, restarts: seq<nat>, counter: nat, lastkey: seq<byte>)
  {
    && interval >= 1 && counter <= interval
    && LaidOut(l, buffer, |buffer|) && Headed(l)
    && Spaced(l, restarts, interval, counter) && Compressed(l)
    && lastkey == LastKey(l.entries)
    && (counter == 0 ==> l.entries == [])
    && StrictlySorted(cmp, l.entries)
  }

  lemma RunHeads(l: Layout, restarts: seq<nat>, interval: nat, counter: nat, shared: nat, key: seq<byte>,
      value: seq<byte>, end: nat)
    requires Shaped(l) && Headed(l) && Spaced(l, restarts, interval, counter)
    requires |l.entries| in l.heads ==> shared == 0
    ensures var l' := Grown(l, false, shared, key, value, end);
      Headed(l') && Spaced(l', restarts, interval, counter + 1)
  {
    var l' := Grown(l, false, shared, key, value, end);
    assert l'.heads == l.heads;
    forall r | 0 <= r < |l.heads|
      ensures l.heads[r] <= |l.entries| && l'.starts[l.heads[r]] == l.starts[l.heads[r]]
      ensures l'.shared[l.heads[r]] == 0
    {
      if l.heads[r] == |l.entries| {
        assert |l.entries| in l.heads;
      }
    }
  }

  lemma HeadsBefore(l: Layout, restarts: seq<nat>, interval: nat, r: nat)
    requires Shaped(l) && Headed(l) && Spaced(l, restarts, interval, interval) && interval > 0 && r < |l.heads|
    ensures l.heads[r] < |l.entries|
  {
    if r < |l.heads| - 1 {
      assert l.heads[r] < l.heads[|l.heads| - 1];
    }
  }

  lemma NewHeads(l: Layout, restarts: seq<nat>, interval: nat, key: seq<byte>, value: seq<byte>, end: nat)
    requires Shaped(l) && Headed(l) && Spaced(l, restarts, interval, interval) && l.entries != [] && interval > 0
    ensures var l' := Grown(l, true, 0, key, value, end);
      Headed(l') && Spaced(l', restarts + [l.starts[|l.entries|] % TWO32], interval, 1)
  {
    NewHeaded(l, restarts, interval, key, value, end);
    NewSpaced(l, restarts, interval, key, value, end);
  }

  lemma NewHeaded(l: Layout, restarts: seq<nat>, interval: nat, key: seq<byte>, value: seq<byte>, end: nat)
    requires Shaped(l) && Headed(l) && Spaced(l, restarts, interval, interval) && l.entries != [] && interval > 0
    ensures Headed(Grown(l, true, 0, key, value, end))
  {
    hide Spaced;
    forall r | 0 <= r < |l.heads|
      ensures l.heads[r] < |l.entries|
    {
      HeadsBefore(l, restarts, interval, r);
    }
  }

  lemma NewSpaced(l: Layout, restarts: seq<nat>, interval: nat, key: seq<byte>, value: seq<byte>, end: nat)
    requires Shaped(l) && Headed(l) && Spaced(l, restarts, interval, interval) && l.entries != [] && interval > 0
    ensures Spaced(Grown(l, true, 0, key, value, end), restarts + [l.starts[|l.entries|] % TWO32], interval, 1)
  {
    var after, more := Grown(l, true, 0, key, value, end), restarts + [l.starts[|l.entries|] % TWO32];
    forall r | 0 <= r < |after.heads|
      ensures after.heads[r] <= |after.entries| && more[r] == after.starts[after.heads[r]] % TWO32
      ensures r > 0 ==> after.heads[r] == after.heads[r - 1] + interval
    {
      if r < |l.heads| {
        HeadsBefore(l, restarts, interval, r);
        assert after.starts[l.heads[r]] == l.starts[l.heads[r]] && more[r] == restarts[r];
      } else {
        assert after.heads[r] == |l.entries| && after.starts[|l.entries|] == l.starts[|l.entries|];
      }
    }
  }

  /** One more entry: a restart point once `interval` entries have shared prefixes, and compressed otherwise. */
  lemma AddKeeps(
    cmp: (seq<byte>, seq<byte>) -> int, interval: nat, l: Layout,
    buffer: seq<byte>, restarts: seq<nat>, counter: nat, lastkey: seq<byte>,
    head: bool, shared: nat, key: seq<byte>, value: seq<byte>) returns (l': Layout)
    requires TotalOrder(cmp) && Building(cmp, interval, l, buffer, restarts, counter, lastkey)
    requires l.entries == [] || cmp(key, lastkey) > 0
    requires head == (counter == interval)
    requires shared == if head then 0 else CommonPrefix(lastkey, key)
    ensures l'.entries == l.entries + [(key, value)]
    ensures Building(cmp, interval, l', buffer + EntryBytes(shared, key, value),
              if head then restarts + [|buffer| % TWO32] else restarts, if head then 1 else counter + 1, key)
  {
    hide TotalOrder, EntryBytes, EntryAt, CommonPrefix, StrictlySorted;
    var end := |buffer + EntryBytes(shared, key, value)|;
    FirstSharesNothing(l, key);
    Extend(l, buffer, head, shared, key, value);
    if head {
      NewHeads(l, restarts, interval, key, value, end);
    } else {
      RunHeads(l, restarts, interval, counter, shared, key, value, end);
    }
    l' := Grown(l, head, shared, key, value, end);
    ExtendCompressed(l, head, shared, key, value, end);
    SortedGrows(cmp, l.entries, key, value);
  }

  lemma {:induction false} HeadIs(l: Layout, restarts: seq<nat>, interval: nat, counter: nat, r: nat)
    requires Shaped(l) && Headed(l) && Spaced(l, restarts, interval, counter) && r < |l.heads|
    ensures l.heads[r] == interval * r
  {
    if r > 0 {
      HeadIs(l, restarts, interval, counter, r - 1);
    }
  }

  /** Every interval starts with a restart point, which holds its whole key; the other keys are compressed. */
  lemma {:induction false} RestartEvery(
    l: Layout, restarts: seq<nat>, interval: nat, counter: nat, r: nat, k: nat, i: nat)
    requires Shaped(l) && Headed(l) && Spaced(l, restarts, interval, counter) && Compressed(l) && counter <= interval
    requires i == interval * r + k && k < interval && i < |l.entries|
    ensures r < |restarts| && (k == 0 ==> restarts[r] == l.starts[i] % 0x1_0000_0000)
    ensures l.shared[i] == if k == 0 then 0 else CommonPrefix(LastKey(l.entries[..i]), l.entries[i].0)
  {
    hide CommonPrefix;
    HeadFor(l, restarts, interval, counter, r, i);
    forall q | 0 <= q < |l.heads| && k > 0
      ensures l.heads[q] != i
    {
      HeadIs(l, restarts, interval, counter, q);
      Multiples(interval, q, r);
      Multiples(interval, r, q);
    }
  }

  lemma {:induction false} HeadFor(l: Layout, restarts: seq<nat>, interval: nat, counter: nat, r: nat, i: nat)
    requires Shaped(l) && Headed(l) && Spaced(l, restarts, interval, counter) && counter <= interval
    requires interval * r <= i < |l.entries|
    ensures r < |l.heads| && l.heads[r] == interval * r
  {
    var n := |l.heads|;
    HeadIs(l, restarts, interval, counter, n - 1);
    Multiples(interval, n, r);
    assert interval * (n - 1) + interval == interval * n;
    if r < n {
      HeadIs(l, restarts, interval, counter, r);
    }
  }

  lemma CounterBound(
    cmp: (seq<byte>, seq<byte>) -> int, interval: nat, l: Layout,
    buffer: seq<byte>, restarts: seq<nat>, counter: nat, lastkey: seq<byte>)
    requires Building(cmp, interval, l, buffer, restarts, counter, lastkey)
    ensures counter <= interval
  {
  }

  lemma RestartNext(buffer: seq<byte>, restarts: seq<nat>, i: nat)
    requires i < |restarts|
    ensures buffer + RestartBytes(restarts[..i]) + Fixed(restarts[i] % TWO32, 4) ==
      buffer + RestartBytes(restarts[..i + 1])
  {
    assert restarts[..i + 1][..i] == restarts[..i];
  }

  class BlockBuilder {
    const cmp: (seq<byte>, seq<byte>) -> int
    const interval: nat
    var buffer: seq<byte>
    var restarts: seq<nat>
    var counter: nat
    var finished: bool
    var lastkey: seq<byte>
    ghost var layout: Layout

    ghost predicate Valid()
      reads this
    {
      !finished && Building(cmp, interval, layout, buffer, restarts, counter, lastkey)
    }

    constructor (cmp: (seq<byte>, seq<byte>) -> int, interval: nat)
      requires interval >= 1
      ensures Valid() && layout.entries == [] && this.cmp == cmp && this.interval == interval
      ensures buffer == [] && restarts == [0]
    {
      this.cmp, this.interval := cmp, interval;
      buffer, restarts, counter, finished, lastkey := [], [0], 0, false, [];
      layout := Layout([], [0], [], [0]);
    }

    /** As if nothing had been added. */
    method Reset()
      requires interval >= 1
      modifies this
      ensures Valid() && layout.entries == []
    {
      buffer, restarts, counter, finished, lastkey := [], [0], 0, false, [];
      layout := Layout([], [0], [], [0]);
    }

    /** How long the block would be if it were finished now. */
    function CurrentSizeEstimate(): (size: nat)
      reads this
      ensures size == |Finished(buffer, restarts)|
    {
      |buffer| + 4 * |restarts| + 4
    }

    predicate Empty()
      reads this
    {
      buffer == []
    }

    lemma EmptyIsNone()
      requires Valid()
      ensures Empty() <==> layout.entries == []
    {
      hide EntryAt, Headed, Spaced, Compressed, StrictlySorted;
      if layout.entries != [] {
        StartsAscend(layout, buffer, |buffer|, 0, |layout.entries|);
      }
    }

    /** How many leading bytes the key shares with the last one. */
    method Sharing(key: seq<byte>) returns (shared: nat)
      ensures shared == CommonPrefix(lastkey, key)
    {
      shared := 0;
      var minLength := if |lastkey| < |key| then |lastkey| else |key|;
      while shared < minLength && lastkey[shared] == key[shared]
        invariant shared <= minLength && lastkey[..shared] == key[..shared]
      {
        shared := shared + 1;
      }
      PrefixIs(lastkey, key, shared);
    }

    method Add(key: seq<byte>, value: seq<byte>)
      requires Valid() && (layout.entries == [] || cmp(key, lastkey) > 0) && TotalOrder(cmp)
      modifies this
      ensures Valid() && layout.entries == old(layout.entries) + [(key, value)]
    {
      hide TotalOrder, EntryBytes, CommonPrefix, Building;
      CounterBound(cmp, interval, layout, buffer, restarts, counter, lastkey);
      ghost var head := counter == interval;
      ghost var kept := CommonPrefix(lastkey, key);
      layout := AddKeeps(cmp, interval, layout, buffer, restarts, counter, lastkey, head, if head then 0 else kept,
        key, value);
      var shared := 0;
      if counter < interval {
        shared := Sharing(key);
      } else {
        restarts := restarts + [|buffer| % TWO32];
        counter := 0;
      }
      Resized(lastkey, key, shared);
      var bytes := EntryBytes(shared, key, value);
      buffer := buffer + bytes;
      lastkey := lastkey[..shared] + key[shared..];
      assert lastkey == key;
      counter := counter + 1;
    }

    /** The block: the entries, the restart array and its length. */
    method Finish() returns (block: seq<byte>)
      requires Valid()
      modifies this
      ensures block == buffer == Finished(old(buffer), restarts) && finished
      ensures restarts == old(restarts) && layout == old(layout)
    {
      hide RestartBytes, Building;
      ghost var start := buffer;
      var i := 0;
      assert RestartBytes(restarts[..0]) == [];
      while i < |restarts|
        invariant i <= |restarts| && restarts == old(restarts) && layout == old(layout)
        invariant buffer == start + RestartBytes(restarts[..i])
      {
        RestartNext(start, restarts, i);
        buffer := buffer + Fixed(restarts[i] % TWO32, 4);
        i := i + 1;
      }
      assert restarts[..i] == restarts;
      buffer := buffer + Fixed(|restarts| % TWO32, 4);
      finished := true;
      block := buffer;
    }
  }

  /** Keeping the shared bytes and appending the others gives the new key. */
  lemma Resized(last: seq<byte>, key: seq<byte>, shared: nat)
    requires shared == 0 || shared == CommonPrefix(last, key)
    ensures shared <= |last| && shared <= |key| && last[..shared] + key[shared..] == key
  {
    var n := CommonPrefix(last, key);
    hide CommonPrefix;
    assert last[..shared] == key[..shared];
    assert key[..shared] + key[shared..] == key;
  }

  lemma FirstSharesNothing(l: Layout, key: seq<byte>)
    ensures l.entries == [] ==> CommonPrefix(LastKey(l.entries), key) == 0
    ensures CommonPrefix(LastKey(l.entries), key) <= |LastKey(l.entries)|
    ensures CommonPrefix(LastKey(l.entries), key) <= |key|
    ensures LastKey(l.entries)[..CommonPrefix(LastKey(l.entries), key)] == key[..CommonPrefix(LastKey(l.entries), key)]
  {
  }

  lemma SortedGrows(cmp: (seq<byte>, seq<byte>) -> int, entries: seq<Pair>, key: seq<byte>, value: seq<byte>)
    requires TotalOrder(cmp) && StrictlySorted(cmp, entries)
    requires entries == [] || cmp(key, LastKey(entries)) > 0
    ensures StrictlySorted(cmp, entries + [(key, value)])
  {
    assert entries == [] || cmp(LastKey(entries), key) < 0;
    hide TotalOrder;
    var more := entries + [(key, value)];
    forall i, j | 0 <= i < j < |more|
      ensures cmp(more[i].0, more[j].0) < 0
    {
      if j == |entries| && i < j - 1 {
        Transitive(cmp, entries[i].0, LastKey(entries), key);
      }
    }
  }
}
