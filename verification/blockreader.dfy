/** The iterator over a prefix-compressed block (block.cc). */
module BlockReading {
  import opened Lists
  import opened Ordering
  import opened Cursors
  import opened Bytes
  import opened Coding
  import opened BlockFormat

  datatype Opened = Corrupt | Empty | Readable(restartOffset: nat, numRestarts: nat)

  function ReadFixed32(data: seq<byte>, p: nat): nat
    requires p + 4 <= |data|
  {
    Unfixed(data[p..p + 4])
  }

  /** What opening a block's contents finds out from its last four bytes. */
  function Open(data: seq<byte>): Opened {
    if |data| < 4 then Corrupt
    else
      var n := ReadFixed32(data, |data| - 4);
      if n > (|data| - 4) / 4 then Corrupt
      else if n == 0 then Empty
      else Readable(|data| - (1 + n) * 4, n)
  }

  /** A block whose entries and restart array are those of a layout. */
  ghost predicate Block(l: Layout, data: seq<byte>, restarts: nat) {
    && LaidOut(l, data, restarts) && Headed(l) && |data| < TWO32
    && restarts + 4 * |l.heads| <= |data|
    && forall r :: 0 <= r < |l.heads| ==> ReadFixed32(data, restarts + 4 * r) == l.starts[l.heads[r]]
  }

  /** The iterator stands at entry i; i is their number when it is not valid. */
  ghost predicate Stands(
    l: Layout, data: seq<byte>, i: nat, current: nat, restartIndex: nat, k: seq<byte>, from: nat, to: nat)
    requires Shaped(l)
  {
    if i < |l.entries| then
      && current == l.starts[i] && k == l.entries[i].0
      && from <= to == l.starts[i + 1] && to <= |data| && data[from..to] == l.entries[i].1
      && restartIndex < |l.heads| && l.heads[restartIndex] <= i
      && (restartIndex + 1 < |l.heads| ==> i <= l.heads[restartIndex + 1])
    else
      i == |l.entries| && current == l.starts[i] && restartIndex == |l.heads|
  }

  /** The iterator is about to parse entry i: its offset is next, and k has the bytes the entry shares. */
  ghost predicate Ready(l: Layout, i: nat, restartIndex: nat, k: seq<byte>, to: nat)
    requires Shaped(l)
  {
    && i <= |l.entries| && to == l.starts[i]
    && restartIndex < |l.heads| && l.heads[restartIndex] <= i
    && (i < |l.entries| ==>
          l.shared[i] <= |k| && l.shared[i] <= |l.entries[i].0| && k[..l.shared[i]] == l.entries[i].0[..l.shared[i]])
  }

  lemma StandsIsReady(
    l: Layout, data: seq<byte>, end: nat, i: nat, current: nat, restartIndex: nat, k: seq<byte>, from: nat, to: nat)
    requires LaidOut(l, data, end) && i < |l.entries| && Stands(l, data, i, current, restartIndex, k, from, to)
    ensures Ready(l, i + 1, restartIndex, k, to)
  {
    hide EntryBytes, At;
    if i + 1 < |l.entries| {
      assert EntryAt(l, data, i + 1);
    }
  }

  /** A key's bytes, its own and those it shares, are all among the entries up to it. */
  lemma {:induction false} KeyLength(l: Layout, data: seq<byte>, end: nat, i: nat)
    requires LaidOut(l, data, end) && i < |l.entries|
    ensures |l.entries[i].0| <= l.starts[i + 1]
  {
    hide Varint, At;
    assert EntryAt(l, data, i);
    if i > 0 {
      KeyLength(l, data, end, i - 1);
    }
  }

  /** Parsing entry i of the layout gives its key from the shared bytes, and its value. */
  lemma {:induction false} ParsesEntry(l: Layout, data: seq<byte>, restarts: nat, i: nat, k: seq<byte>)
    requires Block(l, data, restarts) && i < |l.entries|
    requires l.shared[i] <= |k| && l.shared[i] <= |l.entries[i].0| && k[..l.shared[i]] == l.entries[i].0[..l.shared[i]]
    ensures l.starts[i] < restarts <= |data|
    ensures var r := DecodeEntry(data, l.starts[i], restarts);
      && r.Some? && r.value.shared == l.shared[i]
      && r.value.p + r.value.nonShared + r.value.valueLength == l.starts[i + 1] <= |data|
      && k[..l.shared[i]] + data[r.value.p..r.value.p + r.value.nonShared] == l.entries[i].0
      && data[r.value.p + r.value.nonShared..l.starts[i + 1]] == l.entries[i].1
  {
    hide EntryBytes, DecodeEntry, Headed;
    var (key, value) := l.entries[i];
    var shared := l.shared[i];
    assert EntryAt(l, data, i);
    StartsAscend(l, data, restarts, i, |l.entries|);
    if i + 1 < |l.entries| {
      StartsAscend(l, data, restarts, i + 1, |l.entries|);
    }
    KeyLength(l, data, restarts, i);
    DecodeWritten(data, l.starts[i], restarts, shared, key, value);
    assert key[..shared] + key[shared..] == key;
  }

  /** An offset below a restart point's comes from an entry before it, and conversely. */
  lemma StartsCompare(l: Layout, data: seq<byte>, end: nat, i: nat, j: nat)
    requires LaidOut(l, data, end) && i <= |l.entries| && j <= |l.entries|
    ensures l.starts[i] < l.starts[j] <==> i < j
    ensures l.starts[i] == l.starts[j] <==> i == j
  {
    hide EntryAt;
    if i < j {
      StartsAscend(l, data, end, i, j);
    } else if j < i {
      StartsAscend(l, data, end, j, i);
    }
  }

  /** What being ready to parse entry i comes to. */
  lemma ReadyIs(l: Layout, data: seq<byte>, restarts: nat, i: nat, restartIndex: nat, k: seq<byte>, to: nat)
    requires Block(l, data, restarts) && Ready(l, i, restartIndex, k, to)
    ensures i <= |l.entries| && |l.starts| == |l.entries| + 1 && to == l.starts[i] <= restarts <= |data|
    ensures restartIndex < |l.heads| && l.heads[restartIndex] <= i && (to >= restarts <==> i == |l.entries|)
    ensures i < |l.entries| ==>
      var r := DecodeEntry(data, to, restarts);
      && r.Some? && r.value.shared <= |k|
      && r.value.p + r.value.nonShared + r.value.valueLength == l.starts[i + 1] <= |data|
      && k[..r.value.shared] + data[r.value.p..r.value.p + r.value.nonShared] == l.entries[i].0
      && data[r.value.p + r.value.nonShared..l.starts[i + 1]] == l.entries[i].1
  {
    hide DecodeEntry, EntryAt, Headed;
    StartsCompare(l, data, restarts, i, |l.entries|);
    if i < |l.entries| {
      ParsesEntry(l, data, restarts, i, k);
    }
  }

  lemma StandsAt(
    l: Layout, data: seq<byte>, restarts: nat, i: nat, current: nat, restartIndex: nat, k: seq<byte>, from: nat,
    to: nat)
    requires Block(l, data, restarts) && i < |l.entries| && |l.starts| == |l.entries| + 1
    requires current == l.starts[i] && k == l.entries[i].0
    requires from <= to == l.starts[i + 1] && to <= |data| && data[from..to] == l.entries[i].1
    requires restartIndex < |l.heads| && l.heads[restartIndex] <= i
    requires restartIndex + 1 < |l.heads| ==> i <= l.heads[restartIndex + 1]
    ensures Stands(l, data, i, current, restartIndex, k, from, to)
  {
    hide EntryAt, Headed;
  }

  lemma StandsAtEnd(
    l: Layout, data: seq<byte>, restarts: nat, current: nat, restartIndex: nat, k: seq<byte>, from: nat, to: nat)
    requires Block(l, data, restarts) && current >= restarts && restartIndex == |l.heads|
    ensures Stands(l, data, |l.entries|, restarts, restartIndex, k, from, to)
  {
    hide EntryAt, Headed;
  }

  /** Entry i is in the stretch of restart point r. */
  predicate Falls(l: Layout, i: nat, r: nat) {
    r < |l.heads| && l.heads[r] <= i && (r + 1 < |l.heads| ==> i < l.heads[r + 1])
  }

  /** After stepping forward the restart index is the entry's own, except at a restart point: there it is one before. */
  lemma {:induction false} OneBefore(l: Layout, i: nat, restartIndex: nat)
    requires Shaped(l) && Headed(l) && i < |l.entries| && restartIndex < |l.heads|
    requires l.heads[restartIndex] < i && (restartIndex + 1 < |l.heads| ==> i <= l.heads[restartIndex + 1])
    ensures Falls(l, i, restartIndex) <==> i !in l.heads
    ensures i in l.heads ==> Falls(l, i, restartIndex + 1)
  {
    if i in l.heads {
      var r :| 0 <= r < |l.heads| && l.heads[r] == i;
      assert r > restartIndex;
      HeadsAscend(l, restartIndex + 1, r);
    }
  }

  lemma HeadsAscend(l: Layout, r: nat, s: nat)
    requires Shaped(l) && Headed(l) && r <= s < |l.heads|
    ensures l.heads[r] < l.heads[s] || r == s
  {
  }

  class BlockIterator {
    const cmp: (seq<byte>, seq<byte>) -> int
    const data: seq<byte>
    const restarts: nat
    const numRestarts: nat
    ghost const layout: Layout
    var current: nat
    var restartIndex: nat
    var k: seq<byte>
    /** The value is data[from..to]. */
    var from: nat
    var to: nat
    var corrupt: bool
    ghost var pos: nat

    ghost predicate Fixed()
    {
      && TotalOrder(cmp) && Block(layout, data, restarts) && StrictlySorted(cmp, layout.entries)
      && numRestarts == |layout.heads|
    }

    ghost predicate Ok()
      reads this
    {
      && Fixed() && !corrupt && pos <= |layout.entries|
      && Stands(layout, data, pos, current, restartIndex, k, from, to)
    }

    ghost function View(): Cursor<seq<byte>, seq<byte>>
      reads this
    {
      Cursor(layout.entries, pos)
    }

    constructor (cmp: (seq<byte>, seq<byte>) -> int, data: seq<byte>, restarts: nat, numRestarts: nat,
        ghost layout: Layout)
      requires TotalOrder(cmp) && Block(layout, data, restarts) && StrictlySorted(cmp, layout.entries)
      requires numRestarts == |layout.heads|
      ensures Ok() && View() == Cursor(layout.entries, |layout.entries|)
      ensures this.cmp == cmp
    {
      this.cmp, this.data, this.restarts, this.numRestarts, this.layout := cmp, data, restarts, numRestarts, layout;
      current, restartIndex, k, from, to, corrupt := restarts, numRestarts, [], 0, 0, false;
      pos := |layout.entries|;
    }

    predicate Valid()
      reads this
    {
      current < restarts
    }

    lemma ValidIsView()
      requires Ok()
      ensures Valid() <==> View().Valid()
      ensures Valid() ==> k == View().Key() && from <= to <= |data| && data[from..to] == View().Value()
    {
      StartsCompare(layout, data, restarts, pos, |layout.entries|);
    }

    function GetRestartPoint(index: nat): (offset: nat)
      requires Fixed() && index < numRestarts
      ensures offset == layout.starts[layout.heads[index]]
    {
      ReadFixed32(data, restarts + 4 * index)
    }

    method SeekToRestartPoint(index: nat)
      requires Fixed() && !corrupt && index < numRestarts
      modifies this
      ensures !corrupt && restartIndex == index && k == []
      ensures Ready(layout, layout.heads[index], restartIndex, k, to)
    {
      k := [];
      restartIndex := index;
      from := GetRestartPoint(index);
      to := from;
    }

    /** Parse the entry at the next offset, entry i of the block, or stop at the end. */
    method ParseNextKey(ghost i: nat) returns (more: bool)
      requires Fixed() && !corrupt && Ready(layout, i, restartIndex, k, to)
      modifies this
      ensures Ok() && pos == i && (more <==> i < |layout.entries|)
      ensures i < |layout.entries| ==>
                && old(restartIndex) <= restartIndex < numRestarts && layout.heads[restartIndex] <= i
                && (restartIndex == old(restartIndex) || layout.heads[restartIndex] < i)
                && (restartIndex + 1 < numRestarts ==> i <= layout.heads[restartIndex + 1])
    {
      hide TotalOrder, StrictlySorted, DecodeEntry, Block, Ready, Stands;
      ReadyIs(layout, data, restarts, i, restartIndex, k, to);
      pos := i;
      current := to;
      if current >= restarts {
        StandsAtEnd(layout, data, restarts, current, numRestarts, k, from, to);
        current := restarts;
        restartIndex := numRestarts;
        return false;
      }
      var e := DecodeEntry(data, current, restarts);
      corrupt := e.None? || |k| < e.value.shared;
      if corrupt {
        assert false;
      }
      var p := e.value.p;
      k := k[..e.value.shared] + data[p..p + e.value.nonShared];
      from := p + e.value.nonShared;
      to := from + e.value.valueLength;
      AdvanceRestart(i);
      StandsAt(layout, data, restarts, i, current, restartIndex, k, from, to);
      return true;
    }

    /** Moves to the last restart point before the current entry i, if the one it is at is not that far. */
    method AdvanceRestart(ghost i: nat)
      requires Fixed() && restartIndex < numRestarts && i < |layout.entries| && |layout.starts| == |layout.entries| + 1
      requires current == layout.starts[i]
      requires layout.heads[restartIndex] <= i
      modifies `restartIndex
      ensures old(restartIndex) <= restartIndex < numRestarts && layout.heads[restartIndex] <= i
      ensures restartIndex == old(restartIndex) || layout.heads[restartIndex] < i
      ensures restartIndex + 1 < numRestarts ==> i <= layout.heads[restartIndex + 1]
    {
      hide TotalOrder, StrictlySorted, EntryAt;
      while restartIndex + 1 < numRestarts && GetRestartPoint(restartIndex + 1) < current
        invariant old(restartIndex) <= restartIndex < numRestarts && layout.heads[restartIndex] <= i
        invariant restartIndex == old(restartIndex) || layout.heads[restartIndex] < i
        decreases numRestarts - restartIndex
      {
        StartsCompare(layout, data, restarts, layout.heads[restartIndex + 1], i);
        restartIndex := restartIndex + 1;
      }
      if restartIndex + 1 < numRestarts {
        StartsCompare(layout, data, restarts, layout.heads[restartIndex + 1], i);
      }
    }

    /** The restart index left behind is that of the last restart point before the entry, never the entry's own. */
    method Next()
      requires Ok() && Valid()
      modifies this
      ensures Ok() && old(View()).Valid() && View() == old(View()).Next()
      ensures Valid() ==> restartIndex < |layout.heads| && layout.heads[restartIndex] < pos
      ensures Valid() && restartIndex + 1 < |layout.heads| ==> pos <= layout.heads[restartIndex + 1]
    {
      hide TotalOrder, StrictlySorted, EntryAt;
      ValidIsView();
      StandsIsReady(layout, data, restarts, pos, current, restartIndex, k, from, to);
      var more := ParseNextKey(pos + 1);
    }

    method SeekToFirst()
      requires Ok()
      modifies this
      ensures Ok() && View() == old(View()).SeekToFirst()
    {
      SeekToRestartPoint(0);
      var more := ParseNextKey(0);
    }

    method SeekToLast()
      requires Ok()
      modifies this
      ensures Ok() && View() == old(View()).SeekToLast()
    {
      hide TotalOrder, StrictlySorted, EntryAt;
      SeekToRestartPoint(numRestarts - 1);
      var more := ParseNextKey(layout.heads[numRestarts - 1]);
      NextOffset();
      while more && to < restarts
        invariant Ok() && (more <==> pos < |layout.entries|)
        invariant more ==> to == layout.starts[pos + 1] && (to < restarts <==> pos + 1 < |layout.entries|)
        invariant pos == |layout.entries| ==> layout.entries == []
        decreases |layout.entries| - pos
      {
        StandsIsReady(layout, data, restarts, pos, current, restartIndex, k, from, to);
        more := ParseNextKey(pos + 1);
        NextOffset();
      }
    }

    lemma NextOffset()
      requires Ok()
      ensures pos < |layout.entries| ==> to == layout.starts[pos + 1] && (to < restarts <==> pos + 1 < |layout.entries|)
    {
      hide TotalOrder, StrictlySorted, EntryAt;
      if pos < |layout.entries| {
        StartsCompare(layout, data, restarts, pos + 1, |layout.entries|);
      }
    }

    /** The last restart point before the current entry, if there is one. */
    method RestartBefore() returns (found: bool)
      requires Ok() && Valid()
      modifies `restartIndex
      ensures found <==> pos > 0
      ensures found ==> restartIndex < numRestarts && layout.heads[restartIndex] < pos
      ensures found && restartIndex + 1 < numRestarts ==> pos <= layout.heads[restartIndex + 1]
      ensures !found ==> restartIndex == 0
    {
      hide TotalOrder, StrictlySorted, EntryAt;
      ValidIsView();
      while GetRestartPoint(restartIndex) >= current
        invariant restartIndex < numRestarts && layout.heads[restartIndex] <= pos
        invariant restartIndex + 1 < numRestarts ==> pos <= layout.heads[restartIndex + 1]
        decreases restartIndex
      {
        StartsCompare(layout, data, restarts, layout.heads[restartIndex], pos);
        if restartIndex == 0 {
          return false;
        }
        assert layout.heads[restartIndex - 1] < layout.heads[restartIndex];
        restartIndex := restartIndex - 1;
      }
      StartsCompare(layout, data, restarts, layout.heads[restartIndex], pos);
      return true;
    }

    /** Afterwards the restart index is that of the restart point which the entry falls in. */
    method Prev()
      requires Ok() && Valid()
      modifies this
      ensures Ok() && old(View()).Valid() && View() == old(View()).Prev()
      ensures Valid() ==> restartIndex < |layout.heads| && layout.heads[restartIndex] <= pos
      ensures Valid() && restartIndex + 1 < |layout.heads| ==> pos < layout.heads[restartIndex + 1]
    {
      hide TotalOrder, StrictlySorted, EntryAt;
      ValidIsView();
      ghost var goal := pos;
      var original := current;
      var found := RestartBefore();
      if !found {
        current := restarts;
        restartIndex := numRestarts;
        pos := |layout.entries|;
        return;
      }
      SeekToRestartPoint(restartIndex);
      ScanTo(original, layout.heads[restartIndex], goal);
    }

    /** Parse entries from entry i on, until the end of one reaches the start of entry `goal`. */
    method ScanTo(original: nat, ghost i: nat, ghost goal: nat)
      requires Fixed() && !corrupt && Ready(layout, i, restartIndex, k, to)
      requires i < goal <= |layout.entries| && original == layout.starts[goal]
      requires restartIndex + 1 < numRestarts ==> goal <= layout.heads[restartIndex + 1]
      modifies this
      ensures Ok() && pos == goal - 1 && restartIndex == old(restartIndex)
    {
      hide TotalOrder, StrictlySorted, EntryAt;
      var more := ParseNextKey(i);
      NextOffset();
      StartsCompare(layout, data, restarts, pos + 1, goal);
      while more && to < original
        invariant Ok() && more && pos < goal && restartIndex == old(restartIndex)
        invariant to == layout.starts[pos + 1] && (to < original <==> pos + 1 < goal)
        decreases goal - pos
      {
        StandsIsReady(layout, data, restarts, pos, current, restartIndex, k, from, to);
        more := ParseNextKey(pos + 1);
        NextOffset();
        StartsCompare(layout, data, restarts, pos + 1, goal);
      }
    }

    /** The key at a restart point, read in place. */
    method KeyAtRestart(index: nat) returns (key: seq<byte>)
      requires Fixed() && index < numRestarts && layout.heads[index] < |layout.entries|
      ensures key == layout.entries[layout.heads[index]].0
    {
      hide TotalOrder, StrictlySorted, DecodeEntry, EntryAt;
      ParsesEntry(layout, data, restarts, layout.heads[index], []);
      var e := DecodeEntry(data, GetRestartPoint(index), restarts);
      if e.None? || e.value.shared != 0 {
        assert false;
      }
      key := data[e.value.p..e.value.p + e.value.nonShared];
    }

    /** Binary search for the last restart point with a key below the target, or the first of all. */
    method FindRestart(target: seq<byte>) returns (left: nat)
      requires Fixed()
      ensures left < numRestarts
      ensures left > 0 ==>
        layout.heads[left] < |layout.entries| && cmp(layout.entries[layout.heads[left]].0, target) < 0
      ensures left + 1 < numRestarts ==> cmp(layout.entries[layout.heads[left + 1]].0, target) >= 0
    {
      hide TotalOrder, StrictlySorted, LaidOut;
      left := 0;
      var right := numRestarts - 1;
      while left < right
        invariant left <= right < numRestarts
        invariant left > 0 ==>
          layout.heads[left] < |layout.entries| && cmp(layout.entries[layout.heads[left]].0, target) < 0
        invariant right + 1 < numRestarts ==> cmp(layout.entries[layout.heads[right + 1]].0, target) >= 0
      {
        var mid := (left + right + 1) / 2;
        var midKey := KeyAtRestart(mid);
        if cmp(midKey, target) < 0 {
          left := mid;
        } else {
          right := mid - 1;
        }
      }
    }

    method Seek(target: seq<byte>)
      requires Ok()
      modifies this
      ensures Ok() && View() == old(View()).Seek(cmp, target)
    {
      hide TotalOrder, StrictlySorted, EntryAt, LowerBound;
      ghost var n := |layout.entries|;
      var left := FindRestart(target);
      SeekToRestartPoint(left);
      ghost var i := layout.heads[left];
      ghost var start := i;
      while true
        invariant Fixed() && !corrupt && Ready(layout, i, restartIndex, k, to) && start <= i
        invariant start > 0 ==> start < n && cmp(layout.entries[start].0, target) < 0
        invariant i > start ==> cmp(layout.entries[i - 1].0, target) < 0
        decreases n - i
      {
        var more := ParseNextKey(i);
        if !more || cmp(k, target) >= 0 {
          LowerBoundIs(cmp, layout.entries, target, i);
          return;
        }
        StandsIsReady(layout, data, restarts, pos, current, restartIndex, k, from, to);
        i := i + 1;
      }
    }

    /** One operation as a caller makes it: stepping needs a valid iterator. */
    method Do(op: Op<seq<byte>>)
      requires Ok()
      modifies this
      ensures Ok() && View() == old(View()).Do(cmp, op)
    {
      hide TotalOrder, StrictlySorted, Block, Stands, LowerBound;
      ValidIsView();
      match op
      case SeekToFirst => SeekToFirst();
      case SeekToLast => SeekToLast();
      case Seek(target) => Seek(target);
      case Next => if Valid() { Next(); }
      case Prev => if Valid() { Prev(); }
    }

    /** Any run of operations shows what a cursor over the added pairs shows. */
    method Run(ops: seq<Op<seq<byte>>>) returns (seen: seq<Option<Pair>>)
      requires Ok()
      modifies this
      ensures Ok() && seen == old(View()).Trace(cmp, ops)
    {
      hide TotalOrder, StrictlySorted, Block, Stands, LowerBound;
      seen := [];
      for i := 0 to |ops|
        invariant Ok()
        invariant seen + View().Trace(cmp, ops[i..]) == old(View()).Trace(cmp, ops)
      {
        Do(ops[i]);
        assert ops[i..][1..] == ops[i + 1..];
        ValidIsView();
        seen := seen + [if Valid() then Some((k, data[from..to])) else None];
      }
    }
  }
}
