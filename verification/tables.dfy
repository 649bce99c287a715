/** Building a table file and reading it back (tablebuilder.cc, table.cc). */
module Tables {
  import opened Ordering
  import opened Bytes
  import opened Coding
  import opened Cursors
  import opened Lists
  import opened KeyFormat
  import opened TwoLevel
  import opened BlockFormat
  import opened BlockBuilding
  import opened BlockReading
  import opened TableFormat
  import BlockRoundTrip
  import Writer
  import Crc32c
  import LogFormat

  // ----- The blocks of a table and the keys that separate them -----

  /**
   * A data block that has been handed to the file: how many of all pairs end with it, its bytes, its handle, whether
   * appending it succeeded, and whether it left bytes in the file if it did not.
   */
  datatype Done = Done(end: nat, raw: seq<byte>, handle: Handle, fine: bool, spilled: bool)

  function Start(done: seq<Done>, b: nat): nat
    requires b <= |done|
  {
    if b == 0 then 0 else done[b - 1].end
  }

  /** Block b has pairs, and they are the next ones. */
  ghost predicate Follows(all: seq<Pair>, done: seq<Done>, b: nat)
    requires b < |done|
  {
    Start(done, b) < done[b].end <= |all|
  }

  /**
   * A key at or above the pairs up to `end` and below those after. Unless it is the last key of the former, its user
   * key is below those of the latter.
   */
  ghost predicate Separates(all: seq<Pair>, end: nat, key: seq<byte>) {
    && 0 < end <= |all| && |key| >= 8
    && KeyOrder(all[end - 1].0, key) <= 0
    && (end < |all| ==> KeyOrder(key, all[end].0) < 0)
    && (key != all[end - 1].0 && end < |all| && |all[end].0| >= 8 ==> Bytewise(UserOf(key), UserOf(all[end].0)) < 0)
  }

  /** The pairs added, the blocks they were divided into, and the index keys chosen so far. */
  ghost predicate Divided(all: seq<Pair>, done: seq<Done>, keys: seq<seq<byte>>, pending: bool) {
    && StrictlySorted(KeyOrder, all)
    && (forall p :: 0 <= p < |all| ==> |all[p].0| >= 8)
    && (forall b :: 0 <= b < |done| ==> Follows(all, done, b))
    && |done| == |keys| + (if pending then 1 else 0)
    && (pending ==> Start(done, |done|) == |all|)
    && (forall b :: 0 <= b < |keys| ==> Separates(all, done[b].end, keys[b]))
  }

  function IndexOf(done: seq<Done>, keys: seq<seq<byte>>): seq<Pair>
    requires |keys| <= |done|
  {
    seq(|keys|, b requires 0 <= b < |keys| => (keys[b], EncodeHandle(done[b].handle)))
  }

  lemma {:induction false} EndsAscend(all: seq<Pair>, done: seq<Done>, b: nat, c: nat)
    requires (forall d :: 0 <= d < |done| ==> Follows(all, done, d)) && b <= c <= |done|
    ensures Start(done, b) <= Start(done, c) <= |all|
    ensures b < c ==> done[b].end <= Start(done, c)
    decreases c - b
  {
    if b < c {
      EndsAscend(all, done, b, c - 1);
      assert Follows(all, done, c - 1);
    } else if b > 0 {
      assert Follows(all, done, b - 1);
    }
  }

  /** Positions before the end of block b have keys at or below index key b, later ones keys above it. */
  lemma {:induction false} SeparatesAll(all: seq<Pair>, end: nat, key: seq<byte>, p: nat)
    requires StrictlySorted(KeyOrder, all) && Separates(all, end, key) && p < |all|
    ensures if p < end then KeyOrder(all[p].0, key) <= 0 else KeyOrder(key, all[p].0) < 0
  {
    hide KeyOrder, TotalOrder;
    KeyOrderIsTotal();
    if p < end - 1 {
      Chains(all[p].0, all[end - 1].0, key);
    } else if p > end {
      Transitive(KeyOrder, key, all[end].0, all[p].0);
    }
  }

  lemma Chains(a: seq<byte>, b: seq<byte>, c: seq<byte>)
    ensures KeyOrder(a, b) < 0 && KeyOrder(b, c) <= 0 ==> KeyOrder(a, c) < 0
    ensures KeyOrder(a, b) <= 0 && KeyOrder(b, c) < 0 ==> KeyOrder(a, c) < 0
  {
    hide KeyOrder;
    KeyOrderIsTotal();
  }

  /** One more pair, above the last one and above the index key of the last block if that has just been chosen. */
  lemma {:induction false} PairAdded(all: seq<Pair>, done: seq<Done>, keys: seq<seq<byte>>, x: Pair)
    requires Divided(all, done, keys, false) && |x.0| >= 8
    requires all != [] ==> KeyOrder(all[|all| - 1].0, x.0) < 0
    requires done != [] && Start(done, |done|) == |all| ==>
      Separates(all + [x], done[|done| - 1].end, keys[|keys| - 1])
    ensures Divided(all + [x], done, keys, false)
  {
    hide KeyOrder, TotalOrder, Separates, StrictlySorted, Follows;
    KeyOrderIsTotal();
    LastBelow(all, x);
    SortedGrows(KeyOrder, all, x.0, x.1);
    assert (x.0, x.1) == x;
    forall b | 0 <= b < |done|
      ensures Follows(all + [x], done, b)
    {
      FollowsMore(all, done, b, x);
    }
    forall b | 0 <= b < |keys|
      ensures Separates(all + [x], done[b].end, keys[b])
    {
      EndsAscend(all, done, b, |done|);
      if b < |done| - 1 {
        EndBefore(all, done, b);
      }
      SeparatesMore(all, done[b].end, keys[b], x);
    }
  }

  lemma LastBelow(all: seq<Pair>, x: Pair)
    requires all != [] ==> KeyOrder(all[|all| - 1].0, x.0) < 0
    ensures all == [] || KeyOrder(x.0, LastKey(all)) > 0
  {
    hide KeyOrder;
    if all != [] {
      KeyOrderEqual(all[|all| - 1].0, x.0);
    }
  }

  lemma FollowsMore(all: seq<Pair>, done: seq<Done>, b: nat, x: Pair)
    requires b < |done| && Follows(all, done, b)
    ensures Follows(all + [x], done, b)
  {
  }

  lemma EndBefore(all: seq<Pair>, done: seq<Done>, b: nat)
    requires b + 1 < |done| && Follows(all, done, b + 1)
    ensures done[b].end < |all|
  {
  }

  lemma SeparatesMore(all: seq<Pair>, end: nat, key: seq<byte>, x: Pair)
    requires Separates(all, end, key)
    ensures end < |all| ==> Separates(all + [x], end, key)
  {
    hide KeyOrder, Bytewise;
  }

  /** The index key of a block that has just been chosen is above the one before. */
  lemma {:induction false} KeyAbove(all: seq<Pair>, done: seq<Done>, keys: seq<seq<byte>>, key: seq<byte>)
    requires Divided(all, done, keys, true) && all != [] && KeyOrder(all[|all| - 1].0, key) <= 0 && keys != []
    ensures KeyOrder(keys[|keys| - 1], key) < 0
  {
    hide KeyOrder, TotalOrder;
    KeyOrderIsTotal();
    var b := |keys| - 1;
    assert Follows(all, done, b + 1);
    SeparatesAll(all, done[b].end, keys[b], |all| - 1);
    Chains(keys[b], all[|all| - 1].0, key);
  }

  // ----- The table as an index of its blocks -----

  /** Reading by an index entry gives the pairs of its block. */
  ghost predicate Reads(all: seq<Pair>, done: seq<Done>, read: seq<byte> -> seq<Pair>, b: nat)
    requires b < |done|
  {
    Start(done, b) <= done[b].end <= |all| && read(EncodeHandle(done[b].handle)) == all[Start(done, b)..done[b].end]
  }

  lemma {:induction false} AllIs(
    all: seq<Pair>, done: seq<Done>, keys: seq<seq<byte>>, read: seq<byte> -> seq<Pair>, n: nat)
    requires Divided(all, done, keys, false) && n <= |done|
    requires forall b :: 0 <= b < n ==> Reads(all, done, read, b)
    ensures AllTo(read, IndexOf(done, keys), n) == all[..Start(done, n)]
  {
    hide StrictlySorted, Separates, EncodeHandle;
    if n > 0 {
      AllIs(all, done, keys, read, n - 1);
      assert Reads(all, done, read, n - 1);
      assert all[..Start(done, n - 1)] + all[Start(done, n - 1)..Start(done, n)] == all[..Start(done, n)];
    }
  }

  /** If every block reads back, the index is one for the table's pairs. */
  lemma {:induction false} IndexIsSound(
    all: seq<Pair>, done: seq<Done>, keys: seq<seq<byte>>, read: seq<byte> -> seq<Pair>)
    requires Divided(all, done, keys, false) && Start(done, |done|) == |all|
    requires forall b :: 0 <= b < |done| ==> Reads(all, done, read, b)
    ensures Indexed(KeyOrder, read, IndexOf(done, keys)) && All(read, IndexOf(done, keys)) == all
  {
    hide KeyOrder, TotalOrder, Separates, EncodeHandle, AllTo;
    var index := IndexOf(done, keys);
    AllIs(all, done, keys, read, |done|);
    assert all[..|all|] == all;
    forall b, k | 0 <= b < |index| && 0 <= k < |read(index[b].1)|
      ensures KeyOrder(read(index[b].1)[k].0, index[b].0) <= 0
    {
      PairOf(all, done, keys, read, b, k);
      SeparatesAll(all, done[b].end, keys[b], Start(done, b) + k);
    }
    forall b, c, k | 0 <= b < c < |index| && 0 <= k < |read(index[c].1)|
      ensures KeyOrder(index[b].0, read(index[c].1)[k].0) < 0
    {
      PairOf(all, done, keys, read, c, k);
      EndsAscend(all, done, b, c);
      SeparatesAll(all, done[b].end, keys[b], Start(done, c) + k);
    }
    forall b, c | 0 <= b < c < |index|
      ensures KeyOrder(index[b].0, index[c].0) < 0
    {
      EndsAscend(all, done, b, c);
      assert Follows(all, done, c);
      var p := done[c].end - 1;
      SeparatesAll(all, done[b].end, keys[b], p);
      SeparatesAll(all, done[c].end, keys[c], p);
      Chains(keys[b], all[p].0, keys[c]);
    }
  }

  lemma PairOf(
    all: seq<Pair>, done: seq<Done>, keys: seq<seq<byte>>, read: seq<byte> -> seq<Pair>, b: nat, k: nat)
    requires Divided(all, done, keys, false) && b < |done| && Reads(all, done, read, b)
    requires k < |read(IndexOf(done, keys)[b].1)|
    ensures Start(done, b) + k < done[b].end && read(IndexOf(done, keys)[b].1)[k] == all[Start(done, b) + k]
  {
    hide StrictlySorted, Separates, EncodeHandle;
  }

  // ----- Building -----

  /** What an append meets: whether flushing the buffer fails on the way, and whether writing directly does. */
  datatype Fault = Fault(flush: Option<nat>, direct: Option<nat>)

  /** What the writes of a block meet: its payload, its trailer, and the flush after it. */
  datatype Writes = Writes(payload: Fault, trailer: Fault, flush: Option<nat>)

  const FINE: Fault := Fault(None, None)

  predicate Quiet(w: Writes) { w == Writes(FINE, FINE, None) }

  /** Every data block was appended. */
  ghost predicate AllFine(done: seq<Done>) { forall b :: 0 <= b < |done| ==> done[b].fine }

  /** Where an append of a data block failed it left nothing behind. */
  ghost predicate AllClean(done: seq<Done>) { forall b :: 0 <= b < |done| ==> done[b].fine || !done[b].spilled }

  lemma BuildingBegins(
    cmp: (seq<byte>, seq<byte>) -> int, interval: nat, l: Layout,
    buffer: seq<byte>, restarts: seq<nat>, counter: nat, last: seq<byte>)
    requires Building(cmp, interval, l, buffer, restarts, counter, last)
    ensures l.entries != [] ==> Begins(Finished(buffer, restarts), l.entries[0])
  {
    hide EntryBytes, StrictlySorted, Headed, Spaced, BlockBuilding.Compressed, RestartBytes, At;
    if l.entries != [] {
      assert EntryAt(l, buffer, 0);
      var first := EntryBytes(0, l.entries[0].0, l.entries[0].1);
      AtGrows(buffer, RestartBytes(restarts) + Fixed(|restarts| % TWO32, 4), 0, first);
      Regroup(buffer, RestartBytes(restarts), Fixed(|restarts| % TWO32, 4));
    }
  }

  /** A block's bytes in the file. */
  function StoredAs(codec: Codec, snappy: bool, raw: seq<byte>): seq<byte> {
    var (payload, kind) := Packed(codec, snappy, raw);
    Stored(payload, kind)
  }

  lemma NothingPacked(codec: Codec, snappy: bool, raw: seq<byte>)
    requires NoCodec(codec)
    ensures Packed(codec, snappy, raw) == (raw, 0) && Lossless(codec)
    ensures raw <= StoredAs(codec, snappy, raw)
  {
  }

  /** A block that begins with a value too long for the file's buffer, which cannot be flushed when it is appended. */
  ghost predicate Loses(w: Writes, codec: Codec, data: seq<Pair>) {
    NoCodec(codec) && w.payload.flush == Some(0) && w.flush == None && data != [] && |data[0].1| > Writer.BUFFER
  }

  lemma LosesFlushes(w: Writes, codec: Codec, data: seq<Pair>)
    ensures Loses(w, codec, data) ==> w.flush == None
  {
  }

  lemma BeginsLong(raw: seq<byte>, x: Pair)
    requires Begins(raw, x)
    ensures |raw| >= |x.1|
  {
    hide Varint;
  }

  /** Block b was not appended, and nothing of it is in the file. */
  ghost predicate LostAt(done: seq<Done>, b: nat) { |done| == b + 1 && !done[b].fine && !done[b].spilled }

  lemma FineMore(done: seq<Done>, d: Done)
    ensures AllFine(done) && d.fine ==> AllFine(done + [d])
  {
  }

  /** The bytes of a stored block are where its handle says. */
  ghost predicate Here(bytes: seq<byte>, raw: seq<byte>, h: Handle, codec: Codec, snappy: bool) {
    h.size == |Packed(codec, snappy, raw).0| && At(bytes, h.offset, StoredAs(codec, snappy, raw))
  }

  /** The place of block b was taken by the next one that was appended, or is at the end. */
  ghost predicate Skipped(done: seq<Done>, b: nat, end: nat)
    requires b < |done|
  {
    done[b].handle.offset == end
    || exists c :: b < c < |done| && done[c].fine && done[b].handle.offset == done[c].handle.offset
  }

  ghost predicate PlacedAt(bytes: seq<byte>, done: seq<Done>, b: nat, end: nat, codec: Codec, snappy: bool)
    requires b < |done|
  {
    if done[b].fine then Here(bytes, done[b].raw, done[b].handle, codec, snappy)
    else Skipped(done, b, end) && done[b].handle.size == |Packed(codec, snappy, done[b].raw).0|
  }

  /** Every data block that was appended is in place. */
  ghost predicate Placed(bytes: seq<byte>, done: seq<Done>, end: nat, codec: Codec, snappy: bool) {
    forall b :: 0 <= b < |done| ==> PlacedAt(bytes, done, b, end, codec, snappy)
  }

  /** Unless a failed append of a data block left bytes behind, the offset is the end of the file. */
  ghost predicate Sound(bytes: seq<byte>, offset: nat, done: seq<Done>, codec: Codec, snappy: bool) {
    AllClean(done) ==> offset == |bytes| && Placed(bytes, done, offset, codec, snappy)
  }

  /** The data blocks are in place, and so are the metaindex and the index, which the footer at the end points to. */
  ghost predicate Ended(
    bytes: seq<byte>, done: seq<Done>, m: seq<byte>, raw: seq<byte>, metaindex: Handle, index: Handle, codec: Codec,
    snappy: bool)
  {
    && Placed(bytes, done, metaindex.offset, codec, snappy)
    && Here(bytes, m, metaindex, codec, snappy) && Here(bytes, raw, index, codec, snappy)
    && FOOTER <= |bytes| && bytes[|bytes| - FOOTER..] == EncodeFooter(metaindex, index)
  }

  /** A block's first entry shares nothing. */
  ghost predicate Begins(raw: seq<byte>, x: Pair) { At(raw, 0, EntryBytes(0, x.0, x.1)) }

  /** A block of less than 4 GiB holds its pairs. */
  ghost predicate Holds(all: seq<Pair>, done: seq<Done>, b: nat)
    requires b < |done|
  {
    && Start(done, b) < done[b].end <= |all| && Begins(done[b].raw, all[Start(done, b)])
    && (|done[b].raw| < TWO32 ==> Entries(done[b].raw) == all[Start(done, b)..done[b].end])
  }

  /** A table under construction: `data` and `index` are the pairs in the two block builders. */
  ghost predicate State(
    all: seq<Pair>, done: seq<Done>, keys: seq<seq<byte>>, pending: bool, handle: Handle,
    data: seq<Pair>, index: seq<Pair>)
  {
    && Divided(all, done, keys, pending) && (forall b :: 0 <= b < |done| ==> Holds(all, done, b))
    && Start(done, |done|) <= |all| && data == all[Start(done, |done|)..] && index == IndexOf(done, keys)
    && (pending ==> handle == done[|done| - 1].handle)
  }

  lemma NothingYet(codec: Codec, snappy: bool)
    ensures State([], [], [], false, Handle(0, 0), [], []) && Sound([], 0, [], codec, snappy)
  {
    hide EncodeHandle, Entries, Stored;
  }

  lemma StateIs(
    all: seq<Pair>, done: seq<Done>, keys: seq<seq<byte>>, pending: bool, handle: Handle,
    data: seq<Pair>, index: seq<Pair>)
    requires State(all, done, keys, pending, handle, data, index)
    ensures pending ==> data == [] && done != [] && all != [] && |LastKey(all)| >= 8
    ensures data != [] ==> all != [] && LastKey(data) == LastKey(all)
    ensures data == [] && all != [] ==> done != []
    ensures pending || |keys| == |done|
  {
    hide StrictlySorted, Separates, Holds, EncodeHandle;
    if pending {
      assert Follows(all, done, |done| - 1);
    }
  }

  /** Every pair is in a block, and every block has its index key. */
  ghost predicate Complete(all: seq<Pair>, done: seq<Done>, keys: seq<seq<byte>>) {
    && Divided(all, done, keys, false) && Start(done, |done|) == |all|
    && forall b :: 0 <= b < |done| ==> Holds(all, done, b)
  }

  lemma StateComplete(
    all: seq<Pair>, done: seq<Done>, keys: seq<seq<byte>>, handle: Handle, index: seq<Pair>)
    requires State(all, done, keys, false, handle, [], index)
    ensures Complete(all, done, keys) && index == IndexOf(done, keys)
  {
  }

  lemma FooterLength(metaindex: Handle, index: Handle)
    ensures |EncodeFooter(metaindex, index)| == FOOTER
  {
  }

  /** The pairs since the last block make the next one. */
  lemma {:induction false} BlockAdded(
    all: seq<Pair>, done: seq<Done>, keys: seq<seq<byte>>, handle: Handle, data: seq<Pair>, index: seq<Pair>, d: Done)
    requires State(all, done, keys, false, handle, data, index) && data != []
    requires d.end == |all| && (|d.raw| < TWO32 ==> Entries(d.raw) == data) && Begins(d.raw, data[0])
    ensures State(all, done + [d], keys, true, d.handle, [], index)
  {
    hide StrictlySorted, Separates, Entries, EncodeHandle, Begins;
    var more := done + [d];
    assert all[Start(done, |done|)..|all|] == data;
    forall b | 0 <= b < |more|
      ensures Follows(all, more, b) && Holds(all, more, b)
    {
      if b < |done| {
        assert Follows(all, done, b) && Holds(all, done, b);
      }
    }
    assert IndexOf(more, keys) == IndexOf(done, keys);
  }

  /** A separator of the last key and the next one is the index key of the last block. */
  lemma {:induction false} KeyChosen(
    all: seq<Pair>, done: seq<Done>, keys: seq<seq<byte>>, handle: Handle, data: seq<Pair>, index: seq<Pair>,
    key: seq<byte>)
    requires State(all, done, keys, true, handle, data, index) && all != [] && |key| >= 8
    requires KeyOrder(LastKey(all), key) <= 0
    ensures State(all, done, keys + [key], false, handle, data, index + [(key, EncodeHandle(handle))])
    ensures index == [] || KeyOrder(key, LastKey(index)) > 0
  {
    hide KeyOrder, StrictlySorted, EncodeHandle, Bytewise, Holds;
    assert IndexOf(done, keys + [key]) == IndexOf(done, keys) + [(key, EncodeHandle(handle))];
    if keys != [] {
      KeyAbove(all, done, keys, key);
      KeyOrderEqual(keys[|keys| - 1], key);
    }
  }

  lemma {:induction false} PairJoins(
    all: seq<Pair>, done: seq<Done>, keys: seq<seq<byte>>, handle: Handle, data: seq<Pair>, index: seq<Pair>, x: Pair)
    requires State(all, done, keys, false, handle, data, index) && |x.0| >= 8
    requires all != [] ==> KeyOrder(LastKey(all), x.0) < 0
    requires data == [] && keys != [] ==> all != [] && Between(LastKey(all), keys[|keys| - 1], x.0)
    ensures State(all + [x], done, keys, false, handle, data + [x], index)
    ensures data == [] || KeyOrder(x.0, LastKey(data)) > 0
  {
    hide KeyOrder, StrictlySorted, EncodeHandle, Bytewise, Entries, Holds;
    if data == [] && done != [] {
      assert Separates(all, |all|, keys[|keys| - 1]);
    }
    PairAdded(all, done, keys, x);
    forall b | 0 <= b < |done|
      ensures Holds(all + [x], done, b)
    {
      HoldsMore(all, done, b, x);
    }
    if data != [] {
      KeyOrderEqual(LastKey(data), x.0);
    }
  }

  lemma HoldsMore(all: seq<Pair>, done: seq<Done>, b: nat, x: Pair)
    requires b < |done| && Holds(all, done, b)
    ensures Holds(all + [x], done, b)
  {
    hide Entries, Begins;
    assert (all + [x])[Start(done, b)..done[b].end] == all[Start(done, b)..done[b].end];
  }

  /** A key from the last one up to but not including the next one. */
  ghost predicate Between(last: seq<byte>, key: seq<byte>, next: seq<byte>) {
    && KeyOrder(last, key) <= 0 && KeyOrder(key, next) < 0 && |key| >= 8 && |next| >= 8
    && (key != last ==> Bytewise(UserOf(key), UserOf(next)) < 0)
  }

  /** A block that is appended at the offset is in place, and the others stay there. */
  lemma {:induction false} SoundMore(
    bytes: seq<byte>, offset: nat, done: seq<Done>, d: Done, codec: Codec, snappy: bool, after: seq<byte>, next: nat)
    requires Sound(bytes, offset, done, codec, snappy)
    requires d.handle == Handle(offset, |Packed(codec, snappy, d.raw).0|)
    requires if d.fine
      then after == bytes + StoredAs(codec, snappy, d.raw) && next == offset + |StoredAs(codec, snappy, d.raw)|
      else !d.spilled ==> after == bytes && next == offset
    ensures Sound(after, next, done + [d], codec, snappy)
  {
    hide Packed, StoredAs, Here;
    var more := done + [d];
    if AllClean(more) {
      assert more[|done|] == d;
      assert forall b :: 0 <= b < |done| ==> more[b] == done[b];
      if d.fine {
        AppendedHere(bytes, offset, d, codec, snappy);
      }
      forall b | 0 <= b < |more|
        ensures PlacedAt(after, more, b, next, codec, snappy)
      {
        if b < |done| {
          assert PlacedAt(bytes, done, b, offset, codec, snappy);
          if d.fine && done[b].fine {
            HereMore(bytes, StoredAs(codec, snappy, d.raw), done[b].raw, done[b].handle, codec, snappy);
          }
        }
      }
    }
  }

  lemma AppendedHere(bytes: seq<byte>, offset: nat, d: Done, codec: Codec, snappy: bool)
    requires d.handle == Handle(offset, |Packed(codec, snappy, d.raw).0|) && offset == |bytes|
    ensures Here(bytes + StoredAs(codec, snappy, d.raw), d.raw, d.handle, codec, snappy)
  {
    hide Packed, StoredAs;
  }

  lemma HereMore(bytes: seq<byte>, more: seq<byte>, raw: seq<byte>, h: Handle, codec: Codec, snappy: bool)
    requires Here(bytes, raw, h, codec, snappy)
    ensures Here(bytes + more, raw, h, codec, snappy)
  {
    hide Packed, Stored, At;
    AtGrows(bytes, more, h.offset, StoredAs(codec, snappy, raw));
  }

  /** What Finish appends to the data blocks ends the table. */
  lemma {:induction false} AllInPlace(
    bytes: seq<byte>, offset: nat, done: seq<Done>, m: seq<byte>, raw: seq<byte>, metaindex: Handle, index: Handle,
    codec: Codec, snappy: bool)
    requires Sound(bytes, offset, done, codec, snappy)
    requires metaindex == Handle(offset, |Packed(codec, snappy, m).0|)
    requires index == Handle(offset + |StoredAs(codec, snappy, m)|, |Packed(codec, snappy, raw).0|)
    ensures var after :=
        bytes + StoredAs(codec, snappy, m) + StoredAs(codec, snappy, raw) + EncodeFooter(metaindex, index);
      AllClean(done) ==>
        && offset + |StoredAs(codec, snappy, m)| + |StoredAs(codec, snappy, raw)| + FOOTER == |after|
        && Ended(after, done, m, raw, metaindex, index, codec, snappy)
  {
    hide Packed, StoredAs, EncodeFooter, AllClean, Skipped;
    if AllClean(done) {
      var a, b, c := StoredAs(codec, snappy, m), StoredAs(codec, snappy, raw), EncodeFooter(metaindex, index);
      var after := bytes + a + b + c;
      assert Here(bytes + a, m, metaindex, codec, snappy);
      assert Here(bytes + a + b, raw, index, codec, snappy);
      hide Here;
      HereMore(bytes + a, b, m, metaindex, codec, snappy);
      HereMore(bytes + a + b, c, m, metaindex, codec, snappy);
      HereMore(bytes + a + b, c, raw, index, codec, snappy);
      forall d | 0 <= d < |done|
        ensures PlacedAt(after, done, d, offset, codec, snappy)
      {
        assert PlacedAt(bytes, done, d, offset, codec, snappy);
        if done[d].fine {
          HereMore(bytes, a, done[d].raw, done[d].handle, codec, snappy);
          HereMore(bytes + a, b, done[d].raw, done[d].handle, codec, snappy);
          HereMore(bytes + a + b, c, done[d].raw, done[d].handle, codec, snappy);
        }
      }
      FooterLength(metaindex, index);
      assert after[|after| - FOOTER..] == c;
    }
  }

  class TableBuilder {
    const file: Writer.WritableFile
    const codec: Codec
    const snappy: bool
    const blocksize: nat
    const datablock: BlockBuilder
    const indexblock: BlockBuilder
    var offset: nat
    var ok: bool
    var lastkey: seq<byte>
    var pendingindexentry: bool
    var blockhandle: Handle
    var closed: bool
    ghost var all: seq<Pair>
    ghost var done: seq<Done>
    ghost var keys: seq<seq<byte>>

    /** The pairs and their blocks. */
    ghost predicate Inner()
      reads this, datablock, indexblock
    {
      && datablock != indexblock && datablock.interval >= 1 && indexblock.interval >= 1
      && datablock.Valid() && indexblock.Valid() && datablock.cmp == indexblock.cmp == KeyOrder
      && State(all, done, keys, pendingindexentry, blockhandle, datablock.layout.entries, indexblock.layout.entries)
      && (!ok ==> datablock.layout.entries == [])
    }

    /** The same, and the file. */
    ghost predicate Core()
      reads this, file, datablock, indexblock
    {
      && Inner() && |file.buf| <= Writer.BUFFER
      && (ok ==> file.buf == [] && Sound(file.contents, offset, done, codec, snappy))
    }

    ghost predicate Valid()
      reads this, file, datablock, indexblock
    {
      Core() && !closed && lastkey == LastKey(all) && (pendingindexentry || !datablock.Empty() || keys == [])
    }

    constructor (file: Writer.WritableFile, codec: Codec, snappy: bool, interval: nat, blocksize: nat)
      requires interval >= 1 && file.contents == file.buf == []
      ensures Valid() && all == [] && done == [] && ok && datablock.layout.entries == []
      ensures this.file == file && this.codec == codec && this.snappy == snappy
      ensures fresh(datablock) && fresh(indexblock)
    {
      hide KeyOrder, Building, State, Sound, Finished;
      NothingYet(codec, snappy);
      this.file, this.codec, this.snappy, this.blocksize := file, codec, snappy, blocksize;
      var data := new BlockBuilder(KeyOrder, interval);
      var index := new BlockBuilder(KeyOrder, 1);
      datablock, indexblock := data, index;
      offset, ok, lastkey, pendingindexentry, blockhandle, closed := 0, true, [], false, Handle(0, 0), false;
      all, done, keys := [], [], [];
    }

    function Bytes(): seq<byte>
      reads this, file
    {
      file.contents + file.buf
    }

    /** A block's payload, then its type and checksum. The offset moves on only if both are appended. */
    method WriteRawBlock(payload: seq<byte>, kind: byte, w: Writes) returns (h: Handle)
      requires |file.buf| <= Writer.BUFFER
      modifies this`offset, this`ok, file
      ensures |file.buf| <= Writer.BUFFER && h == Handle(old(offset), |payload|)
      ensures ok ==> offset == old(offset) + |payload| + TRAILER && Bytes() == old(Bytes()) + Stored(payload, kind)
      ensures !ok ==> offset == old(offset) && file.buf == []
      ensures Quiet(w) ==> ok
      ensures |payload| > Writer.BUFFER && w.payload.flush == Some(0) ==> !ok && file.contents == old(file.contents)
    {
      hide Crc32c.Value, Crc32c.Extend, Crc32c.Mask, EncodeFixed32;
      h := Handle(offset, |payload|);
      ok := file.Append(payload, w.payload.flush, w.payload.direct);
      if ok {
        var crc := Crc32c.Extend(Crc32c.Value(payload), [kind]);
        ValueAppend(payload, [kind]);
        var trailer := [kind] + EncodeFixed32(Crc32c.Mask(crc));
        StoredIs(payload, kind);
        Regroup(old(Bytes()), payload, trailer);
        ok := file.Append(trailer, w.trailer.flush, w.trailer.direct);
        if ok {
          offset := offset + |payload| + TRAILER;
        }
      }
    }

    /** Finishes a block, stores it compressed or not, and empties it. */
    method WriteBlock(block: BlockBuilder, w: Writes) returns (h: Handle, ghost raw: seq<byte>)
      requires block.Valid() && block.cmp == KeyOrder && block.interval >= 1 && |file.buf| <= Writer.BUFFER
      modifies this`offset, this`ok, file, block
      ensures block.Valid() && block.layout.entries == [] && |file.buf| <= Writer.BUFFER
      ensures h == Handle(old(offset), |Packed(codec, snappy, raw).0|)
      ensures raw == Finished(old(block.buffer), old(block.restarts))
      ensures |raw| < TWO32 ==> Entries(raw) == old(block.layout.entries)
      ensures old(block.layout.entries) != [] ==> Begins(raw, old(block.layout.entries)[0])
      ensures ok ==>
        var bs := StoredAs(codec, snappy, raw);
        offset == old(offset) + |bs| && Bytes() == old(Bytes()) + bs
      ensures !ok ==> offset == old(offset) && file.buf == []
      ensures Quiet(w) ==> ok
      ensures Loses(w, codec, old(block.layout.entries)) ==> !ok && file.contents == old(file.contents)
    {
      hide KeyOrder, Building, Finished, Stored, Entries, Begins;
      ghost var l, buffer, restarts, counter, last :=
        block.layout, block.buffer, block.restarts, block.counter, block.lastkey;
      var bs := block.Finish();
      raw := bs;
      BuildingBegins(block.cmp, block.interval, l, buffer, restarts, counter, last);
      if |raw| < TWO32 {
        BlockRoundTrip.FinishedOpens(block.cmp, block.interval, l, buffer, restarts, counter, last);
        EntriesAre(l, raw, |buffer|, |l.heads|);
      }
      var (payload, kind) := Packed(codec, snappy, bs);
      if Loses(w, codec, old(block.layout.entries)) {
        NothingPacked(codec, snappy, raw);
        BeginsLong(raw, old(block.layout.entries)[0]);
      }
      h := WriteRawBlock(payload, kind, w);
      block.Reset();
    }

    lemma Known()
      requires Inner()
      ensures datablock.Empty() <==> datablock.layout.entries == []
      ensures pendingindexentry ==> all != [] && done != [] && datablock.Empty() && |LastKey(all)| >= 8
      ensures !datablock.Empty() ==> ok && !pendingindexentry && LastKey(datablock.layout.entries) == LastKey(all)
      ensures datablock.lastkey == LastKey(datablock.layout.entries)
      ensures indexblock.lastkey == LastKey(indexblock.layout.entries)
    {
      hide KeyOrder, State, Sound, LaidOut, Headed, Spaced, BlockBuilding.Compressed, StrictlySorted;
      datablock.EmptyIsNone();
      StateIs(
        all, done, keys, pendingindexentry, blockhandle, datablock.layout.entries, indexblock.layout.entries);
    }

    /** Writes the data block out. The status is that of the flush, whatever the append's was. */
    method WriteData(w: Writes)
      requires Core() && !closed && datablock.layout.entries != []
      modifies this`offset, this`ok, this`blockhandle, this`done, this`pendingindexentry, file, datablock
      ensures Core() && datablock.layout.entries == [] && pendingindexentry
      ensures |done| == |old(done)| + 1 && done[..|old(done)|] == old(done)
      ensures done[|old(done)|].raw == Finished(old(datablock.buffer), old(datablock.restarts))
      ensures Loses(w, codec, old(datablock.layout.entries)) ==> ok && LostAt(done, |old(done)|)
      ensures old(ok) && (Quiet(w) ==> ok && (AllFine(old(done)) ==> AllFine(done)))
    {
      hide KeyOrder, Building, State, Sound, Packed, Stored, Entries, Begins, Loses, Finished;
      Known();
      ghost var raw;
      blockhandle, raw := WriteBlock(datablock, w);
      ghost var d := Done(|all|, raw, blockhandle, ok, !ok && file.contents != old(file.contents));
      BlockAdded(all, done, keys, old(blockhandle), old(datablock.layout.entries), indexblock.layout.entries, d);
      SoundMore(old(file.contents), old(offset), done, d, codec, snappy, Bytes(), offset);
      FineMore(done, d);
      done := done + [d];
      pendingindexentry := true;
      ok := file.Flush(w.flush);
      LosesFlushes(w, codec, old(datablock.layout.entries));
    }

    /** Writes the data block out, if it has entries. */
    method Flush(w: Writes)
      requires Core() && !closed
      modifies this`offset, this`ok, this`blockhandle, this`done, this`pendingindexentry, file, datablock
      ensures Core() && datablock.layout.entries == []
      ensures pendingindexentry == (old(pendingindexentry) || old(datablock.layout.entries) != [])
      ensures done == old(done) || (|done| == |old(done)| + 1 && done[..|old(done)|] == old(done))
      ensures old(datablock.layout.entries) != [] ==>
        |done| > |old(done)| && done[|old(done)|].raw == Finished(old(datablock.buffer), old(datablock.restarts))
      ensures old(datablock.layout.entries) != [] && Loses(w, codec, old(datablock.layout.entries)) ==>
        ok && LostAt(done, |old(done)|)
      ensures old(datablock.layout.entries) == [] ==> ok == old(ok) && done == old(done)
      ensures ok ==> old(ok)
      ensures Quiet(w) ==> ok == old(ok) && (AllFine(old(done)) ==> AllFine(done))
    {
      hide KeyOrder, Building, State, Sound, Loses, Finished;
      Known();
      if datablock.Empty() {
        return;
      }
      WriteData(w);
    }

    /** The index entry of the last data block, under a key that separates it from what follows. */
    method IndexBlock(separator: seq<byte>)
      requires Inner() && pendingindexentry && |separator| >= 8 && KeyOrder(LastKey(all), separator) <= 0
      modifies this`keys, this`pendingindexentry, indexblock
      ensures Inner() && !pendingindexentry && keys == old(keys) + [separator]
    {
      hide KeyOrder, Building, State, Sound, TotalOrder, EncodeHandle;
      KeyOrderIsTotal();
      Known();
      KeyChosen(
        all, done, keys, blockhandle, datablock.layout.entries, indexblock.layout.entries, separator);
      indexblock.Add(separator, EncodeHandle(blockhandle));
      keys := keys + [separator];
      pendingindexentry := false;
    }

    /** The index entry that the first key of a block makes possible. */
    method Separate(key: seq<byte>)
      requires Valid() && ok && |key| >= 8 && (all != [] ==> KeyOrder(LastKey(all), key) < 0)
      modifies this`lastkey, this`keys, this`pendingindexentry, indexblock
      ensures Core() && !pendingindexentry && datablock.layout.entries == old(datablock.layout.entries)
      ensures datablock.Empty() && keys != [] ==> all != [] && Between(LastKey(all), keys[|keys| - 1], key)
    {
      hide KeyOrder, Building, State, Sound, TotalOrder, Bytewise;
      Known();
      if pendingindexentry {
        var separator := InternalSeparator(lastkey, key);
        lastkey := separator;
        IndexBlock(separator);
      }
    }

    /** A pair joins the data block. */
    method Join(key: seq<byte>, value: seq<byte>)
      requires Core() && !closed && ok && !pendingindexentry && |key| >= 8
      requires all != [] ==> KeyOrder(LastKey(all), key) < 0
      requires datablock.Empty() && keys != [] ==> all != [] && Between(LastKey(all), keys[|keys| - 1], key)
      modifies this`lastkey, this`all, datablock
      ensures Core() && !closed && lastkey == key && all == old(all) + [(key, value)] && !datablock.Empty()
      ensures datablock.layout.entries == old(datablock.layout.entries) + [(key, value)]
    {
      hide KeyOrder, Building, State, Sound, TotalOrder, Between;
      KeyOrderIsTotal();
      Known();
      PairJoins(
        all, done, keys, blockhandle, datablock.layout.entries, indexblock.layout.entries, (key, value));
      lastkey := key;
      datablock.Add(key, value);
      all := all + [(key, value)];
      Known();
    }

    /** A pair is added, and the data block written out as soon as it would be as long as a block should be. */
    method Add(key: seq<byte>, value: seq<byte>, w: Writes)
      requires Valid() && |key| >= 8 && (all != [] ==> KeyOrder(LastKey(all), key) < 0)
      modifies this, file, datablock, indexblock
      ensures Valid()
      ensures all == if old(ok) then old(all) + [(key, value)] else old(all)
      ensures old(done) <= done && |done| <= |old(done)| + 1
      ensures done == old(done) && ok ==> |Finished(datablock.buffer, datablock.restarts)| < blocksize
      ensures |done| > |old(done)| ==> |done[|old(done)|].raw| >= blocksize && datablock.layout.entries == []
      ensures Loses(w, codec, old(datablock.layout.entries) + [(key, value)]) && old(ok) ==>
        && ok && (LostAt(done, |old(done)|) || done == old(done))
        && datablock.layout.entries ==
           if done == old(done) then old(datablock.layout.entries) + [(key, value)] else []
      ensures ok ==> old(ok)
      ensures Quiet(w) ==> ok == old(ok) && (AllFine(old(done)) ==> AllFine(done))
    {
      hide KeyOrder, Core, Between, State, Sound, Loses, Finished;
      if !ok {
        return;
      }
      Separate(key);
      Join(key, value);
      if datablock.CurrentSizeEstimate() >= blocksize {
        Flush(w);
      }
    }

    /** The index key of the last block, which nothing follows. */
    method LastIndexKey()
      requires Inner() && datablock.layout.entries == [] && (pendingindexentry ==> lastkey == LastKey(all))
      modifies this`lastkey, this`keys, this`pendingindexentry, indexblock
      ensures Inner() && Complete(all, done, keys) && indexblock.layout.entries == IndexOf(done, keys)
    {
      hide KeyOrder, Building, State, Sound, Bytewise;
      Known();
      if pendingindexentry {
        var successor := InternalSuccessor(lastkey);
        lastkey := successor;
        IndexBlock(successor);
      }
      StateComplete(all, done, keys, blockhandle, indexblock.layout.entries);
    }

    /** The metaindex block and the index block. */
    method WriteIndex(wm: Writes, wi: Writes)
      returns (metaindex: Handle, index: Handle, ghost m: seq<byte>, ghost raw: seq<byte>)
      requires Inner() && ok && datablock.layout.entries == [] && |file.buf| <= Writer.BUFFER
      requires pendingindexentry ==> lastkey == LastKey(all)
      modifies this`lastkey, this`keys, this`pendingindexentry, this`offset, this`ok, file, indexblock
      ensures |file.buf| <= Writer.BUFFER
      ensures ok ==> Complete(all, done, keys) && (|raw| < TWO32 ==> Entries(raw) == IndexOf(done, keys))
      ensures m == Finished([], [0])
      ensures ok ==>
        && metaindex == Handle(old(offset), |Packed(codec, snappy, m).0|)
        && index == Handle(old(offset) + |StoredAs(codec, snappy, m)|, |Packed(codec, snappy, raw).0|)
        && Bytes() == old(Bytes()) + StoredAs(codec, snappy, m) + StoredAs(codec, snappy, raw)
        && offset == old(offset) + |StoredAs(codec, snappy, m)| + |StoredAs(codec, snappy, raw)|
      ensures Quiet(wm) && Quiet(wi) ==> ok
    {
      hide KeyOrder, Building, State, Complete, Packed, Entries, StoredAs, Finished;
      index, raw := Handle(0, 0), [];
      var meta := new BlockBuilder(KeyOrder, datablock.interval);
      metaindex, m := WriteBlock(meta, wm);
      if ok {
        LastIndexKey();
        index, raw := WriteBlock(indexblock, wi);
      }
    }

    method WriteFooter(metaindex: Handle, index: Handle, wf: Fault)
      requires ok && |file.buf| <= Writer.BUFFER
      modifies this`offset, this`ok, file
      ensures |file.buf| <= Writer.BUFFER && (wf == FINE ==> ok)
      ensures ok ==> Bytes() == old(Bytes()) + EncodeFooter(metaindex, index) && offset == old(offset) + FOOTER
    {
      hide EncodeFooter;
      ok := file.Append(EncodeFooter(metaindex, index), wf.flush, wf.direct);
      if ok {
        offset := offset + FOOTER;
      }
    }

    /** The last data block, the metaindex block, the index block and the footer. */
    method Finish(w: Writes, wm: Writes, wi: Writes, wf: Fault)
      returns (status: bool, metaindex: Handle, index: Handle, ghost m: seq<byte>, ghost raw: seq<byte>)
      requires Valid()
      modifies this, file, datablock, indexblock
      ensures closed && status == ok && (ok ==> old(ok)) && all == old(all) && |file.buf| <= Writer.BUFFER
      ensures done == old(done) || (|done| == |old(done)| + 1 && done[..|old(done)|] == old(done))
      ensures status ==> Complete(all, done, keys) && (|raw| < TWO32 ==> Entries(raw) == IndexOf(done, keys))
      ensures status ==> m == Finished([], [0])
      ensures status && AllClean(done) ==>
        offset == |Bytes()| && Ended(Bytes(), done, m, raw, metaindex, index, codec, snappy)
      ensures Quiet(w) && Quiet(wm) && Quiet(wi) && wf == FINE && old(ok) ==>
        status && (AllFine(old(done)) ==> AllFine(done))
      ensures Quiet(wm) && Quiet(wi) && wf == FINE && old(ok) ==>
        && (old(datablock.layout.entries) != [] && Loses(w, codec, old(datablock.layout.entries)) ==>
              status && LostAt(done, |old(done)|))
        && (old(datablock.layout.entries) == [] ==> status && done == old(done))
    {
      hide KeyOrder, Building, Complete, State, Sound, Ended, AllFine, AllClean, Packed, StoredAs, Entries,
        EncodeFooter, Finished, Loses;
      m, raw, metaindex, index := [], [], Handle(0, 0), Handle(0, 0);
      Flush(w);
      closed := true;
      ghost var bytes, from := file.contents, offset;
      assert ok ==> Bytes() == bytes;
      if ok {
        metaindex, index, m, raw := WriteIndex(wm, wi);
      }
      if ok {
        WriteFooter(metaindex, index, wf);
        AllInPlace(bytes, from, done, m, raw, metaindex, index, codec, snappy);
      }
      status := ok;
    }
  }

  lemma ValueAppend(a: seq<byte>, b: seq<byte>)
    ensures Crc32c.Extend(Crc32c.Value(a), b) == Crc32c.Value(a + b)
  {
    hide Crc32c.Extend;
    Crc32c.ExtendAppend(0, a, b);
  }

  lemma StoredIs(payload: seq<byte>, kind: byte)
    ensures Stored(payload, kind) == payload + ([kind] + EncodeFixed32(Crc32c.Mask(Crc32c.Value(payload + [kind]))))
  {
    hide Crc32c.Value, Crc32c.Mask, EncodeFixed32;
  }
}
