/** A table file read back, and when it is not what was added (table.cc, tablebuilder.cc). */
module TableRoundTrip {
  import opened Ordering
  import opened Bytes
  import opened Coding
  import opened Cursors
  import opened Lists
  import opened KeyFormat
  import opened TwoLevel
  import opened BlockFormat
  import opened BlockBuilding
  import opened BlockReading
  import opened TableFormat
  import opened Tables
  import Writer
  import LogFormat

  // ----- Reading -----

  /** Sizes that a handle and a block can express. */
  ghost predicate Small(bytes: seq<byte>, done: seq<Done>, raw: seq<byte>) {
    |bytes| < TWO64 && |raw| < TWO32 && forall b :: 0 <= b < |done| ==> |done[b].raw| < TWO32
  }

  /** The index block is found from the end of the file. */
  lemma {:induction false} IndexReads(
    bytes: seq<byte>, done: seq<Done>, m: seq<byte>, raw: seq<byte>, metaindex: Handle, index: Handle, codec: Codec,
    snappy: bool, verify: bool)
    requires Lossless(codec) && Small(bytes, done, raw) && Ended(bytes, done, m, raw, metaindex, index, codec, snappy)
    ensures OpenTable(bytes, |bytes|, verify, codec) == Some(raw)
  {
    hide Packed, Stored, EncodeFooter, DecodeFooter, ReadBlock, Placed;
    assert bytes[|bytes| - FOOTER..|bytes|] == bytes[|bytes| - FOOTER..];
    FooterReads(metaindex, index);
    StoredReads(bytes, index, raw, codec, snappy, verify);
  }

  /** A data block in its place reads back by its index entry. */
  lemma {:induction false} BlockReads(
    bytes: seq<byte>, all: seq<Pair>, done: seq<Done>, b: nat, codec: Codec, snappy: bool, verify: bool)
    requires Lossless(codec) && b < |done| && Holds(all, done, b) && |done[b].raw| < TWO32 && |bytes| < TWO64
    requires Here(bytes, done[b].raw, done[b].handle, codec, snappy)
    ensures Reads(all, done, BlockReader(bytes, verify, codec), b)
  {
    hide Packed, Stored, ReadBlock, EncodeHandle, DecodeHandle, Entries;
    var h := done[b].handle;
    HandleDecodes(h);
    StoredReads(bytes, h, done[b].raw, codec, snappy, verify);
  }

  lemma HandleDecodes(h: Handle)
    requires Expressible(h)
    ensures DecodeHandle(EncodeHandle(h), 0) == Some((h, |EncodeHandle(h)|))
  {
    hide EncodeHandle, DecodeHandle;
    var bs := EncodeHandle(h);
    assert bs[0..0 + |bs|] == bs;
    HandleReads(bs, 0, h);
  }

  /** A file that opens as a table of these pairs: its index is one of blocks that hold them. */
  ghost predicate IsTable(bytes: seq<byte>, pairs: seq<Pair>, verify: bool, codec: Codec) {
    var contents := OpenTable(bytes, |bytes|, verify, codec);
    && contents.Some?
    && Indexed(KeyOrder, BlockReader(bytes, verify, codec), Entries(contents.value))
    && All(BlockReader(bytes, verify, codec), Entries(contents.value)) == pairs
    && Apart(pairs, BlockReader(bytes, verify, codec), Entries(contents.value))
  }

  /** Every index key separates the pairs of its block from those behind it. */
  ghost predicate Apart(pairs: seq<Pair>, read: seq<byte> -> seq<Pair>, index: seq<Pair>) {
    forall b :: 0 <= b < |index| ==> Separates(pairs, Offset(read, index, b + 1), index[b].0)
  }

  /**
   * Builds a table of any increasing pairs. If no append of a data block failed, a table whose building succeeds is
   * one of the pairs, whether its checksums are verified or not. If what failed left nothing behind, and there is no
   * compression, it is one of the pairs only then.
   */
  method BuildTable(
    pairs: seq<Pair>, codec: Codec, snappy: bool, interval: nat, blocksize: nat, writes: nat -> Writes,
    last: Writes, wm: Writes, wi: Writes, wf: Fault)
    returns (status: bool, bytes: seq<byte>, ghost done: seq<Done>, ghost raw: seq<byte>)
    requires StrictlySorted(KeyOrder, pairs) && Lossless(codec) && interval >= 1
    requires forall p :: 0 <= p < |pairs| ==> |pairs[p].0| >= 8
    ensures status && AllFine(done) && Small(bytes, done, raw) ==>
      forall verify :: IsTable(bytes, pairs, verify, codec)
    ensures status && AllClean(done) && NoCodec(codec) && Small(bytes, done, raw) ==>
      forall verify :: IsTable(bytes, pairs, verify, codec) <==> AllFine(done)
    ensures (forall i: nat :: Quiet(writes(i))) && Quiet(last) && Quiet(wm) && Quiet(wi) && wf == FINE ==>
      status && AllFine(done)
  {
    hide KeyOrder, TotalOrder, StrictlySorted, Complete, Ended, Small, IsTable, AllFine, AllClean, NoCodec,
      Quiet, TableBuilder.Core, Finished;
    var file := new Writer.WritableFile([]);
    var builder := new TableBuilder(file, codec, snappy, interval, blocksize);
    NoneFine();
    AddAll(builder, pairs, writes);
    var metaindex, index;
    ghost var m;
    status, metaindex, index, m, raw := builder.Finish(last, wm, wi, wf);
    done := builder.done;
    bytes := builder.Bytes();
    FineIsClean(done);
    if status && AllClean(done) && Small(bytes, done, raw) {
      Outcome(bytes, pairs, done, builder.keys, m, raw, metaindex, index, codec, snappy);
    }
  }

  /** What a finished table is, as far as what failed left nothing behind. */
  lemma Outcome(
    bytes: seq<byte>, all: seq<Pair>, done: seq<Done>, keys: seq<seq<byte>>, m: seq<byte>, raw: seq<byte>,
    metaindex: Handle, index: Handle, codec: Codec, snappy: bool)
    requires Lossless(codec) && Complete(all, done, keys) && Small(bytes, done, raw) && m == Finished([], [0])
    requires Ended(bytes, done, m, raw, metaindex, index, codec, snappy)
    requires |raw| < TWO32 ==> Entries(raw) == IndexOf(done, keys)
    ensures AllFine(done) ==> forall verify :: IsTable(bytes, all, verify, codec)
    ensures NoCodec(codec) ==> forall verify :: IsTable(bytes, all, verify, codec) <==> AllFine(done)
  {
    hide KeyOrder, Complete, Ended, IsTable, AllFine, NoCodec, Finished, Entries;
    forall verify
      ensures AllFine(done) ==> IsTable(bytes, all, verify, codec)
      ensures NoCodec(codec) ==> (IsTable(bytes, all, verify, codec) <==> AllFine(done))
    {
      if AllFine(done) {
        TableReads(bytes, all, done, keys, m, raw, metaindex, index, codec, snappy, verify);
      }
      if NoCodec(codec) {
        IsTableIff(bytes, all, done, keys, m, raw, metaindex, index, codec, snappy, verify);
      }
    }
  }

  /** A table of one pair whose data block cannot be appended: building succeeds, and it is not a table of the pair. */
  method LoseBlock(key: seq<byte>, value: seq<byte>, codec: Codec, interval: nat, blocksize: nat)
    returns (status: bool, bytes: seq<byte>, ghost done: seq<Done>, ghost raw: seq<byte>)
    requires |key| >= 8 && |value| > Writer.BUFFER && NoCodec(codec) && interval >= 1
    ensures status && !AllFine(done)
    ensures Small(bytes, done, raw) ==> forall verify :: !IsTable(bytes, [(key, value)], verify, codec)
  {
    hide KeyOrder, Complete, Ended, Small, IsTable, NoCodec, TableBuilder.Core, Finished, StrictlySorted, Loses, LostAt,
      AllFine, AllClean;
    var lost, quiet := Writes(Fault(Some(0), None), FINE, None), Writes(FINE, FINE, None);
    var file := new Writer.WritableFile([]);
    var builder := new TableBuilder(file, codec, false, interval, blocksize);
    TooLong(key, value, codec, lost);
    builder.Add(key, value, lost);
    var metaindex, index;
    ghost var m;
    status, metaindex, index, m, raw := builder.Finish(lost, quiet, quiet, FINE);
    done := builder.done;
    bytes := builder.Bytes();
    NothingPacked(codec, false, []);
    LostIsClean(done);
    if Small(bytes, done, raw) {
      Outcome(bytes, [(key, value)], done, builder.keys, m, raw, metaindex, index, codec, false);
    }
  }

  lemma TooLong(key: seq<byte>, value: seq<byte>, codec: Codec, lost: Writes)
    requires |value| > Writer.BUFFER && NoCodec(codec) && lost == Writes(Fault(Some(0), None), FINE, None)
    ensures Loses(lost, codec, [(key, value)]) && [] + [(key, value)] == [(key, value)]
  {
  }

  lemma LostIsClean(done: seq<Done>)
    requires LostAt(done, 0)
    ensures !AllFine(done) && AllClean(done)
  {
  }

  lemma NoneFine()
    ensures AllFine([])
  {
  }

  lemma FineIsClean(done: seq<Done>)
    ensures AllFine(done) ==> AllClean(done)
  {
  }

  /** Adds pairs to a new table, as far as its status allows. */
  method AddAll(builder: TableBuilder, pairs: seq<Pair>, writes: nat -> Writes)
    requires builder.Valid() && builder.all == [] && builder.ok && AllFine(builder.done)
    requires StrictlySorted(KeyOrder, pairs) && forall p :: 0 <= p < |pairs| ==> |pairs[p].0| >= 8
    modifies builder, builder.file, builder.datablock, builder.indexblock
    ensures builder.Valid() && (builder.ok ==> builder.all == pairs)
    ensures (forall i: nat :: Quiet(writes(i))) ==> builder.ok && AllFine(builder.done)
  {
    hide KeyOrder, StrictlySorted, AllFine, Quiet, TableBuilder.Core;
    ghost var n := 0;
    for i := 0 to |pairs|
      invariant builder.Valid() && n <= i && builder.all == pairs[..n] && (builder.ok ==> n == i)
      invariant (forall j: nat :: Quiet(writes(j))) ==> builder.ok && AllFine(builder.done)
    {
      NextPair(pairs, n, i);
      if builder.ok {
        n := n + 1;
      }
      builder.Add(pairs[i].0, pairs[i].1, writes(i));
    }
    assert pairs[..|pairs|] == pairs;
  }

  /** Opens a table and runs any operations on its iterator: it walks along the pairs. */
  method ReadTable(bytes: seq<byte>, ghost pairs: seq<Pair>, verify: bool, codec: Codec, ops: seq<Op<seq<byte>>>)
    returns (seen: seq<Option<Pair>>)
    requires IsTable(bytes, pairs, verify, codec)
    ensures seen == Cursor(pairs, |pairs|).Trace(KeyOrder, ops)
  {
    hide KeyOrder, TotalOrder, Indexed, OpenTable, AllTo;
    KeyOrderIsTotal();
    var contents := OpenTable(bytes, |bytes|, verify, codec);
    var it := new TwoLevelIterator(KeyOrder, BlockReader(bytes, verify, codec), Entries(contents.value));
    seen := it.Run(ops);
  }

  lemma NextPair(pairs: seq<Pair>, n: nat, i: nat)
    requires StrictlySorted(KeyOrder, pairs) && n <= i < |pairs|
    ensures pairs[..n] != [] ==> KeyOrder(LastKey(pairs[..n]), pairs[i].0) < 0
    ensures n == i ==> pairs[..n + 1] == pairs[..n] + [(pairs[i].0, pairs[i].1)]
  {
    hide KeyOrder;
  }

  lemma {:induction false} TableReads(
    bytes: seq<byte>, all: seq<Pair>, done: seq<Done>, keys: seq<seq<byte>>, m: seq<byte>, raw: seq<byte>,
    metaindex: Handle, index: Handle, codec: Codec, snappy: bool, verify: bool)
    requires Lossless(codec) && Complete(all, done, keys) && Small(bytes, done, raw) && AllFine(done)
    requires Ended(bytes, done, m, raw, metaindex, index, codec, snappy) && Entries(raw) == IndexOf(done, keys)
    ensures IsTable(bytes, all, verify, codec)
  {
    hide KeyOrder, Divided, Here, OpenTable, Entries, Reads, BlockReader, Indexed, AllTo, Apart;
    IndexReads(bytes, done, m, raw, metaindex, index, codec, snappy, verify);
    var read := BlockReader(bytes, verify, codec);
    forall b | 0 <= b < |done|
      ensures Reads(all, done, read, b)
    {
      assert PlacedAt(bytes, done, b, metaindex.offset, codec, snappy);
      BlockReads(bytes, all, done, b, codec, snappy, verify);
    }
    IndexIsSound(all, done, keys, read);
    IndexIsApart(all, done, keys, read);
  }

  lemma {:induction false} IndexIsApart(
    all: seq<Pair>, done: seq<Done>, keys: seq<seq<byte>>, read: seq<byte> -> seq<Pair>)
    requires Divided(all, done, keys, false) && forall b :: 0 <= b < |done| ==> Reads(all, done, read, b)
    ensures Apart(all, read, IndexOf(done, keys))
  {
    hide KeyOrder, StrictlySorted, Separates, EncodeHandle, AllTo, Reads;
    forall b | 0 <= b < |keys|
      ensures Separates(all, Offset(read, IndexOf(done, keys), b + 1), keys[b])
    {
      AllIs(all, done, keys, read, b + 1);
      assert Follows(all, done, b);
    }
  }

  /**
   * Looks a key up: in the index, and then in the one block that it points to. What is found is the first pair at or
   * above the key, and it is found if it is of the same user key.
   */
  method InternalGet(bytes: seq<byte>, ghost pairs: seq<Pair>, verify: bool, codec: Codec, key: seq<byte>)
    returns (r: Option<Pair>)
    requires IsTable(bytes, pairs, verify, codec) && |key| >= 8
    requires forall p :: 0 <= p < |pairs| ==> |pairs[p].0| >= 8
    ensures var p := LowerBound(KeyOrder, pairs, key);
      && (r.Some? ==> p < |pairs| && r.value == pairs[p])
      && (p < |pairs| && UserOf(pairs[p].0) == UserOf(key) ==> r.Some?)
  {
    hide KeyOrder, TotalOrder, Indexed, OpenTable, AllTo, BlockReader, Entries, LowerBound, Apart;
    r := None;
    var index := Entries(OpenTable(bytes, |bytes|, verify, codec).value);
    var read := BlockReader(bytes, verify, codec);
    var i := LowerBound(KeyOrder, index, key);
    if i < |index| {
      var block := read(index[i].1);
      var k := LowerBound(KeyOrder, block, key);
      if k < |block| {
        r := Some(block[k]);
      }
    }
    LookupIs(pairs, read, index, key);
  }

  /** What a seek in the index and in one block finds. */
  lemma {:induction false} LookupIs(
    pairs: seq<Pair>, read: seq<byte> -> seq<Pair>, index: seq<Pair>, key: seq<byte>)
    requires Indexed(KeyOrder, read, index) && All(read, index) == pairs && Apart(pairs, read, index)
    requires |key| >= 8 && forall p :: 0 <= p < |pairs| ==> |pairs[p].0| >= 8
    ensures var p, i := LowerBound(KeyOrder, pairs, key), LowerBound(KeyOrder, index, key);
      var k := if i < |index| then LowerBound(KeyOrder, read(index[i].1), key) else 0;
      if i < |index| && k < |read(index[i].1)| then p < |pairs| && read(index[i].1)[k] == pairs[p]
      else p < |pairs| ==> UserOf(pairs[p].0) != UserOf(key)
  {
    hide KeyOrder, TotalOrder, Indexed, AllTo, LowerBound, Separates;
    KeyOrderIsTotal();
    var i := LowerBound(KeyOrder, index, key);
    var k := if i < |index| then LowerBound(KeyOrder, read(index[i].1), key) else 0;
    SeekInBlock(KeyOrder, read, index, key, i, k);
    if i < |index| {
      BlockEnd(read, index, i);
      if k < |read(index[i].1)| {
        EntryOf(read, index, i, k);
      } else if Offset(read, index, i) + k < |pairs| {
        OtherUser(pairs, Offset(read, index, i + 1), index[i].0, key);
      }
    }
  }

  /** A key past the end of a block, but not past its index key, has no pair behind the block. */
  lemma OtherUser(pairs: seq<Pair>, end: nat, separator: seq<byte>, key: seq<byte>)
    requires Separates(pairs, end, separator) && end < |pairs| && |pairs[end].0| >= 8 && |key| >= 8
    requires end == LowerBound(KeyOrder, pairs, key) && KeyOrder(separator, key) >= 0
    ensures UserOf(pairs[end].0) != UserOf(key)
  {
    hide Bytewise, LowerBound;
    assert KeyOrder(pairs[end - 1].0, key) < 0;
    KeyOrderEqual(separator, key);
    BytewiseEqual(UserOf(separator), UserOf(key));
    BytewiseEqual(UserOf(key), UserOf(pairs[end].0));
  }

  // ----- A block whose append failed without notice -----

  /** Reading a number depends on its own bytes only. */
  lemma {:induction false} VarintIn(xs: seq<byte>, ys: seq<byte>, p: nat, limit: nat, left: nat)
    requires xs <= ys && limit <= |xs| && ReadVarint(xs, p, limit, left).Some?
    ensures ReadVarint(ys, p, |ys|, left) == ReadVarint(xs, p, limit, left)
    decreases left
  {
    assert ys[p] == xs[p];
    if xs[p] >= 128 {
      VarintIn(xs, ys, p + 1, limit, left - 1);
    }
  }

  lemma {:induction false} HeaderIn(xs: seq<byte>, ys: seq<byte>, p: nat, limit: nat)
    requires xs <= ys && limit <= |xs| && ReadHeader(xs, p, limit).Some?
    ensures ReadHeader(ys, p, |ys|) == ReadHeader(xs, p, limit)
  {
    hide ReadVarint;
    VarintIn(xs, ys, p, limit, 5);
    var p1 := GetVarint32(xs, p, limit).value.1;
    VarintIn(xs, ys, p1, limit, 5);
    var p2 := GetVarint32(xs, p1, limit).value.1;
    VarintIn(xs, ys, p2, limit, 5);
  }

  /** However much is read from where a block begins, the first key that is seen is the block's. */
  lemma {:induction false} FirstKey(data: seq<byte>, source: seq<byte>, x: Pair)
    requires data <= source && Begins(source, x) && |x.0| < TWO32 && |x.1| < TWO32
    ensures Entries(data) == [] || Entries(data)[0].0 == x.0
  {
    hide Open, EntriesFrom;
    match Open(data)
    case Readable(restarts, _) =>
      if restarts <= |data| {
        FirstKeyFrom(data, restarts, source, x);
      }
    case _ =>
  }

  lemma {:induction false} FirstKeyFrom(data: seq<byte>, limit: nat, source: seq<byte>, x: Pair)
    requires data <= source && limit <= |data| && Begins(source, x) && |x.0| < TWO32 && |x.1| < TWO32
    ensures var es := EntriesFrom(data, 0, limit, []); es == [] || es[0].0 == x.0
  {
    hide Varint, ReadHeader, FastHeader, At;
    var es := EntriesFrom(data, 0, limit, []);
    if es != [] {
      FastIsSlow(data, 0, limit);
      HeaderIn(data, source, 0, limit);
      WholeHeader(source, x);
      var e := DecodeEntry(data, 0, limit).value;
      KeyIn(data, source, e.p, x.0);
    }
  }

  lemma WholeHeader(source: seq<byte>, x: Pair)
    requires Begins(source, x) && |x.0| < TWO32 && |x.1| < TWO32
    ensures var e := ReadHeader(source, 0, |source|);
      e.Some? && e.value.shared == 0 && e.value.nonShared == |x.0| && At(source, e.value.p, x.0)
  {
    hide Varint, ReadHeader, At;
    assert x.0[0..] == x.0;
    AtFits(source, 0, EntryBytes(0, x.0, x.1));
    HeaderWritten(source, 0, |source|, 0, |x.0|, |x.1|, x.0, x.1);
  }

  lemma KeyIn(data: seq<byte>, source: seq<byte>, p: nat, key: seq<byte>)
    requires data <= source && At(source, p, key)
    ensures p + |key| <= |data| ==> [][..0] + data[p..p + |key|] == key
  {
    if p + |key| <= |data| {
      assert data[p..p + |key|] == source[p..p + |key|];
    }
  }

  /** A list that does not start with the key of a pair. */
  ghost predicate Other(list: seq<Pair>, key: seq<byte>) { list == [] || list[0].0 != key }

  /** What is read at a place is what begins there. */
  lemma {:induction false} ReadsFrom(bytes: seq<byte>, h: Handle, x: Pair, key: seq<byte>, codec: Codec, verify: bool)
    requires NoCodec(codec) && Expressible(h) && h.offset <= |bytes|
    requires Begins(bytes[h.offset..], x) && |x.0| < TWO32 && |x.1| < TWO32 && x.0 != key
    ensures Other(BlockReader(bytes, verify, codec)(EncodeHandle(h)), key)
  {
    hide EncodeHandle, DecodeHandle, Entries, Begins;
    HandleDecodes(h);
    var r := ReadBlock(bytes, h, verify, codec);
    if r.Contents? {
      ReadIs(bytes, h, verify, codec);
      FirstKey(r.data, bytes[h.offset..], x);
    }
  }

  lemma ReadIs(bytes: seq<byte>, h: Handle, verify: bool, codec: Codec)
    requires NoCodec(codec) && ReadBlock(bytes, h, verify, codec).Contents?
    ensures h.offset <= |bytes| && ReadBlock(bytes, h, verify, codec).data <= bytes[h.offset..]
  {
  }

  /** A block in its place begins there. */
  lemma BeginsHere(bytes: seq<byte>, raw: seq<byte>, h: Handle, x: Pair, codec: Codec, snappy: bool)
    requires NoCodec(codec) && Here(bytes, raw, h, codec, snappy) && Begins(raw, x)
    ensures h.offset <= |bytes| && Begins(bytes[h.offset..], x)
    ensures |x.0| <= |raw| && |x.1| <= |raw|
  {
    hide Packed, StoredAs, Varint;
    NothingPacked(codec, snappy, raw);
    var first := EntryBytes(0, x.0, x.1);
    assert first == raw[..|first|];
    assert bytes[h.offset..][..|first|] == first;
  }

  lemma EmptyBegins()
    ensures Begins(Finished([], [0]), ([], []))
  {
    assert RestartBytes([0][..0]) == [];
    assert RestartBytes([0]) == Fixed(0, 4);
    assert EntryBytes(0, [], []) == [0, 0, 0];
  }

  lemma KeysDiffer(all: seq<Pair>, p: nat, q: nat)
    requires StrictlySorted(KeyOrder, all) && p < q < |all|
    ensures all[p].0 != all[q].0
  {
    hide KeyOrder;
    KeyOrderEqual(all[p].0, all[q].0);
  }

  /** A block that was not appended reads as what has taken its place: a later block, or the metaindex. */
  lemma {:induction false} SkippedIsOther(
    bytes: seq<byte>, all: seq<Pair>, done: seq<Done>, m: seq<byte>, metaindex: Handle, p: nat, b: nat,
    codec: Codec, snappy: bool, verify: bool)
    requires NoCodec(codec) && StrictlySorted(KeyOrder, all) && |bytes| < TWO64 && b < |done| && !done[b].fine
    requires (forall c :: 0 <= c < |done| ==> Holds(all, done, c) && |done[c].raw| < TWO32)
    requires p < |all| && |all[p].0| >= 8 && forall c :: b < c < |done| ==> p < Start(done, c)
    requires Placed(bytes, done, metaindex.offset, codec, snappy)
    requires m == Finished([], [0]) && Here(bytes, m, metaindex, codec, snappy)
    ensures Other(BlockReader(bytes, verify, codec)(EncodeHandle(done[b].handle)), all[p].0)
  {
    hide KeyOrder, StrictlySorted, Holds, Here, BlockReader, EncodeHandle, Finished, Packed;
    assert PlacedAt(bytes, done, b, metaindex.offset, codec, snappy);
    var h := done[b].handle;
    NothingPacked(codec, snappy, done[b].raw);
    PlaceExists(bytes, m, metaindex, codec, snappy);
    if h.offset == metaindex.offset {
      TakenByMetaindex(bytes, h, m, metaindex, all[p].0, codec, snappy, verify);
    } else {
      var c :| b < c < |done| && done[c].fine && h.offset == done[c].handle.offset;
      assert PlacedAt(bytes, done, c, metaindex.offset, codec, snappy);
      PlaceExists(bytes, done[c].raw, done[c].handle, codec, snappy);
      TakenBy(bytes, all, done, p, h, c, codec, snappy, verify);
    }
  }

  lemma TakenBy(
    bytes: seq<byte>, all: seq<Pair>, done: seq<Done>, p: nat, h: Handle, c: nat, codec: Codec, snappy: bool,
    verify: bool)
    requires NoCodec(codec) && StrictlySorted(KeyOrder, all) && c < |done| && p < Start(done, c)
    requires Holds(all, done, c) && |done[c].raw| < TWO32 && Here(bytes, done[c].raw, done[c].handle, codec, snappy)
    requires Expressible(h) && h.offset == done[c].handle.offset
    ensures Other(BlockReader(bytes, verify, codec)(EncodeHandle(h)), all[p].0)
  {
    hide KeyOrder, StrictlySorted, Begins, Here, Entries, BlockReader, EncodeHandle, Packed;
    var x := all[Start(done, c)];
    KeysDiffer(all, p, Start(done, c));
    BeginsHere(bytes, done[c].raw, done[c].handle, x, codec, snappy);
    ReadsFrom(bytes, h, x, all[p].0, codec, verify);
  }

  lemma TakenByItself(
    bytes: seq<byte>, all: seq<Pair>, done: seq<Done>, p: nat, b: nat, codec: Codec, snappy: bool, verify: bool)
    requires NoCodec(codec) && StrictlySorted(KeyOrder, all) && b < |done| && p < Start(done, b) && |bytes| < TWO64
    requires Holds(all, done, b) && |done[b].raw| < TWO32 && Here(bytes, done[b].raw, done[b].handle, codec, snappy)
    ensures Other(BlockReader(bytes, verify, codec)(EncodeHandle(done[b].handle)), all[p].0)
  {
    hide KeyOrder, StrictlySorted, Begins, Here, Entries, BlockReader, EncodeHandle, Packed;
    NothingPacked(codec, snappy, done[b].raw);
    BlockReads(bytes, all, done, b, codec, snappy, verify);
    KeysDiffer(all, p, Start(done, b));
  }

  /** The metaindex has no entries, and reads as if its first key were empty. */
  lemma TakenByMetaindex(
    bytes: seq<byte>, h: Handle, m: seq<byte>, metaindex: Handle, key: seq<byte>, codec: Codec, snappy: bool,
    verify: bool)
    requires NoCodec(codec) && Expressible(h) && h.offset == metaindex.offset && key != []
    requires m == Finished([], [0]) && Here(bytes, m, metaindex, codec, snappy)
    ensures Other(BlockReader(bytes, verify, codec)(EncodeHandle(h)), key)
  {
    hide Begins, Here, BlockReader, EncodeHandle, Finished, Packed;
    EmptyBegins();
    BeginsHere(bytes, m, metaindex, ([], []), codec, snappy);
    ReadsFrom(bytes, h, ([], []), key, codec, verify);
  }

  lemma PlaceExists(bytes: seq<byte>, raw: seq<byte>, h: Handle, codec: Codec, snappy: bool)
    requires Here(bytes, raw, h, codec, snappy)
    ensures h.offset <= |bytes|
  {
    hide Packed, StoredAs;
  }

  /** From the first block that was not appended on, no block reads as one that begins with its first pair. */
  lemma {:induction false} LaterIsOther(
    bytes: seq<byte>, all: seq<Pair>, done: seq<Done>, keys: seq<seq<byte>>, m: seq<byte>, metaindex: Handle,
    a: nat, b: nat, codec: Codec, snappy: bool, verify: bool)
    requires NoCodec(codec) && Complete(all, done, keys) && |bytes| < TWO64 && a <= b < |done| && !done[a].fine
    requires forall c :: 0 <= c < |done| ==> |done[c].raw| < TWO32
    requires Placed(bytes, done, metaindex.offset, codec, snappy)
    requires m == Finished([], [0]) && Here(bytes, m, metaindex, codec, snappy)
    ensures Start(done, a) < |all|
    ensures Other(BlockReader(bytes, verify, codec)(EncodeHandle(done[b].handle)), all[Start(done, a)].0)
  {
    hide KeyOrder, StrictlySorted, Separates, Holds, Here, BlockReader, EncodeHandle, Finished, Packed, Skipped;
    assert Follows(all, done, a);
    var p := Start(done, a);
    forall c | a < c < |done|
      ensures p < Start(done, c)
    {
      EndsAscend(all, done, a, c);
    }
    if done[b].fine {
      assert PlacedAt(bytes, done, b, metaindex.offset, codec, snappy);
      TakenByItself(bytes, all, done, p, b, codec, snappy, verify);
    } else {
      SkippedIsOther(bytes, all, done, m, metaindex, p, b, codec, snappy, verify);
    }
  }

  /** If no later block begins with the pair at p, it does not come next. */
  lemma {:induction false} NotNext(read: seq<byte> -> seq<Pair>, index: seq<Pair>, a: nat, n: nat, key: seq<byte>)
    requires a <= n <= |index|
    requires forall b :: a <= b < n ==> Other(read(index[b].1), key)
    ensures var p := Offset(read, index, a);
      Offset(read, index, n) == p || (Offset(read, index, n) > p && AllTo(read, index, n)[p].0 != key)
    decreases n
  {
    if a < n {
      NotNext(read, index, a, n - 1, key);
      assert Other(read(index[n - 1].1), key);
    }
  }

  lemma FirstFault(done: seq<Done>) returns (a: nat)
    requires !AllFine(done)
    ensures a < |done| && !done[a].fine && forall b :: 0 <= b < a ==> done[b].fine
  {
    a := 0;
    while done[a].fine
      invariant a < |done| && forall b :: 0 <= b < a ==> done[b].fine
      invariant exists b :: a <= b < |done| && !done[b].fine
      decreases |done| - a
    {
      a := a + 1;
    }
  }

  /** With a block that was not appended, the blocks together are not the pairs. */
  lemma {:induction false} LostIsNot(
    bytes: seq<byte>, all: seq<Pair>, done: seq<Done>, keys: seq<seq<byte>>, m: seq<byte>, metaindex: Handle,
    codec: Codec, snappy: bool, verify: bool)
    requires NoCodec(codec) && Complete(all, done, keys) && |bytes| < TWO64 && !AllFine(done)
    requires forall c :: 0 <= c < |done| ==> |done[c].raw| < TWO32
    requires Placed(bytes, done, metaindex.offset, codec, snappy)
    requires m == Finished([], [0]) && Here(bytes, m, metaindex, codec, snappy)
    ensures All(BlockReader(bytes, verify, codec), IndexOf(done, keys)) != all
  {
    hide KeyOrder, StrictlySorted, Here, Entries, Reads, BlockReader, AllTo, EncodeHandle, Finished, Holds, Skipped,
      Separates, Packed;
    var read, entries := BlockReader(bytes, verify, codec), IndexOf(done, keys);
    var a := FirstFault(done);
    NothingPacked(codec, true, []);
    forall b | 0 <= b < a
      ensures Reads(all, done, read, b)
    {
      assert PlacedAt(bytes, done, b, metaindex.offset, codec, snappy);
      BlockReads(bytes, all, done, b, codec, snappy, verify);
    }
    AllIs(all, done, keys, read, a);
    LaterIsOther(bytes, all, done, keys, m, metaindex, a, a, codec, snappy, verify);
    var key := all[Start(done, a)].0;
    forall b | a <= b < |done|
      ensures Other(read(entries[b].1), key)
    {
      LaterIsOther(bytes, all, done, keys, m, metaindex, a, b, codec, snappy, verify);
    }
    NotNext(read, entries, a, |entries|, key);
  }

  /**
   * Of a table that is finished and whose failed appends of data blocks left nothing behind: it is one of the pairs
   * added if and only if no append of a data block failed.
   */
  lemma {:induction false} IsTableIff(
    bytes: seq<byte>, all: seq<Pair>, done: seq<Done>, keys: seq<seq<byte>>, m: seq<byte>, raw: seq<byte>,
    metaindex: Handle, index: Handle, codec: Codec, snappy: bool, verify: bool)
    requires NoCodec(codec) && Complete(all, done, keys) && Small(bytes, done, raw) && m == Finished([], [0])
    requires Ended(bytes, done, m, raw, metaindex, index, codec, snappy) && Entries(raw) == IndexOf(done, keys)
    ensures IsTable(bytes, all, verify, codec) <==> AllFine(done)
  {
    hide KeyOrder, Complete, Here, OpenTable, Entries, BlockReader, Indexed, AllTo, Finished, Placed, Packed;
    NothingPacked(codec, snappy, raw);
    IndexReads(bytes, done, m, raw, metaindex, index, codec, snappy, verify);
    if AllFine(done) {
      TableReads(bytes, all, done, keys, m, raw, metaindex, index, codec, snappy, verify);
    } else {
      LostIsNot(bytes, all, done, keys, m, metaindex, codec, snappy, verify);
    }
  }
}
