/** The bytes of a table file: stored blocks, handles and the footer (format.cc, table.cc). */
module TableFormat {
  import opened Lists
  import opened Ordering
  import opened Bytes
  import opened Coding
  import opened BlockFormat
  import opened BlockReading
  import Crc32c
  import LogFormat

  // ----- Stored blocks -----

  const TRAILER: nat := 5

  /** The compression library, as far as a table depends on it. */
  datatype Codec = Codec(compress: seq<byte> -> Option<seq<byte>>, uncompress: seq<byte> -> Option<seq<byte>>)

  ghost predicate Lossless(codec: Codec) {
    forall raw :: codec.compress(raw).Some? ==> codec.uncompress(codec.compress(raw).value) == Some(raw)
  }

  /** There is no compression library. */
  ghost predicate NoCodec(codec: Codec) {
    forall bs :: codec.compress(bs) == None && codec.uncompress(bs) == None
  }

  /** What is stored of a block, and under which type: compressed only if that saves an eighth. */
  function Packed(codec: Codec, snappy: bool, raw: seq<byte>): (seq<byte>, byte) {
    var c := if snappy then codec.compress(raw) else None;
    if c.Some? && |c.value| < |raw| - |raw| / 8 then (c.value, 1) else (raw, 0)
  }

  /** A block is stored compressed, as type 1, exactly if that saves more than an eighth of it, rounded down. */
  lemma PackedIff(codec: Codec, snappy: bool, raw: seq<byte>)
    ensures var (payload, kind) := Packed(codec, snappy, raw);
      var saves := snappy && codec.compress(raw).Some? && |raw| - |codec.compress(raw).value| > |raw| / 8;
      if saves then payload == codec.compress(raw).value && kind == 1 else payload == raw && kind == 0
  {
  }

  /** The payload, its type, and a checksum of both. */
  function Stored(payload: seq<byte>, kind: byte): (bs: seq<byte>)
    ensures |bs| == |payload| + TRAILER
  {
    payload + [kind] + EncodeFixed32(Crc32c.Mask(Crc32c.Value(payload + [kind])))
  }

  datatype Handle = Handle(offset: nat, size: nat)

  datatype ReadResult = Contents(data: seq<byte>) | Truncated | BadChecksum | BadCompression | BadType

  /** Reads the block that a handle points to. */
  function ReadBlock(file: seq<byte>, h: Handle, verify: bool, codec: Codec): ReadResult {
    if h.offset + h.size + TRAILER > |file| then Truncated
    else
      var bs := file[h.offset..h.offset + h.size + TRAILER];
      var n := h.size;
      if verify && Crc32c.Value(bs[..n + 1]) != Crc32c.Unmask(DecodeFixed32(bs[n + 1..])) then BadChecksum
      else if bs[n] == 0 then Contents(bs[..n])
      else if bs[n] == 1 then
        match codec.uncompress(bs[..n])
        case Some(raw) => Contents(raw)
        case None => BadCompression
      else BadType
  }

  /** A block stored at its handle reads back, compressed or not, with its checksum verified or not. */
  lemma {:induction false} StoredReads(
    file: seq<byte>, h: Handle, raw: seq<byte>, codec: Codec, snappy: bool, verify: bool)
    requires Lossless(codec)
    requires var (payload, kind) := Packed(codec, snappy, raw);
      h.size == |payload| && At(file, h.offset, Stored(payload, kind))
    ensures ReadBlock(file, h, verify, codec) == Contents(raw)
  {
    hide Crc32c.Value, Crc32c.Mask, Crc32c.Unmask, EncodeFixed32, DecodeFixed32;
    var (payload, kind) := Packed(codec, snappy, raw);
    var crc := Crc32c.Value(payload + [kind]);
    var bs := Stored(payload, kind);
    assert file[h.offset..h.offset + h.size + TRAILER] == bs;
    StoredParts(payload, kind);
    DecodeEncodeFixed32(Crc32c.Mask(crc));
    Crc32c.UnmaskMask(crc);
  }

  lemma StoredParts(payload: seq<byte>, kind: byte)
    ensures var bs, n := Stored(payload, kind), |payload|;
      && bs[..n] == payload && bs[n] == kind && bs[..n + 1] == payload + [kind]
      && bs[n + 1..] == EncodeFixed32(Crc32c.Mask(Crc32c.Value(payload + [kind])))
  {
    hide Crc32c.Value, Crc32c.Mask, EncodeFixed32;
  }

  /** What a payload stands for. */
  function Unpacked(codec: Codec, payload: seq<byte>, kind: byte): Option<seq<byte>> {
    if kind == 0 then Some(payload) else if kind == 1 then codec.uncompress(payload) else None
  }

  /** The file holds this payload at the handle, with its type and their checksum, and it stands for the data. */
  ghost predicate HoldsAt(
    file: seq<byte>, h: Handle, codec: Codec, data: seq<byte>, payload: seq<byte>, kind: byte)
  {
    |payload| == h.size && At(file, h.offset, Stored(payload, kind)) && Unpacked(codec, payload, kind) == Some(data)
  }

  /** A verified read returns contents exactly if these were stored at the handle, and are undamaged. */
  lemma {:induction false} VerifiedReadIff(file: seq<byte>, h: Handle, codec: Codec, data: seq<byte>)
    ensures ReadBlock(file, h, true, codec) == Contents(data) <==>
      exists payload, kind :: HoldsAt(file, h, codec, data, payload, kind)
  {
    hide Crc32c.Value, Crc32c.Mask, Crc32c.Unmask, EncodeFixed32, DecodeFixed32;
    if ReadBlock(file, h, true, codec) == Contents(data) {
      var bs := file[h.offset..h.offset + h.size + TRAILER];
      var payload, kind := bs[..h.size], bs[h.size];
      assert bs[..h.size + 1] == payload + [kind];
      Crc32c.MaskUnmask(DecodeFixed32(bs[h.size + 1..]));
      EncodeDecodeFixed32(bs[h.size + 1..]);
      assert bs == Stored(payload, kind);
      assert HoldsAt(file, h, codec, data, payload, kind);
    }
    if payload, kind :| HoldsAt(file, h, codec, data, payload, kind) {
      var bs := Stored(payload, kind);
      assert file[h.offset..h.offset + h.size + TRAILER] == bs;
      StoredParts(payload, kind);
      DecodeEncodeFixed32(Crc32c.Mask(Crc32c.Value(payload + [kind])));
      Crc32c.UnmaskMask(Crc32c.Value(payload + [kind]));
    }
  }

  // ----- Handles and the footer -----

  function EncodeHandle(h: Handle): seq<byte> { Varint(h.offset) + Varint(h.size) }

  /** The handle at p, and the position after it. */
  function DecodeHandle(bs: seq<byte>, p: nat): Option<(Handle, nat)> {
    match GetVarint64(bs, p, |bs|)
    case None => None
    case Some((offset, q)) =>
      match GetVarint64(bs, q, |bs|)
      case None => None
      case Some((size, r)) => Some((Handle(offset, size), r))
  }

  predicate Expressible(h: Handle) { h.offset < TWO64 && h.size < TWO64 }

  lemma {:induction false} HandleReads(bs: seq<byte>, p: nat, h: Handle)
    requires Expressible(h) && At(bs, p, EncodeHandle(h))
    ensures DecodeHandle(bs, p) == Some((h, p + |EncodeHandle(h)|))
  {
    hide Varint, GetVarint64, At;
    AtSplit(bs, p, Varint(h.offset), Varint(h.size));
    AtFits(bs, p, Varint(h.offset));
    AtFits(bs, p + |Varint(h.offset)|, Varint(h.size));
    Varint64RoundTrip(bs, p, |bs|, h.offset);
    Varint64RoundTrip(bs, p + |Varint(h.offset)|, |bs|, h.size);
  }

  lemma {:induction false} VarintLength(v: nat, k: nat)
    requires v < Pow128(k) && k > 0
    ensures |Varint(v)| <= k
  {
    if v >= 128 {
      VarintLength(v / 128, k - 1);
    }
  }

  lemma HandleLength(h: Handle)
    requires Expressible(h)
    ensures |EncodeHandle(h)| <= 20
  {
    hide Varint;
    assert Pow128(10) == 0x40_0000_0000_0000_0000 by {
      assert Pow128(3) == 0x20_0000;
      assert Pow128(6) == 0x400_0000_0000;
      assert Pow128(9) == 0x8000_0000_0000_0000;
    }
    VarintLength(h.offset, 10);
    VarintLength(h.size, 10);
  }

  const FOOTER: nat := 48
  const MAGIC: nat := 0xdb4775248b80fb57

  /** Two handles, padded to forty bytes, and the magic number. */
  function EncodeFooter(metaindex: Handle, index: Handle): (bs: seq<byte>)
    ensures |bs| == FOOTER
  {
    var hs := EncodeHandle(metaindex) + EncodeHandle(index);
    (if |hs| < 40 then hs + LogFormat.Zeroes(40 - |hs|) else hs[..40])
    + Fixed(MAGIC % TWO32, 4) + Fixed(MAGIC / TWO32, 4)
  }

  /** The two handles of a footer, or None if its magic number is wrong or a handle does not decode. */
  function DecodeFooter(bs: seq<byte>): Option<(Handle, Handle)>
    requires |bs| == FOOTER
  {
    if Unfixed(bs[40..44]) + TWO32 * Unfixed(bs[44..48]) != MAGIC then None
    else
      match DecodeHandle(bs, 0)
      case None => None
      case Some((metaindex, p)) =>
        match DecodeHandle(bs, p)
        case None => None
        case Some((index, _)) => Some((metaindex, index))
  }

  lemma {:induction false} FooterReads(metaindex: Handle, index: Handle)
    requires Expressible(metaindex) && Expressible(index)
    ensures DecodeFooter(EncodeFooter(metaindex, index)) == Some((metaindex, index))
  {
    hide EncodeHandle, DecodeHandle, Fixed, Unfixed;
    HandleLength(metaindex);
    HandleLength(index);
    var a, b := EncodeHandle(metaindex), EncodeHandle(index);
    var pad := LogFormat.Zeroes(40 - |a + b|);
    var bs := EncodeFooter(metaindex, index);
    var lo, hi := Fixed(MAGIC % TWO32, 4), Fixed(MAGIC / TWO32, 4);
    assert bs == a + b + pad + lo + hi by {
      Padded(a + b, pad);
    }
    Pow256Values();
    FixedRoundTrip(MAGIC % TWO32, 4);
    FixedRoundTrip(MAGIC / TWO32, 4);
    FooterParts(a, b, pad, lo, hi);
    HandleReads(bs, 0, metaindex);
    HandleReads(bs, |a|, index);
  }

  /** The last eight bytes of every table. */
  lemma MagicBytes(metaindex: Handle, index: Handle)
    ensures EncodeFooter(metaindex, index)[40..] == [0x57, 0xfb, 0x80, 0x8b, 0x24, 0x75, 0x47, 0xdb]
  {
    hide EncodeHandle, Fixed;
    assert MAGIC % TWO32 == 0x8b80fb57 && MAGIC / TWO32 == 0xdb477524;
    FourBytes(0x8b80fb57);
    FourBytes(0xdb477524);
  }

  /** A footer starts with the handle of the metaindex and then that of the index, each offset before size. */
  lemma FooterBytes(metaindex: Handle, index: Handle)
    requires metaindex.offset < 128 && metaindex.size < 128 && index.offset < 128 && index.size < 128
    ensures EncodeFooter(metaindex, index)[..40]
      == [metaindex.offset as byte, metaindex.size as byte, index.offset as byte, index.size as byte]
      + seq(36, i => 0)
  {
    VarintLast(metaindex.offset);
    VarintLast(metaindex.size);
    VarintLast(index.offset);
    VarintLast(index.size);
    hide Fixed, Varint;
  }

  lemma FourBytes(v: nat)
    ensures Fixed(v, 4) == [
      (v % 256) as byte, (v / 256 % 256) as byte, (v / 256 / 256 % 256) as byte, (v / 256 / 256 / 256 % 256) as byte
    ]
  {
    var a, b, c := v / 256, v / 256 / 256, v / 256 / 256 / 256;
    assert Fixed(v, 4) == [(v % 256) as byte] + Fixed(a, 3);
    assert Fixed(a, 3) == [(a % 256) as byte] + Fixed(b, 2);
    assert Fixed(b, 2) == [(b % 256) as byte] + Fixed(c, 1);
    assert Fixed(c, 1) == [(c % 256) as byte] + Fixed(c / 256, 0);
  }

  lemma Padded(hs: seq<byte>, pad: seq<byte>)
    requires |hs| <= 40 && pad == LogFormat.Zeroes(40 - |hs|)
    ensures (if |hs| < 40 then hs + LogFormat.Zeroes(40 - |hs|) else hs[..40]) == hs + pad
  {
  }

  lemma FooterParts(a: seq<byte>, b: seq<byte>, pad: seq<byte>, lo: seq<byte>, hi: seq<byte>)
    requires |a + b + pad| == 40 && |lo| == |hi| == 4
    ensures var bs := a + b + pad + lo + hi;
      At(bs, 0, a) && At(bs, |a|, b) && bs[40..44] == lo && bs[44..48] == hi
  {
  }

  // ----- The entries of a block -----

  /** The entries from p on, each key rebuilt from the one before it. */
  function EntriesFrom(data: seq<byte>, p: nat, limit: nat, k: seq<byte>): seq<Pair>
    requires limit <= |data|
    decreases limit - p
  {
    if p >= limit then []
    else
      match DecodeEntry(data, p, limit)
      case None => []
      case Some(e) =>
        var from := e.p + e.nonShared;
        var to := from + e.valueLength;
        if |k| < e.shared || to <= p || to > limit then []
        else
          var key := k[..e.shared] + data[e.p..from];
          [(key, data[from..to])] + EntriesFrom(data, to, limit, key)
  }

  /** What the iterator over a block walks along. */
  function Entries(data: seq<byte>): seq<Pair> {
    match Open(data)
    case Readable(restarts, _) => if restarts <= |data| then EntriesFrom(data, 0, restarts, []) else []
    case _ => []
  }

  lemma {:induction false} EntriesFromAre(l: Layout, data: seq<byte>, restarts: nat, i: nat, k: seq<byte>)
    requires Block(l, data, restarts) && i <= |l.entries|
    requires i < |l.entries| ==>
      l.shared[i] <= |k| && l.shared[i] <= |l.entries[i].0| && k[..l.shared[i]] == l.entries[i].0[..l.shared[i]]
    ensures EntriesFrom(data, l.starts[i], restarts, k) == l.entries[i..]
    decreases |l.entries| - i
  {
    hide DecodeEntry, EntryAt, Headed;
    if i < |l.entries| {
      ParsesEntry(l, data, restarts, i, k);
      NextShares(l, data, restarts, i);
      EntriesFromAre(l, data, restarts, i + 1, l.entries[i].0);
      EntryEnds(l, data, restarts, i);
      assert l.entries[i..] == [l.entries[i]] + l.entries[i + 1..];
    }
  }

  lemma NextShares(l: Layout, data: seq<byte>, restarts: nat, i: nat)
    requires LaidOut(l, data, restarts) && i < |l.entries|
    ensures i + 1 < |l.entries| ==>
      var k := l.entries[i].0;
      && l.shared[i + 1] <= |k| && l.shared[i + 1] <= |l.entries[i + 1].0|
      && k[..l.shared[i + 1]] == l.entries[i + 1].0[..l.shared[i + 1]]
  {
    hide EntryBytes, At;
    if i + 1 < |l.entries| {
      assert EntryAt(l, data, i + 1);
    }
  }

  lemma EntryEnds(l: Layout, data: seq<byte>, restarts: nat, i: nat)
    requires LaidOut(l, data, restarts) && i < |l.entries|
    ensures l.starts[i] < l.starts[i + 1] <= restarts
  {
    hide EntryAt;
    StartsAscend(l, data, restarts, i, i + 1);
    if i + 1 < |l.entries| {
      StartsAscend(l, data, restarts, i + 1, |l.entries|);
    }
  }

  /** Decoding a block that was built gives the pairs that were added to it. */
  lemma {:induction false} EntriesAre(l: Layout, data: seq<byte>, restarts: nat, n: nat)
    requires Open(data) == Readable(restarts, n) && Block(l, data, restarts)
    ensures Entries(data) == l.entries
  {
    hide Open, EntryAt, EntriesFrom;
    FirstShares(l, data, restarts);
    EntriesFromAre(l, data, restarts, 0, []);
  }

  lemma FirstShares(l: Layout, data: seq<byte>, restarts: nat)
    requires LaidOut(l, data, restarts)
    ensures l.entries != [] ==> l.shared[0] == 0
  {
    hide EntryBytes, At;
    if l.entries != [] {
      assert EntryAt(l, data, 0);
    }
  }

  // ----- Opening a table -----

  /** The contents of the index block of a table of the given size. */
  function OpenTable(file: seq<byte>, size: nat, verify: bool, codec: Codec): Option<seq<byte>> {
    if size < FOOTER || size > |file| then None
    else
      match DecodeFooter(file[size - FOOTER..size])
      case None => None
      case Some((_, index)) =>
        match ReadBlock(file, index, verify, codec)
        case Contents(data) => Some(data)
        case _ => None
  }

  /** The entries of the block whose encoded handle an index entry holds; an unreadable one shows none. */
  function BlockReader(file: seq<byte>, verify: bool, codec: Codec): seq<byte> -> seq<Pair> {
    (value: seq<byte>) =>
      match DecodeHandle(value, 0)
      case None => []
      case Some((h, _)) =>
        match ReadBlock(file, h, verify, codec)
        case Contents(data) => Entries(data)
        case _ => []
  }

  /** Only what ends in the magic number is opened. */
  lemma OpensMagic(file: seq<byte>, size: nat, verify: bool, codec: Codec)
    requires OpenTable(file, size, verify, codec).Some?
    ensures 48 <= size <= |file| && file[size - 8..size] == [0x57, 0xfb, 0x80, 0x8b, 0x24, 0x75, 0x47, 0xdb]
  {
    hide ReadBlock, DecodeHandle, Unfixed;
    var bs := file[size - 48..size];
    var lo, hi := Unfixed(bs[40..44]), Unfixed(bs[44..48]);
    UnfixedRoundTrip(bs[40..44]);
    UnfixedRoundTrip(bs[44..48]);
    Pow256Values();
    assert lo == 0x8b80fb57 && hi == 0xdb477524 by {
      assert lo + TWO32 * hi == MAGIC;
    }
    FourBytes(lo);
    FourBytes(hi);
    assert file[size - 8..size] == bs[40..44] + bs[44..48];
  }
}
