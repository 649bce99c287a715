/** The bytes of a prefix-compressed block (blockbuilder.cc, block.cc). */
module BlockFormat {
  import opened Lists
  import opened Ordering
  import opened Bytes
  import opened Coding

  type Pair = (seq<byte>, seq<byte>)

  /** An entry: three lengths, the part of the key not shared with the key before, the value. */
  function EntryBytes(shared: nat, key: seq<byte>, value: seq<byte>): seq<byte>
    requires shared <= |key|
  {
    Varint(shared % TWO32) + Varint((|key| - shared) % TWO32) + Varint(|value| % TWO32) + key[shared..] + value
  }

  /** Where the entries start, and which of them are restart points. */
  datatype Layout = Layout(entries: seq<Pair>, starts: seq<nat>, shared: seq<nat>, heads: seq<nat>)

  ghost predicate Shaped(l: Layout) {
    && |l.starts| == |l.entries| + 1 && |l.shared| == |l.entries| && l.starts[0] == 0
  }

  /** Entry i is in the data, with a length of shared prefix that the key before it can supply. */
  ghost predicate EntryAt(l: Layout, data: seq<byte>, i: nat)
    requires Shaped(l) && i < |l.entries|
  {
    var (key, value) := l.entries[i];
    var shared := l.shared[i];
    && shared <= |key|
    && (shared > 0 ==> i > 0 && shared <= |l.entries[i - 1].0| && l.entries[i - 1].0[..shared] == key[..shared])
    && At(data, l.starts[i], EntryBytes(shared, key, value))
    && l.starts[i + 1] == l.starts[i] + |EntryBytes(shared, key, value)|
  }

  /** The first `end` bytes of the data are the entries, one after the other. */
  ghost predicate LaidOut(l: Layout, data: seq<byte>, end: nat) {
    && Shaped(l) && l.starts[|l.entries|] == end <= |data|
    && forall i :: 0 <= i < |l.entries| ==> EntryAt(l, data, i)
  }

  /** The restart points: the first entry and others that share nothing. */
  ghost predicate Headed(l: Layout)
    requires Shaped(l)
  {
    && |l.heads| > 0 && l.heads[0] == 0
    && (forall r, s :: 0 <= r < s < |l.heads| ==> l.heads[r] < l.heads[s])
    && (forall r :: 0 <= r < |l.heads| ==> r == 0 || l.heads[r] < |l.entries|)
    && (forall r :: 0 <= r < |l.heads| && l.heads[r] < |l.entries| ==> l.shared[l.heads[r]] == 0)
  }

  /** The restart array: four bytes for each restart point, then their number. */
  function RestartBytes(restarts: seq<nat>): (bs: seq<byte>)
    ensures |bs| == 4 * |restarts|
  {
    if restarts == [] then [] else RestartBytes(restarts[..|restarts| - 1]) + Fixed(restarts[|restarts| - 1] % TWO32, 4)
  }

  function Finished(buffer: seq<byte>, restarts: seq<nat>): seq<byte> {
    buffer + RestartBytes(restarts) + Fixed(|restarts| % TWO32, 4)
  }

  lemma {:induction false} StartsAscend(l: Layout, data: seq<byte>, end: nat, i: nat, j: nat)
    requires LaidOut(l, data, end) && i < j <= |l.entries|
    ensures l.starts[i] + 3 <= l.starts[j]
    decreases j
  {
    hide EntryBytes, At, Varint;
    EntryLength(l, data, j - 1);
    if i < j - 1 {
      StartsAscend(l, data, end, i, j - 1);
    }
  }

  lemma EntryLength(l: Layout, data: seq<byte>, i: nat)
    requires Shaped(l) && i < |l.entries| && EntryAt(l, data, i)
    ensures l.starts[i] + 3 <= l.starts[i + 1]
  {
  }

  // ----- Decoding -----

  datatype Parsed = Parsed(shared: nat, nonShared: nat, valueLength: nat, p: nat)

  /** Three varints. */
  function ReadHeader(data: seq<byte>, p: nat, limit: nat): Option<Parsed>
    requires limit <= |data|
  {
    match GetVarint32(data, p, limit)
    case None => None
    case Some((shared, p1)) =>
      match GetVarint32(data, p1, limit)
      case None => None
      case Some((nonShared, p2)) =>
        match GetVarint32(data, p2, limit)
        case None => None
        case Some((valueLength, p3)) => Some(Parsed(shared, nonShared, valueLength, p3))
  }

  /** The same, with the short cut when each length takes one byte. */
  function FastHeader(data: seq<byte>, p: nat, limit: nat): Option<Parsed>
    requires p + 3 <= limit <= |data|
  {
    if data[p] < 128 && data[p + 1] < 128 && data[p + 2] < 128 then
      Some(Parsed(data[p] as nat, data[p + 1] as nat, data[p + 2] as nat, p + 3))
    else ReadHeader(data, p, limit)
  }

  lemma FastIsSlow(data: seq<byte>, p: nat, limit: nat)
    requires p + 3 <= limit <= |data|
    ensures FastHeader(data, p, limit) == ReadHeader(data, p, limit)
  {
  }

  /** The lengths of the entry at p and the position of its key bytes, or None if it cannot fit. */
  function DecodeEntry(data: seq<byte>, p: nat, limit: nat): Option<Parsed>
    requires p <= limit <= |data|
  {
    if limit - p < 3 then None
    else
      match FastHeader(data, p, limit)
      case None => None
      case Some(e) => if (limit - e.p) % TWO32 < (e.nonShared + e.valueLength) % TWO32 then None else Some(e)
  }

  /**
   * An entry that is decoded ends inside the block if and only if its two lengths, which are added in 32 bits, stay
   * below 4 GiB together.
   */
  lemma DecodedFitsIff(data: seq<byte>, p: nat, limit: nat)
    requires p <= limit <= |data| && limit < 0x1_0000_0000 && DecodeEntry(data, p, limit).Some?
    ensures var e := DecodeEntry(data, p, limit).value;
      e.p <= limit && (e.p + e.nonShared + e.valueLength <= limit <==> e.nonShared + e.valueLength < 0x1_0000_0000)
  {
    FastIsSlow(data, p, limit);
    HeaderFits(data, p, limit);
    hide FastHeader, ReadHeader;
  }

  lemma HeaderFits(data: seq<byte>, p: nat, limit: nat)
    requires limit <= |data| && ReadHeader(data, p, limit).Some?
    ensures var e := ReadHeader(data, p, limit).value;
      p < e.p <= limit && e.shared < TWO32 && e.nonShared < TWO32 && e.valueLength < TWO32
  {
    hide ReadVarint;
  }

  function Header(shared: nat, key: seq<byte>, value: seq<byte>): nat
    requires shared <= |key|
  {
    |Varint(shared % TWO32)| + |Varint((|key| - shared) % TWO32)| + |Varint(|value| % TWO32)|
  }

  lemma Parts(data: seq<byte>, p: nat, a: seq<byte>, b: seq<byte>, c: seq<byte>, d: seq<byte>, e: seq<byte>)
    requires At(data, p, a + b + c + d + e)
    ensures At(data, p, a) && At(data, p + |a|, b) && At(data, p + |a| + |b|, c)
    ensures At(data, p + |a| + |b| + |c|, d) && At(data, p + |a| + |b| + |c| + |d|, e)
  {
    hide At;
    AtSplit(data, p, a + b + c + d, e);
    AtSplit(data, p, a + b + c, d);
    AtSplit(data, p, a + b, c);
    AtSplit(data, p, a, b);
  }

  /** Decoding an entry that was written gives back its lengths, and its key and value bytes follow. */
  lemma {:induction false} DecodeWritten(data: seq<byte>, p: nat, limit: nat, shared: nat, key: seq<byte>,
      value: seq<byte>)
    requires shared <= |key| && At(data, p, EntryBytes(shared, key, value))
    requires p + |EntryBytes(shared, key, value)| <= limit <= |data| < TWO32
    requires shared < TWO32
    ensures var q := p + Header(shared, key, value);
      && DecodeEntry(data, p, limit) == Some(Parsed(shared, |key| - shared, |value|, q))
      && At(data, q, key[shared..]) && At(data, q + (|key| - shared), value)
      && q + (|key| - shared) + |value| == p + |EntryBytes(shared, key, value)|
  {
    hide Varint, ReadVarint, GetVarint32, FastHeader, ReadHeader, At;
    HeaderWritten(data, p, limit, shared, |key| - shared, |value|, key[shared..], value);
    FastIsSlow(data, p, limit);
    FitsIn(data, p + Header(shared, key, value), key[shared..], value);
  }

  lemma FitsIn(data: seq<byte>, p: nat, a: seq<byte>, b: seq<byte>)
    requires At(data, p, a) && At(data, p + |a|, b)
    ensures p + |a| + |b| <= |data|
  {
  }

  lemma HeaderWritten(data: seq<byte>, p: nat, limit: nat, x: nat, y: nat, z: nat, d: seq<byte>, e: seq<byte>)
    requires x < TWO32 && y < TWO32 && z < TWO32
    requires At(data, p, Varint(x) + Varint(y) + Varint(z) + d + e)
    requires p + |Varint(x)| + |Varint(y)| + |Varint(z)| <= limit <= |data|
    ensures var q := p + |Varint(x)| + |Varint(y)| + |Varint(z)|;
      && ReadHeader(data, p, limit) == Some(Parsed(x, y, z, q))
      && At(data, q, d) && At(data, q + |d|, e)
  {
    hide Varint, GetVarint32, At;
    Parts(data, p, Varint(x), Varint(y), Varint(z), d, e);
    Varint32RoundTrip(data, p, limit, x);
    Varint32RoundTrip(data, p + |Varint(x)|, limit, y);
    Varint32RoundTrip(data, p + |Varint(x)| + |Varint(y)|, limit, z);
  }

  // ----- Short entries, byte by byte -----

  /** An entry of short strings: how much is shared, how much is not, the length of the value; then key and value. */
  lemma ShortEntry(shared: nat, key: seq<byte>, value: seq<byte>)
    requires shared <= |key| < 128 && |value| < 128
    ensures EntryBytes(shared, key, value) ==
      [shared as byte, (|key| - shared) as byte, |value| as byte] + key[shared..] + value
  {
    VarintLast(shared);
    VarintLast(|key| - shared);
    VarintLast(|value|);
    hide Varint;
  }

  /** An empty block: the offset of its one restart point, and their number. */
  lemma EmptyBlock()
    ensures Finished([], [0]) == [0, 0, 0, 0, 1, 0, 0, 0]
  {
    assert [0][..0] == [];
    assert RestartBytes([]) == [];
    assert RestartBytes([0]) == [0, 0, 0, 0];
    assert Fixed(1, 4) == [1, 0, 0, 0];
  }
}
