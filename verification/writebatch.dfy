/** A batch of writes as bytes (writebatch.cc). */
module WriteBatches {
  import opened Lists
  import opened Ordering
  import opened Bytes
  import opened Coding
  import opened Versions
  import opened MemTables

  datatype Write = Put(key: seq<byte>, value: seq<byte>) | Delete(key: seq<byte>)

  const HEADER: nat := 12

  function WriteBytes(w: Write): (bs: seq<byte>)
    ensures |bs| > 0
  {
    match w
    case Put(key, value) => [1] + LengthPrefixed(key) + LengthPrefixed(value)
    case Delete(key) => [0] + LengthPrefixed(key)
  }

  function BatchBytes(ws: seq<Write>): seq<byte> {
    if ws == [] then [] else WriteBytes(ws[0]) + BatchBytes(ws[1..])
  }

  /** Eight bytes of sequence, four of count, then the writes. */
  function Rep(sequence: nat, ws: seq<Write>): (bs: seq<byte>)
    ensures |bs| >= HEADER
  {
    Fixed(sequence, 8) + Fixed(|ws|, 4) + BatchBytes(ws)
  }

  predicate Short(w: Write) {
    |w.key| + 8 < TWO32 && (w.Put? ==> |w.value| < TWO32)
  }

  function SequenceOf(rep: seq<byte>): nat
    requires |rep| >= HEADER
  {
    Unfixed(rep[..8])
  }

  /** The count as a signed 32-bit number. */
  function CountOf(rep: seq<byte>): int
    requires |rep| >= HEADER
  {
    var n := Unfixed(rep[8..12]);
    if n < 0x8000_0000 then n else n - TWO32
  }

  lemma {:induction false} BatchBytesAppend(ws: seq<Write>, more: seq<Write>)
    ensures BatchBytes(ws + more) == BatchBytes(ws) + BatchBytes(more)
  {
    hide WriteBytes;
    if ws == [] {
      assert ws + more == more;
    } else {
      BatchBytesAppend(ws[1..], more);
      assert (ws + more)[1..] == ws[1..] + more;
    }
  }

  lemma HeaderOf(sequence: nat, ws: seq<Write>)
    requires sequence < TWO64 && |ws| < 0x8000_0000
    ensures SequenceOf(Rep(sequence, ws)) == sequence && CountOf(Rep(sequence, ws)) == |ws|
  {
    hide Fixed, Unfixed, BatchBytes;
    var rep := Rep(sequence, ws);
    assert rep[..8] == Fixed(sequence, 8) && rep[8..12] == Fixed(|ws|, 4);
    Pow256Values();
    FixedRoundTrip(sequence, 8);
    FixedRoundTrip(|ws|, 4);
  }

  /** Replacing the header keeps the writes. */
  lemma SetHeader(rep: seq<byte>, sequence: nat, ws: seq<Write>, sequence': nat, more: seq<Write>)
    requires rep == Rep(sequence, ws)
    ensures Fixed(sequence', 8) + rep[8..] == Rep(sequence', ws)
    ensures rep[..8] + Fixed(|ws + more|, 4) + rep[12..] + BatchBytes(more) == Rep(sequence, ws + more)
    ensures rep[12..] == BatchBytes(ws)
  {
    hide Fixed, BatchBytes;
    BatchBytesAppend(ws, more);
    assert rep[..8] == Fixed(sequence, 8);
    assert rep[12..] == BatchBytes(ws);
    assert rep[8..] == Fixed(|ws|, 4) + BatchBytes(ws);
  }

  /** The batch; `writes` and `sequence` are what its bytes stand for. */
  class WriteBatch {
    var rep: seq<byte>
    ghost var sequence: nat
    ghost var writes: seq<Write>

    ghost predicate Valid()
      reads this
    {
      rep == Rep(sequence, writes) && sequence < TWO64 && |writes| < 0x8000_0000
    }

    constructor ()
      ensures Valid() && writes == [] && sequence == 0
    {
      rep := seq(HEADER, _ => 0 as byte);
      sequence, writes := 0, [];
      new;
      assert rep == Rep(0, []) by {
        ZeroHeader();
      }
    }

    method SetCount(n: nat)
      requires |rep| >= HEADER
      modifies `rep
      ensures rep == old(rep[..8]) + Fixed(n, 4) + old(rep[12..])
    {
      rep := rep[..8] + Fixed(n, 4) + rep[12..];
    }

    method Put(key: seq<byte>, value: seq<byte>)
      requires Valid() && |writes| + 1 < 0x8000_0000
      modifies this
      ensures Valid() && writes == old(writes) + [Write.Put(key, value)] && sequence == old(sequence)
    {
      hide Rep, CountOf, Fixed, LengthPrefixed, BatchBytes;
      HeaderOf(sequence, writes);
      SetHeader(rep, sequence, writes, 0, [Write.Put(key, value)]);
      var count := CountOf(rep) + 1;
      SetCount(count);
      PutBytes(rep, key, value);
      rep := rep + [1];
      rep := rep + LengthPrefixed(key);
      rep := rep + LengthPrefixed(value);
      writes := writes + [Write.Put(key, value)];
    }

    method Delete(key: seq<byte>)
      requires Valid() && |writes| + 1 < 0x8000_0000
      modifies this
      ensures Valid() && writes == old(writes) + [Write.Delete(key)] && sequence == old(sequence)
    {
      hide Rep, CountOf, Fixed, LengthPrefixed, BatchBytes;
      HeaderOf(sequence, writes);
      SetHeader(rep, sequence, writes, 0, [Write.Delete(key)]);
      var count := CountOf(rep) + 1;
      SetCount(count);
      DeleteBytes(rep, key);
      rep := rep + [0];
      rep := rep + LengthPrefixed(key);
      writes := writes + [Write.Delete(key)];
    }

    method SetSequence(s: nat)
      requires Valid() && s < TWO64
      modifies this
      ensures Valid() && writes == old(writes) && sequence == s
    {
      hide Rep, Fixed;
      RepLength(sequence, writes);
      SetHeader(rep, sequence, writes, s, []);
      rep := Fixed(s, 8) + rep[8..];
      sequence := s;
    }

    /** Append the writes of another batch, as a group's leader does. */
    method Append(src: WriteBatch)
      requires Valid() && src.Valid() && |writes| + |src.writes| < 0x8000_0000
      modifies this
      ensures Valid() && writes == old(writes) + old(src.writes) && sequence == old(sequence)
    {
      hide Rep, CountOf, Fixed, BatchBytes;
      RepLength(src.sequence, src.writes);
      HeaderOf(sequence, writes);
      HeaderOf(src.sequence, src.writes);
      SetHeader(rep, sequence, writes, 0, src.writes);
      SetHeader(src.rep, src.sequence, src.writes, 0, []);
      var tail := src.rep[HEADER..];
      var count := CountOf(rep) + CountOf(src.rep);
      ghost var ws := src.writes;
      SetCount(count);
      rep := rep + tail;
      writes := writes + ws;
    }
  }

  lemma RepLength(sequence: nat, ws: seq<Write>)
    ensures |Rep(sequence, ws)| >= HEADER
  {
  }

  lemma {:induction false} ZeroFixed(k: nat)
    ensures Fixed(0, k) == seq(k, _ => 0 as byte)
  {
    if k > 0 {
      ZeroFixed(k - 1);
    }
  }

  lemma ZeroHeader()
    ensures Rep(0, []) == seq(HEADER, _ => 0 as byte)
  {
    hide Fixed;
    ZeroFixed(8);
    ZeroFixed(4);
  }

  lemma OneWrite(w: Write)
    ensures BatchBytes([w]) == WriteBytes(w)
  {
    assert BatchBytes([w]) == WriteBytes(w) + BatchBytes([w][1..]);
  }

  lemma PutBytes(base: seq<byte>, key: seq<byte>, value: seq<byte>)
    ensures base + [1] + LengthPrefixed(key) + LengthPrefixed(value) == base + BatchBytes([Put(key, value)])
  {
    hide LengthPrefixed;
    OneWrite(Put(key, value));
  }

  lemma DeleteBytes(base: seq<byte>, key: seq<byte>)
    ensures base + [0] + LengthPrefixed(key) == base + BatchBytes([Delete(key)])
  {
    hide LengthPrefixed;
    OneWrite(Delete(key));
  }

  // ----- Reading a batch -----

  /** What reading the writes from position p on gives: those before the first malformed one. */
  datatype Parsed = Parsed(ok: bool, writes: seq<Write>)

  function ReadWrite(rep: seq<byte>, p: nat): (r: Option<(Write, nat)>)
    requires p < |rep|
    ensures r.Some? ==> p < r.value.1 <= |rep|
  {
    if rep[p] == 1 then
      match GetLengthPrefixed(rep, p + 1, |rep|)
      case None => None
      case Some((key, q)) =>
        match GetLengthPrefixed(rep, q, |rep|)
        case None => None
        case Some((value, q2)) => Some((Put(key, value), q2))
    else if rep[p] == 0 then
      match GetLengthPrefixed(rep, p + 1, |rep|)
      case None => None
      case Some((key, q)) => Some((Delete(key), q))
    else None
  }

  function ReadWrites(rep: seq<byte>, p: nat): Parsed
    requires p <= |rep|
    decreases |rep| - p
  {
    if p == |rep| then Parsed(true, [])
    else
      match ReadWrite(rep, p)
      case None => Parsed(false, [])
      case Some((w, q)) => var rest := ReadWrites(rep, q); Parsed(rest.ok, [w] + rest.writes)
  }

  /** The row that a write becomes in the memory table. */
  function RowOf(sequence: nat, w: Write): Row {
    match w
    case Put(key, value) => (InternalKey(key, sequence, Value), value)
    case Delete(key) => (InternalKey(key, sequence, Deletion), [])
  }

  /** The rows of a batch: consecutive sequence numbers from the batch's own. */
  function Rows(sequence: nat, ws: seq<Write>): (rows: seq<Row>)
    ensures |rows| == |ws|
  {
    seq(|ws|, i requires 0 <= i < |ws| => RowOf(sequence + i, ws[i]))
  }

  /** Insert a batch into a memory table; on a malformed batch, the rows before the fault stay in. */
  method Iterate(rep: seq<byte>, sequence: nat, mem: seq<Row>) returns (ok: bool, mem': seq<Row>)
    requires |rep| >= HEADER
    ensures mem' == mem + Rows(sequence, ReadWrites(rep, HEADER).writes)
    ensures ok <==> ReadWrites(rep, HEADER).ok && |ReadWrites(rep, HEADER).writes| == CountOf(rep)
  {
    hide ReadWrite, ReadWrites, CountOf, RowOf, Rows;
    var p, found, s := HEADER, 0, sequence;
    ghost var ws: seq<Write> := [];
    mem' := mem;
    NoRows(mem, sequence);
    while p < |rep|
      invariant HEADER <= p <= |rep| && found == |ws| && s == sequence + |ws|
      invariant mem' == mem + Rows(sequence, ws)
      invariant ReadWrites(rep, HEADER) == After(ws, ReadWrites(rep, p))
      decreases |rep| - p
    {
      found := found + 1;
      var r := ReadWrite(rep, p);
      ReadsStep(rep, p, ws);
      if r.None? {
        return false, mem';
      }
      var (w, q) := r.value;
      mem' := mem' + [RowOf(s, w)];
      RowsNext(mem, sequence, ws, w);
      ws := ws + [w];
      s, p := s + 1, q;
    }
    ReadsEnd(rep, ws);
    ok := found == CountOf(rep);
  }

  function After(ws: seq<Write>, rest: Parsed): Parsed { Parsed(rest.ok, ws + rest.writes) }

  lemma NoRows(mem: seq<Row>, sequence: nat)
    ensures mem + Rows(sequence, []) == mem
  {
  }

  lemma ReadsEnd(rep: seq<byte>, ws: seq<Write>)
    ensures After(ws, ReadWrites(rep, |rep|)) == Parsed(true, ws)
  {
  }

  lemma ReadsStep(rep: seq<byte>, p: nat, ws: seq<Write>)
    requires p < |rep|
    ensures After(ws, ReadWrites(rep, p)) ==
      match ReadWrite(rep, p)
      case None => Parsed(false, ws)
      case Some((w, q)) => After(ws + [w], ReadWrites(rep, q))
  {
    hide ReadWrite;
    if ReadWrite(rep, p).Some? {
      var (w, q) := ReadWrite(rep, p).value;
      assert ws + ([w] + ReadWrites(rep, q).writes) == ws + [w] + ReadWrites(rep, q).writes;
    }
  }

  lemma RowsNext(mem: seq<Row>, sequence: nat, ws: seq<Write>, w: Write)
    ensures mem + Rows(sequence, ws) + [RowOf(sequence + |ws|, w)] == mem + Rows(sequence, ws + [w])
  {
  }

  lemma ReadWriteIs(rep: seq<byte>, p: nat, w: Write)
    requires Short(w) && At(rep, p, WriteBytes(w))
    ensures ReadWrite(rep, p) == Some((w, p + |WriteBytes(w)|))
  {
    hide LengthPrefixed, GetLengthPrefixed, At, ReadWrite;
    match w
    case Put(key, value) =>
      AtSplit(rep, p, [1] + LengthPrefixed(key), LengthPrefixed(value));
      AtSplit(rep, p, [1], LengthPrefixed(key));
      ReadPutIs(rep, p, key, value);
    case Delete(key) =>
      AtSplit(rep, p, [0], LengthPrefixed(key));
      ReadDeleteIs(rep, p, key);
  }

  lemma ReadPutIs(rep: seq<byte>, p: nat, key: seq<byte>, value: seq<byte>)
    requires |key| < TWO32 && |value| < TWO32 && At(rep, p, [1]) && At(rep, p + 1, LengthPrefixed(key))
    requires At(rep, p + 1 + |LengthPrefixed(key)|, LengthPrefixed(value))
    ensures p < |rep| && ReadWrite(rep, p) ==
      Some((Put(key, value), p + 1 + |LengthPrefixed(key)| + |LengthPrefixed(value)|))
  {
    hide LengthPrefixed, GetLengthPrefixed, At;
    AtIndex(rep, p, [1], 0);
    AtFits(rep, p + 1, LengthPrefixed(key));
    AtFits(rep, p + 1 + |LengthPrefixed(key)|, LengthPrefixed(value));
    LengthPrefixedRoundTrip(rep, p + 1, |rep|, key);
    LengthPrefixedRoundTrip(rep, p + 1 + |LengthPrefixed(key)|, |rep|, value);
  }

  lemma ReadDeleteIs(rep: seq<byte>, p: nat, key: seq<byte>)
    requires |key| < TWO32 && At(rep, p, [0]) && At(rep, p + 1, LengthPrefixed(key))
    ensures p < |rep| && ReadWrite(rep, p) == Some((Delete(key), p + 1 + |LengthPrefixed(key)|))
  {
    hide LengthPrefixed, GetLengthPrefixed, At;
    AtIndex(rep, p, [0], 0);
    AtFits(rep, p + 1, LengthPrefixed(key));
    LengthPrefixedRoundTrip(rep, p + 1, |rep|, key);
  }

  lemma {:induction false} ReadsWrites(rep: seq<byte>, p: nat, ws: seq<Write>)
    requires forall i :: 0 <= i < |ws| ==> Short(ws[i])
    requires At(rep, p, BatchBytes(ws)) && p + |BatchBytes(ws)| == |rep|
    ensures ReadWrites(rep, p) == Parsed(true, ws)
    decreases |ws|
  {
    hide WriteBytes, At, ReadWrite;
    if ws != [] {
      AtSplit(rep, p, WriteBytes(ws[0]), BatchBytes(ws[1..]));
      ReadWriteIs(rep, p, ws[0]);
      ReadsWrites(rep, p + |WriteBytes(ws[0])|, ws[1..]);
    }
  }

  /** Reading the bytes of a batch gives back its sequence, its count and exactly its writes. */
  lemma {:induction false} BatchRoundTrip(sequence: nat, ws: seq<Write>)
    requires sequence < TWO64 && |ws| < 0x8000_0000 && forall i :: 0 <= i < |ws| ==> Short(ws[i])
    ensures var rep := Rep(sequence, ws);
      SequenceOf(rep) == sequence && CountOf(rep) == |ws| && ReadWrites(rep, HEADER) == Parsed(true, ws)
  {
    hide BatchBytes, Fixed, Short, CountOf, SequenceOf, ReadWrites;
    HeaderOf(sequence, ws);
    var rep := Rep(sequence, ws);
    assert rep[12..|rep|] == BatchBytes(ws);
    ReadsWrites(rep, HEADER, ws);
  }

  /** Reading stops at a tag that is not one of the two; the writes before it have been read. */
  lemma {:induction false} UnknownTag(rep: seq<byte>, p: nat, ws: seq<Write>)
    requires forall i :: 0 <= i < |ws| ==> Short(ws[i])
    requires At(rep, p, BatchBytes(ws)) && p + |BatchBytes(ws)| < |rep| && rep[p + |BatchBytes(ws)|] > 1
    ensures ReadWrites(rep, p) == Parsed(false, ws)
    decreases |ws|
  {
    hide WriteBytes, At, ReadWrite;
    if ws != [] {
      AtSplit(rep, p, WriteBytes(ws[0]), BatchBytes(ws[1..]));
      ReadWriteIs(rep, p, ws[0]);
      UnknownTag(rep, p + |WriteBytes(ws[0])|, ws[1..]);
    } else {
      NoWrite(rep, p);
    }
  }

  lemma NoWrite(rep: seq<byte>, p: nat)
    requires p < |rep| && rep[p] > 1
    ensures ReadWrite(rep, p) == None
  {
  }

  // ----- Short writes, byte by byte -----

  lemma ShortWrite(key: seq<byte>, value: seq<byte>)
    requires |key| < 128 && |value| < 128
    ensures WriteBytes(Put(key, value)) == [1, |key| as byte] + key + [|value| as byte] + value
    ensures WriteBytes(Delete(key)) == [0, |key| as byte] + key
  {
    VarintLast(|key|);
    VarintLast(|value|);
    hide Varint;
  }

  /** A batch: the sequence in eight bytes and the count in four, low bytes first, and the writes. */
  lemma BatchHeader(sequence: nat, ws: seq<Write>, i: nat)
    requires i < 12
    ensures i < 8 ==> Pow256(i) > 0 && Rep(sequence, ws)[i] as nat == sequence / Pow256(i) % 256
    ensures i >= 8 ==> Pow256(i - 8) > 0 && Rep(sequence, ws)[i] as nat == |ws| / Pow256(i - 8) % 256
    ensures Rep(sequence, ws)[12..] == BatchBytes(ws)
  {
    if i < 8 {
      FixedDigit(sequence, 8, i);
    } else {
      FixedDigit(|ws|, 4, i - 8);
    }
    hide Fixed, BatchBytes;
  }
}
