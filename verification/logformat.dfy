/** The write-ahead log as bytes: what the writer emits and what the reader makes of any file. */
module LogFormat {
  import opened Ordering
  import opened Bytes
  import Crc32c

  const BLOCK: nat := 32768
  const HEADER: nat := 7

  // Record types, and the two results the reader adds to them.
  const ZERO: nat := 0
  const FULL: nat := 1
  const FIRST: nat := 2
  const MIDDLE: nat := 3
  const LAST: nat := 4
  const EOF: nat := 5
  const BAD: nat := 6

  // ----- Writing -----

  function Checksum(t: byte, data: seq<byte>): (bs: seq<byte>)
    ensures |bs| == 4
  {
    EncodeFixed32(Crc32c.Mask(Crc32c.Extend(Crc32c.Value([t]), data)))
  }

  function Physical(t: byte, data: seq<byte>): (bs: seq<byte>)
    requires |data| <= 0xffff
    ensures |bs| == HEADER + |data|
  {
    Checksum(t, data) + [(|data| % 256) as byte, (|data| / 256) as byte, t] + data
  }

  function Zeroes(n: nat): (bs: seq<byte>)
    ensures |bs| == n
  {
    seq(n, _ => 0 as byte)
  }

  /** The bytes left in the block of position pos. */
  function Leftover(pos: nat): (n: nat)
    ensures 0 < n <= BLOCK
  {
    BLOCK - pos % BLOCK
  }

  lemma BlockStarts(start: nat)
    requires start % BLOCK == 0
    ensures Leftover(start) == BLOCK
  {
  }

  lemma LeftoverEndsBlock(pos: nat)
    ensures (pos + Leftover(pos)) % BLOCK == 0
  {
  }

  lemma LeftoverAdd(pos: nat, n: nat)
    ensures n < Leftover(pos) ==> Leftover(pos + n) == Leftover(pos) - n
    ensures n == Leftover(pos) ==> Leftover(pos + n) == BLOCK
  {
  }

  /** Where the record written at pos starts: blocks with no room for a header are padded. */
  function Align(pos: nat): (a: nat)
    ensures pos <= a < pos + HEADER && Leftover(a) >= HEADER
  {
    if Leftover(pos) < HEADER then pos + Leftover(pos) else pos
  }

  /** How much of a record of n bytes fits at the aligned position a. */
  function Fit(a: nat, n: nat): (k: nat)
    requires Leftover(a) >= HEADER
    ensures k <= n && k <= 0xffff && HEADER + k <= Leftover(a)
    ensures k < n ==> HEADER + k == Leftover(a)
  {
    var avail := Leftover(a) - HEADER;
    if n < avail then n else avail
  }

  /** Bounds the turns left: a turn that fits no byte is followed by one that does. */
  function Turns(pos: nat, n: nat): nat { 2 * n + if Leftover(pos) == HEADER then 1 else 0 }

  lemma FitProgress(pos: nat, n: nat)
    ensures var a := Align(pos);
            var k := Fit(a, n);
            k < n ==> Turns(a + HEADER + k, n - k) < Turns(pos, n)
  {
    LeftoverAdd(pos, Leftover(pos));
  }

  function TypeOf(begin: bool, end: bool): (t: byte)
    ensures 1 <= t <= 4
  {
    if begin && end then 1 else if begin then 2 else if end then 4 else 3
  }

  /** The fragment the writer emits at position pos, with the trailer before it. */
  function Fragment(pos: nat, left: seq<byte>, begin: bool): (bs: seq<byte>)
    ensures pos + |bs| == Align(pos) + HEADER + Fit(Align(pos), |left|)
  {
    var a := Align(pos);
    var k := Fit(a, |left|);
    Zeroes(a - pos) + Physical(TypeOf(begin, k == |left|), left[..k])
  }

  /** Where the fragment of a record with n bytes left ends. */
  function FragmentEnd(pos: nat, n: nat): nat { Align(pos) + HEADER + Fit(Align(pos), n) }

  /** What the writer appends at position pos for the rest of a record. */
  function Emit(pos: nat, left: seq<byte>, begin: bool): (bs: seq<byte>)
    ensures |bs| >= HEADER + |left|
    decreases Turns(pos, |left|)
  {
    var k := Fit(Align(pos), |left|);
    FitProgress(pos, |left|);
    if k == |left| then Fragment(pos, left, begin)
    else Fragment(pos, left, begin) + Emit(FragmentEnd(pos, |left|), left[k..], false)
  }

  function EmitAll(pos: nat, records: seq<seq<byte>>): seq<byte>
    decreases |records|
  {
    if records == [] then []
    else
      var bs := Emit(pos, records[0], true);
      bs + EmitAll(pos + |bs|, records[1..])
  }

  // ----- Writing that fails -----

  /** Does an append succeed, or does the write of a fragment fail when some bytes of it have reached the file? */
  datatype Fate = Fine | Fails(fragment: nat, kept: nat)

  /** What an append comes to: the bytes that reached the file, and where the writer believes the file ends. */
  datatype Outcome = Outcome(ok: bool, bytes: seq<byte>, next: nat)

  function Written(bs: seq<byte>, kept: nat): seq<byte> { if kept < |bs| then bs[..kept] else bs }

  /** An append of the rest of a record by a writer that believes the file ends at pos. */
  function Attempt(pos: nat, left: seq<byte>, begin: bool, fate: Fate): Outcome
    decreases Turns(pos, |left|)
  {
    var k := Fit(Align(pos), |left|);
    var bs := Fragment(pos, left, begin);
    var next := FragmentEnd(pos, |left|);
    FitProgress(pos, |left|);
    if fate.Fails? && fate.fragment == 0 then Outcome(false, Written(bs, fate.kept), next)
    else if k == |left| then Outcome(true, bs, next)
    else
      var rest := Attempt(next, left[k..], false, Later(fate));
      Outcome(rest.ok, bs + rest.bytes, rest.next)
  }

  /** The fate of what follows a fragment that was written. */
  function Later(fate: Fate): Fate
    requires fate.Fails? ==> fate.fragment > 0
  {
    if fate.Fails? then Fails(fate.fragment - 1, fate.kept) else fate
  }

  lemma AttemptUnfolds(before: seq<byte>, pos: nat, left: seq<byte>, begin: bool, fate: Fate)
    ensures var k, bs, next := Fit(Align(pos), |left|), Fragment(pos, left, begin), FragmentEnd(pos, |left|);
      var r := Attempt(pos, left, begin, fate);
      if fate.Fails? && fate.fragment == 0 then r == Outcome(false, Written(bs, fate.kept), next)
      else if k == |left| then r == Outcome(true, bs, next)
      else
        var rest := Attempt(next, left[k..], false, Later(fate));
        && Turns(next, |left| - k) < Turns(pos, |left|)
        && r.ok == rest.ok && r.next == rest.next && before + r.bytes == before + bs + rest.bytes
  {
    hide Align, Turns, Fragment, Written;
    FitProgress(pos, |left|);
  }

  /** An append that succeeds writes the record; one that fails writes a part of it. */
  lemma {:induction false} AttemptIs(pos: nat, left: seq<byte>, begin: bool, fate: Fate)
    ensures var r := Attempt(pos, left, begin, fate);
      && r.bytes <= Emit(pos, left, begin) && pos + |r.bytes| <= r.next
      && (fate.Fine? ==> r.ok)
      && (r.ok ==> r.bytes == Emit(pos, left, begin) && r.next == pos + |r.bytes|)
    decreases Turns(pos, |left|)
  {
    hide Align, Leftover, Fit, Zeroes, Physical, Turns, Fragment;
    var k := Fit(Align(pos), |left|);
    FitProgress(pos, |left|);
    if k < |left| && !(fate.Fails? && fate.fragment == 0) {
      AttemptIs(FragmentEnd(pos, |left|), left[k..], false, Later(fate));
    }
  }

  // ----- Reading -----

  datatype Report = Report(bytes: nat, reason: string)

  /** One physical read: its result, the payload, the position it leaves and the drop it reports. */
  datatype Physicals = Phys(code: nat, data: seq<byte>, next: nat, drop: Option<Report>)

  function BlockEnd(file: seq<byte>, p: nat): (e: nat)
    requires p <= |file|
    ensures p <= e <= |file| && e <= p + Leftover(p)
    ensures e < |file| ==> e == p + Leftover(p)
  {
    if p + Leftover(p) < |file| then p + Leftover(p) else |file|
  }

  /** A char that is negative becomes a large unsigned number. */
  function TypeCode(b: byte): nat { if b < 128 then b as nat else 0xffffff00 + b as nat }

  function LengthOf(file: seq<byte>, p: nat): nat
    requires p + HEADER <= |file|
  {
    file[p + 4] as nat + 256 * file[p + 5] as nat
  }

  predicate ChecksumOk(file: seq<byte>, p: nat)
    requires p + HEADER <= |file| && p + HEADER + LengthOf(file, p) <= |file|
  {
    Crc32c.Unmask(DecodeFixed32(file[p..p + 4])) == Crc32c.Value(file[p + 6..p + HEADER + LengthOf(file, p)])
  }

  /** The physical record whose header is at p, in a block that ends at e. */
  function Parse(file: seq<byte>, p: nat, e: nat, o: nat, checksum: bool): (r: Physicals)
    requires p + HEADER <= e <= |file|
    ensures p + HEADER + |r.data| <= r.next <= |file|
    ensures r.code == FULL || r.code == FIRST ==> o <= p
  {
    var n := LengthOf(file, p);
    var t := TypeCode(file[p + 6]);
    if HEADER + n > e - p then
      if e % BLOCK == 0 then Phys(BAD, [], e, Filter(p, o, Report(e - p, "bad record length")))
      else Phys(EOF, [], e, None)
    else if t == ZERO && n == 0 then Phys(BAD, [], e, None)
    else if checksum && !ChecksumOk(file, p) then Phys(BAD, [], e, Filter(p, o, Report(e - p, "checksum mismatch")))
    else if p < o then Phys(BAD, [], p + HEADER + n, None)
    else Phys(t, file[p + HEADER..p + HEADER + n], p + HEADER + n, None)
  }

  /** Drops are reported only when they lie at or after the initial offset. */
  function Filter(at: int, o: nat, r: Report): Option<Report> {
    if at >= o then Some(r) else None
  }

  /** The next physical record at or after p. */
  function ReadPhys(file: seq<byte>, p: nat, o: nat, checksum: bool): (r: Physicals)
    ensures r.code == FULL || r.code == FIRST ==> o + HEADER + |r.data| <= r.next
    ensures r.code != EOF ==> p < r.next <= |file| && r.next >= p + HEADER + |r.data|
    decreases |file| - p
  {
    if p >= |file| then Phys(EOF, [], |file|, None)
    else
      var e := BlockEnd(file, p);
      if e - p >= HEADER then Parse(file, p, e, o, checksum)
      else if e < |file| then ReadPhys(file, e, o, checksum)
      else Phys(EOF, [], e, None)
  }

  /** A record under assembly: its offset and the bytes collected so far. */
  datatype Partial = Partial(start: nat, data: seq<byte>)

  datatype Output = Output(records: seq<(nat, seq<byte>)>, reports: seq<Report>) {
    function After(r: Option<Report>): Output { if r.Some? then Output(records, [r.value] + reports) else this }

    function Then(start: nat, data: seq<byte>): Output { Output([(start, data)] + records, reports) }
  }

  /** The report of a corruption found when the buffer continues at next. */
  function Corrupt(next: nat, o: nat, bytes: nat, reason: string): Option<Report> {
    Filter(next - bytes, o, Report(bytes, reason))
  }

  /** What one physical read does to the reassembly of records. */
  datatype Step = Step(resync: bool, frag: Option<Partial>, report: Option<Report>, record: Option<Partial>)

  function Reassemble(r: Physicals, o: nat, resync: bool, frag: Option<Partial>): Step
    requires r.code != EOF && r.next >= HEADER + |r.data|
  {
    var start := r.next - HEADER - |r.data|;
    if resync && r.code == MIDDLE then Step(true, frag, None, None)
    else if resync && r.code == LAST then Step(false, frag, None, None)
    else if r.code == FULL then
      Step(false, None,
           if frag.Some? && frag.value.data != []
             then Corrupt(r.next, o, |frag.value.data|, "partial record without end(1)") else None,
           Some(Partial(start, r.data)))
    else if r.code == FIRST then
      Step(false, Some(Partial(start, r.data)),
           if frag.Some? && frag.value.data != []
             then Corrupt(r.next, o, |frag.value.data|, "partial record without end(2)") else None,
           None)
    else if r.code == MIDDLE then
      if frag == None then Step(false, None, Corrupt(r.next, o, |r.data|, "missing start of fragmented record(1)"),
        None)
      else Step(false, Some(Partial(frag.value.start, frag.value.data + r.data)), None, None)
    else if r.code == LAST then
      if frag == None then Step(false, None, Corrupt(r.next, o, |r.data|, "missing start of fragmented record(2)"),
        None)
      else Step(false, None, None, Some(Partial(frag.value.start, frag.value.data + r.data)))
    else if r.code == BAD then
      Step(false, None, if frag.Some? then Corrupt(r.next, o, |frag.value.data|, "error in middle of record")
        else None, None)
    else
      Step(false, None,
           Corrupt(r.next, o, |r.data| + (if frag.Some? then |frag.value.data| else 0), "unknown record type"), None)
  }

  /** All that a reader at position p still returns and reports. */
  function Scan(file: seq<byte>, p: nat, o: nat, checksum: bool, resync: bool, frag: Option<Partial>): Output
    decreases |file| - p
  {
    var r := ReadPhys(file, p, o, checksum);
    if r.code == EOF then Output([], if r.drop.Some? then [r.drop.value] else [])
    else
      var s := Reassemble(r, o, resync, frag);
      var rest := Scan(file, r.next, o, checksum, s.resync, s.frag);
      (if s.record.Some? then rest.Then(s.record.value.start, s.record.value.data)
        else rest).After(s.report).After(r.drop)
  }

  /** Where a reader with initial offset o starts: the first block that can hold a record at or after o. */
  function InitialBlock(o: nat): nat {
    var offset := o % BLOCK;
    if offset > BLOCK - 6 then o - offset + BLOCK else o - offset
  }

  function ReadLog(file: seq<byte>, o: nat, checksum: bool): Output {
    Scan(file, InitialBlock(o), o, checksum, o > 0, None)
  }
}
