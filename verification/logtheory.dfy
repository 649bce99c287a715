/** What the reader returns from what the writer wrote, whole, truncated or from an offset. */
module LogTheory {
  import opened Lists
  import opened Ordering
  import opened Bytes
  import Crc32c
  import opened LogFormat

  /** The checksum the writer stores is the one the reader computes. */
  lemma {:induction false} ChecksumAgrees(t: byte, data: seq<byte>)
    ensures Crc32c.Unmask(DecodeFixed32(Checksum(t, data))) == Crc32c.Value([t] + data)
  {
    hide Crc32c.Mask, Crc32c.Unmask, Crc32c.Extend, EncodeFixed32, DecodeFixed32;
    var crc := Crc32c.Extend(Crc32c.Value([t]), data);
    DecodeEncodeFixed32(Crc32c.Mask(crc));
    Crc32c.UnmaskMask(crc);
    Crc32c.ExtendAppend(0, [t], data);
  }

  /** The fields of a physical record that lies whole in the file. */
  lemma {:induction false} Fields(file: seq<byte>, p: nat, t: byte, data: seq<byte>)
    requires |data| <= 0xffff && At(file, p, Physical(t, data))
    ensures file[p + 6] == t && LengthOf(file, p) == |data|
    ensures file[p + HEADER..p + HEADER + |data|] == data
    ensures ChecksumOk(file, p)
  {
    hide Checksum, Crc32c.Value, Crc32c.Unmask, DecodeFixed32;
    var n := |data|;
    var mid := [(n % 256) as byte, (n / 256) as byte, t];
    AtSplit(file, p, Checksum(t, data) + mid, data);
    AtSplit(file, p, Checksum(t, data), mid);
    assert file[p + 4] == mid[0] && file[p + 5] == mid[1] && file[p + 6] == mid[2] by {
      assert file[p + 4..p + 7][0] == mid[0] && file[p + 4..p + 7][1] == mid[1] && file[p + 4..p + 7][2] == mid[2];
    }
    assert file[p + 6..p + HEADER + n] == [t] + data;
    ChecksumAgrees(t, data);
  }

  /** A read at a record that lies whole in the log, of which the file is a prefix. */
  lemma {:induction false} ReadRecordAt(file: seq<byte>, full: seq<byte>, p: nat, t: byte, data: seq<byte>, o: nat,
      cs: bool)
    requires |data| <= 0xffff && file <= full && At(full, p, Physical(t, data))
    requires 0 < t <= 4 && HEADER + |data| <= Leftover(p)
    ensures var r := ReadPhys(file, p, o, cs);
            if p + HEADER + |data| <= |file| then
              r == if p < o then Phys(BAD, [], p + HEADER + |data|, None)
                else Phys(t as nat, data, p + HEADER + |data|, None)
            else r.code == EOF && r.drop == None
  {
    hide Checksum, ChecksumOk, Leftover;
    if p < |file| && p + HEADER <= BlockEnd(file, p) {
      Fields(full, p, t, data);
      assert file[p + 6] == full[p + 6] && LengthOf(file, p) == LengthOf(full, p);
      LeftoverEnds(p, |file|);
      if p + HEADER + |data| <= |file| {
        assert file[p..p + HEADER + |data|] == full[p..p + HEADER + |data|];
        Fields(file, p, t, data);
      }
    }
  }

  /** A block that is cut short does not end at a block boundary. */
  lemma LeftoverEnds(p: nat, e: nat)
    ensures p < e < p + Leftover(p) ==> e % BLOCK != 0
  {
  }

  /** A read skips the trailer of a block. */
  lemma {:induction false} ReadSkipsTrailer(file: seq<byte>, p: nat, o: nat, cs: bool)
    ensures ReadPhys(file, p, o, cs) == if Align(p) <= |file| then ReadPhys(file, Align(p), o, cs)
      else Phys(EOF, [], |file|, None)
  {
  }

  function EmitEnd(pos: nat, left: seq<byte>, begin: bool): nat { pos + |Emit(pos, left, begin)| }

  /** Behind its trailer a fragment is one physical record. */
  lemma FragmentHolds(full: seq<byte>, pos: nat, left: seq<byte>, begin: bool)
    requires At(full, pos, Fragment(pos, left, begin))
    ensures var k := Fit(Align(pos), |left|);
            At(full, Align(pos), Physical(TypeOf(begin, k == |left|), left[..k]))
  {
    hide Physical, Zeroes, Align, Fit, At;
    var k := Fit(Align(pos), |left|);
    AtSplit(full, pos, Zeroes(Align(pos) - pos), Physical(TypeOf(begin, k == |left|), left[..k]));
  }

  lemma {:induction false} EmitHead(full: seq<byte>, pos: nat, left: seq<byte>, begin: bool)
    requires At(full, pos, Emit(pos, left, begin))
    ensures var a := Align(pos);
            var k := Fit(a, |left|);
            var next := FragmentEnd(pos, |left|);
            && At(full, a, Physical(TypeOf(begin, k == |left|), left[..k]))
            && next <= EmitEnd(pos, left, begin)
            && if k == |left| then EmitEnd(pos, left, begin) == next
               else
                 At(full, next, Emit(next, left[k..], false))
                 && EmitEnd(pos, left, begin) == EmitEnd(next, left[k..], false)
  {
    hide Physical, Zeroes, Align, Fit, At, Fragment;
    var k := Fit(Align(pos), |left|);
    if k < |left| {
      AtSplit(full, pos, Fragment(pos, left, begin), Emit(FragmentEnd(pos, |left|), left[k..], false));
    }
    FragmentHolds(full, pos, left, begin);
  }

  /** One read over a fragment of the log, of which the file is a prefix. */
  lemma {:induction false} ReadFragment(file: seq<byte>, full: seq<byte>, pos: nat, left: seq<byte>, begin: bool,
      o: nat, cs: bool)
    requires file <= full && At(full, pos, Emit(pos, left, begin))
    ensures var r := ReadPhys(file, pos, o, cs);
            var a := Align(pos);
            var k := Fit(a, |left|);
            var next := FragmentEnd(pos, |left|);
            if next <= |file| then
              r == if a < o then Phys(BAD, [], next, None)
                else Phys(TypeOf(begin, k == |left|) as nat, left[..k], next, None)
            else r.code == EOF && r.drop == None
  {
    hide Physical, Emit, ReadPhys;
    var a := Align(pos);
    var k := Fit(a, |left|);
    EmitHead(full, pos, left, begin);
    ReadSkipsTrailer(file, pos, o, cs);
    ReadRecordAt(file, full, a, TypeOf(begin, k == |left|), left[..k], o, cs);
  }

  /** A fragment of a record adds to what is assembled, and the last one completes it. */
  lemma {:induction false} ReassembleFragment(a: nat, left: seq<byte>, k: nat, begin: bool, o: nat, resync: bool,
      frag: Option<Partial>, whole: Partial)
    requires k <= |left|
    requires if begin then frag == None && whole == Partial(a, left)
             else !resync && frag.Some? && whole == Partial(frag.value.start, frag.value.data + left)
    ensures var s := Reassemble(Phys(TypeOf(begin, k == |left|) as nat, left[..k], a + HEADER + k, None), o, resync,
      frag);
            && !s.resync && s.report == None
            && if k == |left| then s.frag == None && s.record == Some(whole)
               else
                 s.record == None && s.frag.Some?
                 && whole == Partial(s.frag.value.start, s.frag.value.data + left[k..])
  {
    assert left[..k] + left[k..] == left;
    if !begin {
      assert frag.value.data + left[..k] + left[k..] == frag.value.data + left;
    }
    if k == |left| {
      assert left[..k] == left;
    }
  }

  /** One fragment of a record that starts at or after the offset. */
  lemma {:induction false} ScanFragment(file: seq<byte>, full: seq<byte>, pos: nat, left: seq<byte>, begin: bool,
      o: nat, cs: bool, resync: bool, frag: Option<Partial>, whole: Partial) returns (p: Partial)
    requires file <= full && At(full, pos, Emit(pos, left, begin))
    requires o <= Align(pos)
    requires if begin then frag == None && whole == Partial(Align(pos), left)
             else !resync && frag.Some? && whole == Partial(frag.value.start, frag.value.data + left)
    ensures var k := Fit(Align(pos), |left|);
            var next := FragmentEnd(pos, |left|);
            var all := Scan(file, pos, o, cs, resync, frag);
            if next > |file| then all == Output([], [])
            else if k == |left| then all == Scan(file, next, o, cs, false, None).Then(whole.start, whole.data)
            else whole == Partial(p.start, p.data + left[k..]) && all == Scan(file, next, o, cs, false, Some(p))
  {
    hide ReadPhys, Emit, Align, Fit, Leftover, At, Reassemble, TypeOf;
    var a, k := Align(pos), Fit(Align(pos), |left|);
    ReadFragment(file, full, pos, left, begin, o, cs);
    ReassembleFragment(a, left, k, begin, o, resync, frag, whole);
    p := whole;
    if k < |left| && FragmentEnd(pos, |left|) <= |file| {
      p := Reassemble(ReadPhys(file, pos, o, cs), o, resync, frag).frag.value;
    }
  }

  lemma {:induction false} FragmentProgress(pos: nat, left: seq<byte>, rest: seq<byte>)
    requires |rest| == |left| - Fit(Align(pos), |left|) && |rest| > 0
    ensures Turns(FragmentEnd(pos, |left|), |rest|) < Turns(pos, |left|)
  {
    FitProgress(pos, |left|);
  }

  /** From the rest of a record that starts at or after the offset, the reader returns the record, once it is whole. */
  lemma {:induction false} ScanRecord(file: seq<byte>, full: seq<byte>, pos: nat, left: seq<byte>, begin: bool, o: nat,
      cs: bool, resync: bool, frag: Option<Partial>, whole: Partial)
    requires file <= full && At(full, pos, Emit(pos, left, begin))
    requires o <= Align(pos)
    requires if begin then frag == None && whole == Partial(Align(pos), left)
             else !resync && frag.Some? && whole == Partial(frag.value.start, frag.value.data + left)
    ensures var end := EmitEnd(pos, left, begin);
            Scan(file, pos, o, cs, resync, frag) ==
              if end <= |file| then Scan(file, end, o, cs, false, None).Then(whole.start, whole.data)
                else Output([], [])
    decreases Turns(pos, |left|)
  {
    hide Scan, Emit, Align, Fit, Turns, At, EmitEnd;
    var k := Fit(Align(pos), |left|);
    var next := FragmentEnd(pos, |left|);
    EmitHead(full, pos, left, begin);
    var p := ScanFragment(file, full, pos, left, begin, o, cs, resync, frag, whole);
    if k < |left| && next <= |file| {
      var rest := left[k..];
      FragmentProgress(pos, left, rest);
      ScanRecord(file, full, next, rest, false, o, cs, false, Some(p), whole);
    }
  }

  // ----- Fragments whose record began before the offset -----

  /** The report of a fragment of k bytes at a that continues a record whose start was not read. */
  function Orphan(a: nat, k: nat, end: bool, o: nat, resync: bool): seq<Report> {
    if a < o || resync then []
    else if end then [Report(k, "missing start of fragmented record(2)")]
    else [Report(k, "missing start of fragmented record(1)")]
  }

  lemma SkipUnfolds(t: nat, pos: nat, left: seq<byte>, begin: bool, o: nat, resync: bool)
    ensures var a := Align(pos);
            var k := Fit(a, |left|);
            var next := FragmentEnd(pos, |left|);
            var report := Orphan(a, k, k == |left|, o, resync);
            var resync' := o <= a && resync && k < |left|;
            Skip(t, pos, left, begin, o, resync) ==
              if next > t then (resync, [])
              else if k == |left| then (resync', report)
              else (Skip(t, next, left[k..], false, o, resync').0,
                report + Skip(t, next, left[k..], false, o, resync').1)
  {
  }

  /**
   * What the reader does, with nothing under assembly, over the rest of a record that it cannot return:
   * whether it is still resynchronizing afterwards and what it reports, in a file of t bytes.
   */
  function Skip(t: nat, pos: nat, left: seq<byte>, begin: bool, o: nat, resync: bool): (bool, seq<Report>)
    decreases Turns(pos, |left|)
  {
    var a := Align(pos);
    var k := Fit(a, |left|);
    var next := FragmentEnd(pos, |left|);
    FitProgress(pos, |left|);
    if next > t then (resync, [])
    else
      var report := Orphan(a, k, k == |left|, o, resync);
      var resync' := o <= a && resync && k < |left|;
      if k == |left| then (resync', report)
      else
        var rest := Skip(t, next, left[k..], false, o, resync');
        (rest.0, report + rest.1)
  }

  lemma {:induction false} SkipFragment(file: seq<byte>, full: seq<byte>, pos: nat, left: seq<byte>, begin: bool,
      o: nat, cs: bool, resync: bool)
    requires file <= full && At(full, pos, Emit(pos, left, begin))
    requires begin ==> Align(pos) < o
    ensures var a := Align(pos);
            var k := Fit(a, |left|);
            var next := FragmentEnd(pos, |left|);
            var all := Scan(file, pos, o, cs, resync, None);
            if next > |file| then all == Output([], [])
            else
              var rest := Scan(file, next, o, cs, o <= a && resync && k < |left|, None);
              && all.records == rest.records
              && all.reports == Orphan(a, k, k == |left|, o, resync) + rest.reports
  {
    hide ReadPhys, Emit, Align, Fit, At;
    ReadFragment(file, full, pos, left, begin, o, cs);
  }

  lemma {:induction false} ScanSkip(file: seq<byte>, full: seq<byte>, pos: nat, left: seq<byte>, begin: bool, o: nat,
      cs: bool, resync: bool)
    requires file <= full && At(full, pos, Emit(pos, left, begin))
    requires begin ==> Align(pos) < o
    ensures var (resync', reports) := Skip(|file|, pos, left, begin, o, resync);
            var end := EmitEnd(pos, left, begin);
            var all := Scan(file, pos, o, cs, resync, None);
            if end > |file| then all == Output([], reports)
            else
              var rest := Scan(file, end, o, cs, resync', None);
              all.records == rest.records && all.reports == reports + rest.reports
    decreases Turns(pos, |left|)
  {
    hide Scan, Emit, Align, Fit, Turns, At, EmitEnd, Skip, Orphan, FragmentEnd;
    var a := Align(pos);
    var k := Fit(a, |left|);
    var next := FragmentEnd(pos, |left|);
    var resync' := o <= a && resync && k < |left|;
    EmitHead(full, pos, left, begin);
    SkipUnfolds(|file|, pos, left, begin, o, resync);
    SkipFragment(file, full, pos, left, begin, o, cs, resync);
    if k < |left| && next <= |file| {
      var rest := left[k..];
      FragmentProgress(pos, left, rest);
      ScanSkip(file, full, next, rest, false, o, cs, resync');
      var end := EmitEnd(pos, left, begin);
      Regroup(Orphan(a, k, k == |left|, o, resync), Skip(|file|, next, rest, false, o, resync').1,
              if end > |file| then []
              else Scan(file, end, o, cs, Skip(|file|, next, rest, false, o, resync').0, None).reports);
    }
  }

  // ----- Whole logs -----

  /** The records that start at or after o and end within the first t bytes, with their offsets. */
  function Expected(pos: nat, records: seq<seq<byte>>, o: nat, t: nat): seq<(nat, seq<byte>)>
    decreases |records|
  {
    if records == [] then []
    else
      var a, end := Align(pos), EmitEnd(pos, records[0], true);
      (if o <= a && end <= t then [(a, records[0])] else []) + Expected(end, records[1..], o, t)
  }

  /** What is reported from a record boundary on. */
  function Reports(pos: nat, records: seq<seq<byte>>, o: nat, t: nat, resync: bool): seq<Report>
    decreases |records|
  {
    if records == [] then []
    else
      var a, end := Align(pos), EmitEnd(pos, records[0], true);
      var (resync', reports) := if o <= a then (false, []) else Skip(t, pos, records[0], true, o, resync);
      reports + if end <= t then Reports(end, records[1..], o, t, resync') else []
  }

  lemma {:induction false} ExpectedNone(pos: nat, records: seq<seq<byte>>, o: nat, t: nat)
    requires t < pos
    ensures Expected(pos, records, o, t) == []
    decreases |records|
  {
    if records != [] {
      ExpectedNone(EmitEnd(pos, records[0], true), records[1..], o, t);
    }
  }

  lemma {:induction false} HasAll(full: seq<byte>, pos: nat, records: seq<seq<byte>>)
    requires records != [] && At(full, pos, EmitAll(pos, records))
    ensures At(full, pos, Emit(pos, records[0], true))
    ensures At(full, EmitEnd(pos, records[0], true), EmitAll(EmitEnd(pos, records[0], true), records[1..]))
    ensures pos + |EmitAll(pos, records)| ==
      EmitEnd(pos, records[0], true) + |EmitAll(EmitEnd(pos, records[0], true), records[1..])|
  {
    hide Emit, At;
    AtSplit(full, pos, Emit(pos, records[0], true), EmitAll(EmitEnd(pos, records[0], true), records[1..]));
  }

  /** From a record boundary on, the reader returns what is expected and reports what is predicted. */
  lemma {:induction false} ScanAll(file: seq<byte>, full: seq<byte>, pos: nat, records: seq<seq<byte>>, o: nat,
      cs: bool, resync: bool)
    requires file <= full && At(full, pos, EmitAll(pos, records)) && pos + |EmitAll(pos, records)| == |full|
    ensures Scan(file, pos, o, cs, resync, None) ==
      Output(Expected(pos, records, o, |file|), Reports(pos, records, o, |file|, resync))
    decreases |records|
  {
    if records == [] {
      assert ReadPhys(file, pos, o, cs).code == EOF;
    } else {
      hide Scan, Emit, At, Skip, Align, EmitAll;
      var end := EmitEnd(pos, records[0], true);
      HasAll(full, pos, records);
      var resync' := if o <= Align(pos) then false else Skip(|file|, pos, records[0], true, o, resync).0;
      if o <= Align(pos) {
        ScanRecord(file, full, pos, records[0], true, o, cs, resync, None, Partial(Align(pos), records[0]));
      } else {
        ScanSkip(file, full, pos, records[0], true, o, cs, resync);
      }
      if end <= |file| {
        ScanAll(file, full, end, records[1..], o, cs, resync');
      } else {
        ExpectedNone(end, records[1..], o, |file|);
      }
    }
  }

  // ----- The initial block -----

  /** Reading from the block boundary that ends a trailer is reading from the trailer. */
  lemma {:induction false} ScanFromTrailer(file: seq<byte>, pos: nat, start: nat, o: nat, cs: bool, resync: bool)
    requires pos <= start <= Align(pos) && start % BLOCK == 0
    ensures Scan(file, start, o, cs, resync, None) == Scan(file, pos, o, cs, resync, None)
  {
    if pos < start {
      BoundaryIsAlign(pos, start);
      ReadSkipsTrailer(file, pos, o, cs);
    }
  }

  lemma BoundaryIsAlign(pos: nat, start: nat)
    requires pos < start <= Align(pos) && start % BLOCK == 0
    ensures start == Align(pos)
  {
  }

  /** A fragment that starts before a block boundary ends before it. */
  lemma FragmentInBlock(pos: nat, n: nat, start: nat)
    requires Align(pos) < start && start % BLOCK == 0
    ensures FragmentEnd(pos, n) <= start
  {
  }

  lemma EmitNothing(pos: nat)
    ensures EmitAll(pos, []) == []
  {
  }

  lemma InitialBlockBounds(o: nat)
    ensures InitialBlock(o) % BLOCK == 0 && o < InitialBlock(o) + BLOCK
    ensures o == 0 ==> InitialBlock(o) == 0
    ensures InitialBlock(o) > o ==> InitialBlock(o) <= o + 6
  {
  }

  /** A record that starts before the initial block starts before the offset. */
  lemma StartsBefore(pos: nat, o: nat)
    requires Align(pos) < InitialBlock(o)
    ensures Align(pos) < o
  {
    InitialBlockBounds(o);
  }

  /** Where the first fragment at or after position `start` ends, of a record with n bytes left at pos. */
  function NextEnd(pos: nat, n: nat, start: nat): nat
    decreases Turns(pos, n)
  {
    var k := Fit(Align(pos), n);
    FitProgress(pos, n);
    if Align(pos) >= start || k == n then FragmentEnd(pos, n) else NextEnd(FragmentEnd(pos, n), n - k, start)
  }

  /** A record that covers a block boundary has a fragment there. */
  lemma {:induction false} FindFragment(full: seq<byte>, pos: nat, left: seq<byte>, begin: bool, start: nat)
      returns (p: nat, rest: seq<byte>)
    requires At(full, pos, Emit(pos, left, begin))
    requires Align(pos) < start < EmitEnd(pos, left, begin) && start % BLOCK == 0
    ensures At(full, p, Emit(p, rest, false)) && p <= start <= Align(p)
    ensures EmitEnd(p, rest, false) == EmitEnd(pos, left, begin)
    ensures forall later :: later >= start ==> NextEnd(p, |rest|, later) == NextEnd(pos, |left|, later)
    decreases Turns(pos, |left|)
  {
    hide Emit, At, EmitEnd, Align, Fit, Turns;
    EmitHead(full, pos, left, begin);
    FragmentInBlock(pos, |left|, start);
    p, rest := FragmentEnd(pos, |left|), left[Fit(Align(pos), |left|)..];
    if Align(p) < start {
      FragmentProgress(pos, left, rest);
      p, rest := FindFragment(full, p, rest, false, start);
    }
  }

  /** From the initial block the reader returns what it would from any record boundary before it. */
  lemma {:induction false} ScanInitial(file: seq<byte>, full: seq<byte>, pos: nat, records: seq<seq<byte>>, o: nat,
      cs: bool, resync: bool)
    requires file <= full && At(full, pos, EmitAll(pos, records)) && pos + |EmitAll(pos, records)| == |full|
    requires pos <= InitialBlock(o)
    ensures Scan(file, InitialBlock(o), o, cs, resync, None).records == Expected(pos, records, o, |file|)
    decreases |records|
  {
    hide Scan, Emit, At, Skip, Align, EmitAll, InitialBlock;
    EmitNothing(pos);
    var start := InitialBlock(o);
    InitialBlockBounds(o);
    if start <= Align(pos) {
      ScanFromTrailer(file, pos, start, o, cs, resync);
      ScanAll(file, full, pos, records, o, cs, resync);
    } else if records == [] {
      ScanPastEnd(file, start, o, cs, resync);
    } else {
      StartsBefore(pos, o);
      HasAll(full, pos, records);
      var end := EmitEnd(pos, records[0], true);
      if end <= start {
        ScanInitial(file, full, end, records[1..], o, cs, resync);
      } else {
        var p, rest := FindFragment(full, pos, records[0], true, start);
        ScanFromTrailer(file, p, start, o, cs, resync);
        ScanSkip(file, full, p, rest, false, o, cs, resync);
        if end <= |file| {
          ScanAll(file, full, end, records[1..], o, cs, Skip(|file|, p, rest, false, o, resync).0);
        } else {
          ExpectedNone(end, records[1..], o, |file|);
        }
      }
    }
  }

  lemma ScanPastEnd(file: seq<byte>, p: nat, o: nat, cs: bool, resync: bool)
    requires |file| <= p
    ensures Scan(file, p, o, cs, resync, None) == Output([], [])
  {
  }

  /**
   * From any byte-truncated prefix of a log, and with any initial offset, the reader returns exactly the
   * records that start at or after the offset and lie whole in the prefix.
   */
  lemma {:induction false} ReadBack(records: seq<seq<byte>>, t: nat, o: nat, cs: bool)
    requires t <= |EmitAll(0, records)|
    ensures ReadLog(EmitAll(0, records)[..t], o, cs).records == Expected(0, records, o, t)
  {
    hide Scan, Expected, EmitAll;
    var full := EmitAll(0, records);
    assert full[0..|full|] == full;
    ScanInitial(full[..t], full, 0, records, o, cs, o > 0);
  }

  lemma {:induction false} NoReports(pos: nat, records: seq<seq<byte>>, t: nat, resync: bool)
    ensures Reports(pos, records, 0, t, resync) == []
    decreases |records|
  {
    if records != [] {
      NoReports(EmitEnd(pos, records[0], true), records[1..], t, false);
    }
  }

  /** Without an initial offset no truncation is ever reported as a corruption. */
  lemma {:induction false} TruncationIsSilent(records: seq<seq<byte>>, t: nat, cs: bool)
    requires t <= |EmitAll(0, records)|
    ensures ReadLog(EmitAll(0, records)[..t], 0, cs).reports == []
  {
    hide Scan, Expected, EmitAll;
    var full := EmitAll(0, records);
    assert full[0..|full|] == full;
    assert InitialBlock(0) == 0;
    ScanAll(full[..t], full, 0, records, 0, cs, false);
    NoReports(0, records, t, false);
  }

  function Data(out: seq<(nat, seq<byte>)>): seq<seq<byte>> {
    if out == [] then [] else [out[0].1] + Data(out[1..])
  }

  lemma {:induction false} DataAppend(a: seq<(nat, seq<byte>)>, b: seq<(nat, seq<byte>)>)
    ensures Data(a + b) == Data(a) + Data(b)
  {
    if a == [] {
      assert a + b == b;
    } else {
      assert (a + b)[0] == a[0] && (a + b)[1..] == a[1..] + b;
      DataAppend(a[1..], b);
    }
  }

  /** How many records, from the first on, lie whole within the first t bytes. */
  function WholeCount(pos: nat, records: seq<seq<byte>>, t: nat): (n: nat)
    ensures n <= |records|
    decreases |records|
  {
    if records == [] || EmitEnd(pos, records[0], true) > t then 0
    else 1 + WholeCount(EmitEnd(pos, records[0], true), records[1..], t)
  }

  lemma {:induction false} ExpectedIsPrefix(pos: nat, records: seq<seq<byte>>, t: nat)
    ensures Data(Expected(pos, records, 0, t)) == records[..WholeCount(pos, records, t)]
    decreases |records|
  {
    hide Emit, Align;
    if records != [] {
      var end := EmitEnd(pos, records[0], true);
      if end <= t {
        ExpectedIsPrefix(end, records[1..], t);
        var n := WholeCount(end, records[1..], t);
        assert records[..n + 1] == [records[0]] + records[1..][..n];
        assert Expected(pos, records, 0, t)[1..] == Expected(end, records[1..], 0, t);
      } else {
        ExpectedNone(end, records[1..], 0, t);
      }
    }
  }

  /** A log cut at any byte reads back as the records wholly before the cut, with nothing reported. */
  lemma {:induction false} ReadBackPrefix(records: seq<seq<byte>>, t: nat, cs: bool)
    requires t <= |EmitAll(0, records)|
    ensures var out := ReadLog(EmitAll(0, records)[..t], 0, cs);
            Data(out.records) == records[..WholeCount(0, records, t)] && out.reports == []
  {
    hide ReadLog, Expected, EmitAll;
    ReadBack(records, t, 0, cs);
    TruncationIsSilent(records, t, cs);
    ExpectedIsPrefix(0, records, t);
  }

  lemma {:induction false} WholeLog(pos: nat, records: seq<seq<byte>>, t: nat)
    requires pos + |EmitAll(pos, records)| <= t
    ensures WholeCount(pos, records, t) == |records|
    decreases |records|
  {
    hide Emit;
    if records != [] {
      WholeLog(EmitEnd(pos, records[0], true), records[1..], t);
    }
  }

  /** A complete log reads back as the records written. */
  lemma {:induction false} RoundTrip(records: seq<seq<byte>>, cs: bool)
    ensures var out := ReadLog(EmitAll(0, records), 0, cs);
            Data(out.records) == records && out.reports == []
  {
    hide ReadLog, EmitAll;
    var full := EmitAll(0, records);
    assert full[..|full|] == full && records[..|records|] == records;
    ReadBackPrefix(records, |full|, cs);
    WholeLog(0, records, |full|);
  }

  // ----- What an initial offset makes the reader report -----

  /**
   * A record starts before o, goes on past the end of the block that o lies in, and its fragment there lies whole
   * within the first t bytes.
   */
  predicate Straddles(pos: nat, records: seq<seq<byte>>, o: nat, t: nat)
    decreases |records|
  {
    && records != []
    && var end, later := EmitEnd(pos, records[0], true), InitialBlock(o) + BLOCK;
       (Align(pos) < o && end > later && NextEnd(pos, |records[0]|, later) <= t) || Straddles(end, records[1..], o, t)
  }

  /** No fragment at or after position t lies within the first t bytes. */
  lemma {:induction false} NextEndBeyond(pos: nat, n: nat, start: nat)
    ensures NextEnd(pos, n, start) > pos
    ensures Align(pos) >= start ==> NextEnd(pos, n, start) > start
    decreases Turns(pos, n)
  {
    hide Turns;
    FitProgress(pos, n);
    if !(Align(pos) >= start || Fit(Align(pos), n) == n) {
      NextEndBeyond(FragmentEnd(pos, n), n - Fit(Align(pos), n), start);
    }
  }

  lemma {:induction false} StraddlesNone(pos: nat, records: seq<seq<byte>>, o: nat, t: nat)
    requires t <= pos
    ensures !Straddles(pos, records, o, t)
    decreases |records|
  {
    hide Emit, NextEnd, InitialBlock, Align;
    if records != [] {
      NextEndBeyond(pos, |records[0]|, InitialBlock(o) + BLOCK);
      StraddlesNone(EmitEnd(pos, records[0], true), records[1..], o, t);
    }
  }

  /** A fragment that started before o is silent, and ends the resynchronization. */
  lemma SkipBefore(t: nat, pos: nat, left: seq<byte>, begin: bool, o: nat, resync: bool)
    requires Align(pos) < o
    ensures var k, next := Fit(Align(pos), |left|), FragmentEnd(pos, |left|);
      Skip(t, pos, left, begin, o, resync)
        == if next > t then (resync, []) else if k == |left| then (false, [])
          else Skip(t, next, left[k..], false, o, false)
  {
    hide Align, Fit, Turns, FragmentEnd, Leftover;
    var k, next := Fit(Align(pos), |left|), FragmentEnd(pos, |left|);
    if next <= t && k < |left| {
      var rest := Skip(t, next, left[k..], false, o, false);
      assert [] + rest.1 == rest.1 && (rest.0, rest.1) == rest;
    }
  }

  /** One after it that goes on with the record is reported. */
  lemma SkipAfter(t: nat, pos: nat, left: seq<byte>, o: nat)
    requires o <= Align(pos)
    ensures Skip(t, pos, left, false, o, false).1 == [] <==> FragmentEnd(pos, |left|) > t
  {
    hide Align, Fit, Turns, FragmentEnd, Leftover;
  }

  /**
   * After a fragment that started before o, inside o's block, the next fragment is reported, if it is there.
   */
  lemma {:induction false} SkipFirst(full: seq<byte>, pos: nat, left: seq<byte>, begin: bool, o: nat, resync: bool,
      start: nat, t: nat)
    requires At(full, pos, Emit(pos, left, begin)) && start % BLOCK == 0 && start <= Align(pos) < o < start + BLOCK
    ensures var skipped, end := Skip(t, pos, left, begin, o, resync), EmitEnd(pos, left, begin);
      if end <= start + BLOCK then skipped.1 == [] && (end <= t ==> !skipped.0)
      else skipped.1 == [] <==> NextEnd(pos, |left|, start + BLOCK) > t
  {
    hide Emit, At, EmitEnd, Skip, NextEnd, Align, Fit, FragmentEnd, Turns, Leftover;
    EmitHead(full, pos, left, begin);
    SkipBefore(t, pos, left, begin, o, resync);
    FragmentsOf(pos, |left|, start);
    if Fit(Align(pos), |left|) < |left| {
      SkipSecond(full, pos, left, begin, o, resync, start + BLOCK, t);
    }
  }

  /** The case of a record that goes on in the next block. */
  lemma {:induction false} SkipSecond(full: seq<byte>, pos: nat, left: seq<byte>, begin: bool, o: nat, resync: bool,
      later: nat, t: nat)
    requires At(full, pos, Emit(pos, left, begin)) && Align(pos) < o < later
    requires Fit(Align(pos), |left|) < |left| && FragmentEnd(pos, |left|) == later == Align(later)
    ensures Skip(t, pos, left, begin, o, resync).1 == [] <==> NextEnd(pos, |left|, later) > t
    ensures EmitEnd(pos, left, begin) > later
  {
    hide Emit, At, EmitEnd, Skip, NextEnd, Align, Fit, FragmentEnd, Turns, Leftover;
    var rest := left[Fit(Align(pos), |left|)..];
    EmitHead(full, pos, left, begin);
    EmitHead(full, later, rest, false);
    SkipBefore(t, pos, left, begin, o, resync);
    SkipAfter(t, later, rest, o);
    NextEndUnfolds(pos, |left|, later);
    NextEndUnfolds(later, |rest|, later);
    EndsLater(later, |rest|);
  }

  lemma EndsLater(pos: nat, n: nat)
    ensures FragmentEnd(pos, n) > pos
  {
    hide Leftover;
  }

  /** A fragment ends in its block, and exactly with it when more of the record is left. */
  lemma FragmentsOf(pos: nat, n: nat, start: nat)
    requires start % BLOCK == 0 && start <= Align(pos) < start + BLOCK
    ensures FragmentEnd(pos, n) <= start + BLOCK && Align(start + BLOCK) == start + BLOCK
    ensures Fit(Align(pos), n) < n ==> FragmentEnd(pos, n) == start + BLOCK
  {
    BlockOf(Align(pos), start);
    hide Align, Leftover;
  }

  lemma NextEndUnfolds(pos: nat, n: nat, start: nat)
    ensures var k := Fit(Align(pos), n);
      NextEnd(pos, n, start)
        == if Align(pos) >= start || k == n then FragmentEnd(pos, n) else NextEnd(FragmentEnd(pos, n), n - k, start)
  {
  }

  lemma BlockOf(a: nat, start: nat)
    requires start % BLOCK == 0 && start <= a < start + BLOCK
    ensures a + Leftover(a) == start + BLOCK
    ensures Align(start + BLOCK) == start + BLOCK
  {
    BlockStarts(start);
    hide Leftover;
    LeftoverAdd(start, a - start);
    LeftoverAdd(start, BLOCK);
  }

  /** While it resynchronizes the reader skips the rest of a record silently. */
  lemma {:induction false} SkipSilent(t: nat, pos: nat, left: seq<byte>, o: nat)
    requires o <= Align(pos)
    ensures Skip(t, pos, left, false, o, true).1 == []
    decreases Turns(pos, |left|)
  {
    hide Align, Fit, Turns;
    var k := Fit(Align(pos), |left|);
    if k < |left| {
      FragmentProgress(pos, left, left[k..]);
      SkipSilent(t, FragmentEnd(pos, |left|), left[k..], o);
    }
  }

  /** Records that all start at or after o cause no report, and none of them straddles. */
  lemma {:induction false} LaterRecords(pos: nat, records: seq<seq<byte>>, o: nat, t: nat, resync: bool)
    requires o <= Align(pos)
    ensures Reports(pos, records, o, t, resync) == [] && !Straddles(pos, records, o, t)
    decreases |records|
  {
    hide Emit, NextEnd;
    if records != [] {
      LaterRecords(EmitEnd(pos, records[0], true), records[1..], o, t, false);
    }
  }

  lemma {:induction false} ReportsIff(full: seq<byte>, pos: nat, records: seq<seq<byte>>, o: nat, resync: bool, t: nat)
    requires At(full, pos, EmitAll(pos, records))
    requires InitialBlock(o) <= Align(pos)
    ensures Reports(pos, records, o, t, resync) == [] <==> !Straddles(pos, records, o, t)
    decreases |records|
  {
    hide Emit, At, EmitAll, Skip, InitialBlock, NextEnd, Align;
    InitialBlockBounds(o);
    if records != [] {
      HasAll(full, pos, records);
      var end, later := EmitEnd(pos, records[0], true), InitialBlock(o) + BLOCK;
      if o <= Align(pos) {
        LaterRecords(end, records[1..], o, t, false);
      } else {
        SkipFirst(full, pos, records[0], true, o, resync, InitialBlock(o), t);
        if end <= t {
          AlignGrows(pos, end);
          ReportsIff(full, end, records[1..], o, Skip(t, pos, records[0], true, o, resync).0, t);
        } else {
          StraddlesNone(end, records[1..], o, t);
        }
      }
    }
  }

  lemma AlignGrows(pos: nat, end: nat)
    requires pos <= end
    ensures Align(pos) <= Align(end)
  {
    hide Leftover;
    LeftoverAdd(pos, end - pos);
  }

  /** The case of a record that covers the start of the initial block. */
  lemma {:induction false} InsideReports(file: seq<byte>, full: seq<byte>, pos: nat, records: seq<seq<byte>>, o: nat,
      cs: bool)
    requires file <= full && records != [] && At(full, pos, EmitAll(pos, records))
      && pos + |EmitAll(pos, records)| == |full|
    requires Align(pos) < InitialBlock(o) < EmitEnd(pos, records[0], true)
    ensures Scan(file, InitialBlock(o), o, cs, true, None).reports == []
      <==> !(InitialBlock(o) < o && Straddles(pos, records, o, |file|))
  {
    hide Scan, Emit, At, Skip, EmitAll, InitialBlock, NextEnd, Straddles, Reports, Expected, Align;
    var start, end, t := InitialBlock(o), EmitEnd(pos, records[0], true), |file|;
    InitialBlockBounds(o);
    HasAll(full, pos, records);
    var p, rest := FindFragment(full, pos, records[0], true, start);
    ScanFromTrailer(file, p, start, o, cs, true);
    ScanSkip(file, full, p, rest, false, o, cs, true);
    StartsBefore(pos, o);
    StraddlesIs(pos, records, o, t);
    var resync' := Skip(t, p, rest, false, o, true).0;
    if end <= t {
      ScanAll(file, full, end, records[1..], o, cs, resync');
    } else {
      StraddlesNone(end, records[1..], o, t);
    }
    if o <= start {
      SkipSilent(t, p, rest, o);
      AlignGrows(start, end);
      LaterRecords(end, records[1..], o, t, resync');
    } else {
      AlignsTo(p, start);
      SkipFirst(full, p, rest, false, o, true, start, t);
      AlignGrows(start, end);
      ReportsIff(full, end, records[1..], o, resync', t);
    }
  }

  lemma StraddlesIs(pos: nat, records: seq<seq<byte>>, o: nat, t: nat)
    requires records != []
    ensures Straddles(pos, records, o, t) <==>
      || (&& Align(pos) < o && EmitEnd(pos, records[0], true) > InitialBlock(o) + BLOCK
          && NextEnd(pos, |records[0]|, InitialBlock(o) + BLOCK) <= t)
      || Straddles(EmitEnd(pos, records[0], true), records[1..], o, t)
  {
    hide NextEnd, Emit;
  }

  /** The case of a record boundary at the start of the initial block. */
  lemma {:induction false} AlignedReports(file: seq<byte>, full: seq<byte>, pos: nat, records: seq<seq<byte>>, o: nat,
      cs: bool)
    requires file <= full && At(full, pos, EmitAll(pos, records)) && pos + |EmitAll(pos, records)| == |full|
    requires pos <= InitialBlock(o) <= Align(pos)
    ensures Scan(file, InitialBlock(o), o, cs, o > 0, None).reports == []
      <==> !(InitialBlock(o) < o && Straddles(pos, records, o, |file|))
  {
    hide Scan, Emit, At, Skip, EmitAll, InitialBlock, Straddles, Reports, Expected, Align;
    var start := InitialBlock(o);
    InitialBlockBounds(o);
    ScanFromTrailer(file, pos, start, o, cs, o > 0);
    ScanAll(file, full, pos, records, o, cs, o > 0);
    ReportsIff(full, pos, records, o, o > 0, |file|);
    if o <= start {
      LaterRecords(pos, records, o, |file|, o > 0);
    }
  }

  lemma AlignsTo(p: nat, start: nat)
    requires p <= start <= Align(p) && start % BLOCK == 0
    ensures Align(p) == start
  {
  }

  lemma StraddlesLater(pos: nat, records: seq<seq<byte>>, o: nat, t: nat)
    requires records == [] || EmitEnd(pos, records[0], true) <= InitialBlock(o)
    ensures Straddles(pos, records, o, t)
      <==> records != [] && Straddles(EmitEnd(pos, records[0], true), records[1..], o, t)
  {
    hide NextEnd, Emit;
  }

  lemma {:induction false} InitialReports(file: seq<byte>, full: seq<byte>, pos: nat, records: seq<seq<byte>>, o: nat,
      cs: bool)
    requires file <= full && At(full, pos, EmitAll(pos, records)) && pos + |EmitAll(pos, records)| == |full|
    requires pos <= InitialBlock(o)
    ensures Scan(file, InitialBlock(o), o, cs, o > 0, None).reports == []
      <==> !(InitialBlock(o) < o && Straddles(pos, records, o, |file|))
    decreases |records|
  {
    hide Scan, Emit, At, EmitAll, InitialBlock, Straddles, Align;
    var start := InitialBlock(o);
    InitialBlockBounds(o);
    EmitNothing(pos);
    if start <= Align(pos) {
      AlignedReports(file, full, pos, records, o, cs);
    } else if records == [] {
      ScanPastEnd(file, start, o, cs, o > 0);
      StraddlesLater(pos, records, o, |file|);
    } else {
      HasAll(full, pos, records);
      var end := EmitEnd(pos, records[0], true);
      if end <= start {
        StraddlesLater(pos, records, o, |file|);
        InitialReports(file, full, end, records[1..], o, cs);
      } else {
        InsideReports(file, full, pos, records, o, cs);
      }
    }
  }

  /**
   * On a log cut at any byte the reader is silent about an initial offset exactly when it reads from the offset
   * itself, or no record that starts before the offset goes on past the end of the offset's block with a fragment
   * that is there whole.
   */
  lemma {:induction false} OffsetIsSilentIff(records: seq<seq<byte>>, t: nat, o: nat, cs: bool)
    requires t <= |EmitAll(0, records)|
    ensures ReadLog(EmitAll(0, records)[..t], o, cs).reports == []
      <==> !(InitialBlock(o) < o && Straddles(0, records, o, t))
  {
    hide Scan, EmitAll, Straddles, InitialBlock;
    var full := EmitAll(0, records);
    assert full[0..|full|] == full;
    InitialReports(full[..t], full, 0, records, o, cs);
  }

  /** One record of a block's length, read from offset 1, is reported as a corruption. */
  lemma {:induction false} SpuriousReport(record: seq<byte>, cs: bool)
    requires |record| == BLOCK
    ensures ReadLog(EmitAll(0, [record]), 1, cs).reports != []
  {
    hide ReadLog, Emit, EmitAll, NextEnd;
    var full := EmitAll(0, [record]);
    assert full[..|full|] == full;
    OffsetIsSilentIff([record], |full|, 1, cs);
    OneRecord(record);
    NextEndUnfolds(0, BLOCK, BLOCK);
    NextEndUnfolds(BLOCK, HEADER, BLOCK);
    assert InitialBlock(1) == 0 && Align(0) == 0 && Align(BLOCK) == BLOCK;
  }

  lemma OneRecord(record: seq<byte>)
    ensures EmitAll(0, [record]) == Emit(0, record, true) && |Emit(0, record, true)| >= HEADER + |record|
    ensures |record| == BLOCK ==> |Emit(0, record, true)| >= BLOCK + 2 * HEADER
  {
    hide Physical, Zeroes;
    assert [record][1..] == [];
    assert EmitAll(|Emit(0, record, true)|, []) == [];
    if |record| == BLOCK {
      assert Align(0) == 0 && Fit(0, BLOCK) == BLOCK - HEADER;
      assert |Fragment(0, record, true)| == BLOCK;
    }
  }
}
