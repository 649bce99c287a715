/**
 * What the reader makes of a log after an append that failed: the writer goes on from where it believes the file
 * ends, and the reader from where it does.
 */
module LogDamage {
  import opened Lists
  import opened Ordering
  import opened Bytes
  import Crc32c
  import opened LogFormat
  import opened LogTheory

  /** The reader returns this record, and says that it starts at x. */
  predicate Returns(out: Output, x: nat, data: seq<byte>) { (x, data) in out.records }

  /** Whole records are returned, whatever follows them. */
  lemma {:induction false} ScanWhole(file: seq<byte>, pos: nat, records: seq<seq<byte>>, cs: bool)
    requires At(file, pos, EmitAll(pos, records))
    ensures var all := Scan(file, pos, 0, cs, false, None);
            var rest := Scan(file, pos + |EmitAll(pos, records)|, 0, cs, false, None);
            all.records == Expected(pos, records, 0, |file|) + rest.records && all.reports == rest.reports
    decreases |records|
  {
    hide Scan, Emit, At, Align;
    if records != [] {
      HasAll(file, pos, records);
      var end := EmitEnd(pos, records[0], true);
      EmitFits(file, pos, records[0]);
      ScanRecord(file, file, pos, records[0], true, 0, cs, false, None, Partial(Align(pos), records[0]));
      ScanWhole(file, end, records[1..], cs);
    }
  }

  lemma EmitFits(file: seq<byte>, pos: nat, record: seq<byte>)
    requires At(file, pos, Emit(pos, record, true))
    ensures EmitEnd(pos, record, true) <= |file|
  {
  }

  /** The records expected from pos on start before position x. */
  lemma {:induction false} ExpectedBefore(pos: nat, records: seq<seq<byte>>, t: nat, x: nat)
    requires pos + |EmitAll(pos, records)| <= x
    ensures forall y :: y in Expected(pos, records, 0, t) ==> y.0 < x
    decreases |records|
  {
    hide Emit, Align;
    if records != [] {
      var end := EmitEnd(pos, records[0], true);
      EmitBeyond(pos, records[0]);
      ExpectedBefore(end, records[1..], t, x);
    }
  }

  lemma EmitBeyond(pos: nat, record: seq<byte>)
    ensures Align(pos) < EmitEnd(pos, record, true)
  {
    hide Physical, Zeroes, Leftover;
  }

  // ----- Where the reader can no longer find a record -----

  /** What one physical read adds to the records returned. */
  lemma ScanOne(file: seq<byte>, p: nat, cs: bool, resync: bool, frag: Option<Partial>)
    ensures var r, all := ReadPhys(file, p, 0, cs), Scan(file, p, 0, cs, resync, frag);
      if r.code == EOF then all.records == []
      else
        var s := Reassemble(r, 0, resync, frag);
        all.records == RecordOf(s) + Scan(file, r.next, 0, cs, s.resync, s.frag).records
  {
    hide ReadPhys, Reassemble;
  }

  function RecordOf(s: Step): seq<(nat, seq<byte>)> {
    if s.record.Some? then [(s.record.value.start, s.record.value.data)] else []
  }

  /** Records are assembled from fragments that start a record, and keep their start. */
  lemma StartsFrom(r: Physicals, resync: bool, frag: Option<Partial>, x: nat)
    requires r.code != EOF && r.next >= HEADER + |r.data| && (frag.Some? ==> frag.value.start != x)
    requires r.code == FULL || r.code == FIRST ==> r.next - HEADER - |r.data| != x
    ensures var s := Reassemble(r, 0, resync, frag);
      && (s.record.Some? ==> s.record.value.start != x) && (s.frag.Some? ==> s.frag.value.start != x)
      && (!resync ==> !s.resync)
  {
  }

  /** Past x, and with nothing under assembly that started there, no record that starts at x is returned. */
  lemma {:induction false} NoneAt(file: seq<byte>, p: nat, cs: bool, resync: bool, frag: Option<Partial>, x: nat)
    requires x < p && (frag.Some? ==> frag.value.start != x)
    ensures forall y :: y in Scan(file, p, 0, cs, resync, frag).records ==> y.0 != x
    decreases |file| - p
  {
    hide ReadPhys, Scan, Reassemble;
    ScanOne(file, p, cs, resync, frag);
    var r := ReadPhys(file, p, 0, cs);
    if r.code != EOF {
      var s := Reassemble(r, 0, resync, frag);
      StartsFrom(r, resync, frag, x);
      NoneAt(file, r.next, cs, s.resync, s.frag, x);
    }
  }

  /** The same when the next read leaps over x. */
  lemma {:induction false} LeapsOver(file: seq<byte>, p: nat, cs: bool, frag: Option<Partial>, x: nat)
    requires frag.Some? ==> frag.value.start != x
    requires var r := ReadPhys(file, p, 0, cs);
      r.code != EOF ==> x < r.next && (r.code == FULL || r.code == FIRST ==> r.next - HEADER - |r.data| != x)
    ensures forall y :: y in Scan(file, p, 0, cs, false, frag).records ==> y.0 != x
  {
    hide ReadPhys, Scan, Reassemble;
    ScanOne(file, p, cs, false, frag);
    var r := ReadPhys(file, p, 0, cs);
    if r.code != EOF {
      var s := Reassemble(r, 0, false, frag);
      StartsFrom(r, false, frag, x);
      NoneAt(file, r.next, cs, s.resync, s.frag, x);
    }
  }

  /** A read at a physical record of which only the first j bytes were written, and then something else. */
  lemma {:induction false} ReadTorn(file: seq<byte>, a: nat, t: byte, data: seq<byte>, j: nat, cs: bool)
    requires |data| <= 0xffff && 0 < j < HEADER + |data| <= Leftover(a)
    requires At(file, a, Physical(t, data)[..j])
    ensures var r := ReadPhys(file, a, 0, cs);
      r.code != EOF ==> a + j < r.next && (r.code == FULL || r.code == FIRST ==> r.next - HEADER - |r.data| == a)
    ensures j >= HEADER && |file| < a + HEADER + |data| ==>
      var r := ReadPhys(file, a, 0, cs); r.code == EOF && r.drop == None
  {
    hide Checksum, ChecksumOk, Leftover, Zeroes;
    if a < |file| && a + HEADER <= BlockEnd(file, a) {
      LeftoverEnds(a, |file|);
      if j >= HEADER {
        TornLength(file, a, t, data, j);
      }
    }
  }

  lemma TornLength(file: seq<byte>, a: nat, t: byte, data: seq<byte>, j: nat)
    requires |data| <= 0xffff && HEADER <= j <= HEADER + |data| && At(file, a, Physical(t, data)[..j])
    ensures LengthOf(file, a) == |data| && (t > 0 ==> file[a + 6] > 0)
  {
    hide Checksum;
    var bs := Physical(t, data);
    assert file[a + 4] == file[a..a + j][4] == bs[4];
    assert file[a + 5] == file[a..a + j][5] == bs[5];
    assert file[a + 6] == file[a..a + j][6] == bs[6];
  }

  /** A physical record across the end of a block is a bad one, and costs the rest of the block. */
  lemma {:induction false} ReadCrossing(file: seq<byte>, a: nat, t: byte, data: seq<byte>, cs: bool)
    requires |data| <= 0xffff && HEADER <= Leftover(a) < HEADER + |data| && At(file, a, Physical(t, data))
    ensures var r := ReadPhys(file, a, 0, cs); r.code == BAD && r.next == a + Leftover(a) && r.data == []
  {
    hide Checksum, ChecksumOk, Leftover;
    Fields(file, a, t, data);
    LeftoverEndsBlock(a);
  }

  // ----- Reading on from a fragment -----

  /** Over a whole fragment the reader goes on to the next one; records from there on are not affected. */
  lemma {:induction false} ScanOver(file: seq<byte>, pos: nat, left: seq<byte>, begin: bool, cs: bool,
      frag: Option<Partial>)
    returns (after: Option<Partial>)
    requires At(file, pos, Fragment(pos, left, begin)) && (frag.Some? ==> frag.value.start < pos)
    ensures var next := FragmentEnd(pos, |left|);
      && (after.Some? ==> after.value.start < next)
      && forall y: (nat, seq<byte>) :: y.0 >= next ==>
           (y in Scan(file, pos, 0, cs, false, frag).records <==> y in Scan(file, next, 0, cs, false, after).records)
  {
    hide ReadPhys, Align, Fit, Fragment, At, Scan;
    var k, next := Fit(Align(pos), |left|), FragmentEnd(pos, |left|);
    var r := Phys(TypeOf(begin, k == |left|) as nat, left[..k], next, None);
    ReadWhole(file, pos, left, begin, cs);
    ScanOne(file, pos, cs, false, frag);
    EndsBeyond(pos, |left|);
    var s := Reassemble(r, 0, false, frag);
    after := s.frag;
    assert s.record.Some? ==> s.record.value.start < next;
    assert after.Some? ==> after.value.start < next;
  }

  lemma EndsBeyond(pos: nat, n: nat)
    ensures FragmentEnd(pos, n) >= pos + HEADER + Fit(Align(pos), n)
  {
    hide Leftover;
  }

  lemma ReadWhole(file: seq<byte>, pos: nat, left: seq<byte>, begin: bool, cs: bool)
    requires At(file, pos, Fragment(pos, left, begin))
    ensures var k := Fit(Align(pos), |left|);
      FragmentEnd(pos, |left|) <= |file|
      && ReadPhys(file, pos, 0, cs) ==
        Phys(TypeOf(begin, k == |left|) as nat, left[..k], FragmentEnd(pos, |left|), None)
  {
    hide ReadPhys, Physical, Align, Fit;
    var k := Fit(Align(pos), |left|);
    FragmentHolds(file, pos, left, begin);
    ReadSkipsTrailer(file, pos, 0, cs);
    ReadRecordAt(file, file, Align(pos), TypeOf(begin, k == |left|), left[..k], 0, cs);
  }

  /** A record is returned from where it starts, whatever was under assembly before it. */
  lemma {:induction false} ScanFresh(file: seq<byte>, pos: nat, record: seq<byte>, cs: bool, frag: Option<Partial>)
    requires At(file, pos, Emit(pos, record, true))
    ensures Returns(Scan(file, pos, 0, cs, false, frag), Align(pos), record)
  {
    hide Emit, At, Align;
    EmitFits(file, pos, record);
    ScanRecord(file, file, pos, record, true, 0, cs, false, None, Partial(Align(pos), record));
    Forgets(file, pos, record, cs, frag);
    var rest := Scan(file, EmitEnd(pos, record, true), 0, cs, false, None);
    hide Scan;
    assert rest.Then(Align(pos), record).records[0] == (Align(pos), record);
  }

  /** At the start of a record the reader forgets what was under assembly. */
  lemma {:induction false} Forgets(file: seq<byte>, pos: nat, record: seq<byte>, cs: bool, frag: Option<Partial>)
    requires At(file, pos, Emit(pos, record, true))
    ensures Scan(file, pos, 0, cs, false, frag).records == Scan(file, pos, 0, cs, false, None).records
  {
    hide Scan, ReadPhys, Emit, Align, Fit, At;
    EmitFits(file, pos, record);
    EmitHead(file, pos, record, true);
    ReadFragment(file, file, pos, record, true, 0, cs);
    ForgetsAt(file, pos, cs, frag);
  }

  lemma {:induction false} ForgetsAt(file: seq<byte>, pos: nat, cs: bool, frag: Option<Partial>)
    requires var r := ReadPhys(file, pos, 0, cs); r.code == FULL || r.code == FIRST
    ensures Scan(file, pos, 0, cs, false, frag).records == Scan(file, pos, 0, cs, false, None).records
  {
    hide ReadPhys;
  }

  // ----- A record written for a later position than it lies at -----

  lemma BlockLater(pos: nat)
    ensures Leftover(pos + BLOCK) == Leftover(pos) && Align(pos + BLOCK) == Align(pos) + BLOCK
  {
  }

  /** Positions that differ by a block are the same to the writer. */
  lemma {:induction false} EmitBlockLater(pos: nat, left: seq<byte>, begin: bool)
    ensures Emit(pos + BLOCK, left, begin) == Emit(pos, left, begin)
    decreases Turns(pos, |left|)
  {
    hide Align, Leftover, Zeroes, Physical, Turns;
    BlockLater(pos);
    BlockLater(Align(pos));
    var k := Fit(Align(pos), |left|);
    FitProgress(pos, |left|);
    if k < |left| {
      EmitBlockLater(FragmentEnd(pos, |left|), left[k..], false);
    }
  }

  /** Position a is where the reader stands, w where the writer believes it is. */
  ghost predicate Shifted(a: nat, w: nat) {
    Align(a) == a && Align(w) == w && a + HEADER <= w <= a + Leftover(a)
  }

  /** Where in the blocks of reader and writer the first fragment of a record ends. */
  lemma ShiftedEnds(a: nat, w: nat, n: nat)
    requires Shifted(a, w) && w - a != BLOCK
    ensures var k := Fit(w, n);
      (k < n && HEADER + k <= Leftover(a) ==>
            && Leftover(a) == w - a + HEADER + k
            && Leftover(a + HEADER + k) == w - a
            && (w + HEADER + k) % BLOCK == 0)
  {
    hide Leftover;
    var k := Fit(w, n);
    LeftoverAdd(a, w - a);
    LeftoverAdd(a, HEADER + k);
    LeftoverEndsBlock(w);
  }

  lemma SecondFragment(v: nat, n: nat)
    requires v % BLOCK == 0
    ensures Align(v) == v && Fit(v, n) == if n < BLOCK - HEADER then n else BLOCK - HEADER
  {
  }

  /** What the first fragment of a record is made of, wherever it lies. */
  lemma ShiftedHead(file: seq<byte>, q: nat, v: nat, left: seq<byte>, begin: bool)
    requires At(file, q, Emit(v, left, begin)) && Align(v) == v
    ensures var k := Fit(v, |left|);
      && At(file, q, Physical(TypeOf(begin, k == |left|), left[..k]))
      && if k == |left| then |Emit(v, left, begin)| == HEADER + k
         else
           && At(file, q + HEADER + k, Emit(v + HEADER + k, left[k..], false))
           && |Emit(v, left, begin)| == HEADER + k + |Emit(v + HEADER + k, left[k..], false)|
  {
    hide Physical, Align, Fit, At, Zeroes;
    var k := Fit(v, |left|);
    var bs := Physical(TypeOf(begin, k == |left|), left[..k]);
    assert Zeroes(0) + bs == bs;
    if k < |left| {
      AtSplit(file, q, bs, Emit(v + HEADER + k, left[k..], false));
    }
  }

  /** The second fragment, written for the start of a block, must fit in what is left of the reader's block. */
  lemma {:induction false} ScanShiftedRest(file: seq<byte>, q: nat, v: nat, rest: seq<byte>, cs: bool, p: Partial)
    requires At(file, q, Emit(v, rest, false)) && v % BLOCK == 0 && HEADER <= Leftover(q) < BLOCK && p.start < q
    ensures Returns(Scan(file, q, 0, cs, false, Some(p)), p.start, p.data + rest)
      <==> |Emit(v, rest, false)| <= Leftover(q)
  {
    hide ReadPhys, Emit, At, Align, Leftover, Physical;
    SecondFragment(v, |rest|);
    ShiftedHead(file, q, v, rest, false);
    var k := Fit(v, |rest|);
    assert rest[..k] + rest[k..] == rest;
    if HEADER + k <= Leftover(q) {
      hide Fit;
      assert rest[..k] == rest;
      ReadRecordWhole(file, q, TypeOf(false, true), rest, cs);
      assert ReadPhys(file, q, 0, cs) == Phys(LAST, rest, q + HEADER + k, None);
      var all := Scan(file, q, 0, cs, false, Some(p));
      assert all.records[0] == (p.start, p.data + rest);
    } else {
      ReadCrossing(file, q, TypeOf(false, k == |rest|), rest[..k], cs);
      var r := ReadPhys(file, q, 0, cs);
      NoneAt(file, r.next, cs, false, None, p.start);
    }
  }

  lemma ReadRecordWhole(file: seq<byte>, p: nat, t: byte, data: seq<byte>, cs: bool)
    requires |data| <= 0xffff && At(file, p, Physical(t, data)) && 0 < t <= 4 && HEADER + |data| <= Leftover(p)
    ensures ReadPhys(file, p, 0, cs) == Phys(t as nat, data, p + HEADER + |data|, None)
  {
    hide ReadPhys, Physical, Leftover;
    ReadRecordAt(file, file, p, t, data, 0, cs);
  }

  /**
   * A record written for position w, at position a of the file: the reader returns it exactly when all of it lies
   * in the reader's block, or the two positions are a whole block apart.
   */
  lemma {:induction false} ScanShifted(file: seq<byte>, a: nat, w: nat, record: seq<byte>, cs: bool,
      frag: Option<Partial>)
    requires Shifted(a, w) && At(file, a, Emit(w, record, true)) && (frag.Some? ==> frag.value.start < a)
    ensures Returns(Scan(file, a, 0, cs, false, frag), a, record)
      <==> w - a == BLOCK || |Emit(w, record, true)| <= Leftover(a)
  {
    hide ReadPhys, Emit, At, Physical, Fit, Scan;
    if w - a == BLOCK {
      EmitBlockLater(a, record, true);
      ScanFresh(file, a, record, cs, frag);
    } else {
      ShiftedEnds(a, w, |record|);
      ShiftedHead(file, a, w, record, true);
      var k := Fit(w, |record|);
      var t := TypeOf(true, k == |record|);
      if HEADER + k > Leftover(a) {
        ReadCrossing(file, a, t, record[..k], cs);
        LeapsOver(file, a, cs, frag, a);
      } else {
        ReadRecordWhole(file, a, t, record[..k], cs);
        assert record[..k] + record[k..] == record;
        FirstOfTwo(file, a, record, k, cs, frag);
        if k < |record| {
          ScanShiftedRest(file, a + HEADER + k, w + HEADER + k, record[k..], cs, Partial(a, record[..k]));
        }
      }
    }
  }

  /** Reading the first fragment of a record that has at most two. */
  lemma FirstOfTwo(file: seq<byte>, a: nat, record: seq<byte>, k: nat, cs: bool, frag: Option<Partial>)
    requires k <= |record|
    requires ReadPhys(file, a, 0, cs) == Phys(TypeOf(true, k == |record|) as nat, record[..k], a + HEADER + k, None)
    ensures var all := Scan(file, a, 0, cs, false, frag);
      if k == |record| then Returns(all, a, record)
      else all.records == Scan(file, a + HEADER + k, 0, cs, false, Some(Partial(a, record[..k]))).records
  {
    hide ReadPhys, Scan;
    ScanOne(file, a, cs, false, frag);
    var all := Scan(file, a, 0, cs, false, frag);
    if k == |record| {
      assert record[..k] == record;
      assert all.records[0] == (a, record);
    }
  }

  // ----- The record after an append that failed -----

  /** The fragment in which an append fails: its position, what is left of the record there, whether it is the first. */
  function Failing(pos: nat, left: seq<byte>, begin: bool, fate: Fate): (nat, seq<byte>, bool)
    requires fate.Fails?
    decreases Turns(pos, |left|)
  {
    var k := Fit(Align(pos), |left|);
    FitProgress(pos, |left|);
    if fate.fragment == 0 || k == |left| then (pos, left, begin)
    else Failing(FragmentEnd(pos, |left|), left[k..], false, Later(fate))
  }

  /** The trailer that the writer puts before the next record. */
  function Trailer(pos: nat, n: nat): nat { Align(FragmentEnd(pos, n)) - FragmentEnd(pos, n) }

  /**
   * The failed write stopped after the checksum and the lower length byte of a header, and that byte leads over
   * zeroes just to the next record.
   */
  predicate LeadsOn(pos: nat, left: seq<byte>, kept: nat) {
    var a, z := Align(pos), Trailer(pos, |left|);
    kept == a - pos + 5 && z >= 3 && Fit(a, |left|) % 256 == z - 2
  }

  /** Then the reader gets there if it takes no checksum, or that of the failed fragment is also that of the zeroes. */
  predicate GetsOn(pos: nat, left: seq<byte>, begin: bool, cs: bool)
    requires Trailer(pos, |left|) >= 2
  {
    var k := Fit(Align(pos), |left|);
    !cs || Crc32c.Value([TypeOf(begin, k == |left|)] + left[..k]) ==
      Crc32c.Value([0] + Zeroes(Trailer(pos, |left|) - 2))
  }

  /**
   * The failed write leaves the log readable for the next record, b: either all of the fragment was written; or
   * nothing of it but the trailer before it, or as much of that as the trailer before b completes, and b fits in
   * the rest of the block; or the reader is led on to b, and b fits in what is left of the block there.
   */
  ghost predicate HarmlessAt(pos: nat, left: seq<byte>, begin: bool, kept: nat, b: seq<byte>, cs: bool) {
    var a, k, next, z := Align(pos), Fit(Align(pos), |left|), FragmentEnd(pos, |left|), Trailer(pos, |left|);
    || kept >= |Fragment(pos, left, begin)|
    || (kept + z == a - pos && (next + z - a == BLOCK || |Emit(next + z, b, true)| <= Leftover(a)))
    || (LeadsOn(pos, left, kept) && GetsOn(pos, left, begin, cs) && HEADER <= k + 2
      && |Emit(next + z, b, true)| <= k + 2)
  }

  ghost predicate Harmless(pos: nat, left: seq<byte>, begin: bool, fate: Fate, b: seq<byte>, cs: bool)
    requires fate.Fails?
  {
    var (p, rest, first) := Failing(pos, left, begin, fate);
    HarmlessAt(p, rest, first, fate.kept, b, cs)
  }

  /** A read where a header fits is of the physical record there. */
  lemma {:induction false} StartsHere(file: seq<byte>, a: nat, cs: bool)
    requires Align(a) == a
    ensures var r := ReadPhys(file, a, 0, cs); r.code == FULL || r.code == FIRST ==> r.next - HEADER - |r.data| == a
  {
    hide ChecksumOk, TypeCode;
  }

  /** The next read leaps over x, or stops short of it and the one after it leaps. */
  lemma {:induction false} LeapsTwice(file: seq<byte>, a: nat, cs: bool, frag: Option<Partial>, x: nat)
    requires Align(a) == a && a != x && (frag.Some? ==> frag.value.start != x)
    requires var r := ReadPhys(file, a, 0, cs);
      r.code != EOF ==> x < r.next || (Align(r.next) != x && x < Align(r.next) + HEADER)
    ensures forall y :: y in Scan(file, a, 0, cs, false, frag).records ==> y.0 != x
  {
    hide ReadPhys, Align, Scan, Reassemble;
    StartsHere(file, a, cs);
    ScanOne(file, a, cs, false, frag);
    var r := ReadPhys(file, a, 0, cs);
    if r.code != EOF {
      var s := Reassemble(r, 0, false, frag);
      StartsFrom(r, false, frag, x);
      if x < r.next {
        NoneAt(file, r.next, cs, s.resync, s.frag, x);
      } else {
        LeapsNext(file, r.next, cs, s.frag, x);
      }
    }
  }

  lemma {:induction false} LeapsNext(file: seq<byte>, q: nat, cs: bool, frag: Option<Partial>, x: nat)
    requires Align(q) != x && x < Align(q) + HEADER && (frag.Some? ==> frag.value.start != x)
    ensures forall y :: y in Scan(file, q, 0, cs, false, frag).records ==> y.0 != x
  {
    hide ReadPhys, Scan;
    ReadSkipsTrailer(file, q, 0, cs);
    AlignTwice(q);
    hide Align;
    StartsHere(file, Align(q), cs);
    LeapsOver(file, q, cs, frag, x);
  }

  lemma AlignTwice(q: nat)
    ensures Align(Align(q)) == Align(q)
  {
    hide Leftover;
    LeftoverAdd(q, Leftover(q));
  }

  /** A read at a record cut after j bytes, then z zeroes up to the end of the block, then the next record, at x. */
  lemma {:induction false} ReadCut(file: seq<byte>, a: nat, t: byte, data: seq<byte>, j: nat, z: nat, cs: bool)
    requires |data| <= 0xffff && 0 < j < HEADER + |data| && 0 < z < HEADER && HEADER + |data| + z == Leftover(a)
    requires At(file, a, Physical(t, data)[..j]) && At(file, a + j, Zeroes(z)) && a + j + z < |file|
    requires !(j == 5 && z >= 3 && |data| % 256 == z - 2)
    ensures var r, x := ReadPhys(file, a, 0, cs), a + j + z;
      r.code != EOF ==> x < r.next || (Align(r.next) != x && x < Align(r.next) + HEADER)
  {
    hide Checksum, ChecksumOk, Leftover, TypeCode;
    var x, e := a + j + z, BlockEnd(file, a);
    LeftoverAdd(a, 0);
    assert x < e;
    if a + HEADER <= e && j + z >= HEADER {
      CutFields(file, a, t, data, j, z);
      AlignNear(a, |data|, z);
      if j == 5 && a + HEADER + |data| % 256 < x {
        AlignShort(a, |data| % 256, x);
      }
    }
  }

  /** The header fields read from such a record. */
  lemma CutFields(file: seq<byte>, a: nat, t: byte, data: seq<byte>, j: nat, z: nat)
    requires |data| <= 0xffff && 0 < j < HEADER + |data| && 0 < z < HEADER && j + z >= HEADER
    requires At(file, a, Physical(t, data)[..j]) && At(file, a + j, Zeroes(z)) && a + j + z < |file|
    ensures j <= 4 ==> LengthOf(file, a) == 0 && TypeCode(file[a + 6]) == ZERO
    ensures j == 5 ==> LengthOf(file, a) == |data| % 256 && TypeCode(file[a + 6]) == ZERO
    ensures j >= 6 ==> LengthOf(file, a) == |data|
  {
    hide Checksum;
    CutByte(file, a, t, data, j, z, 4);
    CutByte(file, a, t, data, j, z, 5);
    CutByte(file, a, t, data, j, z, 6);
  }

  lemma CutByte(file: seq<byte>, a: nat, t: byte, data: seq<byte>, j: nat, z: nat, i: nat)
    requires |data| <= 0xffff && j < HEADER + |data| && i < j + z
    requires At(file, a, Physical(t, data)[..j]) && At(file, a + j, Zeroes(z))
    ensures a + i < |file| && file[a + i] == if i < j then Physical(t, data)[i] else 0
  {
    hide Physical, At;
    if i < j {
      AtIndex(file, a, Physical(t, data)[..j], i);
    } else {
      AtIndex(file, a + j, Zeroes(z), i - j);
    }
  }

  lemma AlignNear(a: nat, n: nat, z: nat)
    requires 0 < z < HEADER && HEADER + n + z == Leftover(a)
    ensures Align(a + HEADER + n) == a + Leftover(a)
  {
    hide Leftover;
    LeftoverAdd(a, HEADER + n);
  }

  /** A short step within the block. */
  lemma AlignShort(a: nat, n: nat, x: nat)
    requires a + HEADER + n < x < a + Leftover(a) && x < a + 2 * HEADER
    ensures Align(a + HEADER + n) == a + HEADER + n || Align(a + HEADER + n) == a + Leftover(a)
  {
    hide Leftover;
    LeftoverAdd(a, HEADER + n);
  }

  /** The fragment that failed was cut, and not harmlessly: the next record is not found. */
  lemma {:induction false} CutUnread(file: seq<byte>, pos: nat, left: seq<byte>, begin: bool, kept: nat, cs: bool,
      frag: Option<Partial>)
    requires var bs, z := Fragment(pos, left, begin), Trailer(pos, |left|);
      && kept < |bs| && kept + z != Align(pos) - pos && !LeadsOn(pos, left, kept)
      && At(file, pos, bs[..kept]) && At(file, pos + kept, Zeroes(z)) && pos + kept + z < |file|
    requires frag.Some? ==> frag.value.start < pos
    ensures forall y :: y in Scan(file, pos, 0, cs, false, frag).records ==> y.0 != pos + kept + Trailer(pos, |left|)
  {
    hide ReadPhys, Scan, Physical, Zeroes, LeadsOn;
    var a, k, z := Align(pos), Fit(Align(pos), |left|), Trailer(pos, |left|);
    var x := pos + kept + z;
    AlignTwice(pos);
    TrailerEnds(pos, |left|);
    if kept <= a - pos {
      LeapsNext(file, pos, cs, frag, x);
    } else {
      ReadSkipsTrailer(file, pos, 0, cs);
      CutRecord(file, pos, left, begin, kept);
      var j, t := kept - (a - pos), TypeOf(begin, k == |left|);
      if z == 0 {
        ReadTorn(file, a, t, left[..k], j, cs);
      } else {
        NotLedOn(pos, left, kept);
        ReadCut(file, a, t, left[..k], j, z, cs);
      }
      LeapsTwice(file, a, cs, frag, x);
      SkipTrailer(file, pos, cs, frag);
    }
  }

  lemma NotLedOn(pos: nat, left: seq<byte>, kept: nat)
    requires !LeadsOn(pos, left, kept)
    ensures !(kept - (Align(pos) - pos) == 5 && Trailer(pos, |left|) >= 3
      && Fit(Align(pos), |left|) % 256 == Trailer(pos, |left|) - 2)
  {
  }

  /** The trailer before the next record ends the block of the fragment. */
  lemma TrailerEnds(pos: nat, n: nat)
    ensures var a, z := Align(pos), Trailer(pos, n);
      z < HEADER && (z > 0 ==> HEADER + Fit(a, n) + z == Leftover(a)) && Shifted(a, FragmentEnd(pos, n) + z)
  {
    hide Leftover;
    var a, next := Align(pos), FragmentEnd(pos, n);
    AlignTwice(pos);
    AlignTwice(next);
    LeftoverAdd(a, next - a);
  }

  lemma {:induction false} SkipTrailer(file: seq<byte>, pos: nat, cs: bool, frag: Option<Partial>)
    requires Align(pos) <= |file|
    ensures Scan(file, pos, 0, cs, false, frag) == Scan(file, Align(pos), 0, cs, false, frag)
  {
    hide ReadPhys, Align;
    ReadSkipsTrailer(file, pos, 0, cs);
  }

  lemma CutRecord(file: seq<byte>, pos: nat, left: seq<byte>, begin: bool, kept: nat)
    requires Align(pos) - pos < kept <= |Fragment(pos, left, begin)|
    requires At(file, pos, Fragment(pos, left, begin)[..kept])
    ensures var k := Fit(Align(pos), |left|);
      At(file, Align(pos), Physical(TypeOf(begin, k == |left|), left[..k])[..kept - (Align(pos) - pos)])
  {
    hide Physical, Zeroes, Align, Fit;
    var k := Fit(Align(pos), |left|);
    var bs := Physical(TypeOf(begin, k == |left|), left[..k]);
    var n := Align(pos) - pos;
    assert (Zeroes(n) + bs)[..kept] == Zeroes(n) + bs[..kept - n];
    AtSplit(file, pos, Zeroes(n), bs[..kept - n]);
  }

  lemma FragmentBehind(next: nat, b: seq<byte>)
    ensures var z := Align(next) - next;
      && Fragment(next, b, true) == Zeroes(z) + Fragment(next + z, b, true)
      && FragmentEnd(next + z, |b|) == FragmentEnd(next, |b|) && Fit(Align(next + z), |b|) == Fit(Align(next), |b|)
  {
    hide Physical, Zeroes;
    AlignTwice(next);
    hide Align, Fit;
    var k := Fit(Align(next), |b|);
    assert Zeroes(0) + Physical(TypeOf(true, k == |b|), b[..k]) == Physical(TypeOf(true, k == |b|), b[..k]);
  }

  /** A record is emitted as the trailer before it, and as it would be behind that. */
  lemma EmitBehind(file: seq<byte>, x: nat, next: nat, b: seq<byte>)
    requires At(file, x, Emit(next, b, true))
    ensures var z := Align(next) - next;
      At(file, x, Zeroes(z)) && At(file, x + z, Emit(next + z, b, true)) && x + z < |file|
  {
    hide Zeroes, At, Fragment, FragmentEnd, Fit, Align;
    var z, k := Align(next) - next, Fit(Align(next), |b|);
    FragmentBehind(next, b);
    if k < |b| {
      Regroup(Zeroes(z), Fragment(next + z, b, true), Emit(FragmentEnd(next, |b|), b[k..], false));
    }
    AtSplit(file, x, Zeroes(z), Emit(next + z, b, true));
    AtWithin(file, x + z, Emit(next + z, b, true));
  }

  lemma AtWithin(file: seq<byte>, x: nat, bs: seq<byte>)
    requires At(file, x, bs) && |bs| > 0
    ensures x < |file|
  {
  }

  /** A read at a header of which the checksum and a byte of the length are followed by zeroes up to x. */
  lemma {:induction false} ReadLead(file: seq<byte>, a: nat, t: byte, data: seq<byte>, z: nat, cs: bool)
    requires |data| <= 0xffff && 3 <= z < HEADER && |data| % 256 == z - 2 && HEADER + |data| + z == Leftover(a)
    requires At(file, a, Physical(t, data)[..5]) && At(file, a + 5, Zeroes(z)) && a + 5 + z < |file|
    ensures var r, x := ReadPhys(file, a, 0, cs), a + 5 + z;
      if !cs || Crc32c.Value([t] + data) == Crc32c.Value([0] + Zeroes(z - 2))
        then r == Phys(ZERO, Zeroes(z - 2), x, None)
      else r.code == BAD && x < r.next
  {
    hide ReadPhys, Physical, ChecksumOk, Leftover, TypeCode, Zeroes, Crc32c.Value, At, BlockEnd;
    CutFields(file, a, t, data, 5, z);
    LeadChecksum(file, a, t, data, z);
    ReadIsParse(file, a, cs, a + 5 + z);
  }

  /** A read where a header fits in the file parses it. */
  lemma ReadIsParse(file: seq<byte>, a: nat, cs: bool, x: nat)
    requires a + HEADER <= x < |file| && x < a + Leftover(a)
    ensures x < BlockEnd(file, a) <= |file| && ReadPhys(file, a, 0, cs) == Parse(file, a, BlockEnd(file, a), 0, cs)
  {
    hide Leftover, Parse;
  }

  lemma LeadChecksum(file: seq<byte>, a: nat, t: byte, data: seq<byte>, z: nat)
    requires |data| <= 0xffff && 3 <= z < HEADER
    requires At(file, a, Physical(t, data)[..5]) && At(file, a + 5, Zeroes(z)) && LengthOf(file, a) == z - 2
      && a + 5 + z < |file|
    ensures ChecksumOk(file, a) <==> Crc32c.Value([t] + data) == Crc32c.Value([0] + Zeroes(z - 2))
    ensures file[a + HEADER..a + HEADER + z - 2] == Zeroes(z - 2)
  {
    hide Checksum, Crc32c.Value, Crc32c.Unmask, DecodeFixed32;
    ChecksumAgrees(t, data);
    assert file[a..a + 4] == file[a..a + 5][..4] == Physical(t, data)[..4] == Checksum(t, data);
    var zs := file[a + 5..a + 5 + z];
    assert zs[1..] == [0] + Zeroes(z - 2) && zs[2..] == Zeroes(z - 2);
    assert file[a + 6..a + 5 + z] == zs[1..] && file[a + 7..a + 5 + z] == zs[2..];
  }

  /** Zeroes are no record, and end the one under assembly. */
  lemma {:induction false} ScanZeroes(file: seq<byte>, a: nat, data: seq<byte>, x: nat, cs: bool, frag: Option<Partial>)
    requires ReadPhys(file, a, 0, cs) == Phys(ZERO, data, x, None)
    ensures Scan(file, a, 0, cs, false, frag).records == Scan(file, x, 0, cs, false, None).records
  {
    hide ReadPhys;
  }

  /** Where the reader stands behind those zeroes. */
  lemma LeadEnds(a: nat, k: nat, z: nat, next: nat)
    requires Align(a) == a && 3 <= z < HEADER && next == a + HEADER + k && HEADER + k + z == Leftover(a)
      && k % 256 == z - 2
    ensures Leftover(a + 5 + z) == k + 2 && next + z == a + 5 + z + k + 2 && k + 2 < BLOCK
    ensures if HEADER <= k + 2 then Shifted(a + 5 + z, next + z) else Align(a + 5 + z) == next + z > a + 5 + z
  {
    hide Leftover;
    LeftoverAdd(a, 5 + z);
    LeftoverAdd(a, Leftover(a));
  }

  /** The reader is led to the next record, or not. */
  lemma {:induction false} AfterLead(file: seq<byte>, a: nat, t: byte, data: seq<byte>, z: nat, b: seq<byte>, cs: bool,
      frag: Option<Partial>)
    requires |data| <= 0xffff && Align(a) == a && 3 <= z < HEADER && HEADER + |data| + z == Leftover(a)
      && |data| % 256 == z - 2
    requires At(file, a, Physical(t, data)[..5]) && At(file, a + 5, Zeroes(z)) && a + 5 + z < |file|
    requires At(file, a + 5 + z, Emit(a + HEADER + |data| + z, b, true))
    requires frag.Some? ==> frag.value.start < a + 5 + z
    ensures Returns(Scan(file, a, 0, cs, false, frag), a + 5 + z, b) <==>
      && (!cs || Crc32c.Value([t] + data) == Crc32c.Value([0] + Zeroes(z - 2)))
      && HEADER <= |data| + 2 && |Emit(a + HEADER + |data| + z, b, true)| <= |data| + 2
  {
    hide ReadPhys, Scan, Physical, Zeroes, Emit, Crc32c.Value, Align, Leftover, At, Shifted;
    var x, next := a + 5 + z, a + HEADER + |data|;
    ReadLead(file, a, t, data, z, cs);
    LeadEnds(a, |data|, z, next);
    if !cs || Crc32c.Value([t] + data) == Crc32c.Value([0] + Zeroes(z - 2)) {
      ScanZeroes(file, a, Zeroes(z - 2), x, cs, frag);
      if HEADER <= |data| + 2 {
        ScanShifted(file, x, next + z, b, cs, None);
      } else {
        LeapsNext(file, x, cs, None, x);
      }
    } else {
      LeapsOver(file, a, cs, frag, x);
    }
  }

  /** The same at the fragment that failed. */
  lemma {:induction false} LedOn(file: seq<byte>, pos: nat, left: seq<byte>, begin: bool, kept: nat, b: seq<byte>,
      cs: bool, frag: Option<Partial>)
    requires var bs, next, z := Fragment(pos, left, begin), FragmentEnd(pos, |left|), Trailer(pos, |left|);
      && kept < |bs| && LeadsOn(pos, left, kept) && At(file, pos, bs[..kept]) && At(file, pos + kept, Zeroes(z))
      && At(file, pos + kept + z, Emit(next + z, b, true)) && pos + kept + z < |file|
    requires frag.Some? ==> frag.value.start < pos
    ensures var k, z := Fit(Align(pos), |left|), Trailer(pos, |left|);
      Returns(Scan(file, pos, 0, cs, false, frag), pos + kept + z, b)
      <==> GetsOn(pos, left, begin, cs) && HEADER <= k + 2 && |Emit(FragmentEnd(pos, |left|) + z, b, true)| <= k + 2
  {
    hide Scan, Physical, Zeroes, Emit, Crc32c.Value, Leftover, Fragment, Fit, At, Shifted, Align;
    var a, k := Align(pos), Fit(Align(pos), |left|);
    AlignTwice(pos);
    TrailerEnds(pos, |left|);
    CutRecord(file, pos, left, begin, kept);
    AfterLead(file, a, TypeOf(begin, k == |left|), left[..k], Trailer(pos, |left|), b, cs, frag);
    SkipTrailer(file, pos, cs, frag);
  }

  /** The reader at the fragment whose append failed, with record b written behind what is left of it. */
  lemma {:induction false} AfterCut(file: seq<byte>, pos: nat, left: seq<byte>, begin: bool, kept: nat, b: seq<byte>,
      cs: bool, frag: Option<Partial>)
    requires var bs, next := Written(Fragment(pos, left, begin), kept), FragmentEnd(pos, |left|);
      At(file, pos, bs) && At(file, pos + |bs|, Emit(next, b, true))
    requires frag.Some? ==> frag.value.start < pos
    ensures var bs := Written(Fragment(pos, left, begin), kept);
      Returns(Scan(file, pos, 0, cs, false, frag), pos + |bs| + Trailer(pos, |left|), b)
      <==> HarmlessAt(pos, left, begin, kept, b, cs)
  {
    hide Scan, Fragment, Emit, Fit, Leftover, Align, At, LeadsOn, GetsOn;
    var bs, next, a, z := Fragment(pos, left, begin), FragmentEnd(pos, |left|), Align(pos), Trailer(pos, |left|);
    EmitBehind(file, pos + |Written(bs, kept)|, next, b);
    TrailerEnds(pos, |left|);
    if kept >= |bs| {
      var after := ScanOver(file, pos, left, begin, cs, frag);
      ScanFresh(file, next, b, cs, after);
    } else if kept + z == a - pos {
      SkipTrailer(file, pos, cs, frag);
      ScanShifted(file, a, next + z, b, cs, frag);
    } else if LeadsOn(pos, left, kept) {
      LedOn(file, pos, left, begin, kept, b, cs, frag);
    } else {
      CutUnread(file, pos, left, begin, kept, cs, frag);
    }
  }

  /**
   * The reader at the start, or in the middle, of a record whose append failed, with record b appended after it:
   * b is returned exactly when the failed append was harmless.
   */
  lemma {:induction false} AfterAttempt(file: seq<byte>, pos: nat, left: seq<byte>, begin: bool, fate: Fate,
      b: seq<byte>, cs: bool, frag: Option<Partial>)
    requires var r := Attempt(pos, left, begin, fate);
      !r.ok && At(file, pos, r.bytes) && At(file, pos + |r.bytes|, Emit(r.next, b, true))
    requires fate.Fails? && (frag.Some? ==> frag.value.start < pos)
    ensures var r := Attempt(pos, left, begin, fate);
      Returns(Scan(file, pos, 0, cs, false, frag), pos + |r.bytes| + (Align(r.next) - r.next), b)
      <==> Harmless(pos, left, begin, fate, b, cs)
    decreases Turns(pos, |left|)
  {
    hide Scan, Fragment, Emit, Fit, Align, At, Turns, Written, HarmlessAt;
    AttemptUnfolds([], pos, left, begin, fate);
    if fate.fragment == 0 {
      AfterCut(file, pos, left, begin, fate.kept, b, cs, frag);
    } else {
      var k, next := Fit(Align(pos), |left|), FragmentEnd(pos, |left|);
      var bs, rest := Fragment(pos, left, begin), Attempt(next, left[k..], false, Later(fate));
      AtSplit(file, pos, bs, rest.bytes);
      var after := ScanOver(file, pos, left, begin, cs, frag);
      AfterAttempt(file, next, left[k..], false, Later(fate), b, cs, after);
    }
  }

  /**
   * A log of whole records, an append that failed, and then a record b, whatever follows: the reader returns b
   * from where it lies exactly when the failed append was harmless.
   */
  lemma {:induction false} NextRecordReads(records: seq<seq<byte>>, a: seq<byte>, fate: Fate, b: seq<byte>,
      file: seq<byte>, cs: bool)
    requires var before := EmitAll(0, records);
      var r := Attempt(|before|, a, true, fate);
      fate.Fails? && !r.ok && before + r.bytes + Emit(r.next, b, true) <= file
    ensures var before := EmitAll(0, records);
      var r := Attempt(|before|, a, true, fate);
      Returns(ReadLog(file, 0, cs), |before| + |r.bytes| + (Align(r.next) - r.next), b)
      <==> Harmless(|before|, a, true, fate, b, cs)
  {
    hide Scan, Emit, EmitAll, Attempt, Harmless, Expected, Align;
    var before := EmitAll(0, records);
    var r := Attempt(|before|, a, true, fate);
    var e := Emit(r.next, b, true);
    assert file[..|before + r.bytes + e|] == before + r.bytes + e;
    assert file[0..|before|] == before && file[|before|..|before| + |r.bytes|] == r.bytes;
    assert file[|before| + |r.bytes|..|before| + |r.bytes| + |e|] == e;
    assert InitialBlock(0) == 0;
    ScanWhole(file, 0, records, cs);
    ExpectedBefore(0, records, |file|, |before|);
    AfterAttempt(file, |before|, a, true, fate, b, cs, None);
  }

  /** With the header of a record in the file and less behind it than the record needs, reading ends there, silently. */
  lemma {:induction false} EndsAtTorn(file: seq<byte>, pos: nat, left: seq<byte>, begin: bool, kept: nat, cs: bool)
    requires Align(pos) - pos + HEADER <= kept < |Fragment(pos, left, begin)| && |file| < FragmentEnd(pos, |left|)
    requires At(file, pos, Fragment(pos, left, begin)[..kept])
    ensures Scan(file, pos, 0, cs, false, None) == Output([], [])
  {
    hide Align, Fit, Fragment, At, ReadPhys;
    var k := Fit(Align(pos), |left|);
    CutRecord(file, pos, left, begin, kept);
    ReadSkipsTrailer(file, pos, 0, cs);
    ReadTorn(file, Align(pos), TypeOf(begin, k == |left|), left[..k], kept - (Align(pos) - pos), cs);
  }

  /**
   * A failed append of a record longer than all that follows it: with its header in the file, everything after it
   * is lost, and nothing is reported.
   */
  lemma {:induction false} SilentLoss(records: seq<seq<byte>>, a: seq<byte>, kept: nat, more: seq<byte>, cs: bool)
    requires var pos := |EmitAll(0, records)|;
      var bs := Fragment(pos, a, true);
      Align(pos) - pos + HEADER <= kept < |bs| && kept + |more| < |bs|
    ensures var before := EmitAll(0, records);
      ReadLog(before + Written(Fragment(|before|, a, true), kept) + more, 0, cs)
        == Output(Expected(0, records, 0, |before| + kept + |more|), [])
  {
    hide Emit, EmitAll, Expected, Align, Fit, Fragment, At, Scan;
    var before := EmitAll(0, records);
    var pos, bs := |before|, Fragment(|before|, a, true)[..kept];
    var file := before + bs + more;
    assert file[0..pos] == before && file[pos..pos + kept] == bs;
    HoldsBoth(file, before, bs);
    assert InitialBlock(0) == 0;
    ScanWhole(file, 0, records, cs);
    EndsAtTorn(file, pos, a, true, kept, cs);
    NothingMore(Expected(0, records, 0, |file|));
  }

  lemma NothingMore<T>(xs: seq<T>)
    ensures xs + [] == xs
  {
  }

  lemma HoldsBoth(file: seq<byte>, before: seq<byte>, bs: seq<byte>)
    requires |before| + |bs| <= |file| && file[0..|before|] == before && file[|before|..|before| + |bs|] == bs
    ensures At(file, 0, before) && At(file, |before|, bs)
  {
  }
}
