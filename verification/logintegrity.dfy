/** What a reader of the log may return, and what it must report, for any file at all (logreader.cc). */
module LogIntegrity {
  import opened Ordering
  import opened Bytes
  import opened LogFormat
  import Crc32c

  // ----- The format -----

  /** A record of up to 32761 bytes at the start of a block: masked checksum, length, type 1, and the record. */
  lemma {:induction false} ShortRecord(data: seq<byte>)
    requires |data| <= 32761
    ensures Emit(0, data, true) ==
      EncodeFixed32(Crc32c.Mask(Crc32c.Value([1] + data))) + [(|data| % 256) as byte, (|data| / 256) as byte, 1] + data
  {
    hide Crc32c.Mask, Crc32c.Value, Crc32c.Extend, EncodeFixed32;
    Checksummed(1, data);
    assert data[..|data|] == data && Zeroes(0) == [];
    var bs := Physical(1, data);
    hide Physical;
    assert [] + bs == bs;
  }

  lemma Checksummed(t: byte, data: seq<byte>)
    ensures Checksum(t, data) == EncodeFixed32(Crc32c.Mask(Crc32c.Value([t] + data)))
  {
    hide Crc32c.Mask, Crc32c.Extend, EncodeFixed32;
    Crc32c.ExtendAppend(0, [t], data);
  }

  /** A longer one fills its block of 32768 bytes with a fragment of type 2, and goes on in the next block. */
  lemma {:induction false} LongRecord(data: seq<byte>)
    requires |data| > 32761
    ensures |Emit(0, data, true)| > 32768
    ensures Emit(0, data, true)[..32768] ==
      EncodeFixed32(Crc32c.Mask(Crc32c.Value([2] + data[..32761]))) + [249, 127, 2] + data[..32761]
    ensures Emit(0, data, true)[32768..] == Emit(32768, data[32761..], false)
  {
    hide Crc32c.Mask, Crc32c.Value, Crc32c.Extend, EncodeFixed32;
    Checksummed(2, data[..32761]);
    assert Zeroes(0) == [];
    var bs := Physical(2, data[..32761]);
    hide Physical;
    assert [] + bs == bs;
    assert Emit(0, data, true) == bs + Emit(32768, data[32761..], false);
  }

  /** At the start of a block the rest of a record has type 4 if it fits, and type 3 otherwise. */
  lemma {:induction false} RestOfRecord(pos: nat, left: seq<byte>)
    requires pos % 32768 == 0
    ensures |Emit(pos, left, false)| > 6
    ensures Emit(pos, left, false)[6] == if |left| <= 32761 then 4 else 3
  {
    hide Crc32c.Mask, Crc32c.Value, Crc32c.Extend, EncodeFixed32;
    var k := if |left| <= 32761 then |left| else 32761;
    assert Zeroes(0) == [];
    var t: byte := if |left| <= 32761 then 4 else 3;
    assert Physical(t, left[..k])[6] == t;
    hide Physical;
    assert [] + Physical(t, left[..k]) == Physical(t, left[..k]);
  }

  // ----- What is returned -----

  /** A physical record of this type and payload lies at p, whole in its block and with the right checksum. */
  ghost predicate Intact(file: seq<byte>, p: nat, t: nat, data: seq<byte>) {
    && p + 7 + |data| <= |file| && p / 32768 == (p + 6 + |data|) / 32768
    && file[p + 6] as nat == t && file[p + 4] as nat + 256 * file[p + 5] as nat == |data|
    && file[p + 7..p + 7 + |data|] == data
    && Crc32c.Unmask(DecodeFixed32(file[p..p + 4])) == Crc32c.Value([file[p + 6]] + data)
  }

  /** Where the physical record behind one of n bytes at p lies: right behind it, or in the next block. */
  function Behind(p: nat, n: nat): nat {
    var q := p + 7 + n;
    if 32768 - q % 32768 < 7 then q + (32768 - q % 32768) else q
  }

  datatype Part = Part(at: nat, data: seq<byte>)

  function Joined(parts: seq<Part>): seq<byte> {
    if parts == [] then [] else Joined(parts[..|parts| - 1]) + parts[|parts| - 1].data
  }

  /** The beginning of a record: intact parts of type 2, 3, 3, ..., each behind the one before, up to `next`. */
  ghost predicate Begun(file: seq<byte>, parts: seq<Part>, next: nat) {
    && parts != []
    && (forall k :: 0 <= k < |parts| ==> Intact(file, parts[k].at, if k == 0 then 2 else 3, parts[k].data))
    && (forall k :: 0 < k < |parts| ==> parts[k].at == Behind(parts[k - 1].at, |parts[k - 1].data|))
    && next == Behind(parts[|parts| - 1].at, |parts[|parts| - 1].data|)
  }

  /** A record is one intact part of type 1, or one of type 2, any number of type 3 and one of type 4 in a row. */
  ghost predicate Written(file: seq<byte>, start: nat, data: seq<byte>) {
    || Intact(file, start, 1, data)
    || exists parts: seq<Part>, last: Part ::
         && Begun(file, parts, last.at) && parts[0].at == start
         && Intact(file, last.at, 4, last.data) && data == Joined(parts) + last.data
  }

  /** What is under assembly is the beginning of a record. */
  ghost predicate Assembling(file: seq<byte>, frag: Option<Partial>, parts: seq<Part>, p: nat) {
    frag.Some? ==> Begun(file, parts, Align(p)) && parts[0].at == frag.value.start && frag.value.data == Joined(parts)
  }

  lemma BehindIs(p: nat, n: nat)
    ensures Behind(p, n) == Align(p + HEADER + n)
  {
  }

  /** A physical record that is read is intact, and is the next one. */
  lemma {:induction false} ReadsIntact(file: seq<byte>, p: nat, o: nat)
    ensures var r := ReadPhys(file, p, o, true);
      1 <= r.code <= 4 ==>
        && r.next == Align(p) + HEADER + |r.data| && Intact(file, Align(p), r.code, r.data)
        && Align(r.next) == Behind(Align(p), |r.data|)
    decreases |file| - p
  {
    hide Parse, Intact, Behind;
    var r := ReadPhys(file, p, o, true);
    if p < |file| && 1 <= r.code <= 4 {
      var e := BlockEnd(file, p);
      if e - p >= HEADER {
        ParsesIntact(file, p, e, o);
        AlignedHere(file, p, e);
        BehindIs(p, |r.data|);
      } else if e < |file| {
        ReadsIntact(file, e, o);
        AlignedThere(file, p, e);
      }
    }
  }

  lemma AlignedHere(file: seq<byte>, p: nat, e: nat)
    requires p <= |file| && e == BlockEnd(file, p) && e - p >= HEADER
    ensures Align(p) == p
  {
  }

  lemma AlignedThere(file: seq<byte>, p: nat, e: nat)
    requires p <= |file| && e == BlockEnd(file, p) && e - p < HEADER && e < |file|
    ensures Align(p) == e == Align(e)
  {
    BlockStarts(0);
    LeftoverAdd(p, Leftover(p));
  }

  lemma ParsesIntact(file: seq<byte>, p: nat, e: nat, o: nat)
    requires p + HEADER <= e <= |file| && e == BlockEnd(file, p)
    ensures var r := Parse(file, p, e, o, true);
      1 <= r.code <= 4 ==> r.next == p + HEADER + |r.data| && Intact(file, p, r.code, r.data)
  {
    hide Crc32c.Unmask, Crc32c.Value, DecodeFixed32;
    var r := Parse(file, p, e, o, true);
    if 1 <= r.code <= 4 {
      var n := LengthOf(file, p);
      assert file[p + 6..p + HEADER + n] == [file[p + 6]] + file[p + HEADER..p + HEADER + n];
      OneBlock(file, p, e, n);
    }
  }

  lemma OneBlock(file: seq<byte>, p: nat, e: nat, n: nat)
    requires p <= |file| && e == BlockEnd(file, p) && p + HEADER + n <= e
    ensures p / 32768 == (p + 6 + n) / 32768
  {
  }

  /** One more part. */
  lemma {:induction false} MorePart(file: seq<byte>, parts: seq<Part>, at: nat, data: seq<byte>)
    requires Begun(file, parts, at) && Intact(file, at, 3, data)
    ensures var more := parts + [Part(at, data)];
      Begun(file, more, Behind(at, |data|)) && more[0] == parts[0] && Joined(more) == Joined(parts) + data
  {
    hide Intact, Behind;
    var more := parts + [Part(at, data)];
    assert more[..|parts|] == parts;
    forall k | 0 <= k < |more|
      ensures Intact(file, more[k].at, if k == 0 then 2 else 3, more[k].data)
      ensures k > 0 ==> more[k].at == Behind(more[k - 1].at, |more[k - 1].data|)
    {
      if k < |parts| {
        assert more[k] == parts[k];
      }
    }
  }

  lemma OnePart(file: seq<byte>, at: nat, data: seq<byte>)
    requires Intact(file, at, 2, data)
    ensures Begun(file, [Part(at, data)], Behind(at, |data|)) && Joined([Part(at, data)]) == data
  {
    hide Intact, Behind;
    assert [Part(at, data)][..0] == [];
    assert Joined([]) == [];
  }

  lemma LastPart(file: seq<byte>, parts: seq<Part>, at: nat, data: seq<byte>)
    requires Begun(file, parts, at) && Intact(file, at, 4, data)
    ensures Written(file, parts[0].at, Joined(parts) + data)
  {
    hide Intact, Begun, Joined;
    var last := Part(at, data);
    assert Begun(file, parts, last.at) && Intact(file, last.at, 4, last.data);
  }

  /** One physical record, in terms of parts. */
  lemma {:induction false} StepIntact(
    file: seq<byte>, p: nat, o: nat, resync: bool, frag: Option<Partial>, parts: seq<Part>) returns (more: seq<Part>)
    requires Assembling(file, frag, parts, p) && (resync ==> frag == None)
    requires frag.Some? ==> o <= frag.value.start
    requires ReadPhys(file, p, o, true).code != EOF
    ensures var r := ReadPhys(file, p, o, true);
      var s := Reassemble(r, o, resync, frag);
      && Assembling(file, s.frag, more, r.next) && (s.resync ==> s.frag == None)
      && (s.frag.Some? ==> o <= s.frag.value.start)
      && (s.record.Some? ==> Written(file, s.record.value.start, s.record.value.data) && o <= s.record.value.start)
  {
    hide ReadPhys, Intact, Begun, Behind, Align, Joined;
    var r := ReadPhys(file, p, o, true);
    ReadsIntact(file, p, o);
    more := parts;
    if r.code == FIRST {
      OnePart(file, Align(p), r.data);
      more := [Part(Align(p), r.data)];
    } else if r.code == MIDDLE && frag.Some? && !resync {
      MorePart(file, parts, Align(p), r.data);
      more := parts + [Part(Align(p), r.data)];
    } else if r.code == LAST && frag.Some? && !resync {
      LastPart(file, parts, Align(p), r.data);
    }
  }

  lemma {:induction false} ScanIntact(
    file: seq<byte>, p: nat, o: nat, resync: bool, frag: Option<Partial>, parts: seq<Part>)
    requires Assembling(file, frag, parts, p) && (resync ==> frag == None)
    requires frag.Some? ==> o <= frag.value.start
    ensures forall x :: x in Scan(file, p, o, true, resync, frag).records ==> Written(file, x.0, x.1) && o <= x.0
    decreases |file| - p
  {
    hide ReadPhys, Reassemble, Assembling, Written;
    var r := ReadPhys(file, p, o, true);
    if r.code != EOF {
      var more := StepIntact(file, p, o, resync, frag, parts);
      var s := Reassemble(r, o, resync, frag);
      ScanIntact(file, r.next, o, s.resync, s.frag, more);
    }
  }

  /**
   * With checksums verified, whatever the file: every record returned starts at or after the offset and lies in the
   * file as a writer writes it, each part with its checksum and the parts in a row.
   */
  lemma {:induction false} ReturnedIsWritten(file: seq<byte>, o: nat)
    ensures forall x :: x in ReadLog(file, o, true).records ==> Written(file, x.0, x.1) && o <= x.0
  {
    ScanIntact(file, InitialBlock(o), o, o > 0, None, []);
  }

  // ----- What is reported -----

  /** The end of the block of p, or of the file. */
  function EndOf(file: seq<byte>, p: nat): nat
    requires p <= |file|
  {
    var e := p - p % 32768 + 32768;
    if e < |file| then e else |file|
  }

  /** The length in the header at p does not fit its block, which is whole in the file. */
  predicate BadLength(file: seq<byte>, p: nat) {
    && p + 7 <= |file| && EndOf(file, p) % 32768 == 0
    && p + 7 + file[p + 4] as nat + 256 * file[p + 5] as nat > EndOf(file, p)
  }

  /** The checksum at p is not that of the type and payload behind it, which is not a record of zeroes. */
  predicate BadChecksum(file: seq<byte>, p: nat) {
    && p + 7 <= |file|
    && var n := file[p + 4] as nat + 256 * file[p + 5] as nat;
       && p + 7 + n <= EndOf(file, p) && (n > 0 || file[p + 6] != 0)
       && Crc32c.Unmask(DecodeFixed32(file[p..p + 4])) != Crc32c.Value(file[p + 6..p + 7 + n])
  }

  /**
   * Damage at or after the offset is reported as all that is left of its block, the record under assembly is given up,
   * and reading goes on with the next block.
   */
  lemma {:induction false} DamageIsReported(file: seq<byte>, p: nat, o: nat, resync: bool)
    requires Align(p) == p && o <= p && (BadLength(file, p) || BadChecksum(file, p))
    ensures p < EndOf(file, p)
    ensures var rest := Scan(file, EndOf(file, p), o, true, false, None);
      var all := Scan(file, p, o, true, resync, None);
      && all.records == rest.records
      && |all.reports| == |rest.reports| + 1 && all.reports[1..] == rest.reports
      && all.reports[0].bytes == EndOf(file, p) - p
  {
    hide Crc32c.Unmask, Crc32c.Value, DecodeFixed32;
    EndIs(file, p);
    var r := ReadPhys(file, p, o, true);
    assert r.code == BAD && r.next == EndOf(file, p) && r.drop.Some? && r.drop.value.bytes == EndOf(file, p) - p;
    hide ReadPhys, EndOf;
    assert Reassemble(r, o, resync, None) == Step(false, None, None, None);
    hide Reassemble;
  }

  lemma EndIs(file: seq<byte>, p: nat)
    requires p + 7 <= |file| && Align(p) == p
    ensures EndOf(file, p) == BlockEnd(file, p) >= p + HEADER
  {
  }

  /**
   * A record that is begun and not gone on with, because the next physical record starts another one, is damaged or of
   * an unknown type, is reported with at least what had been read of it.
   */
  lemma {:induction false} UnfinishedIsReported(file: seq<byte>, p: nat, o: nat, frag: Partial)
    requires frag.data != [] && o <= frag.start && frag.start + |frag.data| <= p
    requires ReadPhys(file, p, o, true).code !in [MIDDLE, LAST, EOF]
    ensures exists x :: x in Scan(file, p, o, true, false, Some(frag)).reports && x.bytes >= |frag.data|
  {
    hide ReadPhys;
    var r := ReadPhys(file, p, o, true);
    var s := Reassemble(r, o, false, Some(frag));
    assert s.report.Some? && s.report.value.bytes >= |frag.data|;
    var all := Scan(file, p, o, true, false, Some(frag));
    hide Reassemble;
    var rest := Scan(file, r.next, o, true, s.resync, s.frag);
    InReports(rest, s, r);
    assert s.report.value in all.reports;
  }

  lemma InReports(rest: Output, s: Step, r: Physicals)
    requires s.report.Some?
    ensures s.report.value in
      (if s.record.Some? then rest.Then(s.record.value.start, s.record.value.data)
       else rest).After(s.report).After(r.drop).reports
  {
  }
}
