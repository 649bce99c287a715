/** The log reader (logreader.cc). */
module Reader {
  import opened Ordering
  import opened Bytes
  import Crc32c
  import opened LogFormat

  /** The buffer is the unread rest of the last block read. */
  ghost predicate Buffered(file: seq<byte>, filepos: nat, buffer: seq<byte>, eof: bool)
    ensures Buffered(file, filepos, buffer, eof) ==> |buffer| <= filepos && (buffer != [] ==> filepos <= |file|)
  {
    && |buffer| <= filepos
    && (if filepos <= |file| then buffer == file[filepos - |buffer|..filepos] else buffer == [])
    && (buffer != [] ==> BlockEnd(file, filepos - |buffer|) == filepos)
    && (if eof then filepos >= |file| && (buffer != [] ==> filepos % BLOCK != 0) else filepos % BLOCK == 0)
  }

  lemma Consume(file: seq<byte>, filepos: nat, buffer: seq<byte>, eof: bool, n: nat)
    requires Buffered(file, filepos, buffer, eof) && n <= |buffer|
    ensures Buffered(file, filepos, buffer[n..], eof) && Buffered(file, filepos, [], eof)
  {
    if 0 < n < |buffer| {
      BlockEndLater(file, filepos - |buffer|, filepos);
    }
  }

  class LogReader {
    const file: seq<byte>
    const checksum: bool
    const initialoffset: nat
    var filepos: nat
    var buffer: seq<byte>
    var eof: bool
    var lastrecordoffset: nat
    var endofbufferoffset: nat
    var resyncing: bool
    var reports: seq<Report>

    ghost predicate Inv()
      reads this
    {
      (endofbufferoffset == filepos || Done()) && Buffered(file, filepos, buffer, eof)
    }

    /** The file has been read to its end. */
    predicate Done()
      reads this
    {
      eof && buffer == []
    }

    /** The offset of the next unread byte. */
    ghost function Pos(): nat
      requires Inv()
      reads this
    {
      filepos - |buffer|
    }

    constructor (file: seq<byte>, checksum: bool, initialoffset: nat)
      ensures Inv() && Fresh() && this.file == file && this.checksum == checksum && this.initialoffset == initialoffset
      ensures reports == []
    {
      this.file, this.checksum, this.initialoffset := file, checksum, initialoffset;
      filepos, buffer, eof, lastrecordoffset, endofbufferoffset := 0, [], false, 0, 0;
      resyncing := initialoffset > 0;
      reports := [];
    }

    /** Nothing has been read yet. */
    predicate Fresh()
      reads this
    {
      filepos == 0 && buffer == [] && !eof && lastrecordoffset == 0 && resyncing == (initialoffset > 0)
    }

    method ReportDrop(bytes: nat, reason: string)
      requires Inv() && endofbufferoffset == filepos
      modifies `reports
      ensures reports == old(reports) + ToSeq(Filter(Pos() - bytes, initialoffset, Report(bytes, reason)))
    {
      if endofbufferoffset - |buffer| - bytes >= initialoffset {
        reports := reports + [Report(bytes, reason)];
      }
    }

    method SkipToInitialBlock()
      requires Inv() && (Fresh() || Done())
      modifies `filepos, `endofbufferoffset
      ensures Inv() && (!Done() ==> Pos() == InitialBlock(initialoffset))
    {
      hide Buffered, InitialBlock;
      SkippedTo(file, initialoffset);
      SkippedPast(file, filepos, InitialBlock(initialoffset));
      assert initialoffset % BLOCK <= initialoffset;
      var offsetInblock := initialoffset % BLOCK;
      var blockstartlocation := initialoffset - offsetInblock;
      if offsetInblock > BLOCK - 6 {
        blockstartlocation := blockstartlocation + BLOCK;
      }
      endofbufferoffset := blockstartlocation;
      if blockstartlocation > 0 {
        filepos := filepos + blockstartlocation;
      }
    }

    /** Reads the next block into the buffer; what was left of the last one is its trailer. */
    method Refill()
      requires Inv() && |buffer| < HEADER && !eof
      modifies `filepos, `buffer, `eof, `endofbufferoffset
      ensures Inv() && (eof || |buffer| >= HEADER) && endofbufferoffset == filepos
      ensures filepos >= |file| || old(Pos()) < |file|
      ensures Pos() == old(filepos)
    {
      hide Buffered;
      Refilled(file, filepos, buffer);
      var n := if filepos >= |file| then 0 else if |file| - filepos < BLOCK then |file| - filepos else BLOCK;
      buffer := if n == 0 then [] else file[filepos..filepos + n];
      filepos := filepos + n;
      endofbufferoffset := endofbufferoffset + n;
      if |buffer| < BLOCK {
        eof := true;
      }
    }

    /** Parses the header at the front of the buffer, drops bad records and consumes good ones. */
    method ParseHeader() returns (code: nat, result: seq<byte>)
      requires Inv() && |buffer| >= HEADER
      modifies `buffer, `reports
      ensures Inv() && endofbufferoffset == filepos && (code == EOF ==> Done() || TypeCode(old(buffer)[6]) == EOF)
      ensures var r := Parse(file, old(Pos()), filepos, initialoffset, checksum);
              && code == r.code && result == r.data && Pos() == r.next
              && reports == old(reports) + ToSeq(r.drop)
    {
      hide Parse, Buffered, TypeCode, DecodeFixed32, Crc32c.Value, Crc32c.Unmask;
      ParseBuffer(file, filepos, buffer, eof, initialoffset, checksum);
      var length := buffer[4] as nat + 256 * buffer[5] as nat;
      var t := TypeCode(buffer[6]);
      Consume(file, filepos, buffer, eof, if HEADER + length <= |buffer| then HEADER + length else 0);
      result := [];
      if HEADER + length > |buffer| {
        var dropSize := |buffer|;
        buffer := [];
        if !eof {
          ReportDrop(dropSize, "bad record length");
          code := BAD;
        } else {
          code := EOF;
        }
      } else if t == ZERO && length == 0 {
        buffer := [];
        code := BAD;
      } else if checksum && Crc32c.Unmask(DecodeFixed32(buffer[..4])) != Crc32c.Value(buffer[6..HEADER + length]) {
        var dropSize := |buffer|;
        buffer := [];
        ReportDrop(dropSize, "checksum mismatch");
        code := BAD;
      } else {
        var payload := buffer[HEADER..HEADER + length];
        buffer := buffer[HEADER + length..];
        if endofbufferoffset - |buffer| - HEADER - length < initialoffset {
          code := BAD;
        } else {
          code, result := t, payload;
        }
      }
    }

    method ReadPhysicalRecord() returns (code: nat, result: seq<byte>)
      requires Inv()
      modifies `filepos, `endofbufferoffset, `buffer, `eof, `reports
      ensures Inv() && if code == EOF then Done() || HasEofType(file) else endofbufferoffset == filepos
      ensures var r := ReadPhys(file, old(Pos()), initialoffset, checksum);
              && code == r.code && result == r.data
              && (code != EOF ==> Pos() == r.next)
              && reports == old(reports) + ToSeq(r.drop)
    {
      hide Parse, Buffered, ReadPhys;
      ghost var r := ReadPhys(file, Pos(), initialoffset, checksum);
      while |buffer| < HEADER
        invariant Inv() && reports == old(reports)
        invariant ReadPhys(file, Pos(), initialoffset, checksum) == r
        decreases if |buffer| >= HEADER then 0 else if eof then 1 else 2
      {
        if eof {
          ShortIsEof(file, filepos, buffer, eof, initialoffset, checksum);
          Consume(file, filepos, buffer, eof, 0);
          buffer := [];
          code, result := EOF, [];
          return;
        }
        TrailerIsSkipped(file, filepos, buffer, initialoffset, checksum);
        Refill();
      }
      WholeIsParsed(file, filepos, buffer, eof, initialoffset, checksum);
      TypeInFile(file, filepos, buffer, eof);
      code, result := ParseHeader();
    }

    /** What one physical record does to the logical record under assembly. */
    method Assemble(code: nat, fragment: seq<byte>, frag: Option<Partial>)
        returns (next: Option<Partial>, record: Option<Partial>)
      requires Inv() && endofbufferoffset == filepos && code != EOF && Pos() >= HEADER + |fragment|
      modifies `resyncing, `reports
      ensures Inv()
      ensures var s := Reassemble(Phys(code, fragment, Pos(), None), initialoffset, old(resyncing), frag);
              && resyncing == s.resync && next == s.frag && record == s.record
              && reports == old(reports) + ToSeq(s.report)
    {
      hide Buffered;
      var physicalrecordoffset := endofbufferoffset - |buffer| - HEADER - |fragment|;
      next, record := frag, None;
      if resyncing {
        if code == MIDDLE {
          return;
        } else if code == LAST {
          resyncing := false;
          return;
        } else {
          resyncing := false;
        }
      }
      match code {
        case 1 =>
          if frag.Some? && frag.value.data != [] {
            ReportDrop(|frag.value.data|, "partial record without end(1)");
          }
          next, record := None, Some(Partial(physicalrecordoffset, fragment));
        case 2 =>
          if frag.Some? && frag.value.data != [] {
            ReportDrop(|frag.value.data|, "partial record without end(2)");
          }
          next := Some(Partial(physicalrecordoffset, fragment));
        case 3 =>
          if frag == None {
            ReportDrop(|fragment|, "missing start of fragmented record(1)");
          } else {
            next := Some(Partial(frag.value.start, frag.value.data + fragment));
          }
        case 4 =>
          if frag == None {
            ReportDrop(|fragment|, "missing start of fragmented record(2)");
          } else {
            next, record := None, Some(Partial(frag.value.start, frag.value.data + fragment));
          }
        case 6 =>
          if frag.Some? {
            ReportDrop(|frag.value.data|, "error in middle of record");
            next := None;
          }
        case _ =>
          ReportDrop(|fragment| + (if frag.Some? then |frag.value.data| else 0), "unknown record type");
          next := None;
      }
    }

    /** All that the reader still returns and reports, from where it stands with frag under assembly. */
    ghost function Rest(frag: Option<Partial>): Output
      requires Inv()
      reads this
    {
      Scan(file, Pos(), initialoffset, checksum, resyncing, frag)
    }

    /**
     * Where the next call of ReadRecord starts: the initial block until a record has been returned, unless the file
     * has been read to its end.
     */
    ghost function Ahead(): Output
      requires Inv()
      reads this
    {
      if lastrecordoffset < initialoffset && !Done() then ReadLog(file, initialoffset, checksum) else Rest(None)
    }

    /** Reads one physical record and assembles it. */
    method ReadOn(frag: Option<Partial>) returns (end: bool, next: Option<Partial>, record: Option<Partial>)
      requires Inv() && (frag.Some? ==> initialoffset <= frag.value.start)
      modifies `filepos, `endofbufferoffset, `buffer, `eof, `resyncing, `reports
      ensures Inv() && old(reports) <= reports
      ensures end ==> (Done() || HasEofType(file)) && old(Rest(frag)) == Output([], reports[|old(reports)|..])
      ensures !end ==>
        && old(Pos()) < Pos() <= |file|
        && (next.Some? ==> initialoffset <= next.value.start)
        && (record.Some? ==> initialoffset <= record.value.start && next == None)
        && old(Rest(frag)) == Plus(record, reports[|old(reports)|..], Rest(next))
    {
      hide Buffered, ReadPhys, Reassemble, Scan, Plus;
      next, record, end := None, None, true;
      ghost var before := reports;
      ScanStep(file, Pos(), initialoffset, checksum, resyncing, frag);
      ghost var r := ReadPhys(file, Pos(), initialoffset, checksum);
      ghost var s := if r.code == EOF then Step(false, None, None, None)
        else Reassemble(Phys(r.code, r.data, r.next, None), initialoffset, resyncing, frag);
      var code, fragment := ReadPhysicalRecord();
      Behind(before, ToSeq(r.drop), []);
      if code != EOF {
        end := false;
        StartsKept(Phys(code, fragment, Pos(), None), initialoffset, resyncing, frag);
        next, record := Assemble(code, fragment, frag);
        Behind(before, ToSeq(r.drop), ToSeq(s.report));
      }
    }

    /**
     * Returns the first record of all that is ahead, or fails when there is none. It fails for good then, unless it
     * has met the type that stands for the end of the file.
     */
    method ReadRecord() returns (ok: bool, record: seq<byte>)
      requires Inv() && (lastrecordoffset < initialoffset ==> Fresh() || Done())
      modifies this
      ensures Inv() && old(reports) <= reports
      ensures ok ==> lastrecordoffset >= initialoffset
      ensures !ok ==> HasEofType(file) || (Done() && Ahead() == Output([], []))
      ensures old(Ahead()) == if ok
        then Plus(Some(Partial(lastrecordoffset, record)), reports[|old(reports)|..], Ahead())
                              else Output([], reports[|old(reports)|..])
    {
      hide Buffered, Scan, Plus;
      if Done() {
        NothingLeft(file, filepos, initialoffset, checksum, resyncing);
      }
      if lastrecordoffset < initialoffset {
        SkipToInitialBlock();
        if Done() {
          NothingLeft(file, filepos, initialoffset, checksum, resyncing);
        }
      }
      ghost var ahead := Rest(None);
      PlusNothing(ahead);
      assert reports[|old(reports)|..] == [];
      var frag: Option<Partial> := None;
      while true
        invariant Inv() && old(reports) <= reports
        invariant ahead == Plus(None, reports[|old(reports)|..], Rest(frag))
        invariant frag.Some? ==> initialoffset <= frag.value.start
        decreases if Pos() < |file| then |file| - Pos() else 0
      {
        ghost var before := reports;
        var end, rec;
        end, frag, rec := ReadOn(frag);
        assert reports[|old(reports)|..] == before[|old(reports)|..] + reports[|before|..];
        PlusPlus(rec, before[|old(reports)|..], reports[|before|..], Rest(frag));
        if end {
          if Done() {
            NothingLeft(file, filepos, initialoffset, checksum, resyncing);
          }
          return false, [];
        }
        if rec.Some? {
          lastrecordoffset := rec.value.start;
          return true, rec.value.data;
        }
      }
    }
  }

  /** What comes behind `before`. */
  lemma Behind<T>(before: seq<T>, a: seq<T>, b: seq<T>)
    ensures before <= before + a + b && (before + a + b)[|before|..] == a + b
    ensures before + a + [] == before + a && a + [] == a
  {
  }

  /** The output with a record, if there is one, and reports put before it. */
  function Plus(record: Option<Partial>, reports: seq<Report>, rest: Output): Output {
    Output((if record.Some? then [(record.value.start, record.value.data)] else []) + rest.records,
      reports + rest.reports)
  }

  lemma PlusNothing(rest: Output)
    ensures Plus(None, [], rest) == rest
  {
  }

  lemma PlusPlus(record: Option<Partial>, a: seq<Report>, b: seq<Report>, rest: Output)
    ensures Plus(None, a, Plus(record, b, rest)) == Plus(record, a + b, rest)
    ensures Plus(None, a, Output([], b)) == Output([], a + b)
  {
  }

  /** One step of a scan. */
  lemma {:induction false} ScanStep(file: seq<byte>, p: nat, o: nat, cs: bool, resync: bool, frag: Option<Partial>)
    ensures var all, r := Scan(file, p, o, cs, resync, frag), ReadPhys(file, p, o, cs);
            if r.code == EOF then all == Output([], ToSeq(r.drop))
            else
              var s := Reassemble(Phys(r.code, r.data, r.next, None), o, resync, frag);
              all == Plus(s.record, ToSeq(r.drop) + ToSeq(s.report), Scan(file, r.next, o, cs, s.resync, s.frag))
  {
    var r := ReadPhys(file, p, o, cs);
    hide ReadPhys, Plus;
    if r.code != EOF {
      SameReassembly(r, o, resync, frag);
      var s := Reassemble(r, o, resync, frag);
      AfterIsPlus(s.record, s.report, r.drop, Scan(file, r.next, o, cs, s.resync, s.frag));
    }
    hide Reassemble;
  }

  lemma AfterIsPlus(record: Option<Partial>, report: Option<Report>, drop: Option<Report>, rest: Output)
    ensures (if record.Some? then rest.Then(record.value.start, record.value.data) else rest).After(report).After(drop)
         == Plus(record, ToSeq(drop) + ToSeq(report), rest)
  {
  }

  lemma SameReassembly(r: Physicals, o: nat, resync: bool, frag: Option<Partial>)
    requires r.code != EOF && r.next >= HEADER + |r.data|
    ensures Reassemble(r, o, resync, frag) == Reassemble(Phys(r.code, r.data, r.next, None), o, resync, frag)
  {
  }

  /** A record is assembled only from fragments at or after the offset, and completing it leaves nothing. */
  lemma StartsKept(r: Physicals, o: nat, resync: bool, frag: Option<Partial>)
    requires r.code != EOF && r.next >= HEADER + |r.data|
    requires r.code == FULL || r.code == FIRST ==> o + HEADER + |r.data| <= r.next
    requires frag.Some? ==> o <= frag.value.start
    ensures var s := Reassemble(r, o, resync, frag);
            && (s.frag.Some? ==> o <= s.frag.value.start)
            && (s.record.Some? ==> o <= s.record.value.start && s.frag == None)
  {
  }

  /** At the end of the file a rest shorter than a header is the end of the log. */
  lemma ShortIsEof(file: seq<byte>, filepos: nat, buffer: seq<byte>, eof: bool, o: nat, cs: bool)
    requires Buffered(file, filepos, buffer, eof) && eof && |buffer| < HEADER
    ensures var r := ReadPhys(file, filepos - |buffer|, o, cs); r.code == EOF && r.drop == None && r.data == []
  {
  }

  /** Nothing is buffered at the start of the block that can hold the first record. */
  lemma SkippedTo(file: seq<byte>, o: nat)
    ensures Buffered(file, InitialBlock(o), [], false)
    ensures InitialBlock(o) == o - o % BLOCK + if o % BLOCK > BLOCK - 6 then BLOCK else 0
  {
  }

  lemma SkippedPast(file: seq<byte>, filepos: nat, n: nat)
    ensures Buffered(file, filepos, [], true) ==> Buffered(file, filepos + n, [], true)
  {
  }

  /** A byte of the file is the type that the reader returns at the end of a file, which no writer writes. */
  ghost predicate HasEofType(file: seq<byte>) { exists p :: 0 <= p < |file| && TypeCode(file[p]) == EOF }

  lemma TypeInFile(file: seq<byte>, filepos: nat, buffer: seq<byte>, eof: bool)
    requires Buffered(file, filepos, buffer, eof) && HEADER <= |buffer|
    ensures TypeCode(buffer[6]) == EOF ==> HasEofType(file)
  {
    assert filepos <= |file| && buffer[6] == file[filepos - |buffer| + 6];
  }

  /** Behind the end of the file there is nothing to return and nothing to report. */
  lemma NothingLeft(file: seq<byte>, filepos: nat, o: nat, cs: bool, resync: bool)
    requires Buffered(file, filepos, [], true)
    ensures Scan(file, filepos, o, cs, resync, None) == Output([], [])
  {
    hide ReadPhys, Plus, Buffered, Scan;
    ShortIsEof(file, filepos, [], true, o, cs);
    ScanStep(file, filepos, o, cs, resync, None);
  }

  /** A rest shorter than a header is a trailer: reading on from it is reading from the next block. */
  lemma TrailerIsSkipped(file: seq<byte>, filepos: nat, buffer: seq<byte>, o: nat, cs: bool)
    requires Buffered(file, filepos, buffer, false) && |buffer| < HEADER
    ensures ReadPhys(file, filepos - |buffer|, o, cs) == ReadPhys(file, filepos, o, cs)
  {
  }

  lemma WholeIsParsed(file: seq<byte>, filepos: nat, buffer: seq<byte>, eof: bool, o: nat, cs: bool)
    requires Buffered(file, filepos, buffer, eof) && |buffer| >= HEADER
    ensures filepos <= |file|
      && ReadPhys(file, filepos - |buffer|, o, cs) == Parse(file, filepos - |buffer|, filepos, o, cs)
  {
  }

  /** The header fields read from the buffer are those of the file. */
  lemma {:induction false} BufferIsFile(file: seq<byte>, e: nat, buffer: seq<byte>, eof: bool)
    requires Buffered(file, e, buffer, eof) && HEADER <= |buffer|
    ensures var n := buffer[4] as nat + 256 * buffer[5] as nat;
            var p := e - |buffer|;
            && e <= |file| && LengthOf(file, p) == n && file[p + 6] == buffer[6] && (e % BLOCK == 0 <==> !eof)
            && (HEADER + n <= |buffer| ==>
                  && (ChecksumOk(file, p) <==>
                      Crc32c.Unmask(DecodeFixed32(buffer[..4])) == Crc32c.Value(buffer[6..HEADER + n]))
                  && file[p + HEADER..p + HEADER + n] == buffer[HEADER..HEADER + n])
  {
    hide DecodeFixed32, Crc32c.Value, Crc32c.Unmask;
    var n := buffer[4] as nat + 256 * buffer[5] as nat;
    var p := e - |buffer|;
    if HEADER + n <= |buffer| {
      SliceOfSlice(file, p, e, 0, 4);
      SliceOfSlice(file, p, e, 6, HEADER + n);
      SliceOfSlice(file, p, e, HEADER, HEADER + n);
    }
  }

  /** Parsing the file at the reader's position, in terms of the buffer. */
  lemma {:induction false} ParseBuffer(file: seq<byte>, e: nat, buffer: seq<byte>, eof: bool, o: nat, checksum: bool)
    requires Buffered(file, e, buffer, eof) && HEADER <= |buffer|
    ensures e <= |file|
    ensures var n := buffer[4] as nat + 256 * buffer[5] as nat;
            var p := e - |buffer|;
            Parse(file, p, e, o, checksum) ==
              if HEADER + n > |buffer| then
                if !eof then Phys(BAD, [], e, Filter(p, o, Report(|buffer|, "bad record length")))
                  else Phys(EOF, [], e, None)
              else if TypeCode(buffer[6]) == ZERO && n == 0 then Phys(BAD, [], e, None)
              else if checksum && Crc32c.Unmask(DecodeFixed32(buffer[..4])) != Crc32c.Value(buffer[6..HEADER + n]) then
                Phys(BAD, [], e, Filter(p, o, Report(|buffer|, "checksum mismatch")))
              else if p < o then Phys(BAD, [], p + HEADER + n, None)
              else Phys(TypeCode(buffer[6]), buffer[HEADER..HEADER + n], p + HEADER + n, None)
  {
    hide DecodeFixed32, Crc32c.Value, Crc32c.Unmask, LengthOf, ChecksumOk, TypeCode, Buffered;
    BufferIsFile(file, e, buffer, eof);
  }

  /** A block read after a trailer is the buffer: all of it, or what is left of the file. */
  lemma Refilled(file: seq<byte>, filepos: nat, trailer: seq<byte>)
    requires Buffered(file, filepos, trailer, false) && |trailer| < HEADER
    ensures var n := if filepos >= |file| then 0 else if |file| - filepos < BLOCK then |file| - filepos else BLOCK;
      var buffer := if n == 0 then [] else file[filepos..filepos + n];
      Buffered(file, filepos + n, buffer, |buffer| < BLOCK)
  {
    if filepos < |file| {
      BlockEndIs(file, filepos);
    }
  }

  lemma BlockEndIs(file: seq<byte>, p: nat)
    requires p < |file| && p % BLOCK == 0
    ensures BlockEnd(file, p) == if |file| - p < BLOCK then |file| else p + BLOCK
    ensures |file| - p < BLOCK ==> |file| % BLOCK != 0
    ensures (p + BLOCK) % BLOCK == 0
  {
  }

  lemma BlockEndLater(file: seq<byte>, p: nat, e: nat)
    requires p < e <= |file| && BlockEnd(file, p) == e
    ensures forall q :: p <= q < e ==> BlockEnd(file, q) == e
  {
  }

  lemma SliceOfSlice(s: seq<byte>, p: nat, e: nat, i: nat, j: nat)
    requires i <= j && p + j <= e <= |s|
    ensures s[p..e][i..j] == s[p + i..p + j]
  {
    forall k | 0 <= k < j - i
      ensures s[p..e][i..j][k] == s[p + i..p + j][k]
    {
      assert s[p..e][i + k] == s[p + i + k];
    }
  }

  function ToSeq<T>(o: Option<T>): seq<T> { if o.Some? then [o.value] else [] }
}
