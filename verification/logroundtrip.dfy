/** The writer and the reader of the log, one after the other, with a crash between them. */
module LogRoundTrip {
  import opened Lists
  import opened Ordering
  import opened Bytes
  import opened LogFormat
  import opened LogTheory
  import Writer
  import Reader

  lemma {:induction false} EmitAllNext(pos: nat, records: seq<seq<byte>>, r: seq<byte>)
    ensures EmitAll(pos, records + [r]) == EmitAll(pos, records) + Emit(pos + |EmitAll(pos, records)|, r, true)
    decreases |records|
  {
    hide Emit;
    if records == [] {
      assert records + [r] == [r] && [r][1..] == [];
    } else {
      var bs := Emit(pos, records[0], true);
      assert (records + [r])[0] == records[0] && (records + [r])[1..] == records[1..] + [r];
      EmitAllNext(pos + |bs|, records[1..], r);
    }
  }

  method WriteLog(records: seq<seq<byte>>) returns (log: seq<byte>)
    ensures log == EmitAll(0, records)
  {
    hide EmitAll, Emit, Attempt, Writer.TypeCrcs;
    var dest := new Writer.WritableFile([]);
    var writer := new Writer.LogWriter(dest, 0);
    assert records[..0] == [] && EmitAll(0, []) == [] by {
      NoRecords();
    }
    for i := 0 to |records|
      invariant writer.Inv() && writer.dest == dest && dest.buf == [] && fresh(dest) && fresh(writer)
      invariant dest.contents == EmitAll(0, records[..i]) && writer.pos == |dest.contents|
    {
      EmitAllNext(0, records[..i], records[i]);
      assert records[..i] + [records[i]] == records[..i + 1];
      AttemptIs(writer.pos, records[i], true, Fine);
      var _ := writer.AddRecord(records[i], Fine);
    }
    assert records[..|records|] == records;
    log := dest.contents;
  }

  lemma NoRecords()
    ensures EmitAll(0, []) == []
  {
  }

  /** Read records, from an initial offset on, until there is none. */
  method ReadAll(file: seq<byte>, checksum: bool, offset: nat) returns (got: seq<seq<byte>>, reports: seq<Report>)
    ensures var all := ReadLog(file, offset, checksum); got == Data(all.records) && reports == all.reports
  {
    hide Scan, Data, Reader.Buffered, Reader.Plus;
    var reader := new Reader.LogReader(file, checksum, offset);
    ghost var all := ReadLog(file, offset, checksum);
    ghost var pairs: seq<(nat, seq<byte>)> := [];
    assert Data([]) == [] by {
      NoData();
    }
    got := [];
    var more := true;
    while more
      invariant reader.Inv() && reader.initialoffset == offset && reader.file == file && reader.checksum == checksum
      invariant more && reader.lastrecordoffset < offset ==> reader.Fresh()
      invariant got == Data(pairs)
      invariant if more then all == Output(pairs + reader.Ahead().records, reader.reports + reader.Ahead().reports)
                else all == Output(pairs, reader.reports)
      decreases |all.records| - |pairs|, more
    {
      ghost var before := reader.reports;
      ghost var ahead := reader.Ahead();
      var record;
      more, record := reader.ReadRecord();
      ghost var news := reader.reports[|before|..];
      assert reader.reports == before + news;
      if more {
        var x := (reader.lastrecordoffset, record);
        PlusIs(x.0, x.1, news, reader.Ahead());
        DataAppend(pairs, [x]);
        DataOfOne(x);
        Regroup(pairs, [x], reader.Ahead().records);
        Regroup(before, news, reader.Ahead().reports);
        pairs := pairs + [x];
        got := got + [record];
      }
    }
    reports := reader.reports;
  }

  lemma NoData()
    ensures Data([]) == []
  {
  }

  lemma DataOfOne(x: (nat, seq<byte>))
    ensures Data([x]) == [x.1]
  {
  }

  lemma PlusIs(start: nat, data: seq<byte>, reports: seq<Report>, rest: Output)
    ensures Reader.Plus(Some(Partial(start, data)), reports, rest) ==
      Output([(start, data)] + rest.records, reports + rest.reports)
  {
  }

  /**
   * Write any records, cut the log at any byte, and read what is left from any offset: exactly the records that
   * start at or after the offset and lie whole before the cut come back. From the beginning nothing is reported, and
   * from an offset exactly when no record straddles the end of the offset's block with a whole fragment.
   */
  method WriteCrashRead(records: seq<seq<byte>>, t: nat, checksum: bool, offset: nat)
    returns (log: seq<byte>, got: seq<seq<byte>>, reports: seq<Report>)
    ensures log == EmitAll(0, records)
    ensures t <= |log| ==>
              && got == Data(Expected(0, records, offset, t))
              && (reports == [] <==> !(InitialBlock(offset) < offset && Straddles(0, records, offset, t)))
    ensures t <= |log| && offset == 0 ==> got == records[..WholeCount(0, records, t)] && reports == []
  {
    hide EmitAll, ReadLog, WholeCount, Expected, Straddles, InitialBlock;
    log := WriteLog(records);
    got, reports := [], [];
    if t <= |log| {
      ReadBack(records, t, offset, checksum);
      OffsetIsSilentIff(records, t, offset, checksum);
      if offset == 0 {
        ReadBackPrefix(records, t, checksum);
      }
      got, reports := ReadAll(log[..t], checksum, offset);
    }
  }
}
