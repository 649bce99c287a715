/** Replaying a write-ahead log into memory tables and level-0 tables (db.cc). */
module Recovery {
  import opened Ordering
  import opened Bytes
  import opened Coding
  import opened Lists
  import opened Versions
  import opened MemTables
  import opened WriteBatches
  import LogFormat
  import LogTheory

  /** What replay has come to: whether it goes on, every row inserted so far, the largest sequence. */
  datatype Replay = Replay(ok: bool, rows: seq<Row>, max: int)

  /** The sequence of a batch's last write, in 64-bit arithmetic. */
  function LastSequence(rep: seq<byte>): nat
    requires |rep| >= HEADER
  {
    (SequenceOf(rep) + CountOf(rep) - 1) % TWO64
  }

  predicate WellFormed(rep: seq<byte>)
    requires |rep| >= HEADER
  {
    ReadWrites(rep, HEADER).ok && |ReadWrites(rep, HEADER).writes| == CountOf(rep)
  }

  /** One record: short ones are skipped; a malformed batch ends a paranoid replay. */
  function Apply(r: Replay, rep: seq<byte>, paranoid: bool): Replay {
    if !r.ok || |rep| < HEADER then r
    else
      var rows := r.rows + Rows(SequenceOf(rep), ReadWrites(rep, HEADER).writes);
      if paranoid && !WellFormed(rep) then Replay(false, rows, r.max)
      else Replay(true, rows, if LastSequence(rep) > r.max then LastSequence(rep) else r.max)
  }

  function ApplyAll(r: Replay, records: seq<seq<byte>>, n: nat, paranoid: bool): Replay
    requires n <= |records|
  {
    if n == 0 then r else Apply(ApplyAll(r, records, n - 1, paranoid), records[n - 1], paranoid)
  }

  /** The rows that a record brings, up to its fault if it is malformed; a short record brings none. */
  function RecordRows(rep: seq<byte>): seq<Row> {
    if |rep| < 12 then [] else Rows(SequenceOf(rep), ReadWrites(rep, 12).writes)
  }

  /**
   * Any records at all: a replay fails exactly if it is paranoid and a record of twelve bytes or more is malformed.
   * Otherwise it has the rows of every record, in order, and the largest last sequence.
   */
  lemma {:induction false} ReplayIs(records: seq<seq<byte>>, n: nat, least: int, paranoid: bool)
    requires n <= |records|
    ensures var r := ApplyAll(Replay(true, [], least), records, n, paranoid);
      && (r.ok <==> !(paranoid && exists i: nat :: i < n && |records[i]| >= 12 && !WellFormed(records[i])))
      && (r.ok ==>
            && r.rows == Flatten(seq(n, i requires 0 <= i < n => RecordRows(records[i])))
            && least <= r.max && (forall i: nat :: i < n && |records[i]| >= 12 ==> LastSequence(records[i]) <= r.max)
            && (r.max == least || exists i: nat :: i < n && |records[i]| >= 12 && LastSequence(records[i]) == r.max))
  {
    hide Rows, SequenceOf, ReadWrites, WellFormed, LastSequence;
    if n > 0 {
      ReplayIs(records, n - 1, least, paranoid);
      var before := seq(n - 1, i requires 0 <= i < n - 1 => RecordRows(records[i]));
      assert seq(n, i requires 0 <= i < n => RecordRows(records[i])) == before + [RecordRows(records[n - 1])];
      FlattenAppend(before, RecordRows(records[n - 1]));
    }
  }

  // ----- Level-0 tables -----

  /**
   * What becomes of a table that is to be written: it is kept; or its file cannot be created; or the table cannot
   * be finished; or the file, finished, is removed again because it cannot be synced, closed or opened.
   */
  datatype Save = Kept | NotCreated | NotFinished | Removed

  /** Without a first row BuildTable asks an iterator at its end for its key, and an assertion fails. */
  method BuildTable(rows: seq<Row>, save: Save) returns (aborted: bool, ok: bool, sized: bool)
    ensures aborted <==> rows == [] && save != NotCreated
    ensures !aborted ==> (ok <==> save == Kept) && (sized <==> save == Kept || save == Removed)
  {
    aborted, ok, sized := false, false, false;
    if save == NotCreated {
      return;
    }
    if rows == [] {
      aborted := true;
      return;
    }
    ok := save != NotFinished;
    if ok {
      sized := true;
    }
    if ok {
      ok := save != Removed;
    }
  }

  /** The edit of the version: the tables it adds that exist, and how many it adds whose file is removed. */
  datatype Edit = Edit(tables: seq<seq<Row>>, missing: nat)

  function Added(edit: Edit, rows: seq<Row>, save: Save): Edit {
    match save
    case Kept => Edit(edit.tables + [rows], edit.missing)
    case Removed => Edit(edit.tables, edit.missing + 1)
    case _ => edit
  }

  /**
   * Writes a memory table. The status that BuildTable returns is kept in a variable of an inner block, and the one
   * that is tested and returned has never been set: the write always succeeds.
   */
  method WriteLevel0Table(rows: seq<Row>, save: Save, edit: Edit) returns (aborted: bool, status: bool, after: Edit)
    ensures aborted <==> rows == [] && save != NotCreated
    ensures !aborted ==> status && after == Added(edit, rows, save)
  {
    var s := true;
    var built, sized;
    aborted, built, sized := BuildTable(rows, save);
    after := edit;
    if !aborted && s && sized {
      after := if built then Edit(edit.tables + [rows], edit.missing) else Edit(edit.tables, edit.missing + 1);
    }
    status := s;
  }

  /** All rows, in the tables written and in memory. */
  function Held(tables: seq<seq<Row>>, mem: Option<seq<Row>>): seq<Row> { Flatten(tables) + RowsIn(mem) }

  function RowsIn(mem: Option<seq<Row>>): seq<Row> { if mem.Some? then mem.value else [] }

  /** The edit after tables were written one after the other. */
  function EditOf(written: seq<seq<Row>>, saves: nat -> Save): Edit {
    if written == [] then Edit([], 0)
    else
      var n := |written| - 1;
      Added(EditOf(written[..n], saves), written[n], saves(n))
  }

  /** Every table with rows was kept. */
  ghost predicate AllKept(written: seq<seq<Row>>, saves: nat -> Save) {
    forall w: nat :: w < |written| && written[w] != [] ==> saves(w) == Kept
  }

  /** Tables that are not kept take their rows with them, and nothing else does. */
  lemma {:induction false} KeptIff(written: seq<seq<Row>>, saves: nat -> Save)
    ensures |Flatten(EditOf(written, saves).tables)| <= |Flatten(written)|
    ensures Flatten(EditOf(written, saves).tables) == Flatten(written) <==> AllKept(written, saves)
  {
    hide Flatten;
    if written != [] {
      var n := |written| - 1;
      var tables, last := EditOf(written[..n], saves).tables, written[n];
      KeptIff(written[..n], saves);
      LastKept(written, saves);
      hide AllKept;
      FlattenAppend(tables, last);
      FlattenAppend(written[..n], last);
      assert written == written[..n] + [last];
      if saves(n) == Kept {
        SameFront(Flatten(tables), Flatten(written[..n]), last);
      }
    }
  }

  /** All rows are held exactly if every table with rows was kept. */
  lemma HeldIffKept(written: seq<seq<Row>>, mem: Option<seq<Row>>, saves: nat -> Save)
    ensures Held(EditOf(written, saves).tables, mem) == Held(written, mem) <==> AllKept(written, saves)
  {
    hide AllKept, Flatten, EditOf;
    KeptIff(written, saves);
    SameFront(Flatten(EditOf(written, saves).tables), Flatten(written), RowsIn(mem));
  }

  lemma LastKept(written: seq<seq<Row>>, saves: nat -> Save)
    requires written != []
    ensures var n := |written| - 1;
      AllKept(written, saves) <==> AllKept(written[..n], saves) && (written[n] == [] || saves(n) == Kept)
  {
    var n := |written| - 1;
    if AllKept(written, saves) {
      forall w: nat | w < n && written[..n][w] != []
        ensures saves(w) == Kept
      {
        assert written[w] != [];
      }
    }
    if AllKept(written[..n], saves) && (written[n] == [] || saves(n) == Kept) {
      forall w: nat | w < |written| && written[w] != []
        ensures saves(w) == Kept
      {
        assert w < n ==> written[..n][w] != [];
      }
    }
  }

  lemma SameFront<T>(a: seq<T>, b: seq<T>, c: seq<T>)
    ensures a + c == b + c <==> a == b
  {
    if a + c == b + c {
      assert |a| == |b|;
      assert a == (a + c)[..|a|] == (b + c)[..|b|] == b;
    }
  }

  // ----- Replay with its memory tables -----

  /** The memory tables that replay has given to be written, and the one it fills. */
  datatype Progress = Progress(written: seq<seq<Row>>, mem: Option<seq<Row>>)

  /** After n records. A memory table is written out once it is too big, which it is not without a row. */
  function Play(records: seq<seq<byte>>, n: nat, tooBig: nat -> bool): Progress
    requires n <= |records|
  {
    if n == 0 then Progress([], None)
    else
      var p, rep := Play(records, n - 1, tooBig), records[n - 1];
      if |rep| < HEADER then p
      else
        var rows := RowsIn(p.mem) + Rows(SequenceOf(rep), ReadWrites(rep, HEADER).writes);
        if rows != [] && tooBig(n) then Progress(p.written + [rows], None) else Progress(p.written, Some(rows))
  }

  /** At the end what is in memory is written too, unless the log stays in use with it. */
  predicate WritesLast(p: Progress, reuse: bool) { p.mem.Some? && !(reuse && p.written == []) }

  function AllWritten(p: Progress, reuse: bool): seq<seq<Row>> {
    if WritesLast(p, reuse) then p.written + [p.mem.value] else p.written
  }

  function LeftInMemory(p: Progress, reuse: bool): Option<seq<Row>> { if WritesLast(p, reuse) then None else p.mem }

  lemma {:induction false} PlayHolds(records: seq<seq<byte>>, n: nat, tooBig: nat -> bool, least: int, paranoid: bool)
    requires n <= |records| && ApplyAll(Replay(true, [], least), records, n, paranoid).ok
    ensures var p := Play(records, n, tooBig);
      Held(p.written, p.mem) == ApplyAll(Replay(true, [], least), records, n, paranoid).rows
    ensures forall w :: 0 <= w < |Play(records, n, tooBig).written| ==> Play(records, n, tooBig).written[w] != []
  {
    hide Rows, ReadWrites, SequenceOf, CountOf, LastSequence, WellFormed;
    if n > 0 {
      PlayHolds(records, n - 1, tooBig, least, paranoid);
      var p, rep := Play(records, n - 1, tooBig), records[n - 1];
      if |rep| >= HEADER {
        var more := Rows(SequenceOf(rep), ReadWrites(rep, HEADER).writes);
        FlattenAppend(p.written, RowsIn(p.mem) + more);
        Regroup(Flatten(p.written), RowsIn(p.mem), more);
      }
    }
  }

  lemma EndHolds(p: Progress, reuse: bool)
    ensures Held(AllWritten(p, reuse), LeftInMemory(p, reuse)) == Held(p.written, p.mem)
  {
    if WritesLast(p, reuse) {
      FlattenAppend(p.written, p.mem.value);
    }
  }

  /** How a recovery ends: with the database open, refused because of a malformed batch, or in a failed assertion. */
  datatype End = Recovered | Refused | Aborted

  /**
   * Replay a log file. `tooBig` decides after which records the memory table is written out as a table, `saves`
   * what becomes of each table written, and `reuse` whether a log of which no table was written stays in use with
   * its memory table.
   */
  method RecoverLogFile(
    file: seq<byte>, paranoid: bool, reuse: bool, tooBig: nat -> bool, saves: nat -> Save, maxsequence: nat)
    returns (end: End, edit: Edit, mem: Option<seq<Row>>, max: int)
    ensures var records := LogTheory.Data(LogFormat.ReadLog(file, 0, true).records);
      var r, p := ApplyAll(Replay(true, [], maxsequence), records, |records|, paranoid),
        Play(records, |records|, tooBig);
      && (end == Refused <==> !r.ok)
      && (end == Aborted <==> r.ok && WritesLast(p, reuse) && p.mem == Some([]) && saves(|p.written|) != NotCreated)
      && (end == Recovered ==>
            max == r.max && edit == EditOf(AllWritten(p, reuse), saves) && mem == LeftInMemory(p, reuse))
      && (end == Recovered ==> (mem.Some? <==> p.mem.Some? && p.written == [] && reuse))
  {
    hide LogFormat.ReadLog, ReadWrites, Rows, SequenceOf, CountOf, LastSequence, WellFormed, Play, ApplyAll, EditOf;
    var records := LogTheory.Data(LogFormat.ReadLog(file, 0, true).records);
    ReplayStarts(records, tooBig, maxsequence, paranoid, saves);
    var ok, compactions, i := true, 0, 0;
    end, edit, mem, max := Refused, Edit([], 0), None, maxsequence;
    ghost var p := Progress([], None);
    while i < |records| && ok
      invariant i <= |records|
      invariant ok == ApplyAll(Replay(true, [], maxsequence), records, i, paranoid).ok
      invariant ok ==>
        && max == ApplyAll(Replay(true, [], maxsequence), records, i, paranoid).max
        && p == Play(records, i, tooBig) && mem == p.mem && compactions == |p.written|
        && edit == EditOf(p.written, saves)
      decreases |records| - i
    {
      ReplayStep(records, i, tooBig, maxsequence, paranoid);
      var record := records[i];
      i := i + 1;
      if |record| < HEADER {
        continue;
      }
      if mem.None? {
        mem := Some([]);
      }
      var inserted, rows := Iterate(record, SequenceOf(record), mem.value);
      InsertedIs(inserted, record);
      mem := Some(rows);
      if !inserted && paranoid {
        ok := false;
        break;
      }
      var lastseq := LastSequence(record);
      if lastseq > max {
        max := lastseq;
      }
      p := Progress(p.written, mem);
      if rows != [] && tooBig(i) {
        var aborted;
        aborted, ok, edit := WriteLevel0Table(rows, saves(compactions), edit);
        compactions := compactions + 1;
        WrittenNext(p.written, rows, saves);
        p := Progress(p.written + [rows], None);
        mem := None;
      }
    }
    if !ok {
      ReplayStops(Replay(true, [], maxsequence), records, i, |records|, paranoid);
      return;
    }
    end := Recovered;
    if mem.Some? && !(reuse && compactions == 0) {
      var aborted, status;
      aborted, status, edit := WriteLevel0Table(mem.value, saves(compactions), edit);
      if aborted {
        end := Aborted;
      } else {
        WrittenNext(p.written, mem.value, saves);
        mem := None;
      }
    }
  }

  lemma ReplayStarts(records: seq<seq<byte>>, tooBig: nat -> bool, least: int, paranoid: bool, saves: nat -> Save)
    ensures Play(records, 0, tooBig) == Progress([], None) && EditOf([], saves) == Edit([], 0)
    ensures ApplyAll(Replay(true, [], least), records, 0, paranoid) == Replay(true, [], least)
  {
  }

  /** What one record does to replay and to its memory tables. */
  lemma ReplayStep(records: seq<seq<byte>>, i: nat, tooBig: nat -> bool, least: int, paranoid: bool)
    requires i < |records|
    ensures var r, rep := ApplyAll(Replay(true, [], least), records, i, paranoid), records[i];
      var after := ApplyAll(Replay(true, [], least), records, i + 1, paranoid);
      if !r.ok || |rep| < HEADER then after == r
      else
        && (after.ok <==> !(paranoid && !WellFormed(rep)))
        && (after.ok ==> after.max == if LastSequence(rep) > r.max then LastSequence(rep) else r.max)
    ensures var p, rep := Play(records, i, tooBig), records[i];
      Play(records, i + 1, tooBig)
        == if |rep| < HEADER then p
           else
             var rows := RowsIn(p.mem) + Rows(SequenceOf(rep), ReadWrites(rep, HEADER).writes);
             if rows != [] && tooBig(i + 1) then Progress(p.written + [rows], None) else Progress(p.written, Some(rows))
  {
    hide ReadWrites, Rows, SequenceOf, CountOf, LastSequence, WellFormed;
  }

  lemma WrittenNext(written: seq<seq<Row>>, rows: seq<Row>, saves: nat -> Save)
    ensures EditOf(written + [rows], saves) == Added(EditOf(written, saves), rows, saves(|written|))
  {
    assert (written + [rows])[..|written|] == written;
  }

  lemma InsertedIs(inserted: bool, rep: seq<byte>)
    requires |rep| >= HEADER
    requires inserted <==> ReadWrites(rep, HEADER).ok && |ReadWrites(rep, HEADER).writes| == CountOf(rep)
    ensures inserted <==> WellFormed(rep)
  {
  }

  /** Once replay has stopped, later records change nothing. */
  lemma {:induction false} ReplayStops(r: Replay, records: seq<seq<byte>>, m: nat, n: nat, paranoid: bool)
    requires m <= n <= |records| && !ApplyAll(r, records, m, paranoid).ok
    ensures ApplyAll(r, records, n, paranoid) == ApplyAll(r, records, m, paranoid)
    decreases n
  {
    if m < n {
      ReplayStops(r, records, m, n - 1, paranoid);
    }
  }

  // ----- A log of committed batches -----

  datatype Batch = Batch(sequence: nat, writes: seq<Write>)

  /** What the writers of the log guarantee: increasing ranges of sequence numbers, encodable strings. */
  ghost predicate Committed(batches: seq<Batch>) {
    && (forall b :: 0 <= b < |batches| ==>
          && 0 < batches[b].sequence && batches[b].sequence + |batches[b].writes| <= MAX_SEQUENCE + 1
          && |batches[b].writes| < 0x8000_0000
          && forall i :: 0 <= i < |batches[b].writes| ==> Short(batches[b].writes[i]))
    && (forall b, c :: 0 <= b < c < |batches| ==> batches[b].sequence + |batches[b].writes| <= batches[c].sequence)
  }

  function Reps(batches: seq<Batch>): (reps: seq<seq<byte>>)
    ensures |reps| == |batches|
  {
    seq(|batches|, b requires 0 <= b < |batches| => Rep(batches[b].sequence, batches[b].writes))
  }

  /** The rows of the first n batches, in order. */
  function RowsOf(batches: seq<Batch>, n: nat): seq<Row>
    requires n <= |batches|
  {
    if n == 0 then [] else RowsOf(batches, n - 1) + Rows(batches[n - 1].sequence, batches[n - 1].writes)
  }

  /** The last sequence used by the first n batches, or the given one if that is larger. */
  function LastOf(batches: seq<Batch>, n: nat, least: nat): int
    requires n <= |batches|
  {
    if n == 0 then least
    else
      var end := batches[n - 1].sequence + |batches[n - 1].writes| - 1;
      if end > least then end else least
  }

  /** A committed batch is replayed whole. */
  lemma ApplyBatch(r: Replay, b: Batch, paranoid: bool)
    requires r.ok && Committed([b])
    ensures var end := b.sequence + |b.writes| - 1;
      Apply(r, Rep(b.sequence, b.writes), paranoid)
        == Replay(true, r.rows + Rows(b.sequence, b.writes), if end > r.max then end else r.max)
  {
    hide Rep, ReadWrites, SequenceOf, CountOf, Rows, Short;
    assert [b][0] == b;
    BatchRoundTrip(b.sequence, b.writes);
    RepLength(b.sequence, b.writes);
  }

  lemma CommittedPart(batches: seq<Batch>, n: nat)
    requires Committed(batches) && 0 < n <= |batches|
    ensures Committed([batches[n - 1]])
    ensures n > 1 ==> batches[n - 2].sequence + |batches[n - 2].writes| <= batches[n - 1].sequence
  {
    hide Short;
  }

  lemma {:induction false} ReplayRows(batches: seq<Batch>, n: nat, m: nat, paranoid: bool)
    requires Committed(batches) && n <= |batches|
    ensures ApplyAll(Replay(true, [], m), Reps(batches), n, paranoid) ==
      Replay(true, RowsOf(batches, n), LastOf(batches, n, m))
  {
    hide Rep, Rows, Apply, Committed;
    if n > 0 {
      ReplayRows(batches, n - 1, m, paranoid);
      CommittedPart(batches, n);
      ApplyBatch(ApplyAll(Replay(true, [], m), Reps(batches), n - 1, paranoid), batches[n - 1], paranoid);
    }
  }

  lemma {:induction false} ApplyPrefix(r: Replay, records: seq<seq<byte>>, more: seq<seq<byte>>, n: nat, paranoid: bool)
    requires n <= |records| && n <= |more| && records[..n] == more[..n]
    ensures ApplyAll(r, records, n, paranoid) == ApplyAll(r, more, n, paranoid)
  {
    hide Apply;
    if n > 0 {
      assert records[n - 1] == records[..n][n - 1] && more[n - 1] == more[..n][n - 1];
      assert records[..n - 1] == records[..n][..n - 1] && more[..n - 1] == more[..n][..n - 1];
      ApplyPrefix(r, records, more, n - 1, paranoid);
    }
  }

  lemma {:induction false} PlayPrefix(records: seq<seq<byte>>, more: seq<seq<byte>>, n: nat, tooBig: nat -> bool)
    requires n <= |records| && n <= |more| && records[..n] == more[..n]
    ensures Play(records, n, tooBig) == Play(more, n, tooBig)
  {
    hide Rows, ReadWrites, SequenceOf;
    if n > 0 {
      assert records[n - 1] == records[..n][n - 1] && more[n - 1] == more[..n][n - 1];
      assert records[..n - 1] == records[..n][..n - 1] && more[..n - 1] == more[..n][..n - 1];
      PlayPrefix(records, more, n - 1, tooBig);
    }
  }

  /** One more batch in the memory table. */
  lemma {:induction false} PlayBatch(batches: seq<Batch>, n: nat, tooBig: nat -> bool)
    requires Committed(batches) && 0 < n <= |batches|
    ensures var p, b := Play(Reps(batches), n - 1, tooBig), batches[n - 1];
      var rows := RowsIn(p.mem) + Rows(b.sequence, b.writes);
      && |Rows(b.sequence, b.writes)| == |b.writes|
      && Play(Reps(batches), n, tooBig)
           == if rows != [] && tooBig(n) then Progress(p.written + [rows], None) else Progress(p.written, Some(rows))
  {
    hide Rep, ReadWrites, SequenceOf, CountOf, Short;
    CommittedPart(batches, n);
    var b := batches[n - 1];
    assert [b][0] == b;
    BatchRoundTrip(b.sequence, b.writes);
    RepLength(b.sequence, b.writes);
  }

  /** Without empty batches there is a row in every memory table. */
  lemma {:induction false} NeverEmpty(batches: seq<Batch>, n: nat, tooBig: nat -> bool)
    requires Committed(batches) && n <= |batches| && forall b :: 0 <= b < n ==> batches[b].writes != []
    ensures Play(Reps(batches), n, tooBig).mem != Some([])
  {
    hide Committed, Rows, Reps;
    if n > 0 {
      PlayBatch(batches, n, tooBig);
    }
  }

  /** With nothing but empty batches there is none. */
  lemma {:induction false} AlwaysEmpty(batches: seq<Batch>, n: nat, tooBig: nat -> bool)
    requires Committed(batches) && 0 < n <= |batches| && forall b :: 0 <= b < n ==> batches[b].writes == []
    ensures Play(Reps(batches), n, tooBig) == Progress([], Some([]))
  {
    hide Committed, Rows, Reps;
    PlayBatch(batches, n, tooBig);
    if n > 1 {
      AlwaysEmpty(batches, n - 1, tooBig);
    }
  }

  /**
   * Replaying a log cut at any byte, with n batches wholly before the cut: it ends with an open database, unless
   * the last memory table is to be written, has no row, and its file can be created. Then exactly the rows of the n
   * batches are held, all or nothing of each, if and only if every table that has rows was kept; and their last
   * sequence number is recovered in any case.
   */
  method RecoverTruncated(
    ghost batches: seq<Batch>, ghost t: nat, file: seq<byte>,
    paranoid: bool, reuse: bool, tooBig: nat -> bool, saves: nat -> Save, maxsequence: nat)
    returns (end: End, edit: Edit, mem: Option<seq<Row>>, max: int)
    requires Committed(batches) && t <= |LogFormat.EmitAll(0, Reps(batches))|
    requires file == LogFormat.EmitAll(0, Reps(batches))[..t]
    ensures var n := LogTheory.WholeCount(0, Reps(batches), t);
      var p := Play(Reps(batches), n, tooBig);
      && end != Refused
      && (end == Aborted <==> WritesLast(p, reuse) && p.mem == Some([]) && saves(|p.written|) != NotCreated)
      && ((forall b :: 0 <= b < n ==> batches[b].writes != []) ==> end == Recovered)
      && (end == Recovered ==>
            && edit == EditOf(AllWritten(p, reuse), saves) && mem == LeftInMemory(p, reuse)
            && max == LastOf(batches, n, maxsequence)
            && (Held(edit.tables, mem) == RowsOf(batches, n) <==> AllKept(AllWritten(p, reuse), saves)))
  {
    hide LogFormat.ReadLog, LogFormat.EmitAll, LogTheory.WholeCount, RowsOf, LastOf, Held, Apply, Committed, Play,
      EditOf, AllKept, AllWritten, LeftInMemory, WritesLast;
    var records := LogTheory.Data(LogFormat.ReadLog(file, 0, true).records);
    ghost var n := LogTheory.WholeCount(0, Reps(batches), t);
    LogTheory.ReadBackPrefix(Reps(batches), t, true);
    assert records == Reps(batches)[..n];
    ApplyPrefix(Replay(true, [], maxsequence), records, Reps(batches), n, paranoid);
    PlayPrefix(records, Reps(batches), n, tooBig);
    ReplayRows(batches, n, maxsequence, paranoid);
    end, edit, mem, max := RecoverLogFile(file, paranoid, reuse, tooBig, saves, maxsequence);
    ghost var p := Play(records, n, tooBig);
    PlayHolds(records, n, tooBig, maxsequence, paranoid);
    EndHolds(p, reuse);
    HeldIffKept(AllWritten(p, reuse), LeftInMemory(p, reuse), saves);
    if forall b :: 0 <= b < n ==> batches[b].writes != [] {
      NeverEmpty(batches, n, tooBig);
    }
  }

  /**
   * No table can be kept: recovery opens the database all the same, with the last sequence number of the log and
   * without a single row of it.
   */
  method RecoverNothing(
    ghost batches: seq<Batch>, file: seq<byte>, paranoid: bool, tooBig: nat -> bool, saves: nat -> Save,
    maxsequence: nat)
    returns (end: End, edit: Edit, mem: Option<seq<Row>>, max: int)
    requires Committed(batches) && file == LogFormat.EmitAll(0, Reps(batches))
    requires forall b :: 0 <= b < |batches| ==> batches[b].writes != []
    requires forall w: nat :: saves(w) != Kept
    ensures end == Recovered && Held(edit.tables, mem) == [] && max == LastOf(batches, |batches|, maxsequence)
  {
    hide LogFormat.EmitAll, LogTheory.WholeCount, RowsOf, LastOf, Committed, Play;
    assert file == LogFormat.EmitAll(0, Reps(batches))[..|file|];
    LogTheory.WholeLog(0, Reps(batches), |file|);
    end, edit, mem, max := RecoverTruncated(batches, |file|, file, paranoid, false, tooBig, saves, maxsequence);
    NoTables(AllWritten(Play(Reps(batches), |batches|, tooBig), false), saves);
  }

  lemma {:induction false} NoTables(written: seq<seq<Row>>, saves: nat -> Save)
    requires forall w: nat :: saves(w) != Kept
    ensures EditOf(written, saves).tables == []
  {
    if written != [] {
      NoTables(written[..|written| - 1], saves);
    }
  }

  /** A log of nothing but empty batches, which nothing keeps a client from writing, aborts its own recovery. */
  method EmptyBatchesAbort(
    ghost batches: seq<Batch>, file: seq<byte>, paranoid: bool, tooBig: nat -> bool, saves: nat -> Save,
    maxsequence: nat)
    returns (end: End)
    requires Committed(batches) && file == LogFormat.EmitAll(0, Reps(batches)) && batches != []
    requires forall b :: 0 <= b < |batches| ==> batches[b].writes == []
    requires saves(0) != NotCreated
    ensures end == Aborted
  {
    hide LogFormat.EmitAll, LogTheory.WholeCount, RowsOf, LastOf, Committed, Play;
    assert file == LogFormat.EmitAll(0, Reps(batches))[..|file|];
    LogTheory.WholeLog(0, Reps(batches), |file|);
    AlwaysEmpty(batches, |batches|, tooBig);
    var edit, mem, max;
    end, edit, mem, max := RecoverTruncated(batches, |file|, file, paranoid, false, tooBig, saves, maxsequence);
  }

  // ----- What a reader sees after recovery -----

  /** Sequence numbers go up: the order in which rows are replayed is their age. */
  ghost predicate Ascending(rows: seq<Row>) {
    forall i, j :: 0 <= i < j < |rows| ==> rows[i].0.sequence < rows[j].0.sequence
  }

  lemma {:induction false} RowsAscend(batches: seq<Batch>, n: nat)
    requires Committed(batches) && n <= |batches|
    ensures Ascending(RowsOf(batches, n))
    ensures forall i, b :: 0 <= i < |RowsOf(batches, n)| && n <= b < |batches| ==>
              RowsOf(batches, n)[i].0.sequence < batches[b].sequence
  {
    hide Short;
    if n > 0 {
      RowsAscend(batches, n - 1);
    }
  }

  /** The last row of a key that a snapshot can see decides. */
  function LastWrite(rows: seq<Row>, key: seq<byte>, s: nat): Answer<seq<byte>> {
    if rows == [] then Absent
    else
      var x := rows[|rows| - 1];
      if x.0.user == key && x.0.sequence <= s then AnswerOf(x) else LastWrite(rows[..|rows| - 1], key, s)
  }

  lemma {:induction false} LastWriteSplits(a: seq<Row>, b: seq<Row>, key: seq<byte>, s: nat)
    ensures LastWrite(a + b, key, s) == if LastWrite(b, key, s) == Absent then LastWrite(a, key, s)
      else LastWrite(b, key, s)
    decreases |b|
  {
    if b == [] {
      assert a + b == a;
    } else {
      assert (a + b)[..|a + b| - 1] == a + b[..|b| - 1];
      LastWriteSplits(a, b[..|b| - 1], key, s);
    }
  }

  lemma {:induction false} LastVisible(rows: seq<Row>, key: seq<byte>, s: nat)
    requires Ascending(rows) && rows != []
    requires var x := rows[|rows| - 1]; x.0.user == key && x.0.sequence <= s
    ensures IsNewest(rows, |rows| - 1, key, s)
  {
  }

  lemma {:induction false} LastInvisible(rows: seq<Row>, key: seq<byte>, s: nat, a: Answer<seq<byte>>)
    requires Answers(rows, key, s, a) && rows != []
    requires var x := rows[|rows| - 1]; !(x.0.user == key && x.0.sequence <= s)
    ensures Answers(rows[..|rows| - 1], key, s, a)
  {
    hide NoneVisible, IsNewest;
    var n := |rows| - 1;
    NoneMore(rows, key, s);
    forall i: nat | IsNewest(rows[..n], i, key, s)
      ensures i < n && a == AnswerOf(rows[..n][i])
    {
      NewestMore(rows, i, key, s);
    }
  }

  lemma NoneMore(rows: seq<Row>, key: seq<byte>, s: nat)
    requires rows != [] && var x := rows[|rows| - 1]; !(x.0.user == key && x.0.sequence <= s)
    ensures NoneVisible(rows[..|rows| - 1], key, s) <==> NoneVisible(rows, key, s)
  {
    assert forall j :: 0 <= j < |rows| - 1 ==> rows[..|rows| - 1][j] == rows[j];
  }

  lemma NewestMore(rows: seq<Row>, i: nat, key: seq<byte>, s: nat)
    requires rows != [] && var x := rows[|rows| - 1]; !(x.0.user == key && x.0.sequence <= s)
    requires IsNewest(rows[..|rows| - 1], i, key, s)
    ensures i < |rows| - 1 && rows[..|rows| - 1][i] == rows[i] && IsNewest(rows, i, key, s)
  {
    assert forall j :: 0 <= j < |rows| - 1 ==> rows[..|rows| - 1][j] == rows[j];
  }

  /** For rows in order of age a right answer is that of the last write. */
  lemma {:induction false} AnswersLast(rows: seq<Row>, key: seq<byte>, s: nat, a: Answer<seq<byte>>)
    requires Ascending(rows) && Answers(rows, key, s, a)
    ensures a == LastWrite(rows, key, s)
    decreases |rows|
  {
    hide IsNewest;
    if rows != [] {
      var n := |rows| - 1;
      if rows[n].0.user == key && rows[n].0.sequence <= s {
        LastVisible(rows, key, s);
      } else {
        LastInvisible(rows, key, s, a);
        AnswersLast(rows[..n], key, s, a);
      }
    }
  }

  /** The newest table that knows the key answers. */
  function SearchTables(tables: seq<seq<Row>>, key: seq<byte>, s: nat): Answer<seq<byte>> {
    if tables == [] then Absent
    else
      var n := |tables| - 1;
      if LastWrite(tables[n], key, s) == Absent then SearchTables(tables[..n], key, s) else LastWrite(tables[n], key, s)
  }

  /** Searching memory, then the tables from the newest back, sees the last write of all the rows. */
  lemma {:induction false} SearchSeesLast(tables: seq<seq<Row>>, mem: seq<Row>, key: seq<byte>, s: nat)
    ensures LastWrite(Held(tables, Some(mem)), key, s)
      == if LastWrite(mem, key, s) == Absent then SearchTables(tables, key, s) else LastWrite(mem, key, s)
  {
    hide LastWrite;
    LastWriteSplits(Flatten(tables), mem, key, s);
    SearchIsLast(tables, key, s);
  }

  lemma {:induction false} SearchIsLast(tables: seq<seq<Row>>, key: seq<byte>, s: nat)
    ensures LastWrite(Flatten(tables), key, s) == SearchTables(tables, key, s)
  {
    if tables != [] {
      var n := |tables| - 1;
      SearchIsLast(tables[..n], key, s);
      LastWriteSplits(Flatten(tables[..n]), tables[n], key, s);
    }
  }

  // ----- The last write, by the writes themselves -----

  /** A write of the key that the snapshot sees: write i of batch b. */
  predicate Sees(batches: seq<Batch>, b: nat, i: nat, key: seq<byte>, s: nat) {
    b < |batches| && i < |batches[b].writes| && batches[b].writes[i].key == key && batches[b].sequence + i <= s
  }

  /** What a lookup makes of the last write it sees: the value put, or that the key is deleted. */
  lemma {:induction false} LastWriteIs(batches: seq<Batch>, n: nat, key: seq<byte>, s: nat, b: nat, i: nat)
    requires b < n <= |batches| && Sees(batches, b, i, key, s)
    requires forall c: nat, j: nat :: c < n && Sees(batches, c, j, key, s) ==> c < b || (c == b && j <= i)
    ensures LastWrite(RowsOf(batches, n), key, s)
      == match batches[b].writes[i]
         case Put(_, value) => Found(value)
         case Delete(_) => Deleted
  {
    hide Rows, LastWrite;
    var last := batches[n - 1];
    LastWriteSplits(RowsOf(batches, n - 1), Rows(last.sequence, last.writes), key, s);
    if b == n - 1 {
      forall j: nat | i < j < |last.writes| && last.writes[j].key == key
        ensures last.sequence + j > s
      {
        assert Sees(batches, b, j, key, s) <==> last.sequence + j <= s;
      }
      LastOfRows(last.sequence, last.writes, key, s, i);
    } else {
      forall j: nat | j < |last.writes| && last.writes[j].key == key
        ensures last.sequence + j > s
      {
        assert Sees(batches, n - 1, j, key, s) <==> last.sequence + j <= s;
      }
      NoneOfRows(last.sequence, last.writes, key, s);
      LastWriteIs(batches, n - 1, key, s, b, i);
    }
  }

  lemma {:induction false} NoWriteIs(batches: seq<Batch>, n: nat, key: seq<byte>, s: nat)
    requires n <= |batches|
    requires forall b: nat, i: nat :: b < n ==> !Sees(batches, b, i, key, s)
    ensures LastWrite(RowsOf(batches, n), key, s) == Absent
  {
    if n > 0 {
      hide Rows, LastWrite;
      var last := batches[n - 1];
      LastWriteSplits(RowsOf(batches, n - 1), Rows(last.sequence, last.writes), key, s);
      forall j: nat | j < |last.writes| && last.writes[j].key == key
        ensures last.sequence + j > s
      {
        assert Sees(batches, n - 1, j, key, s) <==> last.sequence + j <= s;
      }
      NoneOfRows(last.sequence, last.writes, key, s);
      NoWriteIs(batches, n - 1, key, s);
    }
  }

  lemma {:induction false} LastOfRows(sequence: nat, ws: seq<Write>, key: seq<byte>, s: nat, i: nat)
    requires i < |ws| && ws[i].key == key && sequence + i <= s
    requires forall j :: i < j < |ws| && ws[j].key == key ==> sequence + j > s
    ensures LastWrite(Rows(sequence, ws), key, s)
      == match ws[i]
         case Put(_, value) => Found(value)
         case Delete(_) => Deleted
    decreases |ws|
  {
    var n := |ws| - 1;
    RowsLast(sequence, ws);
    if i < n {
      assert ws[..n][i] == ws[i] && forall j :: i < j < n ==> ws[..n][j] == ws[j];
      LastOfRows(sequence, ws[..n], key, s, i);
    }
  }

  lemma {:induction false} NoneOfRows(sequence: nat, ws: seq<Write>, key: seq<byte>, s: nat)
    requires forall j :: 0 <= j < |ws| && ws[j].key == key ==> sequence + j > s
    ensures LastWrite(Rows(sequence, ws), key, s) == Absent
    decreases |ws|
  {
    if ws != [] {
      var n := |ws| - 1;
      RowsLast(sequence, ws);
      assert forall j :: 0 <= j < n ==> ws[..n][j] == ws[j];
      NoneOfRows(sequence, ws[..n], key, s);
    }
  }

  lemma RowsLast(sequence: nat, ws: seq<Write>)
    requires ws != []
    ensures var n, rows := |ws| - 1, Rows(sequence, ws);
      rows[..n] == Rows(sequence, ws[..n]) && rows[n] == RowOf(sequence + n, ws[n])
  {
  }

  /** A recovered memory table answers every lookup with the last write it was given. */
  method LookUp(ucmp: (seq<byte>, seq<byte>) -> int, rows: seq<Row>, key: seq<byte>, s: nat)
    returns (a: Answer<seq<byte>>)
    requires TotalOrder(ucmp) && Ascending(rows) && |key| + 8 < TWO32 && s <= MAX_SEQUENCE
    requires forall i :: 0 <= i < |rows| ==> Encodable(rows[i])
    ensures a == LastWrite(rows, key, s)
  {
    hide TotalOrder, Encodable, Answers, LastWrite, Stored;
    var mem := new MemTable(ucmp);
    for i := 0 to |rows|
      invariant mem.Valid() && mem.adds == rows[..i]
    {
      DistinctPrefix(rows, i);
      assert rows[..i] + [rows[i]] == rows[..i + 1];
      mem.Add(rows[i].0.sequence, rows[i].0.kind, rows[i].0.user, rows[i].1);
    }
    assert rows[..|rows|] == rows;
    a := mem.Get(key, s);
    AnswersLast(rows, key, s, a);
  }

  lemma DistinctPrefix(rows: seq<Row>, i: nat)
    requires Ascending(rows) && i < |rows|
    ensures Distinct(rows[..i + 1])
  {
  }

  /** Rows as replay inserts them: the older first, each with the width its encoding gives it. */
  ghost predicate OldestFirst(rows: seq<Row>) {
    Ascending(rows) && forall i :: 0 <= i < |rows| ==> Encodable(rows[i])
  }

  lemma {:induction false} RowsOldestFirst(batches: seq<Batch>, n: nat)
    requires Committed(batches) && n <= |batches|
    ensures OldestFirst(RowsOf(batches, n))
  {
    hide Ascending;
    RowsAscend(batches, n);
    RowsEncodable(batches, n);
  }

  lemma {:induction false} RowsEncodable(batches: seq<Batch>, n: nat)
    requires Committed(batches) && n <= |batches|
    ensures forall i :: 0 <= i < |RowsOf(batches, n)| ==> Encodable(RowsOf(batches, n)[i])
  {
    if n > 0 {
      RowsEncodable(batches, n - 1);
      var b := batches[n - 1];
      forall i | 0 <= i < |b.writes|
        ensures Encodable(Rows(b.sequence, b.writes)[i])
      {
        assert Short(b.writes[i]);
      }
    }
  }

  lemma PartsOldestFirst(a: seq<Row>, b: seq<Row>)
    requires OldestFirst(a + b)
    ensures OldestFirst(a) && OldestFirst(b)
  {
    hide Encodable;
    assert forall i :: 0 <= i < |a| ==> a[i] == (a + b)[i];
    forall i | 0 <= i < |b|
      ensures b[i] == (a + b)[|a| + i] && Encodable(b[i]) && forall j :: i < j < |b|
                                                               ==> b[i].0.sequence < b[j].0.sequence
    {
      forall j | i < j < |b|
        ensures b[i].0.sequence < b[j].0.sequence
      {
        assert (a + b)[|a| + i].0.sequence < (a + b)[|a| + j].0.sequence;
      }
    }
  }

  /** Asks the memory table, and then the tables from the newest back. */
  method Get(ucmp: (seq<byte>, seq<byte>) -> int, tables: seq<seq<Row>>, mem: Option<seq<Row>>, key: seq<byte>, s: nat)
    returns (a: Answer<seq<byte>>)
    requires TotalOrder(ucmp) && OldestFirst(Held(tables, mem)) && |key| + 8 < TWO32 && s <= MAX_SEQUENCE
    ensures a == LastWrite(Held(tables, mem), key, s)
  {
    hide TotalOrder, LastWrite, Ascending, Flatten;
    PartsOldestFirst(Flatten(tables), RowsIn(mem));
    SearchSeesLast(tables, RowsIn(mem), key, s);
    a := LookUp(ucmp, if mem.Some? then mem.value else [], key, s);
    var i := |tables|;
    assert tables[..i] == tables;
    while a == Absent && i > 0
      invariant i <= |tables| && OldestFirst(Flatten(tables[..i]))
      invariant LastWrite(Held(tables, mem), key, s) == if a == Absent then SearchTables(tables[..i], key, s) else a
    {
      i := i - 1;
      assert tables[..i + 1] == tables[..i] + [tables[i]];
      FlattenAppend(tables[..i], tables[i]);
      PartsOldestFirst(Flatten(tables[..i]), tables[i]);
      a := LookUp(ucmp, tables[i], key, s);
    }
  }

  /** Rows that are lost leave the others in order. */
  lemma DropMiddle(a: seq<Row>, b: seq<Row>, c: seq<Row>)
    requires OldestFirst(a + b + c)
    ensures OldestFirst(a + c)
  {
    hide Encodable;
    var all := a + b + c;
    forall i | 0 <= i < |a + c|
      ensures Encodable((a + c)[i]) && forall j :: i < j < |a + c| ==> (a + c)[i].0.sequence < (a + c)[j].0.sequence
    {
      var k := if i < |a| then i else i + |b|;
      assert (a + c)[i] == all[k];
      forall j | i < j < |a + c|
        ensures (a + c)[i].0.sequence < (a + c)[j].0.sequence
      {
        var l := if j < |a| then j else j + |b|;
        assert (a + c)[j] == all[l] && all[k].0.sequence < all[l].0.sequence;
      }
    }
  }

  lemma {:induction false} KeptOldestFirst(written: seq<seq<Row>>, saves: nat -> Save, tail: seq<Row>)
    requires OldestFirst(Flatten(written) + tail)
    ensures OldestFirst(Flatten(EditOf(written, saves).tables) + tail)
    decreases |written|
  {
    hide OldestFirst, Flatten;
    if written != [] {
      var n := |written| - 1;
      var front, last := written[..n], written[n];
      assert written == front + [last];
      FlattenAppend(front, last);
      FlattenAppend(EditOf(front, saves).tables, last);
      Regroup(Flatten(front), last, tail);
      Regroup(Flatten(EditOf(front, saves).tables), last, tail);
      if saves(n) == Kept {
        KeptOldestFirst(front, saves, last + tail);
      } else {
        DropMiddle(Flatten(front), last, tail);
        KeptOldestFirst(front, saves, tail);
      }
    }
  }

  /**
   * Recovery from a log cut at any byte, and then a lookup at any snapshot: the answer is the last write of the key
   * that the snapshot can see among the rows held; if every table with rows was kept, among all batches wholly
   * before the cut.
   */
  method RecoverAndGet(
    ucmp: (seq<byte>, seq<byte>) -> int, ghost batches: seq<Batch>, ghost t: nat, file: seq<byte>,
    paranoid: bool, reuse: bool, tooBig: nat -> bool, saves: nat -> Save, maxsequence: nat, key: seq<byte>, s: nat)
    returns (end: End, edit: Edit, mem: Option<seq<Row>>, a: Answer<seq<byte>>)
    requires TotalOrder(ucmp) && |key| + 8 < TWO32 && s <= MAX_SEQUENCE
    requires Committed(batches) && t <= |LogFormat.EmitAll(0, Reps(batches))|
    requires file == LogFormat.EmitAll(0, Reps(batches))[..t]
    ensures var n := LogTheory.WholeCount(0, Reps(batches), t);
      && (end == Recovered ==> a == LastWrite(Held(edit.tables, mem), key, s))
      && (end == Recovered && AllKept(AllWritten(Play(Reps(batches), n, tooBig), reuse), saves) ==>
            a == LastWrite(RowsOf(batches, n), key, s))
      && ((forall b :: 0 <= b < n ==> batches[b].writes != []) ==> end == Recovered)
  {
    hide TotalOrder, LogFormat.EmitAll, LogTheory.WholeCount, RowsOf, LastOf, Committed, Play, EditOf, LastWrite,
      OldestFirst, AllKept, Flatten, AllWritten, LeftInMemory, WritesLast;
    var max;
    end, edit, mem, max := RecoverTruncated(batches, t, file, paranoid, reuse, tooBig, saves, maxsequence);
    a := Absent;
    if end == Recovered {
      ghost var n := LogTheory.WholeCount(0, Reps(batches), t);
      ghost var p := Play(Reps(batches), n, tooBig);
      RowsOldestFirst(batches, n);
      ReplayRows(batches, n, maxsequence, paranoid);
      PlayHolds(Reps(batches), n, tooBig, maxsequence, paranoid);
      EndHolds(p, reuse);
      KeptOldestFirst(AllWritten(p, reuse), saves, RowsIn(LeftInMemory(p, reuse)));
      a := Get(ucmp, edit.tables, mem, key, s);
    }
  }
}
