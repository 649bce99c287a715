/**
 * From the write protocol to recovery (db.cc): an acknowledged synchronous write survives a crash, unless an append
 * to its log file had failed before; and what becomes of the record after an append that failed.
 */
module CrashSafety {
  import opened Lists
  import opened Ordering
  import opened Bytes
  import opened Versions
  import opened MemTables
  import opened WriteBatches
  import opened LogFiles
  import WriteQueue
  import GroupCommit
  import Recovery
  import LogFormat
  import LogTheory
  import LogDamage

  /** A log written by the protocol is one that recovery can rely on. */
  lemma {:induction false} LogIsCommitted(s: State, file: nat)
    requires GroupCommit.Inv(s) && AllEncodable(s.log)
    ensures Recovery.Committed(Batches(InFile(s.log, file)))
  {
    hide GroupCommit.QueueInv, GroupCommit.GroupInv, GroupCommit.MemoryInv, GroupCommit.RoundInv, InFile, Short;
    var records := InFile(s.log, file);
    var batches := Batches(records);
    forall b | 0 <= b < |batches|
      ensures 0 < batches[b].sequence && batches[b].sequence + |batches[b].writes| <= MAX_SEQUENCE + 1
      ensures |batches[b].writes| < 0x8000_0000
      ensures forall i :: 0 <= i < |batches[b].writes| ==> Short(batches[b].writes[i])
    {
      var k := InFileFrom(s.log, file, b);
      assert GroupCommit.Faithful(s.requests, s.log[k]);
    }
    forall b, c | 0 <= b < c < |batches|
      ensures batches[b].sequence + |batches[b].writes| <= batches[c].sequence
    {
      var k := InFileFrom(s.log, file, b);
      var l := InFileFrom(s.log, file, c);
      if l <= k {
        InFileGrows(s.log, file, l, k);
      }
      assert k < l;
    }
  }

  /** A member's operations are a stretch of its group's. */
  lemma {:induction false} MemberOps<T>(rs: seq<WriteQueue.Request<T>>, lo: nat, hi: nat, i: nat) returns (at: nat)
    requires lo <= i < hi <= |rs|
    ensures at + |WriteQueue.Ops(rs[i])| <= |WriteQueue.Concat(rs, lo, hi)|
    ensures WriteQueue.Concat(rs, lo, hi)[at..at + |WriteQueue.Ops(rs[i])|] == WriteQueue.Ops(rs[i])
    decreases hi
  {
    hide WriteQueue.Ops;
    if i == hi - 1 {
      at := |WriteQueue.Concat(rs, lo, hi - 1)|;
    } else {
      at := MemberOps(rs, lo, hi - 1, i);
    }
  }

  lemma RowsPart(rows: seq<Row>, start: nat, base: nat, ops: seq<Write>, offset: nat, part: seq<Write>)
    requires start + |ops| <= |rows| && rows[start..start + |ops|] == Rows(base, ops)
    requires offset + |part| <= |ops| && ops[offset..offset + |part|] == part
    ensures rows[start + offset..start + offset + |part|] == Rows(base + offset, part)
  {
    forall j | 0 <= j < |part|
      ensures rows[start + offset + j] == RowOf(base + offset + j, part[j])
    {
      assert rows[start + offset + j] == rows[start..start + |ops|][offset + j];
      assert part[j] == ops[offset..offset + |part|][j];
    }
  }

  // ----- Replaying a file that begins with whole records -----

  /** The records that recovery reads from a log file. */
  function RecordsOf(bytes: seq<byte>): seq<seq<byte>> { LogTheory.Data(LogFormat.ReadLog(bytes, 0, true).records) }

  /** Whole records at the front are read, whatever follows. */
  lemma {:induction false} ReadsWhole(bytes: seq<byte>, reps: seq<seq<byte>>)
    requires LogFormat.EmitAll(0, reps) <= bytes
    ensures reps <= RecordsOf(bytes)
  {
    hide LogFormat.Scan, LogFormat.EmitAll, LogTheory.Expected, LogTheory.WholeCount, LogTheory.Data;
    var n := |LogFormat.EmitAll(0, reps)|;
    assert bytes[0..n] == LogFormat.EmitAll(0, reps);
    assert LogFormat.InitialBlock(0) == 0;
    LogDamage.ScanWhole(bytes, 0, reps, true);
    LogTheory.ExpectedIsPrefix(0, reps, |bytes|);
    LogTheory.WholeLog(0, reps, |bytes|);
    LogTheory.DataAppend(LogTheory.Expected(0, reps, 0, |bytes|),
      LogFormat.Scan(bytes, n, 0, true, false, None).records);
    assert reps[..|reps|] == reps;
  }

  /** What is recovered only grows. */
  lemma {:induction false} ReplayGrows(r: Recovery.Replay, records: seq<seq<byte>>, m: nat, n: nat, paranoid: bool)
    requires m <= n <= |records|
    ensures Recovery.ApplyAll(r, records, m, paranoid).rows <= Recovery.ApplyAll(r, records, n, paranoid).rows
    ensures r.ok && !paranoid ==> Recovery.ApplyAll(r, records, n, paranoid).ok
    decreases n
  {
    hide Rows, ReadWrites, SequenceOf, CountOf, Recovery.LastSequence, Recovery.WellFormed;
    if n > 0 {
      ReplayGrows(r, records, if m < n then m else n - 1, n - 1, paranoid);
    }
  }

  function Start(least: nat): Recovery.Replay { Recovery.Replay(true, [], least) }

  /** All that replay inserts of a log file. */
  function Replayed(bytes: seq<byte>, paranoid: bool, least: nat): Recovery.Replay {
    Recovery.ApplyAll(Start(least), RecordsOf(bytes), |RecordsOf(bytes)|, paranoid)
  }

  ghost predicate Contains<T>(xs: seq<T>, part: seq<T>) { exists at: nat :: At(xs, at, part) }

  /** The rows of every whole record at the front of a file are recovered, whatever follows. */
  lemma {:induction false} BatchReplayed(bytes: seq<byte>, batches: seq<Recovery.Batch>, b: nat, paranoid: bool,
      least: nat) returns (at: nat)
    requires Recovery.Committed(batches) && b < |batches|
    requires LogFormat.EmitAll(0, Recovery.Reps(batches)[..b + 1]) <= bytes
    ensures At(Replayed(bytes, paranoid, least).rows, at, Rows(batches[b].sequence, batches[b].writes))
  {
    hide Rows, Rep, LogFormat.EmitAll, Recovery.Committed, Recovery.Apply, RecordsOf;
    var reps, records := Recovery.Reps(batches), RecordsOf(bytes);
    ReadsWhole(bytes, reps[..b + 1]);
    Recovery.ApplyPrefix(Start(least), records, reps, b + 1, paranoid);
    Recovery.ReplayRows(batches, b + 1, least, paranoid);
    ReplayGrows(Start(least), records, b + 1, |records|, paranoid);
    at := |Recovery.RowsOf(batches, b)|;
    var rows := Recovery.RowsOf(batches, b + 1);
    assert rows[at..] == Rows(batches[b].sequence, batches[b].writes);
    assert Replayed(bytes, paranoid, least).rows[at..|rows|] == rows[at..];
  }

  // ----- Acknowledged writes -----

  /** No append to the file had failed before it got this record. */
  ghost predicate Sound(w: World, r: nat)
    requires r < |w.state.log|
  {
    var file := w.state.log[r].file;
    var x := FileOf(w, file);
    x.failure.None? || |InFile(w.state.log[..r], file)| < x.failure.value
  }

  /** What a crash may leave of a file: its first bytes, with all that was synced to disk. */
  ghost predicate Left(x: LogFile, bytes: seq<byte>) { bytes <= x.bytes && x.synced <= |bytes| }

  /** The records of a sound file up to a synced one are in whatever a crash leaves. */
  lemma {:induction false} SyncedIsLeft(w: World, r: nat, bytes: seq<byte>)
    requires LogFiles.Inv(w) && r < |w.state.log| && Sound(w, r) && w.state.log[r].synced
    requires Left(FileOf(w, w.state.log[r].file), bytes)
    ensures var file := w.state.log[r].file;
      var b := |InFile(w.state.log[..r], file)|;
      b < |InFile(w.state.log, file)| && InFile(w.state.log, file)[b] == w.state.log[r]
      && LogFormat.EmitAll(0, RepsIn(w.state.log, file)[..b + 1]) <= bytes
  {
    hide GroupCommit.Inv, LogFormat.EmitAll, InFile, RepsIn;
    var file := w.state.log[r].file;
    InFileAt(w.state.log, r);
    var b, x, reps := |InFile(w.state.log[..r], file)|, FileOf(w, file), RepsIn(w.state.log, file);
    assert FileOk(w.state.log, file, x);
    EmitAllGrows(reps, b + 1, Intact(x, |reps|));
    PrefixOf(LogFormat.EmitAll(0, reps[..b + 1]), bytes, x.bytes);
  }

  lemma PrefixOf<T>(a: seq<T>, b: seq<T>, c: seq<T>)
    requires a <= c && b <= c && |a| <= |b|
    ensures a <= b
  {
    forall i | 0 <= i < |a|
      ensures a[i] == b[i]
    {
      assert a[i] == c[i] == b[i];
    }
  }

  /**
   * A writer was told that its synchronous write succeeded: its operations are in a record synced to disk. If no
   * append to the record's file had failed before, then whatever first bytes a crash leaves of the file, replaying
   * them recovers the writer's operations, all of them, in order and under consecutive sequence numbers.
   */
  lemma {:induction false} AcknowledgedSurvives(
    worlds: seq<World>, events: seq<LogFiles.Event>, k: nat, i: nat, bytes: seq<byte>, paranoid: bool, least: nat)
    returns (r: nat, sequence: nat)
    requires LogFiles.Run(worlds, events) && LogFiles.Init(worlds[0]) && k <= |events|
    requires AllEncodable(worlds[k].state.log)
    requires i < |worlds[k].state.writers| && |worlds[k].state.requests| == |worlds[k].state.writers|
    requires GroupCommit.Answer(worlds[k].state.writers[i]) == Some(GroupCommit.Ok)
    requires worlds[k].state.requests[i].batch.Some? && worlds[k].state.requests[i].sync
    ensures var s := worlds[k].state;
      r < |s.log| && s.log[r].lo <= i < s.log[r].hi && s.log[r].synced
    ensures var s := worlds[k].state;
      Sound(worlds[k], r) && Left(FileOf(worlds[k], s.log[r].file), bytes) ==>
        Contains(Replayed(bytes, paranoid, least).rows, Rows(sequence, WriteQueue.Ops(s.requests[i])))
  {
    hide GroupCommit.Inv, GroupCommit.Holds, LogFiles.Next, LogFiles.Inv, LogFiles.Init, InFile, Rows, Replayed,
      WriteQueue.Concat, AllEncodable, Sound, Left, LogFormat.EmitAll;
    var w := worlds[k];
    var s := w.state;
    RunsAsProtocol(worlds, events, k);
    r := GroupCommit.SuccessIsLogged(States(worlds), Whats(events), k, i);
    var offset := MemberOps(s.requests, s.log[r].lo, s.log[r].hi, i);
    sequence := s.log[r].base + offset;
    if Sound(w, r) && Left(FileOf(w, s.log[r].file), bytes) {
      var file := s.log[r].file;
      LogIsCommitted(s, file);
      SyncedIsLeft(w, r, bytes);
      var b := |InFile(s.log[..r], file)|;
      var start := BatchReplayed(bytes, Batches(InFile(s.log, file)), b, paranoid, least);
      var rows := Replayed(bytes, paranoid, least).rows;
      RowsPart(rows, start, s.log[r].base, s.log[r].ops, offset, WriteQueue.Ops(s.requests[i]));
      RowsLength(sequence, WriteQueue.Ops(s.requests[i]));
      assert At(rows, start + offset, Rows(sequence, WriteQueue.Ops(s.requests[i])));
    }
  }

  lemma RowsLength(sequence: nat, ops: seq<Write>)
    ensures |Rows(sequence, ops)| == |ops|
  {
  }

  lemma RunsAsProtocol(worlds: seq<World>, events: seq<LogFiles.Event>, k: nat)
    requires LogFiles.Run(worlds, events) && LogFiles.Init(worlds[0]) && k <= |events|
    ensures GroupCommit.Run(States(worlds), Whats(events)) && GroupCommit.Init(States(worlds)[0])
    ensures LogFiles.Inv(worlds[k]) && GroupCommit.Inv(worlds[k].state)
  {
    hide GroupCommit.Run, GroupCommit.Inv, LogFiles.Run, FileOk;
    RunIsRun(worlds, events);
    LogFiles.RunKeeps(worlds, events, k, k);
  }

  /** A writer is in one record only. */
  lemma OneRecord(worlds: seq<World>, events: seq<LogFiles.Event>, k: nat, i: nat, q: nat, r: nat)
    requires LogFiles.Run(worlds, events) && LogFiles.Init(worlds[0]) && k <= |events|
    requires var log := worlds[k].state.log;
      q < |log| && r < |log| && log[q].lo <= i < log[q].hi && log[r].lo <= i < log[r].hi
    ensures q == r
  {
    hide GroupCommit.Run, GroupCommit.Init, LogFiles.Next, LogFiles.Inv, GroupCommit.Inv, LogFiles.Init;
    RunsAsProtocol(worlds, events, k);
    if q != r {
      GroupCommit.LogInOrder(States(worlds), Whats(events), k, if q < r then q else r, if q < r then r else q);
    }
  }

  /** A file to which no append has failed is its records, and any part of it replays without a complaint. */
  lemma SoundReplays(worlds: seq<World>, events: seq<LogFiles.Event>, k: nat, file: nat, bytes: seq<byte>,
      paranoid: bool, least: nat)
    requires LogFiles.Run(worlds, events) && LogFiles.Init(worlds[0]) && k <= |events|
    requires AllEncodable(worlds[k].state.log)
    requires FileOf(worlds[k], file).failure.None? && Left(FileOf(worlds[k], file), bytes)
    ensures var batches := Batches(InFile(worlds[k].state.log, file));
      var n := LogTheory.WholeCount(0, Recovery.Reps(batches), |bytes|);
      Replayed(bytes, paranoid, least) ==
        Recovery.Replay(true, Recovery.RowsOf(batches, n), Recovery.LastOf(batches, n, least))
  {
    hide LogFiles.Next, LogFiles.Init, GroupCommit.Inv, InFile, AllEncodable, LogFormat.EmitAll, LogFormat.ReadLog,
      LogTheory.WholeCount, LogTheory.Data, Recovery.RowsOf, Recovery.LastOf, Recovery.Apply, Recovery.Committed;
    RunsAsProtocol(worlds, events, k);
    var w := worlds[k];
    assert FileOk(w.state.log, file, FileOf(w, file));
    LogIsCommitted(w.state, file);
    var batches := Batches(InFile(w.state.log, file));
    var reps := Recovery.Reps(batches);
    var n := LogTheory.WholeCount(0, reps, |bytes|);
    assert bytes == LogFormat.EmitAll(0, reps)[..|bytes|];
    LogTheory.ReadBackPrefix(reps, |bytes|, true);
    assert RecordsOf(bytes) == reps[..n];
    Recovery.ApplyPrefix(Start(least), RecordsOf(bytes), reps, n, paranoid);
    Recovery.ReplayRows(batches, n, least, paranoid);
  }

  /** Writer i's operations are in record r, which is sound: what a crash leaves of its file replays them. */
  lemma AcknowledgedReplays(
    worlds: seq<World>, events: seq<LogFiles.Event>, k: nat, i: nat, r: nat, bytes: seq<byte>, paranoid: bool,
    least: nat)
    returns (sequence: nat)
    requires LogFiles.Run(worlds, events) && LogFiles.Init(worlds[0]) && k <= |events|
    requires AcknowledgedIn(worlds[k], i, r) && Left(FileOf(worlds[k], worlds[k].state.log[r].file), bytes)
    ensures !paranoid || FileOf(worlds[k], worlds[k].state.log[r].file).failure.None?
      ==> Replayed(bytes, paranoid, least).ok
    ensures Contains(Replayed(bytes, paranoid, least).rows, Rows(sequence, WriteQueue.Ops(worlds[k].state.requests[i])))
  {
    hide GroupCommit.Inv, LogFiles.Next, LogFiles.Inv, LogFiles.Init, InFile, Rows, AllEncodable, Sound, Left,
      RecordsOf, Contains;
    var q;
    q, sequence := AcknowledgedSurvives(worlds, events, k, i, bytes, paranoid, least);
    OneRecord(worlds, events, k, i, q, r);
    ReplayGrows(Start(least), RecordsOf(bytes), 0, |RecordsOf(bytes)|, paranoid);
    if FileOf(worlds[k], worlds[k].state.log[r].file).failure.None? {
      SoundReplays(worlds, events, k, worlds[k].state.log[r].file, bytes, paranoid, least);
    }
  }

  /** Writer i was told that its synchronous write in record r succeeded; no append to its file had failed before. */
  ghost predicate AcknowledgedIn(w: World, i: nat, r: nat) {
    var s := w.state;
    && AllEncodable(s.log)
    && i < |s.writers| && |s.requests| == |s.writers|
    && GroupCommit.Answer(s.writers[i]) == Some(GroupCommit.Ok) && s.requests[i].batch.Some? && s.requests[i].sync
    && r < |s.log| && s.log[r].lo <= i < s.log[r].hi && Sound(w, r)
  }

  /** How replay of these bytes divides its rows into tables. */
  function PlayOf(bytes: seq<byte>, tooBig: nat -> bool): Recovery.Progress {
    Recovery.Play(RecordsOf(bytes), |RecordsOf(bytes)|, tooBig)
  }

  /** The last memory table is to be written, has no row, and its file can be created. */
  predicate AbortsOn(bytes: seq<byte>, reuse: bool, tooBig: nat -> bool, saves: nat -> Recovery.Save) {
    var p := PlayOf(bytes, tooBig);
    Recovery.WritesLast(p, reuse) && p.mem == Some([]) && saves(|p.written|) != Recovery.NotCreated
  }

  /**
   * Recovery after a crash, on the bytes it left. It is refused only if it is paranoid and an append to the file
   * has once failed, and aborted exactly for a last memory table without rows. Otherwise, if every table with rows was
   * kept, the acknowledged synchronous write is among the rows held.
   */
  method RecoverAcknowledged(
    ghost worlds: seq<World>, ghost events: seq<LogFiles.Event>, ghost k: nat, ghost i: nat, ghost r: nat,
    bytes: seq<byte>, paranoid: bool, reuse: bool, tooBig: nat -> bool, saves: nat -> Recovery.Save, maxsequence: nat)
    returns (end: Recovery.End, edit: Recovery.Edit, mem: Option<seq<Row>>, max: int, ghost sequence: nat)
    requires LogFiles.Run(worlds, events) && LogFiles.Init(worlds[0]) && k <= |events|
    requires AcknowledgedIn(worlds[k], i, r) && Left(FileOf(worlds[k], worlds[k].state.log[r].file), bytes)
    ensures end == Recovery.Refused ==> paranoid && FileOf(worlds[k], worlds[k].state.log[r].file).failure.Some?
    ensures end == Recovery.Aborted
      <==> Replayed(bytes, paranoid, maxsequence).ok && AbortsOn(bytes, reuse, tooBig, saves)
    ensures end == Recovery.Recovered && Recovery.AllKept(Recovery.AllWritten(PlayOf(bytes, tooBig), reuse), saves) ==>
      Contains(Recovery.Held(edit.tables, mem), Rows(sequence, WriteQueue.Ops(worlds[k].state.requests[i])))
  {
    sequence := AcknowledgedReplays(worlds, events, k, i, r, bytes, paranoid, maxsequence);
    end, edit, mem, max := RecoverBytes(bytes, paranoid, reuse, tooBig, saves, maxsequence);
  }

  method RecoverBytes(
    bytes: seq<byte>, paranoid: bool, reuse: bool, tooBig: nat -> bool, saves: nat -> Recovery.Save, maxsequence: nat)
    returns (end: Recovery.End, edit: Recovery.Edit, mem: Option<seq<Row>>, max: int)
    ensures end == Recovery.Refused <==> !Replayed(bytes, paranoid, maxsequence).ok
    ensures end == Recovery.Aborted
      <==> Replayed(bytes, paranoid, maxsequence).ok && AbortsOn(bytes, reuse, tooBig, saves)
    ensures end == Recovery.Recovered ==>
      && max == Replayed(bytes, paranoid, maxsequence).max
      && var kept := Recovery.AllKept(Recovery.AllWritten(PlayOf(bytes, tooBig), reuse), saves);
         Recovery.Held(edit.tables, mem) == Replayed(bytes, paranoid, maxsequence).rows <==> kept
  {
    hide LogFormat.ReadLog, Recovery.ApplyAll, Recovery.Held, LogTheory.Data, Recovery.Play, Recovery.AllKept,
      Recovery.EditOf, Recovery.AllWritten, Recovery.LeftInMemory, Recovery.WritesLast;
    end, edit, mem, max := Recovery.RecoverLogFile(bytes, paranoid, reuse, tooBig, saves, maxsequence);
    if end == Recovery.Recovered {
      ghost var p := PlayOf(bytes, tooBig);
      Recovery.PlayHolds(RecordsOf(bytes), |RecordsOf(bytes)|, tooBig, maxsequence, paranoid);
      Recovery.EndHolds(p, reuse);
      Recovery.HeldIffKept(Recovery.AllWritten(p, reuse), Recovery.LeftInMemory(p, reuse), saves);
    }
  }

  // ----- After an append that failed -----

  /**
   * The first append to file f that fails, at event m, and the next append to it, which succeeds, at event n: from
   * whatever a crash leaves of the file, as long as the next record is in it, the reader returns that record from
   * where it lies exactly when the failed append was harmless.
   */
  lemma {:induction false} NextRecordSurvivesIff(
    worlds: seq<World>, events: seq<LogFiles.Event>, m: nat, n: nat, k: nat, bytes: seq<byte>)
    requires LogFiles.Run(worlds, events) && LogFiles.Init(worlds[0]) && m < n < k <= |events|
    requires Appends(worlds[m], events[m])
    requires var f := worlds[m].state.file;
      && FailsOn(worlds[m], events[m], f) && FileOf(worlds[m], f).failure.None?
      && Appends(worlds[n], events[n]) && events[n].what.result == GroupCommit.Ok && worlds[n].state.file == f
      && FileOf(worlds[n], f).bytes == FileOf(worlds[m + 1], f).bytes
      && FileOf(worlds[n], f).next == FileOf(worlds[m + 1], f).next
      && events[m].fate.Fails?
      && FileOf(worlds[n + 1], f).bytes <= bytes <= FileOf(worlds[k], f).bytes
    ensures var x := FileOf(worlds[m], worlds[m].state.file);
      var y, next := FileOf(worlds[n], worlds[m].state.file), Wanted(worlds[n], events[n]);
      var at := |y.bytes| + (LogFormat.Align(y.next) - y.next);
      LogDamage.Returns(LogFormat.ReadLog(bytes, 0, true), at, next)
      <==> LogDamage.Harmless(|x.bytes|, Wanted(worlds[m], events[m]), true, events[m].fate, next, true)
  {
    hide LogFiles.Next, LogFiles.Init, LogFormat.EmitAll, LogFormat.ReadLog, LogFormat.Attempt, LogFormat.Align,
      LogDamage.Harmless, Wanted, FileOf, LogFormat.Emit, LogDamage.Returns;
    var f := worlds[m].state.file;
    var reps := WholeSoFar(worlds, events, m, f);
    assert Next(worlds[m], events[m], worlds[m + 1]) && Next(worlds[n], events[n], worlds[n + 1]);
    Appended(worlds[m], events[m], worlds[m + 1]);
    Appended(worlds[n], events[n], worlds[n + 1]);
    LogFormat.AttemptIs(FileOf(worlds[m], f).next, Wanted(worlds[m], events[m]), true, events[m].fate);
    LogFormat.AttemptIs(FileOf(worlds[n], f).next, Wanted(worlds[n], events[n]), true, events[n].fate);
    LogDamage.NextRecordReads(
      reps, Wanted(worlds[m], events[m]), events[m].fate, Wanted(worlds[n], events[n]), bytes, true);
  }

  lemma Appended(w: World, e: LogFiles.Event, v: World)
    requires Next(w, e, v) && e.what.Append?
    ensures Appends(w, e)
    ensures var x, y, r := FileOf(w, w.state.file), FileOf(v, w.state.file), Tried(w, e);
      y.bytes == x.bytes + r.bytes && y.next == r.next && (e.what.result == GroupCommit.Ok <==> r.ok)
  {
    hide GroupCommit.Next, LogFormat.Attempt, InFile, Wanted;
  }

  lemma WholeSoFar(worlds: seq<World>, events: seq<LogFiles.Event>, m: nat, f: nat) returns (reps: seq<seq<byte>>)
    requires LogFiles.Run(worlds, events) && LogFiles.Init(worlds[0]) && m <= |events|
    requires FileOf(worlds[m], f).failure.None?
    ensures FileOf(worlds[m], f).bytes == LogFormat.EmitAll(0, reps)
      && FileOf(worlds[m], f).next == |FileOf(worlds[m], f).bytes|
  {
    hide LogFiles.Next, LogFiles.Init, GroupCommit.Inv, LogFormat.EmitAll, InFile, RepsIn;
    RunsAsProtocol(worlds, events, m);
    assert FileOk(worlds[m].state.log, f, FileOf(worlds[m], f));
    reps := RepsIn(worlds[m].state.log, f);
  }
}
