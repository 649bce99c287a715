/**
 * A run of the write protocol (db.cc, logwriter.cc) that loses an acknowledged synchronous write: an append fails
 * in the middle of a record, and the next writer appends behind what is left of it, syncs, and is told that all is
 * well.
 */
module LostWrite {
  import opened Ordering
  import opened Bytes
  import opened WriteBatches
  import opened LogFiles
  import opened MemTables
  import G = GroupCommit
  import Recovery
  import WriteQueue
  import LogFormat
  import LogDamage
  import LogTheory

  type Request = WriteQueue.Request<Write>

  /** Nobody writes. */
  ghost predicate Idle(s: State) {
    s.queue == [] && s.tmpbatch == [] && s.bgerror == G.Ok && |s.requests| == |s.writers|
  }

  function SyncWrite(ops: seq<Write>): Request {
    WriteQueue.Request(Some(WriteQueue.Batch(ops, |Rep(0, ops)|)), true)
  }

  /** One writer in an idle queue, in a phase of its own. */
  function Led(s: State, ops: seq<Write>, p: G.Phase<Write>): State {
    s.(requests := s.requests + [SyncWrite(ops)], writers := s.writers + [G.Writer(p, None)], queue := [|s.writers|])
  }

  function GroupOf(s: State, ops: seq<Write>): G.Group<Write> { G.Group(1, s.last, ops, false) }

  lemma Begins(s: State, ops: seq<Write>)
    requires Idle(s)
    ensures var n := |s.writers|;
      && G.Next(s, G.Enqueue(SyncWrite(ops)), Led(s, ops, G.Awake))
      && G.Next(Led(s, ops, G.Awake), G.Check(n), Led(s, ops, G.MakingRoom))
  {
  }

  lemma Joins(s: State, ops: seq<Write>)
    requires Idle(s)
    ensures G.Next(Led(s, ops, G.MakingRoom), G.Admit(|s.writers|, G.Ok), Led(s, ops, G.Appending(GroupOf(s, ops))))
  {
    hide Rep;
    var led := Led(s, ops, G.MakingRoom);
    var rs := G.Waiting(led);
    assert rs == [SyncWrite(ops)];
    assert WriteQueue.GroupLength(rs) == 1 && !WriteQueue.Merges(rs, 1);
    assert WriteQueue.Concat(rs, 0, 1) == ops by {
      assert WriteQueue.Concat(rs, 0, 0) == [];
    }
  }

  /** The leader's record, if its append leaves it whole. */
  function RecordIn(s: State, ops: seq<Write>, synced: bool): Record {
    G.Record(s.file, |s.writers|, |s.writers| + 1, s.last + 1, ops, synced)
  }

  lemma AppendFails(s: State, ops: seq<Write>)
    requires Idle(s)
    ensures var g := GroupOf(s, ops);
      G.Next(Led(s, ops, G.Appending(g)), G.Append(|s.writers|, G.Failed(1), false),
        Led(s, ops, G.Finishing(g, G.Failed(1), false)))
  {
    hide Rep;
  }

  lemma AppendWorks(s: State, ops: seq<Write>)
    requires Idle(s) && s.log == []
    ensures var g := GroupOf(s, ops);
      && G.Next(Led(s, ops, G.Appending(g)), G.Append(|s.writers|, G.Ok, true),
                Led(s, ops, G.Syncing(g)).(log := [RecordIn(s, ops, false)]))
      && G.Next(Led(s, ops, G.Syncing(g)).(log := [RecordIn(s, ops, false)]), G.Sync(|s.writers|, G.Ok),
                Led(s, ops, G.Inserting(g)).(log := [RecordIn(s, ops, true)]))
  {
    hide Rep;
    assert G.Synced([RecordIn(s, ops, false)], s.file) == [RecordIn(s, ops, true)];
  }

  lemma InsertWorks(s: State, ops: seq<Write>)
    requires Idle(s)
    ensures var g := GroupOf(s, ops);
      G.Next(Led(s, ops, G.Inserting(g)), G.Insert(|s.writers|, G.Ok, |ops|),
             Led(s, ops, G.Finishing(g, G.Ok, false)).(memory := s.memory + G.Number(s.last, ops)))
  {
    hide Rep;
    assert ops[..|ops|] == ops;
  }

  /** The leader has left and told its caller. */
  function Done(s: State, ops: seq<Write>, status: G.Status, at: Option<nat>): State {
    var n := |s.writers|;
    s.(requests := s.requests + [SyncWrite(ops)], writers := s.writers + [G.Writer(G.Returned(status), None)],
       last := s.last + |ops|, rounds := s.rounds + [G.Round(n, n + 1, status, at)])
  }

  lemma Finishes(s: State, ops: seq<Write>, status: G.Status)
    requires Idle(s)
    ensures G.Next(Led(s, ops, G.Finishing(GroupOf(s, ops), status, false)), G.Finish(|s.writers|),
                   Done(s, ops, status, G.RecordOf(s.log, |s.writers|)))
    ensures Idle(Done(s, ops, status, G.RecordOf(s.log, |s.writers|)))
  {
    hide Rep, G.RecordOf;
    var n := |s.writers|;
    var led := Led(s, ops, G.Finishing(GroupOf(s, ops), status, false));
    var u := G.Settled(led, n);
    var popped := G.Pop(u, n, n, status);
    assert popped == u.(queue := []);
    assert G.SetPhase(popped, n, G.Returned(status)).writers == s.writers + [G.Writer(G.Returned(status), None)];
  }

  // ----- The run -----

  lemma {:induction false} Extend(worlds: seq<World>, events: seq<LogFiles.Event>, e: LogFiles.Event, v: World)
    requires Run(worlds, events) && Next(worlds[|events|], e, v)
    ensures Run(worlds + [v], events + [e]) && (worlds + [v])[0] == worlds[0]
  {
    hide Next;
    forall k | 0 <= k < |events + [e]|
      ensures Next((worlds + [v])[k], (events + [e])[k], (worlds + [v])[k + 1])
    {
      if k < |events| {
        assert Next(worlds[k], events[k], worlds[k + 1]);
      }
    }
  }

  /** An event that touches no file. */
  lemma {:induction false} Go(worlds: seq<World>, events: seq<LogFiles.Event>, e: G.Event<Write>, t: State)
    returns (ws: seq<World>, es: seq<LogFiles.Event>)
    requires Run(worlds, events) && G.Next(worlds[|events|].state, e, t) && !e.Append? && !e.Sync?
    ensures Run(ws, es) && ws[0] == worlds[0] && ws[|es|] == World(t, worlds[|events|].files)
  {
    hide G.Next, Next;
    var w, event, v := worlds[|events|], LogFiles.Event(e, LogFormat.Fine), World(t, worlds[|events|].files);
    QuietNext(w, e, t);
    Extend(worlds, events, event, v);
    ws, es := worlds + [v], events + [event];
  }

  lemma QuietNext(w: World, e: G.Event<Write>, t: State)
    requires G.Next(w.state, e, t) && !e.Append? && !e.Sync?
    ensures Next(w, LogFiles.Event(e, LogFormat.Fine), World(t, w.files))
  {
    hide G.Next, G.Enabled;
    NextIsEnabled(w.state, e, t);
  }

  lemma AppendNext(w: World, e: LogFiles.Event, t: State)
    requires G.Next(w.state, e.what, t) && e.what.Append? && Possible(w, e)
    ensures var f := w.state.file;
      Next(w, e, World(t, w.files[f := Grown(FileOf(w, f), Tried(w, e), |InFile(w.state.log, f)|)]))
  {
    hide G.Next, G.Enabled, InFile, LogFormat.Attempt, Grown, FileOf;
  }

  lemma SyncNext(w: World, i: nat, t: State)
    requires G.Next(w.state, G.Sync(i, G.Ok), t)
    ensures var x := FileOf(w, w.state.file);
      Next(w, LogFiles.Event(G.Sync(i, G.Ok), LogFormat.Fine),
        World(t, w.files[w.state.file := x.(synced := |x.bytes|)]))
  {
    hide G.Next, G.Enabled, FileOf;
    NextIsEnabled(w.state, G.Sync(i, G.Ok), t);
  }

  lemma NextIsEnabled(s: State, e: G.Event<Write>, t: State)
    requires G.Next(s, e, t)
    ensures G.Enabled(s, e)
  {
  }

  /** An append that ends as its bytes say. */
  lemma {:induction false} GoAppend(worlds: seq<World>, events: seq<LogFiles.Event>, e: LogFiles.Event, t: State)
    returns (ws: seq<World>, es: seq<LogFiles.Event>)
    requires Run(worlds, events) && G.Next(worlds[|events|].state, e.what, t)
    requires Appends(worlds[|events|], e) && Possible(worlds[|events|], e)
    ensures Run(ws, es) && ws[0] == worlds[0]
    ensures var w := worlds[|events|];
      ws[|es|] == World(t, w.files[w.state.file := Grown(FileOf(w, w.state.file), Tried(w, e),
        |InFile(w.state.log, w.state.file)|)])
  {
    hide G.Next, Next, InFile, LogFormat.Attempt, Grown, FileOf, Possible;
    var w := worlds[|events|];
    var v := World(t, w.files[w.state.file := Grown(FileOf(w, w.state.file), Tried(w, e),
      |InFile(w.state.log, w.state.file)|)]);
    AppendNext(w, e, t);
    Extend(worlds, events, e, v);
    ws, es := worlds + [v], events + [e];
  }

  lemma {:induction false} GoSync(worlds: seq<World>, events: seq<LogFiles.Event>, i: nat, t: State)
    returns (ws: seq<World>, es: seq<LogFiles.Event>)
    requires Run(worlds, events) && G.Next(worlds[|events|].state, G.Sync(i, G.Ok), t)
    ensures Run(ws, es) && ws[0] == worlds[0]
    ensures var w := worlds[|events|];
      var x := FileOf(w, w.state.file);
      ws[|es|] == World(t, w.files[w.state.file := x.(synced := |x.bytes|)])
  {
    hide G.Next, Next, FileOf;
    var w, event := worlds[|events|], LogFiles.Event(G.Sync(i, G.Ok), LogFormat.Fine);
    var x := FileOf(w, w.state.file);
    var v := World(t, w.files[w.state.file := x.(synced := |x.bytes|)]);
    SyncNext(w, i, t);
    Extend(worlds, events, event, v);
    ws, es := worlds + [v], events + [event];
  }

  /** A writer comes to an idle queue and is about to append its record. */
  lemma {:induction false} Comes(worlds: seq<World>, events: seq<LogFiles.Event>, ops: seq<Write>)
    returns (ws: seq<World>, es: seq<LogFiles.Event>)
    requires Run(worlds, events) && Idle(worlds[|events|].state)
    ensures Run(ws, es) && ws[0] == worlds[0]
    ensures var w := worlds[|events|];
      ws[|es|] == World(Led(w.state, ops, G.Appending(GroupOf(w.state, ops))), w.files)
  {
    hide G.Next, Next, Led;
    var s := worlds[|events|].state;
    Begins(s, ops);
    Joins(s, ops);
    ws, es := Go(worlds, events, G.Enqueue(SyncWrite(ops)), Led(s, ops, G.Awake));
    ws, es := Go(ws, es, G.Check(|s.writers|), Led(s, ops, G.MakingRoom));
    ws, es := Go(ws, es, G.Admit(|s.writers|, G.Ok), Led(s, ops, G.Appending(GroupOf(s, ops))));
  }

  function RepOf(s: State, ops: seq<Write>): seq<byte> { Rep(s.last + 1, ops) }

  lemma {:induction false} FailedTry(pos: nat, rep: seq<byte>, kept: nat)
    requires kept < |LogFormat.Fragment(pos, rep, true)|
    ensures var bs := LogFormat.Fragment(pos, rep, true);
      && LogFormat.Attempt(pos, rep, true, LogFormat.Fails(0, kept)) ==
        LogFormat.Outcome(false, bs[..kept], LogFormat.FragmentEnd(pos, |rep|))
      && bs[..kept] != LogFormat.Emit(pos, rep, true)
  {
    hide LogFormat.Fragment, LogFormat.Fit, LogFormat.Align;
    LogFormat.AttemptUnfolds([], pos, rep, true, LogFormat.Fails(0, kept));
  }

  /** A write whose append fails in its first fragment, with `kept` bytes written. */
  lemma {:induction false} FailingWrite(worlds: seq<World>, events: seq<LogFiles.Event>, ops: seq<Write>, kept: nat)
    returns (ws: seq<World>, es: seq<LogFiles.Event>)
    requires Run(worlds, events) && Idle(worlds[|events|].state) && worlds[|events|].state.log == []
      && worlds[|events|].files == map[]
    requires kept < |LogFormat.Fragment(0, RepOf(worlds[|events|].state, ops), true)|
    ensures Run(ws, es) && ws[0] == worlds[0]
    ensures var s := worlds[|events|].state;
      var rep := RepOf(s, ops);
      && ws[|es|].state == Done(s, ops, G.Failed(1), None) && Idle(ws[|es|].state)
      && FileOf(ws[|es|], s.file)
           == LogFile(LogFormat.Fragment(0, rep, true)[..kept], LogFormat.FragmentEnd(0, |rep|), 0, Some(0))
  {
    hide G.Next, G.Enabled, Next, Led, Rep, LogFormat.Attempt, LogFormat.Fragment, LogFormat.FragmentEnd,
      LogFormat.Emit;
    var s := worlds[|events|].state;
    var g := GroupOf(s, ops);
    var e := LogFiles.Event(G.Append(|s.writers|, G.Failed(1), false), LogFormat.Fails(0, kept));
    ws, es := Comes(worlds, events, ops);
    FailedTry(0, RepOf(s, ops), kept);
    AppendFails(s, ops);
    NextIsEnabled(ws[|es|].state, e.what, Led(s, ops, G.Finishing(g, G.Failed(1), false)));
    LedIs(s, ops, G.Appending(g));
    ws, es := GoAppend(ws, es, e, Led(s, ops, G.Finishing(g, G.Failed(1), false)));
    Finishes(s, ops, G.Failed(1));
    ws, es := Go(ws, es, G.Finish(|s.writers|), Done(s, ops, G.Failed(1), None));
  }

  lemma LedIs(s: State, ops: seq<Write>, p: G.Phase<Write>)
    ensures var led := Led(s, ops, p);
      && |led.writers| == |s.writers| + 1 && led.writers[|s.writers|].phase == p
      && led.file == s.file && led.log == s.log && led.last == s.last
  {
  }

  /** A write that succeeds, synced. */
  lemma {:induction false} GoodWrite(worlds: seq<World>, events: seq<LogFiles.Event>, ops: seq<Write>)
    returns (ws: seq<World>, es: seq<LogFiles.Event>)
    requires Run(worlds, events) && Idle(worlds[|events|].state) && worlds[|events|].state.log == []
    ensures Run(ws, es) && ws[0] == worlds[0]
    ensures var w, v := worlds[|events|], ws[|es|];
      var x, y, n := FileOf(w, w.state.file), FileOf(v, w.state.file), |w.state.writers|;
      && v.state.requests == w.state.requests + [SyncWrite(ops)]
      && v.state.writers == w.state.writers + [G.Writer(G.Returned(G.Ok), None)]
      && v.state.log == [RecordIn(w.state, ops, true)]
      && y.bytes == x.bytes + LogFormat.Emit(x.next, RepOf(w.state, ops), true) && y.synced == |y.bytes|
  {
    hide G.Next, G.Enabled, Next, Led, Rep, LogFormat.Attempt, LogFormat.Emit, G.Number;
    var w := worlds[|events|];
    var s := w.state;
    var g, n := GroupOf(s, ops), |s.writers|;
    var logged, synced := s.(log := [RecordIn(s, ops, false)]), s.(log := [RecordIn(s, ops, true)]);
    var e := LogFiles.Event(G.Append(n, G.Ok, true), LogFormat.Fine);
    ws, es := Comes(worlds, events, ops);
    LogFormat.AttemptIs(FileOf(w, s.file).next, RepOf(s, ops), true, LogFormat.Fine);
    AppendWorks(s, ops);
    LedWith(s, ops, G.Syncing(g), logged.log, s.memory);
    LedWith(s, ops, G.Inserting(g), synced.log, s.memory);
    LedIs(s, ops, G.Appending(g));
    LedIs(logged, ops, G.Syncing(g));
    NextIsEnabled(ws[|es|].state, e.what, Led(logged, ops, G.Syncing(g)));
    ws, es := GoAppend(ws, es, e, Led(logged, ops, G.Syncing(g)));
    ws, es := GoSync(ws, es, n, Led(synced, ops, G.Inserting(g)));
    InsertWorks(synced, ops);
    var stored := synced.(memory := s.memory + G.Number(s.last, ops));
    LedWith(synced, ops, G.Finishing(g, G.Ok, false), synced.log, stored.memory);
    ws, es := Go(ws, es, G.Insert(n, G.Ok, |ops|), Led(stored, ops, G.Finishing(g, G.Ok, false)));
    Finishes(stored, ops, G.Ok);
    ws, es := Go(ws, es, G.Finish(n), Done(stored, ops, G.Ok, G.RecordOf(stored.log, n)));
  }

  lemma LedWith(s: State, ops: seq<Write>, p: G.Phase<Write>, log: seq<Record>, memory: seq<(nat, Write)>)
    ensures Led(s, ops, p).(log := log, memory := memory) == Led(s.(log := log, memory := memory), ops, p)
    ensures Led(s, ops, p).(log := log) == Led(s.(log := log), ops, p)
    ensures Led(s, ops, p).(memory := memory) == Led(s.(memory := memory), ops, p)
  {
  }

  /**
   * From any fresh database: an append of `a` fails when its header is in the file, and then `b`, shorter than
   * what is missing of `a`, is written and synced. Its writer is told that it succeeded; the file, with every byte
   * synced to disk, reads back as nothing at all, and nothing is reported.
   */
  lemma {:induction false} AcknowledgedAndLost(w: World, a: seq<Write>, b: seq<Write>, kept: nat)
    returns (ws: seq<World>, es: seq<LogFiles.Event>)
    requires LogFiles.Init(w)
    requires var s := w.state;
      var bs, next := LogFormat.Fragment(0, RepOf(s, a), true), LogFormat.FragmentEnd(0, |RepOf(s, a)|);
      LogFormat.HEADER <= kept < |bs| && kept + |LogFormat.Emit(next, Rep(s.last + |a| + 1, b), true)| < |bs|
    ensures LogFiles.Run(ws, es) && ws[0] == w
    ensures var v := ws[|es|];
      && |v.state.writers| == |v.state.requests| == 2 && v.state.requests[1] == SyncWrite(b)
      && G.Answer(v.state.writers[1]) == Some(G.Ok)
      && v.state.log == [G.Record(w.state.file, 1, 2, w.state.last + |a| + 1, b, true)]
    ensures var x := FileOf(ws[|es|], w.state.file);
      x.synced == |x.bytes| && LogFormat.ReadLog(x.bytes, 0, true) == LogFormat.Output([], [])
  {
    hide Next, Rep, LogFormat.Fragment, LogFormat.FragmentEnd, LogFormat.Emit, LogFormat.ReadLog;
    var s := w.state;
    assert Run([w], []);
    ws, es := FailingWrite([w], [], a, kept);
    var t := ws[|es|].state;
    ws, es := GoodWrite(ws, es, b);
    var bs := LogFormat.Fragment(0, RepOf(s, a), true);
    var more := LogFormat.Emit(LogFormat.FragmentEnd(0, |RepOf(s, a)|), RepOf(t, b), true);
    NoRecords(kept + |more|);
    LogDamage.SilentLoss([], RepOf(s, a), kept, more, true);
    assert [] + bs[..kept] + more == bs[..kept] + more;
  }

  lemma NoRecords(t: nat)
    ensures LogFormat.EmitAll(0, []) == [] && LogTheory.Expected(0, [], 0, t) == [] && LogFormat.Align(0) == 0
  {
  }

  // ----- A write that recovery loses -----

  /**
   * From any fresh database: a synchronous write is acknowledged, and every byte of its file is on disk. If no table
   * can be kept when the log is replayed, recovery opens the database without the write, and reports success.
   */
  method AcknowledgedAndNotSaved(
    ghost w: World, ghost b: seq<Write>, file: seq<byte>, paranoid: bool, tooBig: nat -> bool,
    saves: nat -> Recovery.Save, maxsequence: nat)
    returns (ghost ws: seq<World>, ghost es: seq<LogFiles.Event>, end: Recovery.End, edit: Recovery.Edit,
      mem: Option<seq<Row>>, max: int)
    requires LogFiles.Init(w) && b != [] && Recovery.Committed([Recovery.Batch(w.state.last + 1, b)])
    requires file == LogFormat.EmitAll(0, Recovery.Reps([Recovery.Batch(w.state.last + 1, b)]))
    requires forall n: nat :: saves(n) != Recovery.Kept
    ensures LogFiles.Run(ws, es) && ws[0] == w
    ensures var v := ws[|es|];
      && |v.state.writers| == |v.state.requests| == 1 && v.state.requests[0] == SyncWrite(b)
      && G.Answer(v.state.writers[0]) == Some(G.Ok)
      && FileOf(v, w.state.file).bytes == file && FileOf(v, w.state.file).synced == |file|
    ensures end == Recovery.Recovered && Recovery.Held(edit.tables, mem) == []
  {
    hide Next, Rep, LogFormat.EmitAll, LogFormat.Emit, Recovery.Committed;
    assert Run([w], []);
    ws, es := GoodWrite([w], [], b);
    OneRecord(RepOf(w.state, b));
    assert Recovery.Reps([Recovery.Batch(w.state.last + 1, b)]) == [RepOf(w.state, b)];
    end, edit, mem, max :=
      Recovery.RecoverNothing([Recovery.Batch(w.state.last + 1, b)], file, paranoid, tooBig, saves, maxsequence);
  }

  lemma OneRecord(rep: seq<byte>)
    ensures LogFormat.EmitAll(0, [rep]) == LogFormat.Emit(0, rep, true)
  {
    hide LogFormat.Emit;
    assert [rep][1..] == [];
    var bs := LogFormat.Emit(0, rep, true);
    assert LogFormat.EmitAll(|bs|, []) == [];
  }
}
