/**
 * The write protocol with the bytes of its log files (db.cc, logwriter.cc, env.h): an append may fail after any
 * number of bytes, and the writer then goes on from where it believes the file ends.
 */
module LogFiles {
  import opened Ordering
  import opened Bytes
  import opened Versions
  import opened WriteBatches
  import GroupCommit
  import Recovery
  import LogFormat
  import LogRoundTrip

  type Record = GroupCommit.Record<Write>
  type State = GroupCommit.State<Write>

  /** The records of one log file, in order. */
  function InFile(log: seq<Record>, file: nat): seq<Record> {
    if log == [] then []
    else
      var n := |log| - 1;
      if log[n].file == file then InFile(log[..n], file) + [log[n]] else InFile(log[..n], file)
  }

  function BatchOf(r: Record): Recovery.Batch { Recovery.Batch(r.base, r.ops) }

  function Batches(records: seq<Record>): (batches: seq<Recovery.Batch>)
    ensures |batches| == |records|
  {
    seq(|records|, i requires 0 <= i < |records| => BatchOf(records[i]))
  }

  /** Every record and the strings in it have the width their encodings give them. */
  ghost predicate AllEncodable(log: seq<Record>) {
    forall k :: 0 <= k < |log| ==>
      && log[k].base + |log[k].ops| <= MAX_SEQUENCE + 1 && |log[k].ops| < 0x8000_0000
      && forall i :: 0 <= i < |log[k].ops| ==> Short(log[k].ops[i])
  }

  lemma {:induction false} InFileFrom(log: seq<Record>, file: nat, p: nat) returns (k: nat)
    requires p < |InFile(log, file)|
    ensures k < |log| && InFile(log, file)[p] == log[k] && log[k].file == file && p == |InFile(log[..k], file)|
  {
    var n := |log| - 1;
    if log[n].file == file && p == |InFile(log[..n], file)| {
      k := n;
    } else {
      k := InFileFrom(log[..n], file, p);
      assert log[..n][..k] == log[..k];
    }
  }

  lemma {:induction false} InFileGrows(log: seq<Record>, file: nat, m: nat, n: nat)
    requires m <= n <= |log|
    ensures InFile(log[..m], file) <= InFile(log[..n], file)
    decreases n - m
  {
    if m < n {
      InFileGrows(log, file, m, n - 1);
      assert log[..n][..n - 1] == log[..n - 1];
    }
  }

  lemma {:induction false} InFileAt(log: seq<Record>, k: nat)
    requires k < |log|
    ensures var p := |InFile(log[..k], log[k].file)|;
      p < |InFile(log, log[k].file)| && InFile(log, log[k].file)[p] == log[k]
  {
    InFileGrows(log, log[k].file, k + 1, |log|);
    assert log[..k + 1][..k] == log[..k] && log[..|log|] == log;
  }

  /** The records of one file as bytes. */
  function RepsIn(log: seq<Record>, file: nat): (reps: seq<seq<byte>>)
    ensures |reps| == |InFile(log, file)|
  {
    Recovery.Reps(Batches(InFile(log, file)))
  }

  // ----- The protocol with its files -----

  /**
   * A log file: its bytes, where its writer believes it ends, how much of it is on disk for certain, and how many
   * records it held when an append to it failed for the first time.
   */
  datatype LogFile = LogFile(bytes: seq<byte>, next: nat, synced: nat, failure: Option<nat>)

  datatype World = World(state: State, files: map<nat, LogFile>)

  /** An event of the protocol, and what becomes of the bytes if it is an append. */
  datatype Event = Event(what: GroupCommit.Event<Write>, fate: LogFormat.Fate)

  function FileOf(w: World, file: nat): LogFile {
    if file in w.files then w.files[file] else LogFile([], 0, 0, None)
  }

  predicate Appends(w: World, e: Event) {
    && e.what.Append? && e.what.id < |w.state.writers| && w.state.writers[e.what.id].phase.Appending?
  }

  /** The bytes of the record that the leader appends. */
  function Wanted(w: World, e: Event): seq<byte>
    requires Appends(w, e)
  {
    var g := w.state.writers[e.what.id].phase.group;
    Rep(g.before + 1, g.ops)
  }

  function Tried(w: World, e: Event): LogFormat.Outcome
    requires Appends(w, e)
  {
    LogFormat.Attempt(FileOf(w, w.state.file).next, Wanted(w, e), true, e.fate)
  }

  /** The status of an append, and whether its record is whole, are those of its bytes. */
  predicate Possible(w: World, e: Event) {
    && GroupCommit.Enabled(w.state, e.what)
    && (e.what.Append? ==>
          && Appends(w, e)
          && var r := Tried(w, e);
          && (e.what.result == GroupCommit.Ok <==> r.ok)
          && (e.what.whole <==> r.bytes == LogFormat.Emit(FileOf(w, w.state.file).next, Wanted(w, e), true)))
  }

  function Grown(x: LogFile, r: LogFormat.Outcome, records: nat): LogFile {
    LogFile(x.bytes + r.bytes, r.next, x.synced, if r.ok || x.failure.Some? then x.failure else Some(records))
  }

  function Files(w: World, e: Event): map<nat, LogFile>
    requires Possible(w, e)
  {
    var f := w.state.file;
    var x := FileOf(w, f);
    if e.what.Append? then w.files[f := Grown(x, Tried(w, e), |InFile(w.state.log, f)|)]
    else if e.what.Sync? && e.what.result == GroupCommit.Ok then w.files[f := x.(synced := |x.bytes|)]
    else w.files
  }

  ghost predicate Init(w: World) { GroupCommit.Init(w.state) && w.files == map[] }

  ghost predicate Next(w: World, e: Event, v: World) {
    Possible(w, e) && GroupCommit.Next(w.state, e.what, v.state) && v.files == Files(w, e)
  }

  ghost predicate Run(worlds: seq<World>, events: seq<Event>) {
    && |worlds| == |events| + 1
    && forall k :: 0 <= k < |events| ==> Next(worlds[k], events[k], worlds[k + 1])
  }

  // ----- What the bytes of a file are -----

  /** The records of a file before the first append that failed. */
  function Intact(x: LogFile, records: nat): nat { if x.failure.Some? then x.failure.value else records }

  /**
   * The bytes of a file begin with its records before the first append that failed, and without such an append
   * they are just its records. Records synced to disk lie in the part that is there for certain.
   */
  ghost predicate FileOk(log: seq<Record>, file: nat, x: LogFile) {
    var records, reps := InFile(log, file), RepsIn(log, file);
    var n := Intact(x, |reps|);
    && n <= |reps| && LogFormat.EmitAll(0, reps[..n]) <= x.bytes && x.synced <= |x.bytes|
    && (x.failure.None? ==> x.bytes == LogFormat.EmitAll(0, reps) && x.next == |x.bytes|)
    && forall p :: 0 <= p < n && records[p].synced ==> |LogFormat.EmitAll(0, reps[..p + 1])| <= x.synced
  }

  ghost predicate Inv(w: World) {
    GroupCommit.Inv(w.state) && forall f: nat :: FileOk(w.state.log, f, FileOf(w, f))
  }

  lemma {:induction false} EmitAllGrows(records: seq<seq<byte>>, m: nat, n: nat)
    requires m <= n <= |records|
    ensures LogFormat.EmitAll(0, records[..m]) <= LogFormat.EmitAll(0, records[..n])
    decreases n
  {
    hide LogFormat.EmitAll, LogFormat.Emit;
    if m < n {
      EmitAllGrows(records, m, n - 1);
      LogRoundTrip.EmitAllNext(0, records[..n - 1], records[n - 1]);
      assert records[..n - 1] + [records[n - 1]] == records[..n];
    }
  }

  lemma InFileNext(log: seq<Record>, r: Record, file: nat)
    ensures InFile(log + [r], file) == if r.file == file then InFile(log, file) + [r] else InFile(log, file)
    ensures RepsIn(log + [r], file) == if r.file == file then RepsIn(log, file) + [Rep(r.base, r.ops)]
      else RepsIn(log, file)
  {
    hide Rep;
    assert (log + [r])[..|log|] == log;
  }

  /** An append keeps what is known of the bytes of its file. */
  lemma {:induction false} AppendOk(log: seq<Record>, file: nat, x: LogFile, r: Record, fate: LogFormat.Fate,
      after: seq<Record>)
    requires FileOk(log, file, x) && r.file == file && !r.synced
    requires var tried := LogFormat.Attempt(x.next, Rep(r.base, r.ops), true, fate);
      after == if tried.bytes == LogFormat.Emit(x.next, Rep(r.base, r.ops), true) then log + [r] else log
    ensures FileOk(after, file,
      Grown(x, LogFormat.Attempt(x.next, Rep(r.base, r.ops), true, fate), |InFile(log, file)|))
  {
    hide LogFormat.EmitAll, LogFormat.Emit, LogFormat.Attempt, InFile, RepsIn, Rep;
    var rep := Rep(r.base, r.ops);
    var tried := LogFormat.Attempt(x.next, rep, true, fate);
    var y := Grown(x, tried, |InFile(log, file)|);
    var reps, n := RepsIn(log, file), Intact(x, |RepsIn(log, file)|);
    LogFormat.AttemptIs(x.next, rep, true, fate);
    InFileNext(log, r, file);
    LogRoundTrip.EmitAllNext(0, reps, rep);
    assert reps[..|reps|] == reps && (reps + [rep])[..|reps|] == reps && (reps + [rep])[..|reps| + 1] == reps + [rep];
    assert (reps + [rep])[..n] == reps[..n];
    forall p | 0 <= p < Intact(y, |RepsIn(after, file)|) && InFile(after, file)[p].synced
      ensures |LogFormat.EmitAll(0, RepsIn(after, file)[..p + 1])| <= y.synced
    {
      assert p < n && InFile(log, file)[p].synced;
      assert RepsIn(after, file)[..p + 1] == reps[..p + 1];
    }
  }

  lemma {:induction false} InFileSynced(log: seq<Record>, f: nat, file: nat)
    ensures var a, b := InFile(log, file), InFile(GroupCommit.Synced(log, f), file);
      && |a| == |b| && (f != file ==> a == b)
      && forall p :: 0 <= p < |a| ==> b[p].base == a[p].base && b[p].ops == a[p].ops
  {
    if log != [] {
      var n := |log| - 1;
      assert GroupCommit.Synced(log, f)[..n] == GroupCommit.Synced(log[..n], f);
      InFileSynced(log[..n], f, file);
    }
  }

  lemma RepsSynced(log: seq<Record>, f: nat, file: nat)
    ensures RepsIn(GroupCommit.Synced(log, f), file) == RepsIn(log, file)
  {
    hide InFile, Rep, GroupCommit.Synced;
    InFileSynced(log, f, file);
  }

  /** So does a sync. */
  lemma {:induction false} SyncOk(log: seq<Record>, f: nat, file: nat, x: LogFile)
    requires FileOk(log, file, x)
    ensures FileOk(GroupCommit.Synced(log, f), file, if f == file then x.(synced := |x.bytes|) else x)
  {
    hide LogFormat.EmitAll, InFile, RepsIn, GroupCommit.Synced;
    InFileSynced(log, f, file);
    RepsSynced(log, f, file);
    var reps := RepsIn(log, file);
    var n := Intact(x, |reps|);
    var after := InFile(GroupCommit.Synced(log, f), file);
    forall p | 0 <= p < n && after[p].synced
      ensures |LogFormat.EmitAll(0, reps[..p + 1])| <= if f == file then |x.bytes| else x.synced
    {
      EmitAllGrows(reps, p + 1, n);
    }
  }

  /** Only appends and syncs touch the log. */
  lemma LogStays(s: State, e: GroupCommit.Event<Write>)
    requires GroupCommit.Enabled(s, e) && GroupCommit.Safe(s, e) && !e.Append?
      && !(e.Sync? && e.result == GroupCommit.Ok)
    ensures GroupCommit.Step(s, e).log == s.log
  {
    hide GroupCommit.Pop, GroupCommit.Chosen;
    match e
    case Admit(i, room) =>
      if !(room == GroupCommit.Ok && s.requests[i].batch.Some?) {
        PopLog(s, i, s.queue[0], room);
      }
    case Finish(i) =>
      var p := s.writers[i].phase;
      PopLog(GroupCommit.Settled(s, i), i, s.queue[p.group.len - 1], p.status);
    case _ =>
  }

  lemma {:induction false} PopLog(s: State, leader: nat, lastWriter: nat, status: GroupCommit.Status)
    requires GroupCommit.InBounds(s)
    ensures GroupCommit.Pop(s, leader, lastWriter, status).log == s.log
    decreases |s.queue|
  {
    if s.queue != [] && s.queue[0] != lastWriter {
      var ready := s.queue[0];
      PopLog(
        s.(queue := s.queue[1..],
           writers := if ready == leader then s.writers
           else s.writers[ready := GroupCommit.Woken(s.writers[ready]).(done := Some(status))]),
        leader, lastWriter, status);
    }
  }

  lemma {:induction false} AppendStep(w: World, e: Event, v: World)
    requires Inv(w) && Next(w, e, v) && e.what.Append?
    ensures forall f: nat :: FileOk(v.state.log, f, FileOf(v, f))
  {
    hide GroupCommit.Inv, FileOk, InFile, RepsIn, Grown, Rep, LogFormat.Attempt, LogFormat.Emit;
    var s := w.state;
    var g := s.writers[e.what.id].phase.group;
    var r := GroupCommit.Record(s.file, e.what.id, e.what.id + g.len, g.before + 1, g.ops, false);
    AppendOk(s.log, s.file, FileOf(w, s.file), r, e.fate, v.state.log);
    forall f: nat | f != s.file
      ensures FileOk(v.state.log, f, FileOf(v, f))
    {
      InFileNext(s.log, r, f);
      SameFile(s.log, v.state.log, f, FileOf(w, f));
    }
  }

  lemma SameFile(log: seq<Record>, after: seq<Record>, f: nat, x: LogFile)
    requires FileOk(log, f, x) && InFile(after, f) == InFile(log, f) && RepsIn(after, f) == RepsIn(log, f)
    ensures FileOk(after, f, x)
  {
  }

  /** Every event keeps what is known of the files, and their bytes only grow. */
  lemma {:induction false} StepKeeps(w: World, e: Event, v: World)
    requires Inv(w) && Next(w, e, v)
    ensures Inv(v) && forall f: nat :: FileOf(w, f).bytes <= FileOf(v, f).bytes
                        && FileOf(w, f).synced <= FileOf(v, f).synced
  {
    hide GroupCommit.Inv, GroupCommit.Extends, FileOk, GroupCommit.Step, GroupCommit.Safe, LogFormat.Attempt;
    GroupCommit.StepKeeps(w.state, e.what);
    assert FileOk(w.state.log, w.state.file, FileOf(w, w.state.file));
    SyncedWithin(w.state.log, w.state.file, FileOf(w, w.state.file));
    if e.what.Append? {
      AppendStep(w, e, v);
    } else if e.what.Sync? && e.what.result == GroupCommit.Ok {
      SyncIs(w.state, e.what.id);
      forall f: nat
        ensures FileOk(v.state.log, f, FileOf(v, f))
      {
        SyncOk(w.state.log, w.state.file, f, FileOf(w, f));
      }
    } else {
      LogStays(w.state, e.what);
      forall f: nat
        ensures FileOk(v.state.log, f, FileOf(v, f))
      {
        assert FileOf(v, f) == FileOf(w, f);
      }
    }
  }

  lemma SyncedWithin(log: seq<Record>, f: nat, x: LogFile)
    requires FileOk(log, f, x)
    ensures x.synced <= |x.bytes|
  {
  }

  lemma SyncIs(s: State, i: nat)
    requires var e := GroupCommit.Sync(i, GroupCommit.Ok); GroupCommit.Enabled(s, e) && GroupCommit.Safe(s, e)
    ensures GroupCommit.Step(s, GroupCommit.Sync(i, GroupCommit.Ok)).log == GroupCommit.Synced(s.log, s.file)
  {
  }

  lemma InitInv(w: World)
    requires Init(w)
    ensures Inv(w)
  {
    GroupCommit.InitInv(w.state);
    hide GroupCommit.Inv;
  }

  lemma {:induction false} RunKeeps(worlds: seq<World>, events: seq<Event>, j: nat, k: nat)
    requires Run(worlds, events) && Init(worlds[0]) && j <= k <= |events|
    ensures Inv(worlds[k])
    ensures forall f: nat :: FileOf(worlds[j], f).bytes <= FileOf(worlds[k], f).bytes
    decreases k
  {
    hide Inv, FileOf, Next, Init;
    if k == 0 {
      InitInv(worlds[0]);
    } else {
      RunKeeps(worlds, events, if j < k then j else k - 1, k - 1);
      assert Next(worlds[k - 1], events[k - 1], worlds[k]);
      StepKeeps(worlds[k - 1], events[k - 1], worlds[k]);
    }
  }

  function States(worlds: seq<World>): (states: seq<State>)
    ensures |states| == |worlds|
  {
    seq(|worlds|, k requires 0 <= k < |worlds| => worlds[k].state)
  }

  function Whats(events: seq<Event>): (whats: seq<GroupCommit.Event<Write>>)
    ensures |whats| == |events|
  {
    seq(|events|, k requires 0 <= k < |events| => events[k].what)
  }

  /** Without its files a run is a run of the protocol. */
  lemma RunIsRun(worlds: seq<World>, events: seq<Event>)
    requires Run(worlds, events)
    ensures GroupCommit.Run(States(worlds), Whats(events))
  {
    hide GroupCommit.Next;
    forall k | 0 <= k < |events|
      ensures GroupCommit.Next(States(worlds)[k], Whats(events)[k], States(worlds)[k + 1])
    {
      assert Next(worlds[k], events[k], worlds[k + 1]);
    }
  }

  /** A file has a failure exactly when an append to it has failed. */
  lemma {:induction false} FailureIs(worlds: seq<World>, events: seq<Event>, k: nat, f: nat)
    requires Run(worlds, events) && Init(worlds[0]) && k <= |events|
    ensures FileOf(worlds[k], f).failure.Some? <==>
      exists m :: 0 <= m < k && FailsOn(worlds[m], events[m], f)
  {
    hide Next, FailsOn, Init, FileOf;
    if k == 0 {
      NoFailure(worlds[0], f);
    } else {
      FailureIs(worlds, events, k - 1, f);
      assert Next(worlds[k - 1], events[k - 1], worlds[k]);
      FailureStep(worlds[k - 1], events[k - 1], worlds[k], f);
    }
  }

  lemma NoFailure(w: World, f: nat)
    requires Init(w)
    ensures FileOf(w, f).failure.None?
  {
  }

  lemma FailureStep(w: World, e: Event, v: World, f: nat)
    requires Next(w, e, v)
    ensures FileOf(v, f).failure.Some? <==> FileOf(w, f).failure.Some? || FailsOn(w, e, f)
  {
    hide GroupCommit.Next, GroupCommit.Enabled, LogFormat.Attempt, InFile;
  }

  predicate FailsOn(w: World, e: Event, f: nat) {
    e.what.Append? && e.what.result != GroupCommit.Ok && w.state.file == f
  }
}
