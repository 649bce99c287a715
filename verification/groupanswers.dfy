/**
 * What a writer is told (db.cc): the answer, the error that is recorded and the sequence numbers that are used up, in
 * terms of what the calls of the leader came to.
 */
module GroupAnswers {
  import opened Ordering
  import opened WriteQueue
  import opened GroupCommit

  // ----- The calls of a leader -----

  /** The writer whose call an event is: making room, appending, syncing or inserting. */
  function CallOf<T>(e: Event<T>): Option<nat> {
    match e
    case Admit(i, _) => Some(i)
    case Append(i, _, _) => Some(i)
    case Sync(i, _) => Some(i)
    case Insert(i, _, _) => Some(i)
    case _ => None
  }

  /** What a call came to. */
  function ResultOf<T>(e: Event<T>): Status
    requires CallOf(e).Some?
  {
    match e
    case Admit(_, room) => room
    case Append(_, result, _) => result
    case Sync(_, result) => result
    case Insert(_, result, _) => result
  }

  function Calls<T>(events: seq<Event<T>>, i: nat): (calls: seq<Event<T>>)
    ensures forall c :: 0 <= c < |calls| ==> CallOf(calls[c]) == Some(i)
  {
    if events == [] then []
    else
      var n := |events| - 1;
      Calls(events[..n], i) + if CallOf(events[n]) == Some(i) then [events[n]] else []
  }

  lemma CallsNext<T>(events: seq<Event<T>>, e: Event<T>, i: nat)
    ensures Calls(events + [e], i) == Calls(events, i) + if CallOf(e) == Some(i) then [e] else []
  {
    assert (events + [e])[..|events|] == events;
  }

  /** The calls that a request makes, in order, when all goes well. */
  ghost predicate InOrder<T>(calls: seq<Event<T>>, r: Request<T>) {
    && |calls| <= (if r.sync then 4 else 3)
    && (|calls| > 0 ==> calls[0].Admit?)
    && (|calls| > 1 ==> calls[1].Append? && r.batch.Some?)
    && (|calls| > 2 ==> if r.sync then calls[2].Sync? else calls[2].Insert?)
    && (|calls| > 3 ==> calls[3].Insert?)
    && forall c :: 0 <= c < |calls| - 1 ==> ResultOf(calls[c]) == Ok
  }

  /** All calls that the request makes have been made, or the last one failed; the last one gives the status. */
  ghost predicate Decides<T>(calls: seq<Event<T>>, r: Request<T>, status: Status)
    requires forall c :: 0 <= c < |calls| ==> CallOf(calls[c]).Some?
  {
    && calls != [] && InOrder(calls, r) && status == ResultOf(calls[|calls| - 1])
    && (status == Ok ==> |calls| == if r.batch.None? then 1 else if r.sync then 4 else 3)
  }

  /** What a writer has called when it is in a phase. */
  ghost predicate Called<T>(p: Phase<T>, calls: seq<Event<T>>, r: Request<T>)
    requires forall c :: 0 <= c < |calls| ==> CallOf(calls[c]).Some?
  {
    && InOrder(calls, r)
    && match p
       case Asleep => calls == []
       case Awake => calls == []
       case MakingRoom => calls == []
       case Appending(_) => |calls| == 1 && calls[0].room == Ok && r.batch.Some?
       case Syncing(_) => |calls| == 2 && calls[1].result == Ok && r.sync
       case Inserting(_) => |calls| == (if r.sync then 3 else 2) && ResultOf(calls[|calls| - 1]) == Ok
       case Finishing(_, status, syncError) =>
         |calls| > 1 && Decides(calls, r, status) && (syncError <==> calls[|calls| - 1].Sync?)
       case Returned(answer) => calls == [] || Decides(calls, r, answer)
  }

  // ----- What an event does to the phases -----

  ghost predicate Stirred<T>(before: Phase<T>, after: Phase<T>) {
    after == before || (before.Asleep? && after.Awake?)
  }

  /** Every writer but those named keeps its phase, or wakes. */
  ghost predicate OthersStay<T>(s: State<T>, t: State<T>, i: nat) {
    && |s.writers| <= |t.writers| == |t.requests| && |s.requests| == |s.writers| && s.requests <= t.requests
    && (forall j :: 0 <= j < |s.writers| && j != i ==> Stirred(s.writers[j].phase, t.writers[j].phase))
    && forall j :: |s.writers| <= j < |t.writers| ==> t.writers[j].phase.Awake?
  }

  lemma LeavePhases<T>(s: State<T>, i: nat, len: nat, status: Status, at: Option<nat>)
    requires Contiguous(s) && InBounds(s) && 0 < len <= |s.queue| && i == Head(s)
    ensures var t := Leave(s, i, len, status, at);
      && OthersStay(s, t, i) && t.writers[i].phase == Returned(status)
      && t == s.(queue := t.queue, writers := t.writers, rounds := s.rounds + [Round(i, i + len, status, at)])
  {
    hide Leave;
    LeaveIs(s, i, len, status, at);
  }

  lemma AdmitPhases<T>(s: State<T>, i: nat, room: Status)
    requires Inv(s) && Enabled(s, Admit(i, room)) && Safe(s, Admit(i, room))
    ensures var t := Step(s, Admit(i, room));
      && OthersStay(s, t, i) && t.requests == s.requests && t.bgerror == s.bgerror && t.last == s.last && t.log == s.log
      && (if room == Ok && s.requests[i].batch.Some? then t.writers[i].phase.Appending? && t.rounds == s.rounds
          else t.writers[i].phase == Returned(room) && t.rounds == s.rounds + [Round(i, i + 1, room, None)])
  {
    hide GroupInv, LogInv, MemoryInv, RoundInv, Chosen, Leave, OthersStay;
    LeaderIsFront(s, i);
    if room == Ok && s.requests[i].batch.Some? {
      OnlyOne(s, Step(s, Admit(i, room)), i);
    } else {
      LeavePhases(s, i, 1, room, None);
    }
  }

  lemma OnlyOne<T>(s: State<T>, t: State<T>, i: nat)
    requires |s.requests| == |s.writers| == |t.writers| && i < |s.writers| && t.requests == s.requests
    requires t.writers == s.writers[i := t.writers[i]]
    ensures OthersStay(s, t, i)
  {
  }

  lemma FinishPhases<T>(s: State<T>, i: nat)
    requires Inv(s) && Enabled(s, Finish(i)) && Safe(s, Finish(i))
    ensures var t, p := Step(s, Finish(i)), s.writers[i].phase;
      && OthersStay(s, t, i) && t.writers[i].phase == Returned(p.status) && i == Head(s) && Front(s) == p
      && t == s.(queue := t.queue, writers := t.writers, last := p.group.before + |p.group.ops|,
                 bgerror := if p.syncError && s.bgerror == Ok then p.status else s.bgerror, tmpbatch := t.tmpbatch,
                 rounds := s.rounds + [Round(i, i + p.group.len, p.status, RecordOf(s.log, i))])
  {
    hide GroupInv, LogInv, MemoryInv, RoundInv, Leave, OthersStay, RecordOf;
    FinishSafe(s, i);
    var u, p := Settled(s, i), s.writers[i].phase;
    LeavePhases(u, i, p.group.len, p.status, RecordOf(s.log, i));
    SameOthers(s, u, Step(s, Finish(i)), i);
  }

  lemma SameOthers<T>(s: State<T>, u: State<T>, t: State<T>, i: nat)
    requires OthersStay(u, t, i) && u.writers == s.writers && u.requests == s.requests
    ensures OthersStay(s, t, i)
  {
  }

  // ----- Every writer has called what its phase says -----

  ghost predicate CallsAre<T>(s: State<T>, events: seq<Event<T>>) {
    && |s.requests| == |s.writers|
    && (forall i :: 0 <= i < |s.writers| ==> Called(s.writers[i].phase, Calls(events, i), s.requests[i]))
    && forall i: nat :: |s.writers| <= i ==> Calls(events, i) == []
  }

  /** An event that is no call. */
  lemma QuietCalls<T>(s: State<T>, t: State<T>, events: seq<Event<T>>, e: Event<T>, i: nat)
    requires CallsAre(s, events) && OthersStay(s, t, i) && CallOf(e) == None
    requires i < |s.writers| ==> Called(t.writers[i].phase, Calls(events, i), s.requests[i])
    ensures CallsAre(t, events + [e])
  {
    hide Calls, Called;
    forall j: nat
      ensures Calls(events + [e], j) == Calls(events, j)
    {
      CallsNext(events, e, j);
    }
    forall j | 0 <= j < |t.writers|
      ensures Called(t.writers[j].phase, Calls(events, j), t.requests[j])
    {
      StillCalled(s, t, events, i, j);
    }
  }

  lemma StillCalled<T>(s: State<T>, t: State<T>, events: seq<Event<T>>, i: nat, j: nat)
    requires CallsAre(s, events) && OthersStay(s, t, i) && j < |t.writers|
    ensures j < |s.writers| && j != i ==> Called(t.writers[j].phase, Calls(events, j), t.requests[j])
    ensures |s.writers| <= j ==> Called(t.writers[j].phase, Calls(events, j), t.requests[j])
    ensures j < |s.writers| ==> t.requests[j] == s.requests[j]
  {
    hide Calls, Decides;
  }

  /** A call of writer i. */
  lemma CallCalls<T>(s: State<T>, t: State<T>, events: seq<Event<T>>, e: Event<T>, i: nat)
    requires CallsAre(s, events) && OthersStay(s, t, i) && CallOf(e) == Some(i) && i < |s.writers|
    requires Called(t.writers[i].phase, Calls(events, i) + [e], s.requests[i])
    ensures CallsAre(t, events + [e])
  {
    hide Calls, Called, CallOf;
    forall j: nat
      ensures Calls(events + [e], j) == if j == i then Calls(events, i) + [e] else Calls(events, j)
    {
      CallsNext(events, e, j);
    }
    forall j | 0 <= j < |t.writers|
      ensures Called(t.writers[j].phase, Calls(events + [e], j), t.requests[j])
    {
      StillCalled(s, t, events, i, j);
    }
  }

  lemma AdmitCalls<T>(s: State<T>, events: seq<Event<T>>, i: nat, room: Status)
    requires Inv(s) && Enabled(s, Admit(i, room)) && Safe(s, Admit(i, room)) && CallsAre(s, events)
    ensures CallsAre(Step(s, Admit(i, room)), events + [Admit(i, room)])
  {
    hide Inv, Step, Calls, OthersStay;
    AdmitPhases(s, i, room);
    assert Calls(events, i) == [];
    CallCalls(s, Step(s, Admit(i, room)), events, Admit(i, room), i);
  }

  lemma AppendCalls<T>(s: State<T>, events: seq<Event<T>>, i: nat, result: Status, whole: bool)
    requires Enabled(s, Append(i, result, whole)) && Safe(s, Append(i, result, whole)) && CallsAre(s, events)
    ensures CallsAre(Step(s, Append(i, result, whole)), events + [Append(i, result, whole)])
  {
    hide Calls;
    var e: Event<T> := Append(i, result, whole);
    OnlyOne(s, Step(s, e), i);
    CallCalls(s, Step(s, e), events, e, i);
  }

  lemma SyncCalls<T>(s: State<T>, events: seq<Event<T>>, i: nat, result: Status)
    requires Enabled(s, Sync(i, result)) && Safe(s, Sync(i, result)) && CallsAre(s, events)
    ensures CallsAre(Step(s, Sync(i, result)), events + [Sync(i, result)])
  {
    hide Calls;
    var e: Event<T> := Sync(i, result);
    OnlyOne(s, Step(s, e), i);
    CallCalls(s, Step(s, e), events, e, i);
  }

  lemma InsertCalls<T>(s: State<T>, events: seq<Event<T>>, i: nat, result: Status, count: nat)
    requires Enabled(s, Insert(i, result, count)) && Safe(s, Insert(i, result, count)) && CallsAre(s, events)
    ensures CallsAre(Step(s, Insert(i, result, count)), events + [Insert(i, result, count)])
  {
    hide Calls;
    var e: Event<T> := Insert(i, result, count);
    OnlyOne(s, Step(s, e), i);
    CallCalls(s, Step(s, e), events, e, i);
  }

  lemma FinishCalls<T>(s: State<T>, events: seq<Event<T>>, i: nat)
    requires Inv(s) && Enabled(s, Finish(i)) && Safe(s, Finish(i)) && CallsAre(s, events)
    ensures CallsAre(Step(s, Finish(i)), events + [Finish(i)])
  {
    hide Inv, Step, Calls, OthersStay;
    FinishPhases(s, i);
    QuietCalls(s, Step(s, Finish(i)), events, Finish(i), i);
  }

  lemma OtherCalls<T>(s: State<T>, events: seq<Event<T>>, e: Event<T>)
    requires Enabled(s, e) && Safe(s, e) && CallsAre(s, events)
    requires CallOf(e) == None && !e.Finish?
    ensures CallsAre(Step(s, e), events + [e])
  {
    hide Calls, InOrder, Decides;
    var i := match e
      case Wake(i) => i
      case Check(i) => i
      case Switch(i) => i
      case _ => |s.writers|;
    QuietCalls(s, Step(s, e), events, e, i);
  }

  lemma CallsStep<T>(s: State<T>, events: seq<Event<T>>, e: Event<T>)
    requires Inv(s) && Enabled(s, e) && Safe(s, e) && CallsAre(s, events)
    ensures CallsAre(Step(s, e), events + [e])
  {
    hide Inv, Step, CallsAre, Enabled, Safe;
    match e
    case Admit(i, room) => AdmitCalls(s, events, i, room);
    case Append(i, result, whole) => AppendCalls(s, events, i, result, whole);
    case Sync(i, result) => SyncCalls(s, events, i, result);
    case Insert(i, result, count) => InsertCalls(s, events, i, result, count);
    case Finish(i) => FinishCalls(s, events, i);
    case _ => OtherCalls(s, events, e);
  }

  // ----- Rounds, errors and sequence numbers -----

  /** The answer of a round is what the calls of its leader, which has returned, came to. */
  ghost predicate RoundTold<T>(s: State<T>, events: seq<Event<T>>, r: Round) {
    && r.lo < r.hi <= |s.requests| == |s.writers| && s.writers[r.lo].phase.Returned?
    && Decides(Calls(events, r.lo), s.requests[r.lo], r.status)
  }

  ghost predicate RoundsTold<T>(s: State<T>, events: seq<Event<T>>) {
    forall m :: 0 <= m < |s.rounds| ==> RoundTold(s, events, s.rounds[m])
  }

  /** The sequence numbers a round uses up: those of all its operations, if it got as far as appending them. */
  ghost function Used<T>(rs: seq<Request<T>>, events: seq<Event<T>>, r: Round): nat {
    if r.lo < r.hi <= |rs| && |Calls(events, r.lo)| > 1 then |Concat(rs, r.lo, r.hi)| else 0
  }

  ghost function Spent<T>(rounds: seq<Round>, rs: seq<Request<T>>, events: seq<Event<T>>): nat {
    if rounds == [] then 0
    else
      var m := |rounds| - 1;
      Spent(rounds[..m], rs, events) + Used(rs, events, rounds[m])
  }

  /** The error that is recorded: the first one from the background, or of a sync that failed. */
  function ErrorOf<T>(events: seq<Event<T>>): Status {
    if events == [] then Ok
    else
      var n := |events| - 1;
      var before := ErrorOf(events[..n]);
      if before != Ok then before
      else
        match events[n]
        case Background(error) => error
        case Finish(i) =>
          var calls := Calls(events[..n], i);
          if calls != [] && calls[|calls| - 1].Sync? then calls[|calls| - 1].result else Ok
        case _ => Ok
  }

  lemma ErrorNext<T>(events: seq<Event<T>>, e: Event<T>)
    ensures ErrorOf(events + [e]) ==
      if ErrorOf(events) != Ok then ErrorOf(events)
      else if e.Background? then e.error
      else if e.Finish? then
        var calls := Calls(events, e.id);
        if calls != [] && calls[|calls| - 1].Sync? then calls[|calls| - 1].result else Ok
      else Ok
  {
    hide Calls;
    assert (events + [e])[..|events|] == events;
  }

  lemma {:induction false} ErrorStep<T>(s: State<T>, events: seq<Event<T>>, e: Event<T>)
    requires Inv(s) && Enabled(s, e) && Safe(s, e) && CallsAre(s, events) && s.bgerror == ErrorOf(events)
    ensures Step(s, e).bgerror == ErrorOf(events + [e])
  {
    hide Inv, Calls, ErrorOf, OthersStay, Leave;
    ErrorNext(events, e);
    match e
    case Admit(i, room) => AdmitPhases(s, i, room);
    case Finish(i) =>
      FinishPhases(s, i);
      assert Called(s.writers[i].phase, Calls(events, i), s.requests[i]);
    case _ =>
  }

  lemma ConcatPrefix<T>(rs: seq<Request<T>>, more: seq<Request<T>>, lo: nat, hi: nat)
    requires lo <= hi <= |rs| && rs <= more
    ensures Concat(more, lo, hi) == Concat(rs, lo, hi)
  {
    ConcatOf(rs, 0, more, lo, hi);
  }

  /** What the leader of a round has called does not change any more. */
  lemma RoundStays<T>(s: State<T>, t: State<T>, events: seq<Event<T>>, e: Event<T>, i: nat, r: Round)
    requires RoundTold(s, events, r) && OthersStay(s, t, i)
    requires i < |s.writers| ==> !s.writers[i].phase.Returned?
    requires CallOf(e).Some? ==> CallOf(e) == Some(i)
    ensures RoundTold(t, events + [e], r)
    ensures Used(t.requests, events + [e], r) == Used(s.requests, events, r)
  {
    hide Calls, Decides, CallOf;
    CallsNext(events, e, r.lo);
    assert Calls(events, r.lo) + [] == Calls(events, r.lo);
    ConcatPrefix(s.requests, t.requests, r.lo, r.hi);
  }

  lemma {:induction false} SpentStays<T>(
    s: State<T>, t: State<T>, events: seq<Event<T>>, e: Event<T>, i: nat, rounds: seq<Round>)
    requires (forall m :: 0 <= m < |rounds| ==> RoundTold(s, events, rounds[m])) && OthersStay(s, t, i)
    requires i < |s.writers| ==> !s.writers[i].phase.Returned?
    requires CallOf(e).Some? ==> CallOf(e) == Some(i)
    ensures forall m :: 0 <= m < |rounds| ==> RoundTold(t, events + [e], rounds[m])
    ensures Spent(rounds, t.requests, events + [e]) == Spent(rounds, s.requests, events)
  {
    hide RoundTold, Used, OthersStay, CallOf;
    if rounds != [] {
      var m := |rounds| - 1;
      SpentStays(s, t, events, e, i, rounds[..m]);
      RoundStays(s, t, events, e, i, rounds[m]);
    }
  }

  /** The record of a round starts right behind what the rounds before it have used up. */
  ghost predicate StartsBehind<T>(s: State<T>, events: seq<Event<T>>, least: nat, m: nat)
    requires m < |s.rounds|
  {
    s.rounds[m].at.Some? ==>
      && s.rounds[m].at.value < |s.log|
      && s.log[s.rounds[m].at.value].base == least + Spent(s.rounds[..m], s.requests, events) + 1
      && |s.log[s.rounds[m].at.value].ops| == Used(s.requests, events, s.rounds[m])
  }

  /** The last sequence number is what the rounds have used up. */
  ghost predicate Numbered<T>(s: State<T>, events: seq<Event<T>>, least: nat) {
    && s.last == least + Spent(s.rounds, s.requests, events)
    && forall m :: 0 <= m < |s.rounds| ==> StartsBehind(s, events, least, m)
  }

  ghost predicate History<T>(s: State<T>, events: seq<Event<T>>, least: nat) {
    && CallsAre(s, events) && RoundsTold(s, events) && Numbered(s, events, least) && s.bgerror == ErrorOf(events)
  }

  lemma BehindStays<T>(
    s: State<T>, t: State<T>, events: seq<Event<T>>, e: Event<T>, i: nat, least: nat, m: nat)
    requires RoundsTold(s, events) && m < |s.rounds| && StartsBehind(s, events, least, m) && OthersStay(s, t, i)
    requires i < |s.writers| ==> !s.writers[i].phase.Returned?
    requires CallOf(e).Some? ==> CallOf(e) == Some(i)
    requires s.rounds <= t.rounds && LogGrows(s.log, t.log)
    ensures StartsBehind(t, events + [e], least, m)
  {
    hide RoundTold, Used, OthersStay, CallOf, Spent;
    assert t.rounds[..m] == s.rounds[..m] && t.rounds[m] == s.rounds[m];
    SpentStays(s, t, events, e, i, s.rounds[..m]);
    RoundStays(s, t, events, e, i, s.rounds[m]);
    if s.rounds[m].at.Some? {
      var x := s.log[s.rounds[m].at.value];
      assert t.log[s.rounds[m].at.value].(synced := x.synced) == x;
    }
  }

  /** A step that adds no round. */
  lemma {:induction false} SameRounds<T>(
    s: State<T>, t: State<T>, events: seq<Event<T>>, e: Event<T>, i: nat, least: nat)
    requires RoundsTold(s, events) && Numbered(s, events, least) && OthersStay(s, t, i)
    requires i < |s.writers| ==> !s.writers[i].phase.Returned?
    requires CallOf(e).Some? ==> CallOf(e) == Some(i)
    requires t.rounds == s.rounds && t.last == s.last && LogGrows(s.log, t.log)
    ensures RoundsTold(t, events + [e]) && Numbered(t, events + [e], least)
  {
    hide RoundTold, OthersStay, CallOf, Spent, StartsBehind, LogGrows;
    SpentStays(s, t, events, e, i, s.rounds);
    forall m | 0 <= m < |s.rounds|
      ensures StartsBehind(t, events + [e], least, m)
    {
      BehindStays(s, t, events, e, i, least, m);
    }
  }

  /** A step that adds one. */
  lemma {:induction false} OneRound<T>(
    s: State<T>, t: State<T>, events: seq<Event<T>>, e: Event<T>, i: nat, r: Round, least: nat)
    requires RoundsTold(s, events) && Numbered(s, events, least) && OthersStay(s, t, i)
    requires i < |s.writers| && !s.writers[i].phase.Returned? && (CallOf(e).Some? ==> CallOf(e) == Some(i))
    requires t.rounds == s.rounds + [r] && t.log == s.log && RoundTold(t, events + [e], r)
    requires t.last == s.last + Used(t.requests, events + [e], r)
    requires r.at.Some? ==>
      && r.at.value < |s.log| && s.log[r.at.value].base == s.last + 1
      && |s.log[r.at.value].ops| == Used(t.requests, events + [e], r)
    ensures RoundsTold(t, events + [e]) && Numbered(t, events + [e], least)
  {
    hide RoundTold, Used, OthersStay, CallOf, LogGrows, Spent, StartsBehind;
    var n := |s.rounds|;
    SpentStays(s, t, events, e, i, s.rounds);
    assert t.rounds[..n] == s.rounds;
    SpentNext(s.rounds, r, t.requests, events + [e]);
    LogSame(s.log);
    forall m | 0 <= m < |t.rounds|
      ensures RoundTold(t, events + [e], t.rounds[m]) && StartsBehind(t, events + [e], least, m)
    {
      if m < n {
        BehindStays(s, t, events, e, i, least, m);
      } else {
        LastBehind(t, events + [e], least, n);
      }
    }
  }

  lemma SpentNext<T>(rounds: seq<Round>, r: Round, rs: seq<Request<T>>, events: seq<Event<T>>)
    ensures Spent(rounds + [r], rs, events) == Spent(rounds, rs, events) + Used(rs, events, r)
  {
    hide Used;
    assert (rounds + [r])[..|rounds|] == rounds;
  }

  lemma LastBehind<T>(t: State<T>, events: seq<Event<T>>, least: nat, n: nat)
    requires n < |t.rounds|
    requires var r := t.rounds[n]; r.at.Some? ==>
      && r.at.value < |t.log| && t.log[r.at.value].base == least + Spent(t.rounds[..n], t.requests, events) + 1
      && |t.log[r.at.value].ops| == Used(t.requests, events, r)
    ensures StartsBehind(t, events, least, n)
  {
  }

  lemma AdmitHistory<T>(s: State<T>, events: seq<Event<T>>, i: nat, room: Status, least: nat)
    requires Inv(s) && Enabled(s, Admit(i, room)) && Safe(s, Admit(i, room))
    requires CallsAre(s, events) && RoundsTold(s, events) && Numbered(s, events, least)
    ensures var t := Step(s, Admit(i, room));
      RoundsTold(t, events + [Admit(i, room)]) && Numbered(t, events + [Admit(i, room)], least)
  {
    hide Inv, Step, Calls, OthersStay, RoundsTold, Numbered;
    var e: Event<T> := Admit(i, room);
    var t := Step(s, e);
    AdmitPhases(s, i, room);
    if room == Ok && s.requests[i].batch.Some? {
      LogSame(s.log);
      SameRounds(s, t, events, e, i, least);
    } else {
      assert Called(s.writers[i].phase, Calls(events, i), s.requests[i]);
      CallsNext(events, e, i);
      assert Calls(events + [e], i) == [e];
      Alone(s, t, i);
      OneRound(s, t, events, e, i, Round(i, i + 1, room, None), least);
    }
  }

  lemma LogSame<T>(log: seq<Record<T>>)
    ensures LogGrows(log, log)
  {
  }

  lemma Alone<T>(s: State<T>, t: State<T>, i: nat)
    requires OthersStay(s, t, i) && i < |s.writers|
    ensures i < |t.writers| == |t.requests| && t.requests[i] == s.requests[i]
  {
  }

  lemma FinishHistory<T>(s: State<T>, events: seq<Event<T>>, i: nat, least: nat)
    requires Inv(s) && Enabled(s, Finish(i)) && Safe(s, Finish(i))
    requires CallsAre(s, events) && RoundsTold(s, events) && Numbered(s, events, least)
    ensures RoundsTold(Step(s, Finish(i)), events + [Finish(i)])
    ensures Numbered(Step(s, Finish(i)), events + [Finish(i)], least)
  {
    hide QueueInv, LogInv, MemoryInv, RoundInv, Step, Calls, OthersStay, RoundsTold, Numbered, RecordOf, MayShare,
      Concat;
    var e: Event<T> := Finish(i);
    var t, p := Step(s, e), s.writers[i].phase;
    FinishPhases(s, i);
    FinishSafe(s, i);
    FinishedRecord(s, i);
    assert Called(p, Calls(events, i), s.requests[i]);
    CallsNext(events, e, i);
    assert Calls(events, i) + [] == Calls(events, i);
    Alone(s, t, i);
    ShareBounds(s, i, p.group.len);
    OneRound(s, t, events, e, i, Round(i, i + p.group.len, p.status, RecordOf(s.log, i)), least);
  }

  lemma ShareBounds<T>(s: State<T>, i: nat, len: nat)
    requires MayShare(s.requests, i, i + len)
    ensures i < i + len <= |s.requests|
  {
  }

  lemma {:induction false} HistoryStep<T>(s: State<T>, events: seq<Event<T>>, e: Event<T>, least: nat)
    requires Inv(s) && Enabled(s, e) && Safe(s, e) && Extends(s, Step(s, e)) && History(s, events, least)
    ensures History(Step(s, e), events + [e], least)
  {
    hide Inv, CallsAre, RoundsTold, Numbered, ErrorOf, Extends;
    CallsStep(s, events, e);
    ErrorStep(s, events, e);
    hide Step, Enabled, Safe;
    match e
    case Admit(i, room) => AdmitHistory(s, events, i, room, least);
    case Finish(i) => FinishHistory(s, events, i, least);
    case _ => OtherHistory(s, events, e, least);
  }

  lemma OtherHistory<T>(s: State<T>, events: seq<Event<T>>, e: Event<T>, least: nat)
    requires Enabled(s, e) && Safe(s, e) && Extends(s, Step(s, e)) && !e.Admit? && !e.Finish?
    requires CallsAre(s, events) && RoundsTold(s, events) && Numbered(s, events, least)
    ensures RoundsTold(Step(s, e), events + [e]) && Numbered(Step(s, e), events + [e], least)
  {
    hide Calls, Called, RoundsTold, Numbered, LogGrows;
    var i := match Actor(e) case Some(i) => i case None => |s.writers|;
    SameRounds(s, Step(s, e), events, e, i, least);
  }

  /** The writer that acts, if the event is an action of one. */
  function Actor<T>(e: Event<T>): Option<nat> {
    match e
    case Wake(i) => Some(i)
    case Check(i) => Some(i)
    case Switch(i) => Some(i)
    case Finish(i) => Some(i)
    case _ => CallOf(e)
  }

  lemma {:induction false} RunHistory<T>(states: seq<State<T>>, events: seq<Event<T>>, k: nat)
    requires Run(states, events) && Init(states[0]) && k <= |events|
    ensures Inv(states[k]) && History(states[k], events[..k], states[0].last)
    decreases k
  {
    hide Inv, Extends, Step, Safe, Enabled, History;
    if k == 0 {
      InitInv(states[0]);
      StartHistory(states[0]);
      assert events[..0] == [];
    } else {
      RunHistory(states, events, k - 1);
      assert Next(states[k - 1], events[k - 1], states[k]);
      StepKeeps(states[k - 1], events[k - 1]);
      HistoryStep(states[k - 1], events[..k - 1], events[k - 1], states[0].last);
      assert events[..k] == events[..k - 1] + [events[k - 1]];
    }
  }

  lemma StartHistory<T>(s: State<T>)
    requires Init(s)
    ensures History(s, [], s.last)
  {
  }

  // ----- What every run satisfies -----

  /**
   * Every writer that has an answer was answered for by a leader, itself or an earlier writer, and the answer is what
   * the leader's calls came to, in the order making room, appending, syncing if it asks for that, inserting: Ok if all
   * of them were made and came out Ok, and otherwise the result of the first that did not, after which there is no
   * other. A leader without a batch only makes room.
   */
  lemma {:induction false} AnswerIs<T>(states: seq<State<T>>, events: seq<Event<T>>, k: nat, i: nat)
    returns (leader: nat)
    requires Run(states, events) && Init(states[0]) && k <= |events|
    requires i < |states[k].writers| && Answer(states[k].writers[i]).Some?
    ensures leader <= i < |states[k].requests| == |states[k].writers|
    ensures var calls, r := Calls(events[..k], leader), states[k].requests[leader];
      var status := Answer(states[k].writers[i]).value;
      && InOrder(calls, r) && calls != []
      && (status == Ok <==>
            && (forall c :: 0 <= c < |calls| ==> ResultOf(calls[c]) == Ok)
            && |calls| == if r.batch.None? then 1 else if r.sync then 4 else 3)
      && (status != Ok ==>
            status == ResultOf(calls[|calls| - 1]) && forall c :: 0 <= c < |calls| - 1 ==> ResultOf(calls[c]) == Ok)
    ensures i != leader ==> states[k].requests[leader].batch.Some?
    ensures states[k].requests[i].sync ==> states[k].requests[leader].sync
  {
    hide GroupInv, LogInv, MemoryInv, RoundOk, Calls, InOrder, Numbered, ErrorOf, Called;
    RunHistory(states, events, k);
    var s := states[k];
    var m := RoundOf(s.rounds, Head(s), i);
    leader := s.rounds[m].lo;
    GroupAgrees(states, events, k, m, i);
    assert RoundTold(s, events[..k], s.rounds[m]);
    assert RoundOk(s, s.rounds[m]);
    Shared(s, s.rounds[m]);
    Before(Calls(events[..k], leader), s.requests[leader]);
  }

  lemma Shared<T>(s: State<T>, r: Round)
    requires |s.writers| == |s.requests| && RoundOk(s, r)
    ensures r.lo < r.hi <= |s.requests| && (r.hi > r.lo + 1 ==> s.requests[r.lo].batch.Some?)
  {
    hide Holds, Answer;
  }

  lemma Before<T>(calls: seq<Event<T>>, r: Request<T>)
    requires (forall c :: 0 <= c < |calls| ==> CallOf(calls[c]).Some?) && InOrder(calls, r)
    ensures forall c :: 0 <= c < |calls| - 1 ==> ResultOf(calls[c]) == Ok
  {
  }

  /** The recorded error is the first one from the background or of a sync that failed, and nothing else. */
  lemma ErrorIs<T>(states: seq<State<T>>, events: seq<Event<T>>, k: nat)
    requires Run(states, events) && Init(states[0]) && k <= |events|
    ensures states[k].bgerror == ErrorOf(events[..k])
  {
    hide Inv, Step, Safe, Enabled, CallsAre, RoundsTold, Numbered, ErrorOf;
    RunHistory(states, events, k);
  }

  /**
   * Sequence numbers are used without gaps: each round that got as far as appending uses up one for each operation of
   * its writers, and its record, if it has one, starts with the first of them.
   */
  lemma NumbersUsed<T>(states: seq<State<T>>, events: seq<Event<T>>, k: nat)
    requires Run(states, events) && Init(states[0]) && k <= |events|
    ensures Numbered(states[k], events[..k], states[0].last)
  {
    hide Inv, Step, Safe, Enabled, CallsAre, RoundsTold, Numbered, ErrorOf;
    RunHistory(states, events, k);
  }
}
