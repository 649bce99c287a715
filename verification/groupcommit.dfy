/**
 * The protocol of DB::Write (db.cc): many writers, one queue, one leader at a time. Each event is
 * what one thread does between taking the mutex and releasing it, so a sequence of events is one
 * interleaving of the threads.
 */
module GroupCommit {
  import opened Ordering
  import opened WriteQueue

  datatype Status = Ok | Failed(code: int)

  /** The writers a leader answers for, the last sequence before theirs, and the batch it writes. */
  datatype Group<T> = Group(len: nat, before: nat, ops: seq<T>, merged: bool)

  datatype Phase<T> =
    | Asleep
    | Awake
    | MakingRoom
    | Appending(group: Group<T>)
    | Syncing(group: Group<T>)
    | Inserting(group: Group<T>)
    | Finishing(group: Group<T>, status: Status, syncError: bool)
    | Returned(answer: Status)

  datatype Writer<T> = Writer(phase: Phase<T>, done: Option<Status>)

  /** A log record and the writers lo..hi whose batches it holds. */
  datatype Record<T> = Record(file: nat, lo: nat, hi: nat, base: nat, ops: seq<T>, synced: bool)

  /** History: the writers lo..hi left the queue together, with the record they wrote, if any. */
  datatype Round = Round(lo: nat, hi: nat, status: Status, at: Option<nat>)

  /** Writers are numbered in the order they joined the queue. */
  datatype State<T> = State(
    requests: seq<Request<T>>,
    writers: seq<Writer<T>>,
    queue: seq<nat>,
    tmpbatch: seq<T>,
    last: nat,
    bgerror: Status,
    file: nat,
    log: seq<Record<T>>,
    memory: seq<(nat, T)>,
    rounds: seq<Round>)

  datatype Event<T> =
    | Enqueue(request: Request<T>)
    | Wake(id: nat)
    | Check(id: nat)
    | Switch(id: nat)
    | Admit(id: nat, room: Status)
    | Append(id: nat, result: Status, whole: bool)
    | Sync(id: nat, result: Status)
    | Insert(id: nat, result: Status, count: nat)
    | Finish(id: nat)
    | Background(error: Status)

  ghost predicate Init<T>(s: State<T>) {
    && s.requests == [] && s.writers == [] && s.queue == [] && s.tmpbatch == [] && s.bgerror == Ok
    && s.log == [] && s.memory == [] && s.rounds == []
  }

  // ----- Steps -----

  function SetPhase<T>(s: State<T>, i: nat, p: Phase<T>): State<T>
    requires i < |s.writers|
  {
    s.(writers := s.writers[i := s.writers[i].(phase := p)])
  }

  /** A notification wakes a writer that waits and does nothing to any other. */
  function Woken<T>(w: Writer<T>): Writer<T> {
    if w.phase == Asleep then w.(phase := Awake) else w
  }

  predicate InBounds<T>(s: State<T>) {
    && |s.requests| == |s.writers|
    && forall k :: 0 <= k < |s.queue| ==> s.queue[k] < |s.writers|
  }

  /** The writers waiting in the queue, front first. */
  function Waiting<T>(s: State<T>): seq<Request<T>>
    requires InBounds(s)
  {
    seq(|s.queue|, k requires 0 <= k < |s.queue| => s.requests[s.queue[k]])
  }

  /** Pop the queue up to `lastWriter`, answering and notifying everyone but the leader. */
  function Pop<T>(s: State<T>, leader: nat, lastWriter: nat, status: Status): (t: State<T>)
    requires InBounds(s)
    ensures InBounds(t) && |t.writers| == |s.writers|
    decreases |s.queue|
  {
    if s.queue == [] then s
    else
      var ready := s.queue[0];
      var t := s.(
        queue := s.queue[1..],
        writers := if ready == leader then s.writers
        else s.writers[ready := Woken(s.writers[ready]).(done := Some(status))]);
      if ready == lastWriter then t else Pop(t, leader, lastWriter, status)
  }

  function NotifyFront<T>(s: State<T>): State<T>
    requires InBounds(s)
  {
    if s.queue == [] then s else s.(writers := s.writers[s.queue[0] := Woken(s.writers[s.queue[0]])])
  }

  /** The end of a leader's Write: pop the group, notify the new front, return. */
  function Leave<T>(s: State<T>, i: nat, len: nat, status: Status, at: Option<nat>): State<T>
    requires InBounds(s) && i < |s.writers| && 0 < len <= |s.queue|
  {
    var popped := Pop(s, i, s.queue[len - 1], status);
    SetPhase(NotifyFront(popped), i, Returned(status)).(rounds := s.rounds + [Round(i, i + len, status, at)])
  }

  function Number<T>(before: nat, ops: seq<T>): seq<(nat, T)> {
    seq(|ops|, k requires 0 <= k < |ops| => (before + 1 + k, ops[k]))
  }

  predicate HasGroup<T>(p: Phase<T>) {
    p.Appending? || p.Syncing? || p.Inserting? || p.Finishing?
  }

  /** May the event happen here? */
  predicate Enabled<T>(s: State<T>, e: Event<T>) {
    match e
    case Enqueue(_) => true
    case Wake(i) => i < |s.writers| && s.writers[i].phase.Asleep?
    case Check(i) => i < |s.writers| && s.writers[i].phase.Awake?
    case Switch(i) => i < |s.writers| && s.writers[i].phase.MakingRoom? && s.bgerror == Ok
    case Admit(i, room) => i < |s.writers| && s.writers[i].phase.MakingRoom? && (s.bgerror != Ok ==> room == s.bgerror)
    case Append(i, result, whole) => i < |s.writers| && s.writers[i].phase.Appending? && (result == Ok ==> whole)
    case Sync(i, _) => i < |s.writers| && s.writers[i].phase.Syncing?
    case Insert(i, result, count) =>
      && i < |s.writers| && s.writers[i].phase.Inserting?
      && count <= |s.writers[i].phase.group.ops| && (result == Ok ==> count == |s.writers[i].phase.group.ops|)
    case Finish(i) => i < |s.writers| && s.writers[i].phase.Finishing?
    case Background(error) => error != Ok
  }

  /** Every writer in the queue is a call that has not returned, so its stack frame exists. */
  predicate NoneDangling<T>(s: State<T>) {
    InBounds(s) && forall k :: 0 <= k < |s.queue| ==> !s.writers[s.queue[k]].phase.Returned?
  }

  /** The assertions and dereferences the program makes in this step. */
  predicate Safe<T>(s: State<T>, e: Event<T>)
    requires Enabled(s, e)
  {
    && NoneDangling(s)
    && match e
       case Check(i) => s.writers[i].done.None? ==> s.queue != []
       case Admit(i, room) =>
         && s.queue != []
         && (room == Ok && s.requests[i].batch.Some? ==>
         && s.requests[s.queue[0]].batch.Some?
         && (Merges(Waiting(s), GroupLength(Waiting(s))) ==> s.tmpbatch == []))
       case Finish(i) =>
         var g := s.writers[i].phase.group;
         0 < g.len <= |s.queue| && s.last <= g.before + |g.ops|
       case _ => true
  }

  function Chosen<T>(s: State<T>): Group<T>
    requires InBounds(s) && s.queue != [] && s.requests[s.queue[0]].batch.Some?
  {
    var rs := Waiting(s);
    var n := GroupLength(rs);
    var merged := Merges(rs, n);
    Group(n, s.last, (if merged then s.tmpbatch else []) + Concat(rs, 0, n), merged)
  }

  function Joined<T>(s: State<T>, i: nat): State<T>
    requires InBounds(s) && s.queue != [] && s.requests[s.queue[0]].batch.Some? && i < |s.writers|
  {
    var g := Chosen(s);
    SetPhase(s, i, Appending(g)).(tmpbatch := if g.merged then g.ops else s.tmpbatch)
  }

  function Appended<T>(s: State<T>, i: nat, result: Status, whole: bool): State<T>
    requires InBounds(s) && i < |s.writers| && s.writers[i].phase.Appending?
  {
    var g := s.writers[i].phase.group;
    SetPhase(s, i,
             if result != Ok then Finishing(g, result, false)
             else if s.requests[i].sync then Syncing(g) else Inserting(g)).(
      log := if whole then s.log + [Record(s.file, i, i + g.len, g.before + 1, g.ops, false)] else s.log)
  }

  function Synced<T>(log: seq<Record<T>>, file: nat): seq<Record<T>> {
    seq(|log|, k requires 0 <= k < |log| => if log[k].file == file then log[k].(synced := true) else log[k])
  }

  function Flushed<T>(s: State<T>, i: nat, result: Status): State<T>
    requires i < |s.writers| && s.writers[i].phase.Syncing?
  {
    var g := s.writers[i].phase.group;
    if result == Ok then SetPhase(s, i, Inserting(g)).(log := Synced(s.log, s.file))
    else SetPhase(s, i, Finishing(g, result, true))
  }

  function Inserted<T>(s: State<T>, i: nat, result: Status, count: nat): State<T>
    requires i < |s.writers| && s.writers[i].phase.Inserting? && count <= |s.writers[i].phase.group.ops|
  {
    var g := s.writers[i].phase.group;
    SetPhase(s, i, Finishing(g, result, false)).(memory := s.memory + Number(g.before, g.ops[..count]))
  }

  /** The leader's bookkeeping once it holds the mutex again; the history notes its record. */
  function Settled<T>(s: State<T>, i: nat): State<T>
    requires i < |s.writers| && s.writers[i].phase.Finishing?
  {
    var p := s.writers[i].phase;
    s.(
      last := p.group.before + |p.group.ops|,
      bgerror := if p.syncError && s.bgerror == Ok then p.status else s.bgerror,
      tmpbatch := if p.group.merged then [] else s.tmpbatch)
  }

  function RecordOf<T>(log: seq<Record<T>>, i: nat): Option<nat> {
    if log != [] && log[|log| - 1].lo == i then Some(|log| - 1) else None
  }

  function Step<T>(s: State<T>, e: Event<T>): State<T>
    requires Enabled(s, e) && Safe(s, e)
  {
    match e
    case Enqueue(r) =>
      s.(requests := s.requests + [r], writers := s.writers + [Writer(Awake, None)], queue := s.queue + [|s.writers|])
    case Wake(i) => SetPhase(s, i, Awake)
    case Check(i) =>
      if s.writers[i].done.Some? then SetPhase(s, i, Returned(s.writers[i].done.value))
      else SetPhase(s, i, if s.queue[0] == i then MakingRoom else Asleep)
    case Switch(i) => s.(file := s.file + 1)
    case Admit(i, room) =>
      if room == Ok && s.requests[i].batch.Some? then Joined(s, i) else Leave(s, i, 1, room, None)
    case Append(i, result, whole) => Appended(s, i, result, whole)
    case Sync(i, result) => Flushed(s, i, result)
    case Insert(i, result, count) => Inserted(s, i, result, count)
    case Finish(i) =>
      var p := s.writers[i].phase;
      Leave(Settled(s, i), i, p.group.len, p.status, RecordOf(s.log, i))
    case Background(error) => s.(bgerror := if s.bgerror == Ok then error else s.bgerror)
  }

  ghost predicate Next<T>(s: State<T>, e: Event<T>, t: State<T>) {
    Enabled(s, e) && Safe(s, e) && t == Step(s, e)
  }

  // ----- The invariant -----

  predicate Contiguous<T>(s: State<T>) {
    |s.queue| <= |s.writers| && forall k :: 0 <= k < |s.queue| ==> s.queue[k] == |s.writers| - |s.queue| + k
  }

  /** The number of writers that have left the queue, and so the number of the front. */
  function Head<T>(s: State<T>): nat
    requires |s.queue| <= |s.writers|
  {
    |s.writers| - |s.queue|
  }

  predicate Answered<T>(w: Writer<T>) {
    if w.done.Some? then w.phase == Awake || w.phase == Returned(w.done.value) else w.phase.Returned?
  }

  predicate QueueInv<T>(s: State<T>) {
    && Contiguous(s)
    && (forall i :: 0 <= i < Head(s) ==> Answered(s.writers[i]))
    && (forall i :: Head(s) <= i < |s.writers| ==> s.writers[i].done.None?)
    && (forall i :: Head(s) < i < |s.writers| ==> s.writers[i].phase.Asleep? || s.writers[i].phase.Awake?)
    && (s.queue != [] ==> !s.writers[Head(s)].phase.Asleep? && !s.writers[Head(s)].phase.Returned?)
  }

  /** The phase of the writer at the front; nobody leads when the queue is empty. */
  function Front<T>(s: State<T>): Phase<T>
    requires |s.queue| <= |s.writers|
  {
    if s.queue == [] then Awake else s.writers[Head(s)].phase
  }

  /** Writers lo..hi may be one group: the leader has a batch, and syncs if any of them asks. */
  predicate MayShare<T>(rs: seq<Request<T>>, lo: nat, hi: nat) {
    && lo < hi <= |rs| && rs[lo].batch.Some?
    && forall i :: lo <= i < hi && rs[i].sync ==> rs[lo].sync
  }

  ghost predicate GroupInv<T>(s: State<T>)
    requires |s.queue| <= |s.writers| == |s.requests|
  {
    var p := Front(s);
    if HasGroup(p) then
      && 0 < p.group.len <= |s.queue| && p.group.before == s.last
      && MayShare(s.requests, Head(s), Head(s) + p.group.len)
      && p.group.ops == Concat(s.requests, Head(s), Head(s) + p.group.len)
      && s.tmpbatch == (if p.group.merged then p.group.ops else [])
      && (p.Syncing? ==> s.requests[Head(s)].sync)
      && (p.Finishing? && p.syncError ==> p.status != Ok)
    else
      s.tmpbatch == []
  }

  /** Records follow each other in enqueue order, in disjoint increasing ranges of sequence numbers. */
  predicate Ordered<T>(log: seq<Record<T>>) {
    forall k, l :: 0 <= k < l < |log| ==>
      log[k].hi <= log[l].lo && log[k].base + |log[k].ops| <= log[l].base && log[k].file <= log[l].file
  }

  /** A record is the batches of its writers, in order. */
  ghost predicate Faithful<T>(rs: seq<Request<T>>, r: Record<T>) {
    && r.base > 0 && MayShare(rs, r.lo, r.hi) && r.ops == Concat(rs, r.lo, r.hi)
  }

  /** The leader's record has reached the log, and the disk if it must. */
  ghost predicate Pending<T>(s: State<T>, r: Record<T>)
    requires |s.queue| <= |s.writers| == |s.requests|
  {
    var p := Front(s);
    && HasGroup(p) && !p.Appending?
    && r.file == s.file && r.lo == Head(s) && r.hi == Head(s) + p.group.len
    && r.base == p.group.before + 1 && r.ops == p.group.ops
    && (p.Inserting? || (p.Finishing? && p.status == Ok) ==> s.requests[Head(s)].sync ==> r.synced)
  }

  ghost predicate InPast<T>(s: State<T>, r: Record<T>)
    requires |s.queue| <= |s.writers|
  {
    r.hi <= Head(s) && r.base + |r.ops| <= s.last + 1
  }

  /** Must the leader's record be in the log by now? */
  predicate MustBeLogged<T>(p: Phase<T>) {
    p.Syncing? || p.Inserting? || (p.Finishing? && p.status == Ok)
  }

  ghost predicate LogInv<T>(s: State<T>)
    requires |s.queue| <= |s.writers| == |s.requests|
  {
    && Ordered(s.log)
    && (forall k :: 0 <= k < |s.log| ==> Faithful(s.requests, s.log[k]) && s.log[k].file <= s.file)
    && (forall k :: 0 <= k < |s.log| ==> InPast(s, s.log[k]) || (k == |s.log| - 1 && Pending(s, s.log[k])))
    && (MustBeLogged(Front(s)) ==> s.log != [] && Pending(s, s.log[|s.log| - 1]))
  }

  /** An operation is in the log under this sequence number. */
  ghost predicate InLog<T>(log: seq<Record<T>>, x: (nat, T)) {
    exists k :: 0 <= k < |log| && log[k].base <= x.0 < log[k].base + |log[k].ops|
      && log[k].ops[x.0 - log[k].base] == x.1
  }

  /** All operations are in memory, numbered one after the other. */
  ghost predicate Holds<T>(memory: seq<(nat, T)>, before: nat, ops: seq<T>) {
    forall j :: 0 <= j < |ops| ==> (before + 1 + j, ops[j]) in memory
  }

  ghost predicate MemoryInv<T>(s: State<T>)
    requires |s.queue| <= |s.writers|
  {
    var p := Front(s);
    && (forall a, b :: 0 <= a < b < |s.memory| ==> s.memory[a].0 < s.memory[b].0)
    && (forall a :: 0 <= a < |s.memory| ==> s.memory[a].0 <= s.last + if p.Finishing? then |p.group.ops| else 0)
    && (forall a :: 0 <= a < |s.memory| ==> InLog(s.log, s.memory[a]))
    && (p.Finishing? && p.status == Ok ==> Holds(s.memory, p.group.before, p.group.ops))
  }

  /** What the writer has been told, or will be told when it next runs. */
  function Answer<T>(w: Writer<T>): Option<Status> {
    if w.done.Some? then w.done else if w.phase.Returned? then Some(w.phase.answer) else None
  }

  /** A round answers all its writers alike; success means logged, synced if asked, and in memory. */
  ghost predicate RoundOk<T>(s: State<T>, r: Round)
    requires |s.writers| == |s.requests|
  {
    && r.lo < r.hi <= |s.writers|
    && (forall i :: r.lo <= i < r.hi ==> Answer(s.writers[i]) == Some(r.status))
    && (r.at.Some? ==> r.at.value < |s.log| && s.log[r.at.value].lo == r.lo && s.log[r.at.value].hi == r.hi)
    && (r.hi == r.lo + 1 || MayShare(s.requests, r.lo, r.hi))
    && (r.status == Ok && s.requests[r.lo].batch.Some? ==>
          && r.at.Some?
          && (s.requests[r.lo].sync ==> s.log[r.at.value].synced)
          && s.log[r.at.value].base > 0
          && Holds(s.memory, s.log[r.at.value].base - 1, s.log[r.at.value].ops))
  }

  /** The rounds divide the writers before `head` among them. */
  predicate Tiles(rounds: seq<Round>, head: nat) {
    if rounds == [] then head == 0
    else
      var r := rounds[|rounds| - 1];
      r.hi == head && Tiles(rounds[..|rounds| - 1], r.lo)
  }

  ghost predicate RoundInv<T>(s: State<T>)
    requires |s.queue| <= |s.writers| == |s.requests|
  {
    && Tiles(s.rounds, Head(s))
    && forall k :: 0 <= k < |s.rounds| ==> RoundOk(s, s.rounds[k])
  }

  ghost predicate Inv<T>(s: State<T>) {
    && |s.requests| == |s.writers|
    && QueueInv(s) && GroupInv(s) && LogInv(s) && MemoryInv(s) && RoundInv(s)
  }

  // ----- What no step undoes -----

  ghost predicate LogGrows<T>(before: seq<Record<T>>, log: seq<Record<T>>) {
    && |before| <= |log|
    && forall k :: 0 <= k < |before|
         ==> log[k].(synced := before[k].synced) == before[k] && (before[k].synced ==> log[k].synced)
  }

  /** What every step keeps: answers, the log, memory and the history only grow. */
  ghost predicate Extends<T>(s: State<T>, t: State<T>) {
    && |s.requests| == |s.writers| && |t.requests| == |t.writers|
    && s.requests <= t.requests
    && (forall i :: 0 <= i < |s.writers| && Answer(s.writers[i]).Some? ==> Answer(t.writers[i]) == Answer(s.writers[i]))
    && LogGrows(s.log, t.log) && s.memory <= t.memory && s.rounds <= t.rounds
    && s.last <= t.last && s.file <= t.file
    && (forall a :: |s.memory| <= a < |t.memory| ==> t.memory[a].0 > s.last)
    && (s.bgerror != Ok ==> t.bgerror == s.bgerror)
  }

  lemma ExtendsTransitive<T>(s: State<T>, t: State<T>, u: State<T>)
    requires Extends(s, t) && Extends(t, u)
    ensures Extends(s, u)
  {
    forall k | 0 <= k < |s.log|
      ensures u.log[k].(synced := s.log[k].synced) == s.log[k] && (s.log[k].synced ==> u.log[k].synced)
    {
      assert t.log[k].(synced := s.log[k].synced) == s.log[k];
    }
    forall i | 0 <= i < |s.writers| && Answer(s.writers[i]).Some?
      ensures Answer(u.writers[i]) == Answer(s.writers[i])
    {
      assert Answer(t.writers[i]) == Answer(s.writers[i]);
    }
  }

  lemma HoldsMore<T>(m: seq<(nat, T)>, n: seq<(nat, T)>, before: nat, ops: seq<T>)
    requires Holds(m, before, ops) && m <= n
    ensures Holds(n, before, ops)
  {
  }

  lemma RoundKept<T>(s: State<T>, t: State<T>, r: Round)
    requires Extends(s, t) && RoundOk(s, r)
    ensures RoundOk(t, r)
  {
    hide Holds, Answer;
    if r.at.Some? {
      var x := s.log[r.at.value];
      assert t.log[r.at.value].(synced := x.synced) == x;
      if r.status == Ok && s.requests[r.lo].batch.Some? {
        HoldsMore(s.memory, t.memory, x.base - 1, x.ops);
      }
    }
  }

  lemma RoundsKept<T>(s: State<T>, t: State<T>)
    requires |s.queue| <= |s.writers| && Extends(s, t)
    requires forall k :: 0 <= k < |s.rounds| ==> RoundOk(s, s.rounds[k])
    ensures forall k :: 0 <= k < |s.rounds| ==> RoundOk(t, s.rounds[k])
  {
    hide RoundOk;
    forall k | 0 <= k < |s.rounds|
      ensures RoundOk(t, s.rounds[k])
    {
      RoundKept(s, t, s.rounds[k]);
    }
  }

  /** Whoever leads is the writer at the front. */
  lemma LeaderIsFront<T>(s: State<T>, i: nat)
    requires Inv(s) && i < |s.writers|
    requires s.writers[i].phase.MakingRoom? || HasGroup(s.writers[i].phase)
    ensures s.queue != [] && i == Head(s) == s.queue[0] && Front(s) == s.writers[i].phase
    ensures NoneDangling(s)
  {
  }

  // ----- Steps that write nothing -----

  lemma QuietStep<T>(s: State<T>, t: State<T>)
    requires Inv(s) && QueueInv(t) && |t.writers| == |s.writers|
    requires t == s.(writers := t.writers, bgerror := t.bgerror, file := t.file)
    requires s.file <= t.file && (HasGroup(Front(s)) ==> s.file == t.file)
    requires HasGroup(Front(s)) || HasGroup(Front(t)) ==> Front(s) == Front(t)
    requires forall i :: 0 <= i < |s.writers| && Answer(s.writers[i]).Some?
               ==> Answer(t.writers[i]) == Answer(s.writers[i])
    requires s.bgerror != Ok ==> t.bgerror == s.bgerror
    ensures Inv(t) && Extends(s, t)
  {
    hide Answer, RoundOk, InLog, Holds, Tiles, Faithful, Concat;
    RoundsKept(s, t);
  }

  lemma WakeStep<T>(s: State<T>, i: nat)
    requires Inv(s) && Enabled(s, Wake(i))
    ensures Safe(s, Wake(i))
    ensures Inv(Step(s, Wake(i))) && Extends(s, Step(s, Wake(i)))
  {
    hide RoundInv, LogInv, MemoryInv, GroupInv;
    QuietStep(s, Step(s, Wake(i)));
  }

  lemma CheckStep<T>(s: State<T>, i: nat)
    requires Inv(s) && Enabled(s, Check(i))
    ensures Safe(s, Check(i))
    ensures Inv(Step(s, Check(i))) && Extends(s, Step(s, Check(i)))
  {
    hide RoundInv, LogInv, MemoryInv, GroupInv;
    QuietStep(s, Step(s, Check(i)));
  }

  lemma SwitchStep<T>(s: State<T>, i: nat)
    requires Inv(s) && Enabled(s, Switch(i))
    ensures Safe(s, Switch(i))
    ensures Inv(Step(s, Switch(i))) && Extends(s, Step(s, Switch(i)))
  {
    LeaderIsFront(s, i);
    hide RoundInv, LogInv, MemoryInv, GroupInv;
    QuietStep(s, Step(s, Switch(i)));
  }

  lemma BackgroundStep<T>(s: State<T>, error: Status)
    requires Inv(s) && error != Ok
    ensures Safe(s, Background(error))
    ensures Inv(Step(s, Background(error))) && Extends(s, Step(s, Background(error)))
  {
    hide RoundInv, LogInv, MemoryInv, GroupInv;
    QuietStep(s, Step(s, Background(error)));
  }

  // ----- A new writer -----

  lemma MayShareStable<T>(rs: seq<Request<T>>, r: Request<T>, lo: nat, hi: nat)
    requires lo <= hi <= |rs|
    ensures Concat(rs + [r], lo, hi) == Concat(rs, lo, hi)
    ensures lo < hi ==> MayShare(rs + [r], lo, hi) == MayShare(rs, lo, hi)
  {
    ConcatOf(rs, 0, rs + [r], lo, hi);
  }

  lemma EnqueueLog<T>(s: State<T>, t: State<T>, r: Request<T>)
    requires Inv(s) && t == Step(s, Enqueue(r)) && QueueInv(t) && Head(t) == Head(s)
    requires HasGroup(Front(s)) ==> Front(t) == Front(s)
    requires HasGroup(Front(t)) ==> Front(t) == Front(s)
    ensures LogInv(t)
  {
    hide RoundInv, MemoryInv, MayShare, Concat, Ordered;
    forall k | 0 <= k < |t.log|
      ensures Faithful(t.requests, t.log[k])
    {
      var x := t.log[k];
      assert Faithful(s.requests, x);
      assert x.lo < x.hi <= |s.requests| by {
        assert MayShare(s.requests, x.lo, x.hi);
        MayShareBounds(s.requests, x.lo, x.hi);
      }
      MayShareStable(s.requests, r, x.lo, x.hi);
    }
  }

  lemma MayShareBounds<T>(rs: seq<Request<T>>, lo: nat, hi: nat)
    requires MayShare(rs, lo, hi)
    ensures lo < hi <= |rs|
  {
  }

  lemma EnqueueGroup<T>(s: State<T>, t: State<T>, r: Request<T>)
    requires Inv(s) && t == Step(s, Enqueue(r)) && QueueInv(t) && Head(t) == Head(s)
    requires HasGroup(Front(s)) || HasGroup(Front(t)) ==> Front(t) == Front(s)
    ensures GroupInv(t) && MemoryInv(t)
  {
    hide RoundInv, LogInv, QueueInv, InLog, Holds, MayShare, Concat;
    var p := Front(s);
    if HasGroup(p) {
      MayShareBounds(s.requests, Head(s), Head(s) + p.group.len);
      MayShareStable(s.requests, r, Head(s), Head(s) + p.group.len);
    }
  }

  lemma EnqueueQueue<T>(s: State<T>, t: State<T>, r: Request<T>)
    requires Inv(s) && Safe(s, Enqueue(r)) && t == Step(s, Enqueue(r))
    ensures QueueInv(t) && Head(t) == Head(s) && Extends(s, t)
    ensures HasGroup(Front(s)) || HasGroup(Front(t)) ==> Front(t) == Front(s)
  {
    hide RoundInv, LogInv, MemoryInv, GroupInv;
  }

  lemma RoundsStay<T>(s: State<T>, t: State<T>)
    requires |s.queue| <= |s.writers| == |s.requests| && |t.queue| <= |t.writers| == |t.requests|
    requires RoundInv(s) && Extends(s, t) && t.rounds == s.rounds && Head(t) == Head(s)
    ensures RoundInv(t)
  {
    hide RoundOk, Extends, Tiles;
    RoundsKept(s, t);
  }

  lemma EnqueueStep<T>(s: State<T>, r: Request<T>)
    requires Inv(s)
    ensures Safe(s, Enqueue(r))
    ensures Inv(Step(s, Enqueue(r))) && Extends(s, Step(s, Enqueue(r)))
  {
    hide RoundInv, LogInv, MemoryInv, GroupInv, Extends;
    var t := Step(s, Enqueue(r));
    EnqueueQueue(s, t, r);
    EnqueueGroup(s, t, r);
    EnqueueLog(s, t, r);
    RoundsStay(s, t);
  }

  // ----- The leader chooses its group -----

  lemma {:induction false} ChosenIs<T>(s: State<T>)
    requires QueueInv(s) && |s.requests| == |s.writers|
    requires s.queue != [] && s.requests[Head(s)].batch.Some? && s.tmpbatch == []
    ensures InBounds(s) && s.queue[0] == Head(s)
    ensures var g := Chosen(s);
      && 0 < g.len <= |s.queue| && g.before == s.last
      && MayShare(s.requests, Head(s), Head(s) + g.len)
      && g.ops == Concat(s.requests, Head(s), Head(s) + g.len)
  {
    hide Concat, Merges, GroupFrom;
    var rs := Waiting(s);
    var n := GroupLength(rs);
    GroupSyncs(rs, 1, rs[0].batch.value.size);
    assert forall k :: 0 <= k < |rs| ==> rs[k] == s.requests[Head(s) + k];
    ConcatOf(rs, Head(s), s.requests, 0, n);
    assert [] + Concat(rs, 0, n) == Concat(rs, 0, n);
    forall i | Head(s) <= i < Head(s) + n && s.requests[i].sync
      ensures s.requests[Head(s)].sync
    {
      assert rs[i - Head(s)].sync;
    }
  }

  /** The leader changes phase and keeps its place. */
  lemma LeaderMoves<T>(s: State<T>, t: State<T>, i: nat, p: Phase<T>)
    requires QueueInv(s) && s.queue != [] && i == Head(s) && |s.requests| == |s.writers|
    requires t == SetPhase(s, i, p).(tmpbatch := t.tmpbatch, log := t.log, memory := t.memory)
    requires HasGroup(p) && LogGrows(s.log, t.log) && s.memory <= t.memory
    requires forall a :: |s.memory| <= a < |t.memory| ==> t.memory[a].0 > s.last
    ensures QueueInv(t) && Head(t) == Head(s) && Front(t) == p && Extends(s, t)
  {
  }

  lemma JoinKeeps<T>(s: State<T>, i: nat)
    requires Inv(s) && s.queue != [] && i == Head(s) == s.queue[0] && s.writers[i].phase.MakingRoom?
    requires InBounds(s) && s.requests[i].batch.Some?
    requires var t := Joined(s, i);
      Head(t) == Head(s) && Front(t) == Appending(Chosen(s))
    ensures LogInv(Joined(s, i)) && MemoryInv(Joined(s, i))
  {
    hide Chosen, RoundInv, InLog, Holds, Faithful, Ordered, Concat, MayShare;
  }

  lemma JoinGroup<T>(s: State<T>, i: nat)
    requires Inv(s) && s.queue != [] && i == Head(s) && s.writers[i].phase.MakingRoom?
    requires s.requests[i].batch.Some?
    ensures InBounds(s) && s.queue[0] == i && QueueInv(Joined(s, i)) && GroupInv(Joined(s, i))
    ensures var t := Joined(s, i);
      Head(t) == Head(s) && Front(t) == Appending(Chosen(s)) && Extends(s, t) && t.rounds == s.rounds
        && |t.requests| == |t.writers|
  {
    hide RoundInv, LogInv, MemoryInv, Concat, MayShare, Merges, GroupLength, Chosen;
    ChosenIs(s);
    LeaderMoves(s, Joined(s, i), i, Appending(Chosen(s)));
  }

  lemma JoinSafe<T>(s: State<T>, i: nat)
    requires Inv(s) && Enabled(s, Admit(i, Ok)) && s.requests[i].batch.Some?
    ensures Safe(s, Admit(i, Ok)) && i == Head(s) == s.queue[0]
  {
    hide RoundInv, LogInv, MemoryInv, Concat, MayShare, Merges, GroupLength;
    LeaderIsFront(s, i);
  }

  lemma JoinStep<T>(s: State<T>, i: nat)
    requires Inv(s) && Enabled(s, Admit(i, Ok)) && s.requests[i].batch.Some?
    ensures Safe(s, Admit(i, Ok))
    ensures Inv(Step(s, Admit(i, Ok))) && Extends(s, Step(s, Admit(i, Ok)))
  {
    hide Joined, QueueInv, GroupInv, LogInv, MemoryInv, RoundInv, Extends, NoneDangling, Chosen;
    JoinSafe(s, i);
    JoinGroup(s, i);
    JoinKeeps(s, i);
    RoundsStay(s, Joined(s, i));
  }

  // ----- The leader writes -----

  lemma InLogKept<T>(before: seq<Record<T>>, log: seq<Record<T>>, memory: seq<(nat, T)>)
    requires LogGrows(before, log) && forall a :: 0 <= a < |memory| ==> InLog(before, memory[a])
    ensures forall a :: 0 <= a < |memory| ==> InLog(log, memory[a])
  {
    forall a | 0 <= a < |memory|
      ensures InLog(log, memory[a])
    {
      var x := memory[a];
      assert InLog(before, x);
      var k :| 0 <= k < |before| && before[k].base <= x.0 < before[k].base + |before[k].ops|
        && before[k].ops[x.0 - before[k].base] == x.1;
      assert log[k].(synced := before[k].synced) == before[k];
    }
  }

  /** The log and memory invariants when the leader moves on within its group. */
  lemma WithinGroup<T>(s: State<T>, t: State<T>, i: nat, p: Phase<T>)
    requires Inv(s) && s.queue != [] && i == Head(s) && HasGroup(Front(s)) && HasGroup(p) && p.group == Front(s).group
    requires t == SetPhase(s, i, p).(log := t.log, memory := t.memory)
    requires LogGrows(s.log, t.log) && s.memory <= t.memory
    requires p.Syncing? ==> s.requests[i].sync
    requires p.Finishing? && p.syncError ==> p.status != Ok
    requires QueueInv(t) && Head(t) == Head(s) && Front(t) == p
    requires LogInv(t) && MemoryInv(t) && Extends(s, t)
    ensures Inv(t)
  {
    hide QueueInv, LogInv, MemoryInv, RoundInv, Extends, Concat, MayShare;
    RoundsStay(s, t);
  }

  /** A new record belongs at the end of the log. */
  lemma AppendOrdered<T>(s: State<T>, i: nat, result: Status, whole: bool)
    requires Inv(s) && Enabled(s, Append(i, result, whole)) && s.queue != [] && i == Head(s)
    ensures var t := Appended(s, i, result, whole);
      && Ordered(t.log) && LogGrows(s.log, t.log)
      && forall k :: 0 <= k < |t.log| ==> Faithful(t.requests, t.log[k]) && t.log[k].file <= t.file
  {
    hide QueueInv, RoundInv, MemoryInv, Concat, MayShare;
  }

  lemma AppendLog<T>(s: State<T>, i: nat, result: Status, whole: bool)
    requires Inv(s) && Enabled(s, Append(i, result, whole)) && s.queue != [] && i == Head(s)
    requires var t := Appended(s, i, result, whole);
      Head(t) == Head(s) && Front(t) == t.writers[i].phase
    ensures LogInv(Appended(s, i, result, whole))
  {
    hide QueueInv, RoundInv, MemoryInv, Ordered, Faithful, Concat, MayShare, LogGrows;
    AppendOrdered(s, i, result, whole);
  }

  lemma AppendMemory<T>(s: State<T>, i: nat, result: Status, whole: bool)
    requires Inv(s) && Enabled(s, Append(i, result, whole)) && s.queue != [] && i == Head(s)
    requires var t := Appended(s, i, result, whole);
      LogGrows(s.log, t.log) && Head(t) == Head(s) && Front(t) == t.writers[i].phase
    ensures MemoryInv(Appended(s, i, result, whole))
  {
    hide LogInv, RoundInv, InLog, Holds, Concat, MayShare, LogGrows;
    InLogKept(s.log, Appended(s, i, result, whole).log, s.memory);
  }

  lemma AppendStep<T>(s: State<T>, i: nat, result: Status, whole: bool)
    requires Inv(s) && Enabled(s, Append(i, result, whole))
    ensures Safe(s, Append(i, result, whole))
    ensures Inv(Step(s, Append(i, result, whole))) && Extends(s, Step(s, Append(i, result, whole)))
  {
    hide LogInv, GroupInv, MemoryInv, RoundInv, QueueInv, Extends, LogGrows;
    LeaderIsFront(s, i);
    var t := Appended(s, i, result, whole);
    AppendOrdered(s, i, result, whole);
    LeaderMoves(s, t, i, t.writers[i].phase);
    AppendLog(s, i, result, whole);
    AppendMemory(s, i, result, whole);
    WithinGroup(s, t, i, t.writers[i].phase);
  }

  /** Syncing changes no record but its flag. */
  lemma SyncedSame<T>(rs: seq<Request<T>>, log: seq<Record<T>>, file: nat)
    requires Ordered(log) && forall k :: 0 <= k < |log| ==> Faithful(rs, log[k])
    ensures var after := Synced(log, file);
      Ordered(after) && LogGrows(log, after) && forall k :: 0 <= k < |after| ==> Faithful(rs, after[k])
  {
    hide Concat, MayShare;
    forall k | 0 <= k < |log|
      ensures Faithful(rs, Synced(log, file)[k])
    {
      assert Faithful(rs, log[k]);
    }
  }

  lemma SyncLog<T>(s: State<T>, i: nat, result: Status)
    requires Inv(s) && Enabled(s, Sync(i, result)) && s.queue != [] && i == Head(s)
    requires var t := Flushed(s, i, result);
      Head(t) == Head(s) && Front(t) == t.writers[i].phase
    ensures LogInv(Flushed(s, i, result)) && LogGrows(s.log, Flushed(s, i, result).log)
  {
    hide QueueInv, GroupInv, RoundInv, MemoryInv, Ordered, Faithful, Concat, MayShare;
    SyncedSame(s.requests, s.log, s.file);
    var t := Flushed(s, i, result);
    forall k | 0 <= k < |t.log|
      ensures InPast(t, t.log[k]) || (k == |t.log| - 1 && Pending(t, t.log[k]))
    {
      assert InPast(s, s.log[k]) || (k == |s.log| - 1 && Pending(s, s.log[k]));
    }
  }

  lemma SyncMemory<T>(s: State<T>, i: nat, result: Status)
    requires Inv(s) && Enabled(s, Sync(i, result)) && s.queue != [] && i == Head(s)
    requires var t := Flushed(s, i, result);
      LogGrows(s.log, t.log) && Head(t) == Head(s) && Front(t) == t.writers[i].phase
    ensures MemoryInv(Flushed(s, i, result))
  {
    hide LogInv, RoundInv, InLog, Holds, Concat, MayShare, LogGrows;
    var t := Flushed(s, i, result);
    InLogKept(s.log, t.log, s.memory);
  }

  lemma SyncStep<T>(s: State<T>, i: nat, result: Status)
    requires Inv(s) && Enabled(s, Sync(i, result))
    ensures Safe(s, Sync(i, result))
    ensures Inv(Step(s, Sync(i, result))) && Extends(s, Step(s, Sync(i, result)))
  {
    hide LogInv, GroupInv, MemoryInv, RoundInv, QueueInv, Extends;
    LeaderIsFront(s, i);
    var t := Flushed(s, i, result);
    assert LogGrows(s.log, t.log);
    LeaderMoves(s, t, i, t.writers[i].phase);
    SyncLog(s, i, result);
    SyncMemory(s, i, result);
    WithinGroup(s, t, i, t.writers[i].phase);
  }

  /** Numbering part of a logged batch keeps memory sorted and logged. */
  lemma NumberedInLog<T>(log: seq<Record<T>>, memory: seq<(nat, T)>, before: nat, ops: seq<T>, count: nat)
    requires log != [] && log[|log| - 1].base == before + 1 && log[|log| - 1].ops == ops && count <= |ops|
    requires forall a, b :: 0 <= a < b < |memory| ==> memory[a].0 < memory[b].0
    requires forall a :: 0 <= a < |memory| ==> memory[a].0 <= before && InLog(log, memory[a])
    ensures var m := memory + Number(before, ops[..count]);
      && (forall a, b :: 0 <= a < b < |m| ==> m[a].0 < m[b].0)
      && (forall a :: 0 <= a < |m| ==> m[a].0 <= before + |ops| && InLog(log, m[a]))
      && (count == |ops| ==> Holds(m, before, ops))
  {
    var m := memory + Number(before, ops[..count]);
    forall a | |memory| <= a < |m|
      ensures m[a].0 == before + 1 + (a - |memory|) && InLog(log, m[a])
    {
      assert m[a] == (before + 1 + (a - |memory|), ops[a - |memory|]);
    }
    if count == |ops| {
      forall j | 0 <= j < |ops|
        ensures (before + 1 + j, ops[j]) in m
      {
        assert m[|memory| + j] == (before + 1 + j, ops[j]);
      }
    }
  }

  lemma InsertMemory<T>(s: State<T>, i: nat, result: Status, count: nat)
    requires Inv(s) && Enabled(s, Insert(i, result, count)) && s.queue != [] && i == Head(s)
    requires var t := Inserted(s, i, result, count);
      Head(t) == Head(s) && Front(t) == t.writers[i].phase
    ensures MemoryInv(Inserted(s, i, result, count))
  {
    hide QueueInv, RoundInv, Concat, MayShare, Ordered, Faithful, InLog, Holds, Number;
    var g := s.writers[i].phase.group;
    assert Pending(s, s.log[|s.log| - 1]);
    NumberedInLog(s.log, s.memory, g.before, g.ops, count);
  }

  lemma InsertLog<T>(s: State<T>, i: nat, result: Status, count: nat)
    requires Inv(s) && Enabled(s, Insert(i, result, count)) && s.queue != [] && i == Head(s)
    requires var t := Inserted(s, i, result, count);
      Head(t) == Head(s) && Front(t) == t.writers[i].phase
    ensures LogInv(Inserted(s, i, result, count))
  {
    hide QueueInv, RoundInv, MemoryInv, Concat, MayShare, Ordered, Faithful, Number;
  }

  lemma InsertStep<T>(s: State<T>, i: nat, result: Status, count: nat)
    requires Inv(s) && Enabled(s, Insert(i, result, count))
    ensures Safe(s, Insert(i, result, count))
    ensures Inv(Step(s, Insert(i, result, count))) && Extends(s, Step(s, Insert(i, result, count)))
  {
    LeaderIsFront(s, i);
    var t := Inserted(s, i, result, count);
    LeaderMoves(s, t, i, t.writers[i].phase);
    InsertMemory(s, i, result, count);
    InsertLog(s, i, result, count);
    hide QueueInv, LogInv, MemoryInv, RoundInv, InLog, Holds, Concat, MayShare, Extends;
    WithinGroup(s, t, i, t.writers[i].phase);
  }

  // ----- The leader leaves -----

  lemma {:induction false} PopIs<T>(s: State<T>, leader: nat, len: nat, status: Status)
    requires Contiguous(s) && InBounds(s) && 0 < len <= |s.queue|
    ensures var t := Pop(s, leader, s.queue[len - 1], status);
      && t == s.(queue := s.queue[len..], writers := t.writers)
      && |t.writers| == |s.writers|
      && forall i :: 0 <= i < |s.writers| ==>
           t.writers[i] == if s.queue[0] <= i < s.queue[0] + len && i != leader
                           then Woken(s.writers[i]).(done := Some(status))
                           else s.writers[i]
    decreases len
  {
    if len > 1 {
      var ready := s.queue[0];
      var t := s.(
        queue := s.queue[1..],
        writers := if ready == leader then s.writers
        else s.writers[ready := Woken(s.writers[ready]).(done := Some(status))]);
      PopIs(t, leader, len - 1, status);
      assert s.queue[1..][len - 1..] == s.queue[len..];
    }
  }

  /** The state after the leader has left, writer by writer. */
  ghost predicate Left<T>(s: State<T>, i: nat, len: nat, status: Status, at: Option<nat>, t: State<T>)
    requires len <= |s.queue|
  {
    && t == s.(queue := s.queue[len..], writers := t.writers, rounds := s.rounds + [Round(i, i + len, status, at)])
    && |t.writers| == |s.writers|
    && forall j :: 0 <= j < |s.writers| ==>
         t.writers[j] == if j == i then s.writers[j].(phase := Returned(status))
                         else if i < j < i + len then Woken(s.writers[j]).(done := Some(status))
                         else if j == i + len then Woken(s.writers[j])
                         else s.writers[j]
  }

  lemma LeaveIs<T>(s: State<T>, i: nat, len: nat, status: Status, at: Option<nat>)
    requires Contiguous(s) && InBounds(s) && 0 < len <= |s.queue| && i == Head(s)
    ensures Left(s, i, len, status, at, Leave(s, i, len, status, at))
  {
    hide Pop, Woken;
    PopIs(s, i, len, status);
  }

  lemma LeftQueue<T>(s: State<T>, i: nat, len: nat, status: Status, at: Option<nat>, t: State<T>)
    requires QueueInv(s) && |s.requests| == |s.writers| && 0 < len <= |s.queue| && i == Head(s)
    requires Left(s, i, len, status, at, t)
    ensures QueueInv(t) && !HasGroup(Front(t)) && Head(t) == i + len
    ensures Extends(s, t)
    ensures forall j :: i <= j < i + len ==> Answer(t.writers[j]) == Some(status)
  {
  }

  /** What must be true of a state, apart from its queue, for its leader to leave it. */
  ghost predicate Ready<T>(s: State<T>, head: nat) {
    && |s.requests| == |s.writers| && s.tmpbatch == []
    && Ordered(s.log)
    && (forall k :: 0 <= k < |s.log| ==> Faithful(s.requests, s.log[k]) && s.log[k].file <= s.file)
    && (forall k :: 0 <= k < |s.log| ==> s.log[k].hi <= head && s.log[k].base + |s.log[k].ops| <= s.last + 1)
    && (forall a, b :: 0 <= a < b < |s.memory| ==> s.memory[a].0 < s.memory[b].0)
    && (forall a :: 0 <= a < |s.memory| ==> s.memory[a].0 <= s.last && InLog(s.log, s.memory[a]))
  }

  lemma LeftKeeps<T>(s: State<T>, i: nat, len: nat, status: Status, at: Option<nat>, t: State<T>)
    requires QueueInv(s) && |s.requests| == |s.writers| && 0 < len <= |s.queue| && i == Head(s)
    requires Left(s, i, len, status, at, t) && Ready(s, i + len) && RoundInv(s)
    requires RoundOk(t, Round(i, i + len, status, at))
    ensures Inv(t) && Extends(s, t)
  {
    hide RoundOk, Tiles, Faithful, InLog, Extends, Ordered, QueueInv;
    LeftQueue(s, i, len, status, at, t);
    RoundsKept(s, t);
    LeftTiles(s, i, len, status, at, t);
  }

  lemma LeftTiles<T>(s: State<T>, i: nat, len: nat, status: Status, at: Option<nat>, t: State<T>)
    requires |s.queue| <= |s.writers| && |t.queue| <= |t.writers| && len <= |s.queue| && Left(s, i, len, status, at, t)
    requires Tiles(s.rounds, i)
    ensures Tiles(t.rounds, i + len)
  {
    assert t.rounds[..|t.rounds| - 1] == s.rounds;
  }

  /** A leader whose admission failed, or that carries no batch, answers only itself. */
  lemma RefuseStep<T>(s: State<T>, i: nat, room: Status)
    requires Inv(s) && Enabled(s, Admit(i, room)) && (room != Ok || s.requests[i].batch.None?)
    ensures Safe(s, Admit(i, room))
    ensures Inv(Step(s, Admit(i, room))) && Extends(s, Step(s, Admit(i, room)))
  {
    hide RoundOk, Tiles, Faithful, InLog, Ordered, Leave, Left, Extends;
    LeaderIsFront(s, i);
    LeaveIs(s, i, 1, room, None);
    var t := Leave(s, i, 1, room, None);
    LeftQueue(s, i, 1, room, None, t);
    RefusedRound(s, i, room, t);
    LeftKeeps(s, i, 1, room, None, t);
  }

  lemma RefusedRound<T>(s: State<T>, i: nat, room: Status, t: State<T>)
    requires |s.requests| == |s.writers| && i < |s.writers| && 0 < |s.queue|
      && (room != Ok || s.requests[i].batch.None?)
    requires Left(s, i, 1, room, None, t) && Answer(t.writers[i]) == Some(room)
    ensures |t.requests| == |t.writers| && RoundOk(t, Round(i, i + 1, room, None))
  {
  }

  lemma AdmitStep<T>(s: State<T>, i: nat, room: Status)
    requires Inv(s) && Enabled(s, Admit(i, room))
    ensures Safe(s, Admit(i, room))
    ensures Inv(Step(s, Admit(i, room))) && Extends(s, Step(s, Admit(i, room)))
  {
    hide QueueInv, GroupInv, LogInv, MemoryInv, RoundInv, Extends, Step, Safe;
    if room == Ok && s.requests[i].batch.Some? {
      JoinStep(s, i);
    } else {
      RefuseStep(s, i, room);
    }
  }

  lemma FinishSafe<T>(s: State<T>, i: nat)
    requires Inv(s) && Enabled(s, Finish(i))
    ensures Safe(s, Finish(i)) && s.queue != [] && i == Head(s) == s.queue[0] && Front(s) == s.writers[i].phase
    ensures var g := s.writers[i].phase.group; 0 < g.len <= |s.queue| && g.before == s.last
  {
    hide LogInv, MemoryInv, RoundInv, Concat, MayShare;
    LeaderIsFront(s, i);
  }

  lemma SettledKeeps<T>(s: State<T>, i: nat)
    requires Inv(s) && s.queue != [] && i == Head(s) && s.writers[i].phase.Finishing? && Front(s) == s.writers[i].phase
    requires s.writers[i].phase.group.before == s.last
    ensures var u := Settled(s, i);
      QueueInv(u) && Head(u) == i && RoundInv(u) && Extends(s, u) && Ready(u, i + s.writers[i].phase.group.len)
  {
    hide RoundOk, Tiles, Faithful, InLog, Holds, Ordered, Concat, MayShare;
    RoundsKept(s, Settled(s, i));
  }

  lemma FinishedRecord<T>(s: State<T>, i: nat)
    requires Inv(s) && s.queue != [] && i == Head(s) && s.writers[i].phase.Finishing? && Front(s) == s.writers[i].phase
    ensures var p := s.writers[i].phase; var at := RecordOf(s.log, i);
      && (p.status == Ok ==> at.Some?)
      && (at.Some? ==>
            && at.value < |s.log|
            && s.log[at.value].lo == i && s.log[at.value].hi == i + p.group.len
            && s.log[at.value].base == p.group.before + 1 && s.log[at.value].ops == p.group.ops
            && (p.status == Ok ==> s.requests[i].sync ==> s.log[at.value].synced))
  {
    hide RoundInv, MemoryInv, Concat, Ordered;
    if s.log != [] {
      assert Faithful(s.requests, s.log[|s.log| - 1]);
    }
  }

  lemma FinishedRound<T>(s: State<T>, i: nat, t: State<T>)
    requires Inv(s) && s.queue != [] && i == Head(s) && s.writers[i].phase.Finishing? && Front(s) == s.writers[i].phase
    requires s.writers[i].phase.group.len <= |s.queue|
    requires var p := s.writers[i].phase;
      && Left(Settled(s, i), i, p.group.len, p.status, RecordOf(s.log, i), t)
      && forall j :: i <= j < i + p.group.len ==> Answer(t.writers[j]) == Some(p.status)
    ensures |t.requests| == |t.writers|
    ensures var p := s.writers[i].phase; RoundOk(t, Round(i, i + p.group.len, p.status, RecordOf(s.log, i)))
  {
    hide QueueInv, RoundInv, LogInv, RecordOf, Concat, MayShare, InLog, Holds, Answer;
    FinishedRecord(s, i);
  }

  lemma FinishStep<T>(s: State<T>, i: nat)
    requires Inv(s) && Enabled(s, Finish(i))
    ensures Safe(s, Finish(i))
    ensures Inv(Step(s, Finish(i))) && Extends(s, Step(s, Finish(i)))
  {
    hide GroupInv, LogInv, MemoryInv, RoundInv, Extends, Ready, RoundOk, Leave, Left, RecordOf;
    FinishSafe(s, i);
    SettledKeeps(s, i);
    var p := s.writers[i].phase;
    var u := Settled(s, i);
    var at := RecordOf(s.log, i);
    LeaveIs(u, i, p.group.len, p.status, at);
    var t := Leave(u, i, p.group.len, p.status, at);
    LeftQueue(u, i, p.group.len, p.status, at, t);
    FinishedRound(s, i, t);
    LeftKeeps(u, i, p.group.len, p.status, at, t);
    ExtendsTransitive(s, u, t);
  }

  // ----- Every step, every run -----

  /**
   * In a state the protocol can reach, whatever happens next trips no assertion, touches no writer
   * that has returned, keeps the invariant, and takes back nothing.
   */
  lemma StepKeeps<T>(s: State<T>, e: Event<T>)
    requires Inv(s) && Enabled(s, e)
    ensures Safe(s, e) && Inv(Step(s, e)) && Extends(s, Step(s, e))
  {
    hide Inv, Extends, Step, Safe;
    match e
    case Enqueue(r) => EnqueueStep(s, r);
    case Wake(i) => WakeStep(s, i);
    case Check(i) => CheckStep(s, i);
    case Switch(i) => SwitchStep(s, i);
    case Admit(i, room) => AdmitStep(s, i, room);
    case Append(i, result, whole) => AppendStep(s, i, result, whole);
    case Sync(i, result) => SyncStep(s, i, result);
    case Insert(i, result, count) => InsertStep(s, i, result, count);
    case Finish(i) => FinishStep(s, i);
    case Background(error) => BackgroundStep(s, error);
  }

  /** A run: each state follows from the one before by an event that was possible there. */
  ghost predicate Run<T>(states: seq<State<T>>, events: seq<Event<T>>) {
    && |states| == |events| + 1
    && forall k :: 0 <= k < |events| ==> Next(states[k], events[k], states[k + 1])
  }

  lemma {:induction false} RunKeeps<T>(states: seq<State<T>>, events: seq<Event<T>>, k: nat)
    requires Run(states, events) && Inv(states[0]) && k <= |events|
    ensures Inv(states[k]) && Extends(states[0], states[k])
    decreases k
  {
    hide Inv, Extends, Step, Safe;
    if k == 0 {
      ExtendsSelf(states[0]);
    } else {
      RunKeeps(states, events, k - 1);
      assert Next(states[k - 1], events[k - 1], states[k]);
      StepKeeps(states[k - 1], events[k - 1]);
      ExtendsTransitive(states[0], states[k - 1], states[k]);
    }
  }

  lemma ExtendsSelf<T>(s: State<T>)
    requires Inv(s)
    ensures Extends(s, s)
  {
    hide QueueInv, GroupInv, LogInv, MemoryInv, RoundInv;
  }

  // ----- What every run satisfies -----

  lemma InitInv<T>(s: State<T>)
    requires Init(s)
    ensures Inv(s)
  {
  }

  /** At most one writer leads, and it is the front of the queue; no assertion can fail. */
  lemma OneLeader<T>(states: seq<State<T>>, events: seq<Event<T>>, k: nat, i: nat, j: nat)
    requires Run(states, events) && Init(states[0]) && k <= |events|
    requires var s := states[k];
      && i < |s.writers| && (s.writers[i].phase.MakingRoom? || HasGroup(s.writers[i].phase))
      && j < |s.writers| && (s.writers[j].phase.MakingRoom? || HasGroup(s.writers[j].phase))
    ensures states[k].queue != [] && i == j == states[k].queue[0]
  {
    hide Inv, Extends;
    InitInv(states[0]);
    RunKeeps(states, events, k);
    LeaderIsFront(states[k], i);
    LeaderIsFront(states[k], j);
  }

  lemma NothingUnsafe<T>(states: seq<State<T>>, events: seq<Event<T>>, k: nat, e: Event<T>)
    requires Run(states, events) && Init(states[0]) && k <= |events| && Enabled(states[k], e)
    ensures Safe(states[k], e)
  {
    hide Inv, Extends, Safe;
    InitInv(states[0]);
    RunKeeps(states, events, k);
    StepKeeps(states[k], e);
  }

  /**
   * The log holds batches in the order their writers queued, each writer in at most one record, in
   * disjoint increasing ranges of sequence numbers, none of which a snapshot can cut in two.
   */
  lemma LogInOrder<T>(states: seq<State<T>>, events: seq<Event<T>>, k: nat, a: nat, b: nat)
    requires Run(states, events) && Init(states[0]) && k <= |events| && a < b < |states[k].log|
    ensures var s := states[k]; var x, y := s.log[a], s.log[b];
      && x.lo < x.hi <= y.lo < y.hi <= |s.requests|
      && x.base + |x.ops| <= y.base && x.file <= y.file
      && x.ops == Concat(s.requests, x.lo, x.hi) && y.ops == Concat(s.requests, y.lo, y.hi)
      && x.base + |x.ops| <= s.last + 1 && (y.base + |y.ops| <= s.last + 1 || s.last < y.base)
  {
    hide Extends, QueueInv, MemoryInv, RoundInv, Concat;
    InitInv(states[0]);
    RunKeeps(states, events, k);
    var s := states[k];
    assert Faithful(s.requests, s.log[a]) && Faithful(s.requests, s.log[b]);
    assert InPast(s, s.log[a]);
    assert InPast(s, s.log[b]) || (b == |s.log| - 1 && Pending(s, s.log[b]));
  }

  lemma {:induction false} RoundOf(rounds: seq<Round>, head: nat, i: nat) returns (m: nat)
    requires Tiles(rounds, head) && i < head
    ensures m < |rounds| && rounds[m].lo <= i < rounds[m].hi
  {
    m := |rounds| - 1;
    if i < rounds[m].lo {
      m := RoundOf(rounds[..m], rounds[m].lo, i);
    }
  }

  /** Writers are answered first come first served, and an answer never changes. */
  lemma AnsweredInOrder<T>(states: seq<State<T>>, events: seq<Event<T>>, k: nat, i: nat)
    requires Run(states, events) && Init(states[0]) && k <= |events| && i < |states[k].writers|
    ensures |states[k].queue| <= |states[k].writers|
    ensures Answer(states[k].writers[i]).Some? <==> i < Head(states[k])
    ensures Answer(states[k].writers[i]).Some? ==>
      && i < |states[|events|].writers| && Answer(states[|events|].writers[i]) == Answer(states[k].writers[i])
  {
    hide GroupInv, LogInv, MemoryInv, RoundInv, Step, Safe;
    InitInv(states[0]);
    RunKeeps(states, events, k);
    assert Run(states[k..], events[k..]) by {
      forall m | 0 <= m < |events[k..]|
        ensures Next(states[k..][m], events[k..][m], states[k..][m + 1])
      {
        assert Next(states[k + m], events[k + m], states[k + m + 1]);
      }
    }
    RunKeeps(states[k..], events[k..], |events| - k);
  }

  /**
   * A writer told that it succeeded has its whole batch in one log record, in memory, under
   * consecutive sequence numbers, and on disk if it asked for that.
   */
  lemma SuccessIsLogged<T>(states: seq<State<T>>, events: seq<Event<T>>, k: nat, i: nat) returns (at: nat)
    requires Run(states, events) && Init(states[0]) && k <= |events| && i < |states[k].writers|
    requires |states[k].requests| == |states[k].writers|
    requires Answer(states[k].writers[i]) == Some(Ok) && states[k].requests[i].batch.Some?
    ensures var s := states[k];
      && at < |s.log| && s.log[at].lo <= i < s.log[at].hi <= |s.requests|
      && s.log[at].ops == Concat(s.requests, s.log[at].lo, s.log[at].hi)
      && s.log[at].base > 0 && Holds(s.memory, s.log[at].base - 1, s.log[at].ops)
      && (s.requests[i].sync ==> s.log[at].synced)
  {
    hide Extends, GroupInv, MemoryInv, Holds, Concat, Tiles;
    InitInv(states[0]);
    RunKeeps(states, events, k);
    var s := states[k];
    var m := RoundOf(s.rounds, Head(s), i);
    var r := s.rounds[m];
    assert RoundOk(s, r);
    at := r.at.value;
    assert Faithful(s.requests, s.log[at]);
  }

  /** Everyone a leader answers for gets the leader's status, and a sync never rides on a leader that does not sync. */
  lemma GroupAgrees<T>(states: seq<State<T>>, events: seq<Event<T>>, k: nat, m: nat, i: nat)
    requires Run(states, events) && Init(states[0]) && k <= |events|
    requires m < |states[k].rounds| && states[k].rounds[m].lo <= i < states[k].rounds[m].hi
    ensures |states[k].requests| == |states[k].writers| && states[k].rounds[m].hi <= |states[k].writers|
    ensures Answer(states[k].writers[i]) == Answer(states[k].writers[states[k].rounds[m].lo]) ==
      Some(states[k].rounds[m].status)
    ensures states[k].requests[i].sync ==> states[k].requests[states[k].rounds[m].lo].sync
  {
    hide Extends, GroupInv, MemoryInv, LogInv, Holds, Tiles;
    InitInv(states[0]);
    RunKeeps(states, events, k);
    assert RoundOk(states[k], states[k].rounds[m]);
  }

  /** What a snapshot taken at some moment can see, in or out of the log, never changes afterwards. */
  lemma SnapshotIsStable<T>(states: seq<State<T>>, events: seq<Event<T>>, k: nat, x: (nat, T))
    requires Run(states, events) && Init(states[0]) && k <= |events| && x.0 <= states[k].last
    ensures x in states[k].memory <==> x in states[|events|].memory
  {
    hide Inv, Step, Safe;
    InitInv(states[0]);
    RunKeeps(states, events, k);
    assert Run(states[k..], events[k..]) by {
      forall m | 0 <= m < |events[k..]|
        ensures Next(states[k..][m], events[k..][m], states[k..][m + 1])
      {
        assert Next(states[k + m], events[k + m], states[k + m + 1]);
      }
    }
    RunKeeps(states[k..], events[k..], |events| - k);
  }

  // ----- No deadlock, and no write after a failed sync -----

  /** The next move of the writer at the front. */
  function Drive<T>(s: State<T>): Event<T>
    requires s.queue != [] && |s.queue| <= |s.writers|
  {
    match Front(s)
    case MakingRoom => Admit(Head(s), s.bgerror)
    case Appending(_) => Append(Head(s), Ok, true)
    case Syncing(_) => Sync(Head(s), Ok)
    case Inserting(g) => Insert(Head(s), Ok, |g.ops|)
    case Finishing(_, _, _) => Finish(Head(s))
    case _ => Check(Head(s))
  }

  function Rank<T>(p: Phase<T>): nat {
    match p
    case MakingRoom => 5
    case Appending(_) => 4
    case Syncing(_) => 3
    case Inserting(_) => 2
    case Finishing(_, _, _) => 1
    case _ => 6
  }

  lemma LeaveShortens<T>(s: State<T>, i: nat, len: nat, status: Status, at: Option<nat>)
    requires QueueInv(s) && InBounds(s) && 0 < len <= |s.queue| && i == Head(s)
    ensures |Leave(s, i, len, status, at).queue| < |s.queue|
  {
    hide Leave;
    LeaveIs(s, i, len, status, at);
  }

  /** The front can always move, and its move brings it closer to leaving. */
  lemma FrontMoves<T>(s: State<T>)
    requires Inv(s) && s.queue != []
    ensures Enabled(s, Drive(s)) && Safe(s, Drive(s))
    ensures var t := Step(s, Drive(s));
      |t.queue| < |s.queue| || (t.queue == s.queue && |t.writers| == |s.writers| && Rank(Front(t)) < Rank(Front(s)))
  {
    hide GroupInv, LogInv, MemoryInv, RoundInv, Extends, Leave, Chosen;
    StepKeeps(s, Drive(s));
    match Front(s)
    case MakingRoom =>
      LeaveShortens(s, Head(s), 1, s.bgerror, None);
    case Finishing(g, status, _) =>
      FinishSafe(s, Head(s));
      LeaveShortens(Settled(s, Head(s)), Head(s), g.len, status, RecordOf(s.log, Head(s)));
    case _ =>
  }

  /** From every state the protocol can reach, there is a way to answer every writer in the queue. */
  lemma {:induction false} Drains<T>(s: State<T>) returns (states: seq<State<T>>, events: seq<Event<T>>)
    requires Inv(s)
    ensures Run(states, events) && states[0] == s && states[|events|].queue == []
    decreases |s.queue|, if s.queue == [] then 0 else Rank(Front(s))
  {
    hide GroupInv, LogInv, MemoryInv, RoundInv, Extends, Step, Safe, Drive, Enabled;
    if s.queue == [] {
      states, events := [s], [];
    } else {
      FrontMoves(s);
      StepKeeps(s, Drive(s));
      var rest, later := Drains(Step(s, Drive(s)));
      states, events := [s] + rest, [Drive(s)] + later;
      forall k | 0 <= k < |events|
        ensures Next(states[k], events[k], states[k + 1])
      {
        if k > 0 {
          assert Next(rest[k - 1], later[k - 1], rest[k]);
        }
      }
    }
  }

  /** Once writes are refused and no batch is under way, nothing more is logged. */
  lemma {:induction false} FailStop<T>(states: seq<State<T>>, events: seq<Event<T>>, k: nat)
    requires Run(states, events) && Inv(states[0]) && k <= |events|
    requires states[0].bgerror != Ok && !HasGroup(Front(states[0]))
    ensures states[k].log == states[0].log && states[k].memory == states[0].memory
      && states[k].bgerror == states[0].bgerror
    ensures Inv(states[k]) && !HasGroup(Front(states[k]))
    decreases k
  {
    hide GroupInv, LogInv, MemoryInv, RoundInv, QueueInv, Step, Safe;
    if k > 0 {
      FailStop(states, events, k - 1);
      assert Next(states[k - 1], events[k - 1], states[k]);
      StepKeeps(states[k - 1], events[k - 1]);
      RefusedStep(states[k - 1], events[k - 1]);
    }
  }

  lemma RefusedAdmit<T>(s: State<T>, i: nat, room: Status)
    requires Inv(s) && s.bgerror != Ok && Enabled(s, Admit(i, room)) && Safe(s, Admit(i, room))
    ensures var t := Step(s, Admit(i, room));
      |t.queue| <= |t.writers| && t.log == s.log && t.memory == s.memory && !HasGroup(Front(t))
  {
    hide GroupInv, LogInv, MemoryInv, RoundInv, Leave;
    LeaderIsFront(s, i);
    LeaveIs(s, i, 1, room, None);
    LeftQueue(s, i, 1, room, None, Leave(s, i, 1, room, None));
  }

  lemma RefusedStep<T>(s: State<T>, e: Event<T>)
    requires Inv(s) && s.bgerror != Ok && !HasGroup(Front(s)) && Enabled(s, e) && Safe(s, e)
    ensures var t := Step(s, e);
      |t.queue| <= |t.writers| && t.log == s.log && t.memory == s.memory && !HasGroup(Front(t))
  {
    hide GroupInv, LogInv, MemoryInv, RoundInv, Leave;
    match e
    case Admit(i, room) => RefusedAdmit(s, i, room);
    case _ =>
  }

  /** A failed sync makes the state refuse writes: no later batch can follow one of unknown fate. */
  lemma FailedSyncRefuses<T>(s: State<T>, i: nat)
    requires Inv(s) && Enabled(s, Finish(i)) && s.writers[i].phase.syncError
    ensures Safe(s, Finish(i)) && Step(s, Finish(i)).bgerror != Ok
    ensures var t := Step(s, Finish(i)); |t.queue| <= |t.writers| && !HasGroup(Front(t))
  {
    hide LogInv, MemoryInv, RoundInv, Leave, Left;
    FinishSafe(s, i);
    var p := s.writers[i].phase;
    LeaveIs(Settled(s, i), i, p.group.len, p.status, RecordOf(s.log, i));
    LeftQueue(Settled(s, i), i, p.group.len, p.status, RecordOf(s.log, i), Step(s, Finish(i)));
  }
}
