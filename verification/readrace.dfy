/**
 * A lookup while memory is written out (db.cc): the version is taken under the mutex, the memory tables are read
 * after it has been released.
 */
module ReadRaces {
  import opened Ordering
  import opened Versions
  import opened Reads

  // ----- The database and what other threads do to it -----

  /** The runs, oldest first: the tables, the memory table that is being written out, if any, and the memory table. */
  datatype Db<K, V> = Db(runs: seq<seq<Entry<K, V>>>, tables: nat, last: nat)

  predicate Ok<K, V>(db: Db<K, V>) { db.tables < |db.runs| <= db.tables + 2 }

  function Mem<K, V>(db: Db<K, V>): seq<Entry<K, V>>
    requires Ok(db)
  {
    db.runs[|db.runs| - 1]
  }

  function Imm<K, V>(db: Db<K, V>): Option<seq<Entry<K, V>>>
    requires Ok(db)
  {
    if |db.runs| == db.tables + 2 then Some(db.runs[db.tables]) else None
  }

  /** A write, a new memory table, the end of writing one out. */
  datatype Step<K, V> = Insert(at: nat, entry: Entry<K, V>) | Rotate | Flushed

  predicate Enabled<K, V>(db: Db<K, V>, e: Step<K, V>)
    requires Ok(db)
  {
    match e
    case Insert(at, entry) => at <= |Mem(db)| && entry.0.sequence > db.last
    case Rotate => Imm(db).None?
    case Flushed => Imm(db).Some?
  }

  function After<K, V>(db: Db<K, V>, e: Step<K, V>): (after: Db<K, V>)
    requires Ok(db) && Enabled(db, e)
    ensures Ok(after)
  {
    match e
    case Insert(at, entry) =>
      var n := |db.runs| - 1;
      db.(runs := db.runs[n := Mem(db)[..at] + [entry] + Mem(db)[at..]], last := entry.0.sequence)
    case Rotate => db.(runs := db.runs + [[]])
    case Flushed => db.(tables := db.tables + 1)
  }

  ghost predicate Run<K, V>(dbs: seq<Db<K, V>>, steps: seq<Step<K, V>>) {
    && |dbs| == |steps| + 1 && Ok(dbs[0])
    && forall k :: 0 <= k < |steps| ==> Ok(dbs[k]) && Enabled(dbs[k], steps[k]) && dbs[k + 1] == After(dbs[k], steps[k])
  }

  /** What a snapshot s of a database sees in one that it has become: the same runs, and nothing in newer ones. */
  ghost predicate Becomes<K(!new), V(!new)>(db: Db<K, V>, later: Db<K, V>, s: nat) {
    && Ok(later) && |db.runs| <= |later.runs| && db.tables <= later.tables && db.last <= later.last
    && (forall j, key :: 0 <= j < |db.runs| ==> Find(later.runs[j], s, key) == Find(db.runs[j], s, key))
    && (forall j, key :: |db.runs| <= j < |later.runs| ==> Find(later.runs[j], s, key) == Absent)
  }

  /** An entry that the snapshot cannot see changes no answer. */
  lemma {:induction false} InsertUnseen<K(!new), V(!new)>(xs: seq<Entry<K, V>>, at: nat, entry: Entry<K, V>, s: nat,
      key: K)
    requires at <= |xs| && entry.0.sequence > s
    ensures Find(xs[..at] + [entry] + xs[at..], s, key) == Find(xs, s, key)
  {
    var ys := xs[..at] + [entry] + xs[at..];
    if at == 0 {
      assert ys[1..] == xs;
    } else {
      assert ys[0] == xs[0] && ys[1..] == xs[1..][..at - 1] + [entry] + xs[1..][at - 1..];
      InsertUnseen(xs[1..], at - 1, entry, s, key);
    }
  }

  lemma StepBecomes<K(!new), V(!new)>(db: Db<K, V>, later: Db<K, V>, e: Step<K, V>, s: nat)
    requires Becomes(db, later, s) && s <= db.last && Enabled(later, e)
    ensures Becomes(db, After(later, e), s)
  {
    hide Find;
    var after := After(later, e);
    match e
    case Insert(at, entry) =>
      forall j, key | 0 <= j < |after.runs|
        ensures Find(after.runs[j], s, key) == Find(later.runs[j], s, key)
      {
        InsertUnseen(Mem(later), at, entry, s, key);
      }
    case Rotate =>
      forall key
        ensures Find<K, V>([], s, key) == Absent
      {
        FindNothing<K, V>(s, key);
      }
    case Flushed =>
  }

  lemma FindNothing<K, V>(s: nat, key: K)
    ensures Find<K, V>([], s, key) == Absent
  {
  }

  lemma {:induction false} RunBecomes<K(!new), V(!new)>(dbs: seq<Db<K, V>>, steps: seq<Step<K, V>>, a: nat, b: nat,
      s: nat)
    requires Run(dbs, steps) && a <= b <= |steps| && s <= dbs[a].last
    ensures Ok(dbs[a]) && Becomes(dbs[a], dbs[b], s)
    decreases b
  {
    hide Find, After, Enabled;
    RunOk(dbs, steps, a);
    if a < b {
      RunBecomes(dbs, steps, a, b - 1, s);
      StepBecomes(dbs[a], dbs[b - 1], steps[b - 1], s);
      assert dbs[b - 1 + 1] == After(dbs[b - 1], steps[b - 1]);
    }
  }

  lemma RunOk<K(!new), V(!new)>(dbs: seq<Db<K, V>>, steps: seq<Step<K, V>>, a: nat)
    requires Run(dbs, steps) && a <= |steps|
    ensures Ok(dbs[a])
  {
    hide Find, Enabled;
    if a > 0 {
      assert dbs[a - 1 + 1] == After(dbs[a - 1], steps[a - 1]);
    }
  }

  // ----- The lookup -----

  function Backward<T>(xs: seq<T>): (ys: seq<T>)
    ensures |ys| == |xs|
  {
    if xs == [] then [] else [xs[|xs| - 1]] + Backward(xs[..|xs| - 1])
  }

  /** The answer of the database as it is. */
  function Right<K(==), V>(db: Db<K, V>, s: nat, key: K): Answer<V> { Search(Backward(db.runs), s, key) }

  /** The lookup: the tables as they are in `db`, the memory table as it is at `first`, the other one as at `second`. */
  method Get<K(==), V(==)>(db: Db<K, V>, first: Db<K, V>, second: Db<K, V>, s: nat, key: K) returns (a: Answer<V>)
    requires Ok(db) && Ok(first) && Ok(second)
    ensures a == Search(Inspected(db, first, second), s, key)
  {
    SearchAppend([Mem(first)] + InMemory(second), Backward(db.runs[..db.tables]), s, key);
    SearchAppend([Mem(first)], InMemory(second), s, key);
    SearchOne(Mem(first), s, key);
    a := Find(Mem(first), s, key);
    if a == Absent && Imm(second).Some? {
      SearchOne(Imm(second).value, s, key);
      a := Find(Imm(second).value, s, key);
    }
    if a == Absent {
      a := Reads.Get(Backward(db.runs[..db.tables]), s, key);
    }
  }

  function InMemory<K, V>(db: Db<K, V>): seq<seq<Entry<K, V>>>
    requires Ok(db)
  {
    if Imm(db).Some? then [Imm(db).value] else []
  }

  function Inspected<K, V>(db: Db<K, V>, first: Db<K, V>, second: Db<K, V>): seq<seq<Entry<K, V>>>
    requires Ok(db) && Ok(first) && Ok(second)
  {
    [Mem(first)] + InMemory(second) + Backward(db.runs[..db.tables])
  }

  lemma {:induction false} SearchAppend<K, V>(a: seq<seq<Entry<K, V>>>, b: seq<seq<Entry<K, V>>>, s: nat, key: K)
    ensures Search(a + b, s, key) == if Search(a, s, key) != Absent then Search(a, s, key) else Search(b, s, key)
  {
    hide Find;
    if a == [] {
      assert a + b == b;
    } else {
      assert (a + b)[0] == a[0] && (a + b)[1..] == a[1..] + b;
      SearchAppend(a[1..], b, s, key);
    }
  }

  lemma SearchOne<K, V>(x: seq<Entry<K, V>>, s: nat, key: K)
    ensures Search([x], s, key) == Find(x, s, key) && Search<K, V>([], s, key) == Absent
  {
    hide Find;
    assert [x][1..] == [];
  }

  /** Run j, a memory table when the version was taken, is one of the two that the lookup reads. */
  ghost predicate Seen<K, V>(first: Db<K, V>, second: Db<K, V>, j: nat)
    requires Ok(first) && Ok(second)
  {
    j == |first.runs| - 1 || (Imm(second).Some? && j == second.tables)
  }

  /** None is written out by the time the second is read, or there was one only and it is still the first. */
  predicate InTime<K, V>(db: Db<K, V>, first: Db<K, V>, second: Db<K, V>) {
    second.tables == db.tables || |db.runs| == |first.runs| == db.tables + 1
  }

  /** The lookup reads every memory table that was there when it took its version exactly if it is in time. */
  lemma SeesAllIff<K(!new), V(!new)>(db: Db<K, V>, first: Db<K, V>, second: Db<K, V>, s: nat)
    requires Ok(db) && Becomes(db, first, s) && Becomes(first, second, s)
    ensures (forall j: nat :: db.tables <= j < |db.runs| ==> Seen(first, second, j)) <==> InTime(db, first, second)
  {
    hide Find;
    var all := forall j: nat :: db.tables <= j < |db.runs| ==> Seen(first, second, j);
    assert all ==> Seen(first, second, db.tables);
  }

  /** The newest run of a list and the others. */
  lemma SearchLast<K, V>(runs: seq<seq<Entry<K, V>>>, s: nat, key: K)
    requires runs != []
    ensures var n := |runs| - 1;
      Search(Backward(runs), s, key)
        == if Find(runs[n], s, key) != Absent then Find(runs[n], s, key) else Search(Backward(runs[..n]), s, key)
  {
    hide Find;
    var n := |runs| - 1;
    SearchAppend([runs[n]], Backward(runs[..n]), s, key);
    SearchOne(runs[n], s, key);
  }

  /** The answer of the database, with its one or two memory tables apart. */
  lemma RightIs<K, V>(db: Db<K, V>, s: nat, key: K)
    requires Ok(db)
    ensures var n, below := |db.runs| - 1, Search(Backward(db.runs[..db.tables]), s, key);
      var older := if n > db.tables && Find(db.runs[db.tables], s, key) != Absent then Find(db.runs[db.tables], s, key)
        else below;
      Right(db, s, key) == if Find(db.runs[n], s, key) != Absent then Find(db.runs[n], s, key) else older
  {
    hide Find;
    var n := |db.runs| - 1;
    SearchLast(db.runs, s, key);
    if n > db.tables {
      SearchLast(db.runs[..n], s, key);
      assert db.runs[..n][..db.tables] == db.runs[..db.tables];
    }
  }

  /** The answer of the lookup, run by run. */
  lemma InspectedIs<K, V>(db: Db<K, V>, first: Db<K, V>, second: Db<K, V>, s: nat, key: K)
    requires Ok(db) && Ok(first) && Ok(second)
    ensures var below := Search(Backward(db.runs[..db.tables]), s, key);
      var older := if Imm(second).Some? && Find(Imm(second).value, s, key) != Absent
        then Find(Imm(second).value, s, key) else below;
      Search(Inspected(db, first, second), s, key)
        == if Find(Mem(first), s, key) != Absent then Find(Mem(first), s, key) else older
  {
    hide Find;
    SearchAppend([Mem(first)] + InMemory(second), Backward(db.runs[..db.tables]), s, key);
    SearchAppend([Mem(first)], InMemory(second), s, key);
    SearchOne(Mem(first), s, key);
    if Imm(second).Some? {
      SearchOne(Imm(second).value, s, key);
    }
  }

  /** A lookup in time answers as the database was when it took its version. */
  lemma {:induction false} InTimeIsRight<K(!new), V(!new)>(db: Db<K, V>, first: Db<K, V>, second: Db<K, V>, s: nat,
      key: K)
    requires Ok(db) && Becomes(db, first, s) && Becomes(first, second, s) && InTime(db, first, second)
    ensures Search(Inspected(db, first, second), s, key) == Right(db, s, key)
  {
    hide Find, Search, Right, Inspected;
    RightIs(db, s, key);
    InspectedIs(db, first, second, s, key);
    SeenAs(db, first, second, s, key);
  }

  /** What the two reads find, in terms of the database as it was. */
  lemma SeenAs<K(!new), V(!new)>(db: Db<K, V>, first: Db<K, V>, second: Db<K, V>, s: nat, key: K)
    requires Ok(db) && Becomes(db, first, s) && Becomes(first, second, s)
    ensures var n := |first.runs| - 1;
      Find(Mem(first), s, key) == if n < |db.runs| then Find(db.runs[n], s, key) else Absent
    ensures Imm(second).Some? ==>
      Find(Imm(second).value, s, key) == if second.tables < |db.runs| then Find(db.runs[second.tables], s, key)
        else Absent
  {
    hide Find;
    if Imm(second).Some? {
      var j := second.tables;
      if j < |first.runs| {
        assert Find(second.runs[j], s, key) == Find(first.runs[j], s, key);
      } else {
        assert Find(second.runs[j], s, key) == Absent;
      }
    }
  }

  /** A lookup that is not in time misses a memory table: it takes a key that only this one holds to be absent. */
  lemma {:induction false} MissedIsWrong<K(!new), V(!new)>(db: Db<K, V>, first: Db<K, V>, second: Db<K, V>, s: nat,
      key: K, j: nat)
    requires Ok(db) && Becomes(db, first, s) && Becomes(first, second, s)
    requires db.tables <= j < |db.runs| && !Seen(first, second, j)
    requires forall i :: 0 <= i < |db.runs| ==> (Find(db.runs[i], s, key) == Absent <==> i != j)
    ensures Search(Inspected(db, first, second), s, key) == Absent != Right(db, s, key)
  {
    hide Find, Search, Right, Inspected;
    RightIs(db, s, key);
    InspectedIs(db, first, second, s, key);
    SeenAs(db, first, second, s, key);
    NoneBelow(db.runs[..db.tables], s, key);
  }

  lemma {:induction false} NoneBelow<K(!new), V(!new)>(runs: seq<seq<Entry<K, V>>>, s: nat, key: K)
    requires forall i :: 0 <= i < |runs| ==> Find(runs[i], s, key) == Absent
    ensures Search(Backward(runs), s, key) == Absent
  {
    hide Find;
    if runs != [] {
      SearchLast(runs, s, key);
      NoneBelow(runs[..|runs| - 1], s, key);
    }
  }

  /**
   * In every run: a lookup that takes its snapshot and version at moment a, reads the memory table at b and the one
   * being written out at c, answers as the database was at a, if none was written out between a and c.
   */
  lemma {:induction false} LookupInRun<K(!new), V(!new)>(
    dbs: seq<Db<K, V>>, steps: seq<Step<K, V>>, a: nat, b: nat, c: nat, s: nat, key: K)
    requires Run(dbs, steps) && a <= b <= c <= |steps| && s <= dbs[a].last
    requires forall k :: a <= k < c ==> steps[k] != Flushed
    ensures Ok(dbs[a]) && Ok(dbs[b]) && Ok(dbs[c])
    ensures Search(Inspected(dbs[a], dbs[b], dbs[c]), s, key) == Right(dbs[a], s, key)
  {
    hide Find, Search, Right, Inspected, After, Enabled;
    RunBecomes(dbs, steps, a, b, s);
    RunBecomes(dbs, steps, a, c, s);
    RunBecomes(dbs, steps, b, c, s);
    TablesStay(dbs, steps, a, c);
    InTimeIsRight(dbs[a], dbs[b], dbs[c], s, key);
  }

  lemma {:induction false} TablesStay<K(!new), V(!new)>(dbs: seq<Db<K, V>>, steps: seq<Step<K, V>>, a: nat, c: nat)
    requires Run(dbs, steps) && a <= c <= |steps|
    requires forall k :: a <= k < c ==> steps[k] != Flushed
    ensures dbs[c].tables == dbs[a].tables
    decreases c
  {
    if a < c {
      TablesStay(dbs, steps, a, c - 1);
      assert dbs[c - 1 + 1] == After(dbs[c - 1], steps[c - 1]);
    }
  }

  /** One write, in a memory table that has been written out when the lookup comes to it: the key is absent. */
  lemma CommittedButAbsent<K(!new), V(!new)>(key: K, value: V)
    returns (dbs: seq<Db<K, V>>, steps: seq<Step<K, V>>)
    ensures Run(dbs, steps) && |steps| == 1 && dbs[0].last == 1
    ensures Ok(dbs[1]) && Right(dbs[0], 1, key) == Found(value) == Right(dbs[1], 1, key)
    ensures Search(Inspected(dbs[0], dbs[1], dbs[1]), 1, key) == Absent
  {
    hide Search, Inspected, Right;
    var run: seq<Entry<K, V>> := [(InternalKey(key, 1, Value), value)];
    var db: Db<K, V> := Db([run, []], 0, 1);
    dbs, steps := [db, After(db, Flushed)], [Flushed];
    assert Find(run, 1, key) == Found(value) && Find<K, V>([], 1, key) == Absent;
    RightIs(dbs[0], 1, key);
    RightIs(dbs[1], 1, key);
    assert dbs[1].runs[..1] == [run];
    SearchLast([run], 1, key);
    InspectedIs(dbs[0], dbs[1], dbs[1], 1, key);
    assert dbs[0].runs[..0] == [];
    SearchOne(run, 1, key);
  }
}
