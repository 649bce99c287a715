/** The memory table: encoded entries in a sorted set, and lookup at a snapshot (memtable.cc, dbformat.cc). */
module MemTables {
  import opened Ordering
  import opened Bytes
  import opened Cursors
  import opened Coding
  import opened Versions
  import opened KeyFormat

  type Row = Entry<seq<byte>, seq<byte>>

  /** Lengths and sequence numbers have the width the encoding gives them. */
  predicate Encodable(x: Row) {
    |x.0.user| + 8 < TWO32 && |x.1| < TWO32 && x.0.sequence <= MAX_SEQUENCE
  }

  /** Length-prefixed internal key, length-prefixed value. */
  function EncodeRow(x: Row): seq<byte> {
    LengthPrefixed(AppendInternalKey(x.0)) + LengthPrefixed(x.1)
  }

  /** The key of a lookup at snapshot s: the newest internal key that s can see. */
  function LookupKey(user: seq<byte>, s: nat): seq<byte> {
    LengthPrefixed(AppendInternalKey(InternalKey(user, s, Value)))
  }

  /** The length-prefixed string at the start of a buffer. */
  function Prefixed(bs: seq<byte>): (r: seq<byte>) {
    match GetLengthPrefixed(bs, 0, |bs|)
    case None => []
    case Some((s, _)) => s
  }

  /** The table's order, on encoded rows and lookup keys. */
  function CompareRows(ucmp: (seq<byte>, seq<byte>) -> int, a: seq<byte>, b: seq<byte>): int
    requires |Prefixed(a)| >= 8 && |Prefixed(b)| >= 8
  {
    CompareBytes(ucmp, Prefixed(a), Prefixed(b))
  }

  lemma PrefixedIs(s: seq<byte>, rest: seq<byte>)
    requires |s| < TWO32
    ensures Prefixed(LengthPrefixed(s) + rest) == s
    ensures GetLengthPrefixed(LengthPrefixed(s) + rest, 0, |LengthPrefixed(s) + rest|) == Some((s, |LengthPrefixed(s)|))
  {
    hide LengthPrefixed, GetLengthPrefixed;
    var bs := LengthPrefixed(s) + rest;
    assert bs[0..0 + |LengthPrefixed(s)|] == LengthPrefixed(s);
    LengthPrefixedRoundTrip(bs, 0, |bs|, s);
  }

  lemma RowKey(x: Row)
    requires Encodable(x)
    ensures Prefixed(EncodeRow(x)) == AppendInternalKey(x.0)
  {
    hide LengthPrefixed, GetLengthPrefixed;
    PrefixedIs(AppendInternalKey(x.0), LengthPrefixed(x.1));
  }

  lemma RowValue(x: Row)
    requires Encodable(x)
    ensures var p := |LengthPrefixed(AppendInternalKey(x.0))|;
      p <= |EncodeRow(x)| && GetLengthPrefixed(EncodeRow(x), p, |EncodeRow(x)|) == Some((x.1, |EncodeRow(x)|))
  {
    hide LengthPrefixed, GetLengthPrefixed;
    var a, b := LengthPrefixed(AppendInternalKey(x.0)), LengthPrefixed(x.1);
    assert (a + b)[|a|..|a| + |b|] == b;
    LengthPrefixedRoundTrip(a + b, |a|, |a + b|, x.1);
  }

  lemma LookupIs(user: seq<byte>, s: nat)
    requires |user| + 8 < TWO32
    ensures Prefixed(LookupKey(user, s)) == AppendInternalKey(InternalKey(user, s, Value))
  {
    hide LengthPrefixed, GetLengthPrefixed;
    var k := AppendInternalKey(InternalKey(user, s, Value));
    assert LengthPrefixed(k) + [] == LengthPrefixed(k);
    PrefixedIs(k, []);
  }

  // ----- What a lookup should find -----

  /** Entry i is the newest for the key that snapshot s can see, in a list in any order. */
  ghost predicate IsNewest(adds: seq<Row>, i: nat, key: seq<byte>, s: nat) {
    && i < |adds| && adds[i].0.user == key && adds[i].0.sequence <= s
    && forall j :: 0 <= j < |adds| && adds[j].0.user == key && adds[j].0.sequence <= s
         ==> adds[j].0.sequence <= adds[i].0.sequence
  }

  ghost predicate NoneVisible(adds: seq<Row>, key: seq<byte>, s: nat) {
    forall j :: 0 <= j < |adds| && adds[j].0.user == key ==> adds[j].0.sequence > s
  }

  function AnswerOf(x: Row): Answer<seq<byte>> {
    if x.0.kind == Value then Found(x.1) else Deleted
  }

  /** A right answer to a lookup: that of the newest entry visible, or that there is none. */
  ghost predicate Answers(adds: seq<Row>, key: seq<byte>, s: nat, a: Answer<seq<byte>>) {
    && (a == Absent <==> NoneVisible(adds, key, s))
    && forall i: nat :: IsNewest(adds, i, key, s) ==> a == AnswerOf(adds[i])
  }

  /** No two entries of one user key have the same sequence. */
  ghost predicate Distinct(adds: seq<Row>) {
    forall i, j :: 0 <= i < j < |adds| && adds[i].0.user == adds[j].0.user ==> adds[i].0.sequence != adds[j].0.sequence
  }

  /** Looking along the sorted entries gives a right answer about the entries in the order they were added. */
  lemma {:induction false} FindAnswers(ucmp: (seq<byte>, seq<byte>) -> int, xs: seq<Row>, adds: seq<Row>,
      key: seq<byte>, s: nat)
    requires TotalOrder(ucmp) && SortedRun(ucmp, xs) && multiset(xs) == multiset(adds) && Distinct(adds)
    ensures Answers(adds, key, s, Find(xs, s, key))
  {
    hide TotalOrder, StrictlySorted, Find;
    var k := FindWitness(xs, s, key);
    if Find(xs, s, key) == Absent {
      forall j | 0 <= j < |adds| && adds[j].0.user == key
        ensures adds[j].0.sequence > s
      {
        var m := SameElement(adds, xs, j);
        assert !Visible(xs, s, m);
      }
    } else {
      FindIs(xs, s, k);
      var at := SameElement(xs, adds, k);
      forall i: nat | IsNewest(adds, i, key, s)
        ensures Find(xs, s, key) == AnswerOf(adds[i])
      {
        var m := SameElement(adds, xs, i);
        if k < m {
          NewestFirst(ucmp, xs, k, m);
        }
        assert adds[at].0.sequence <= adds[i].0.sequence;
        assert at == i;
      }
    }
  }

  lemma SameElement<T>(a: seq<T>, b: seq<T>, i: nat) returns (j: nat)
    requires multiset(a) == multiset(b) && i < |a|
    ensures j < |b| && b[j] == a[i]
  {
    assert a[i] in multiset(a);
    assert a[i] in b;
    j :| 0 <= j < |b| && b[j] == a[i];
  }

  // ----- The table -----

  ghost predicate Encoded(table: seq<seq<byte>>, entries: seq<Row>) {
    && |table| == |entries|
    && forall i :: 0 <= i < |table| ==> Encodable(entries[i]) && table[i] == EncodeRow(entries[i])
  }

  /** The encoded rows of a sorted run. */
  ghost predicate Stored(ucmp: (seq<byte>, seq<byte>) -> int, table: seq<seq<byte>>, entries: seq<Row>) {
    SortedRun(ucmp, entries) && Encoded(table, entries)
  }

  lemma StoredInsert(ucmp: (seq<byte>, seq<byte>) -> int, table: seq<seq<byte>>, entries: seq<Row>, x: Row, p: nat)
    requires TotalOrder(ucmp) && Stored(ucmp, table, entries) && Encodable(x) && p <= |entries|
    requires forall i :: 0 <= i < p ==> InternalOrder(ucmp)(entries[i].0, x.0) < 0
    requires p < |entries| ==> InternalOrder(ucmp)(entries[p].0, x.0) > 0
    ensures Stored(ucmp, table[..p] + [EncodeRow(x)] + table[p..], entries[..p] + [x] + entries[p..])
    ensures multiset(entries[..p] + [x] + entries[p..]) == multiset(entries) + multiset{x}
  {
    hide EncodeRow, Encodable, Encoded, StrictlySorted;
    InternalOrderIsTotal(ucmp);
    InsertSorted(InternalOrder(ucmp), entries, x, p);
    InsertRows(table, entries, x, p);
    InsertMultiset(entries, x, p);
  }

  lemma InsertMultiset<T>(xs: seq<T>, x: T, p: nat)
    requires p <= |xs|
    ensures multiset(xs[..p] + [x] + xs[p..]) == multiset(xs) + multiset{x}
  {
    assert xs == xs[..p] + xs[p..];
  }

  lemma InsertRows(table: seq<seq<byte>>, entries: seq<Row>, x: Row, p: nat)
    requires Encoded(table, entries) && p <= |entries| && Encodable(x)
    ensures Encoded(table[..p] + [EncodeRow(x)] + table[p..], entries[..p] + [x] + entries[p..])
  {
    hide EncodeRow, Encodable;
    var table', entries' := table[..p] + [EncodeRow(x)] + table[p..], entries[..p] + [x] + entries[p..];
    forall i | 0 <= i < |table'|
      ensures Encodable(entries'[i]) && table'[i] == EncodeRow(entries'[i])
    {
      if i > p {
        assert entries'[i] == entries[i - 1] && table'[i] == table[i - 1];
      }
    }
  }

  lemma InsertSorted<K(!new), V>(cmp: (K, K) -> int, xs: seq<(K, V)>, x: (K, V), p: nat)
    requires TotalOrder(cmp) && StrictlySorted(cmp, xs) && p <= |xs|
    requires forall i :: 0 <= i < p ==> cmp(xs[i].0, x.0) < 0
    requires p < |xs| ==> cmp(xs[p].0, x.0) > 0
    ensures StrictlySorted(cmp, xs[..p] + [x] + xs[p..])
  {
    var ys := xs[..p] + [x] + xs[p..];
    forall i, j | 0 <= i < j < |ys|
      ensures cmp(ys[i].0, ys[j].0) < 0
    {
      if i == p && j > p + 1 {
        assert cmp(x.0, xs[p].0) < 0 && cmp(xs[p].0, xs[j - 1].0) < 0;
      }
    }
  }

  class MemTable {
    const ucmp: (seq<byte>, seq<byte>) -> int
    /** The sorted set of encoded rows. */
    var table: seq<seq<byte>>
    ghost var entries: seq<Row>
    /** The rows in the order they were added. */
    ghost var adds: seq<Row>

    ghost predicate Valid()
      reads this
    {
      TotalOrder(ucmp) && Stored(ucmp, table, entries) && multiset(entries) == multiset(adds) && Distinct(adds)
    }

    constructor (ucmp: (seq<byte>, seq<byte>) -> int)
      requires TotalOrder(ucmp)
      ensures Valid() && adds == [] && this.ucmp == ucmp
    {
      this.ucmp := ucmp;
      table, entries, adds := [], [], [];
    }

    /** The first position whose row is not below the sought one, as the sorted set finds it. */
    method FindGreaterOrEqual(sought: seq<byte>, ghost key: Key) returns (p: nat)
      requires Valid() && Prefixed(sought) == AppendInternalKey(key) && key.sequence <= MAX_SEQUENCE
      ensures p == LowerBound(InternalOrder(ucmp), entries, key)
    {
      hide TotalOrder, StrictlySorted, EncodeRow, Prefixed, CompareBytes, LowerBound, InternalCompare;
      p := 0;
      while p < |table|
        invariant p <= |table|
        invariant p > 0 ==> InternalOrder(ucmp)(entries[p - 1].0, key) < 0
      {
        RowKey(entries[p]);
        CompareAgrees(ucmp, entries[p].0, key);
        if CompareRows(ucmp, table[p], sought) >= 0 {
          break;
        }
        p := p + 1;
      }
      InternalOrderIsTotal(ucmp);
      LowerBoundIs(InternalOrder(ucmp), entries, key, p);
    }

    /** Add one row; its sequence is new for its user key. */
    method Add(sequence: nat, kind: ValueType, user: seq<byte>, value: seq<byte>)
      requires Valid() && Encodable((InternalKey(user, sequence, kind), value))
      requires Distinct(adds + [(InternalKey(user, sequence, kind), value)])
      modifies this
      ensures Valid() && adds == old(adds) + [(InternalKey(user, sequence, kind), value)]
    {
      hide TotalOrder, StrictlySorted, EncodeRow, Prefixed, LowerBound, InternalCompare, Encodable;
      var key := InternalKey(user, sequence, kind);
      ghost var x := (key, value);
      var buf := LengthPrefixed(AppendInternalKey(key)) + LengthPrefixed(value);
      EncodedIs(x, buf);
      RowKey(x);
      SmallSequence(x);
      var p := FindGreaterOrEqual(buf, key);
      Placed(ucmp, entries, adds, x, p);
      StoredInsert(ucmp, table, entries, x, p);
      table := table[..p] + [buf] + table[p..];
      entries := entries[..p] + [x] + entries[p..];
      adds := adds + [x];
    }

    /** Look up a key at a snapshot. */
    method Get(user: seq<byte>, s: nat) returns (a: Answer<seq<byte>>)
      requires Valid() && |user| + 8 < TWO32 && s <= MAX_SEQUENCE
      ensures a == Find(entries, s, user)
      ensures Answers(adds, user, s, a)
    {
      hide TotalOrder, StrictlySorted, EncodeRow, Prefixed, LowerBound, Find, LengthPrefixed, GetLengthPrefixed,
        Encodable, Tag, AppendInternalKey;
      var memkey := LookupKey(user, s);
      LookupIs(user, s);
      var p := FindGreaterOrEqual(memkey, InternalKey(user, s, Value));
      FindAtSeek(ucmp, entries, user, s, p);
      FindAnswers(ucmp, entries, adds, user, s);
      if p < |table| {
        var entry := table[p];
        RowKey(entries[p]);
        RowValue(entries[p]);
        TagOf(entries[p]);
        EqualUsers(ucmp, entries[p].0.user, user);
        var key := Prefixed(entry);
        if ucmp(key[..|key| - 8], user) == 0 {
          if Tag(key) % 256 == 1 {
            var value := GetLengthPrefixed(entry, |LengthPrefixed(key)|, |entry|);
            return Found(value.value.0);
          } else if Tag(key) % 256 == 0 {
            return Deleted;
          }
        }
      }
      return Absent;
    }
  }

  lemma SmallSequence(x: Row)
    requires Encodable(x)
    ensures x.0.sequence <= MAX_SEQUENCE
  {
  }

  lemma EqualUsers(ucmp: (seq<byte>, seq<byte>) -> int, a: seq<byte>, b: seq<byte>)
    requires TotalOrder(ucmp)
    ensures ucmp(a, b) == 0 <==> a == b
  {
  }

  lemma EncodedIs(x: Row, buf: seq<byte>)
    requires buf == LengthPrefixed(AppendInternalKey(x.0)) + LengthPrefixed(x.1)
    ensures buf == EncodeRow(x)
  {
  }

  lemma TagOf(x: Row)
    requires Encodable(x)
    ensures var key := AppendInternalKey(x.0);
      |key| >= 8 && key[..|key| - 8] == x.0.user && Tag(key) % 256 == if x.0.kind == Value then 1 else 0
  {
    hide Fixed, Tag;
    TagOfAppended(x.0);
    assert AppendInternalKey(x.0)[..|x.0.user|] == x.0.user;
  }

  /** The position found is where the new row belongs: it is not there yet. */
  lemma {:induction false} Placed(ucmp: (seq<byte>, seq<byte>) -> int, entries: seq<Row>, adds: seq<Row>, x: Row,
      p: nat)
    requires TotalOrder(ucmp) && SortedRun(ucmp, entries) && multiset(entries) == multiset(adds) && Distinct(adds + [x])
    requires p == LowerBound(InternalOrder(ucmp), entries, x.0)
    ensures forall i :: 0 <= i < p ==> InternalOrder(ucmp)(entries[i].0, x.0) < 0
    ensures p < |entries| ==> InternalOrder(ucmp)(entries[p].0, x.0) > 0
  {
    hide TotalOrder, StrictlySorted, InternalCompare;
    InternalOrderIsTotal(ucmp);
    if p < |entries| {
      var i := SameElement(entries, adds, p);
      assert (adds + [x])[i] == entries[p] && (adds + [x])[|adds|] == x;
      EqualKeys(InternalOrder(ucmp), entries[p].0, x.0);
    }
  }

  lemma EqualKeys<K(!new)>(cmp: (K, K) -> int, a: K, b: K)
    requires TotalOrder(cmp)
    ensures cmp(a, b) == 0 <==> a == b
  {
  }

  /** A seek to the lookup key lands on the newest visible entry of the key, if there is one. */
  lemma {:induction false} FindAtSeek(ucmp: (seq<byte>, seq<byte>) -> int, xs: seq<Row>, user: seq<byte>, s: nat,
      p: nat)
    requires TotalOrder(ucmp) && SortedRun(ucmp, xs)
    requires p == LowerBound(InternalOrder(ucmp), xs, InternalKey(user, s, Value))
    ensures Find(xs, s, user) == if p < |xs| && xs[p].0.user == user then AnswerOf(xs[p]) else Absent
  {
    hide TotalOrder, StrictlySorted, Find, LowerBound;
    forall j | 0 <= j < |xs| && xs[j].0.user == user
      ensures j < p <==> xs[j].0.sequence > s
    {
      SeekSplits(ucmp, xs, user, s, j);
    }
    if p < |xs| && xs[p].0.user == user {
      FindIs(xs, s, p);
    } else {
      var k := FindWitness(xs, s, user);
      if Find(xs, s, user) != Absent {
        SeekSplits(ucmp, xs, user, s, k);
        SeekNear(ucmp, xs, user, s, p, k);
      }
    }
  }

  lemma {:induction false} SeekSplits(ucmp: (seq<byte>, seq<byte>) -> int, xs: seq<Row>, user: seq<byte>, s: nat,
      j: nat)
    requires TotalOrder(ucmp) && SortedRun(ucmp, xs) && j < |xs| && xs[j].0.user == user
    ensures j < LowerBound(InternalOrder(ucmp), xs, InternalKey(user, s, Value)) <==> xs[j].0.sequence > s
  {
    OrderOfVersions(ucmp, xs[j].0, s);
    InternalOrderIsTotal(ucmp);
    hide TotalOrder, StrictlySorted, LowerBound, InternalOrder;
    BelowLowerBound(InternalOrder(ucmp), xs, InternalKey(user, s, Value), j);
  }

  /** Of one user key the entry that a seek at snapshot s leaves behind is a newer one. */
  lemma OrderOfVersions(ucmp: (seq<byte>, seq<byte>) -> int, a: InternalKey<seq<byte>>, s: nat)
    requires TotalOrder(ucmp)
    ensures InternalOrder(ucmp)(a, InternalKey(a.user, s, Value)) < 0 <==> a.sequence > s
  {
    EqualUsers(ucmp, a.user, a.user);
    hide TotalOrder;
  }

  /** Between the position sought and an entry of the key there are only entries of the key. */
  lemma {:induction false} SeekNear(ucmp: (seq<byte>, seq<byte>) -> int, xs: seq<Row>, user: seq<byte>, s: nat, p: nat,
      k: nat)
    requires TotalOrder(ucmp) && SortedRun(ucmp, xs) && p <= k < |xs| && xs[k].0.user == user
    requires p == LowerBound(InternalOrder(ucmp), xs, InternalKey(user, s, Value))
    ensures xs[p].0.user == user
  {
    assert InternalOrder(ucmp)(xs[p].0, InternalKey(user, s, Value)) >= 0;
    assert ucmp(xs[p].0.user, user) >= 0;
    hide StrictlySorted, LowerBound;
    UsersAscend(ucmp, xs, p, k);
  }

  /** A short row: the length of the internal key, user key, type, sequence, the length of the value, value. */
  lemma ShortRow(x: Row)
    requires |x.0.user| < 120 && |x.1| < 128
    ensures EncodeRow(x)
      == [(|x.0.user| + 8) as byte] + x.0.user + [if x.0.kind == Value then 1 else 0] + Fixed(x.0.sequence, 7)
      + [|x.1| as byte] + x.1
  {
    var n := |x.0.user|;
    VarintLast(n + 8);
    VarintLast(|x.1|);
    KeyBytes(x.0);
    hide Varint, Fixed;
  }
}
