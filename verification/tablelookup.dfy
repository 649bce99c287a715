/** Lookups of user keys in a table file (table.cc, versionset.cc). */
module TableLookup {
  import opened Ordering
  import opened Bytes
  import opened Cursors
  import opened Versions
  import opened KeyFormat
  import opened BlockFormat
  import opened TableFormat
  import opened Tables
  import opened TableRoundTrip
  import opened MemTables

  /** Rows as a table stores them. */
  function Encoded(rows: seq<Row>): seq<Pair> {
    seq(|rows|, i requires 0 <= i < |rows| => (AppendInternalKey(rows[i].0), rows[i].1))
  }

  /** Rows in the order of internal keys, with sequence numbers that fit. */
  ghost predicate Storable(rows: seq<Row>) {
    SortedRun(Bytewise, rows) && forall i :: 0 <= i < |rows| ==> rows[i].0.sequence <= MAX_SEQUENCE
  }

  lemma OrderAgrees(a: Key, b: Key)
    requires a.sequence <= MAX_SEQUENCE && b.sequence <= MAX_SEQUENCE
    ensures KeyOrder(AppendInternalKey(a), AppendInternalKey(b)) == InternalOrder(Bytewise)(a, b)
  {
    hide CompareBytes, InternalCompare, Bytewise;
    CompareAgrees(Bytewise, a, b);
  }

  lemma {:induction false} EncodedSorted(rows: seq<Row>)
    requires Storable(rows)
    ensures StrictlySorted(KeyOrder, Encoded(rows))
    ensures forall i :: 0 <= i < |Encoded(rows)| ==> |Encoded(rows)[i].0| >= 8
  {
    hide KeyOrder, InternalOrder, AppendInternalKey;
    var pairs := Encoded(rows);
    forall i, j | 0 <= i < j < |pairs|
      ensures KeyOrder(pairs[i].0, pairs[j].0) < 0
    {
      OrderAgrees(rows[i].0, rows[j].0);
    }
  }

  /** A seek among the stored rows is one among the rows. */
  lemma {:induction false} SeekAgrees(rows: seq<Row>, key: Key)
    requires Storable(rows) && key.sequence <= MAX_SEQUENCE
    ensures LowerBound(KeyOrder, Encoded(rows), AppendInternalKey(key)) ==
      LowerBound(InternalOrder(Bytewise), rows, key)
  {
    hide KeyOrder, InternalOrder, AppendInternalKey, TotalOrder;
    var pairs, target := Encoded(rows), AppendInternalKey(key);
    var p := LowerBound(InternalOrder(Bytewise), rows, key);
    EncodedSorted(rows);
    KeyOrderIsTotal();
    if p > 0 {
      OrderAgrees(rows[p - 1].0, key);
    }
    if p < |rows| {
      OrderAgrees(rows[p].0, key);
    }
    LowerBoundIs(KeyOrder, pairs, target, p);
  }

  /** Looks a user key up at a snapshot: the answer is that of the newest row of the key that the snapshot can see. */
  method Get(bytes: seq<byte>, ghost rows: seq<Row>, verify: bool, codec: Codec, user: seq<byte>, s: nat)
    returns (a: Answer<seq<byte>>)
    requires IsTable(bytes, Encoded(rows), verify, codec) && Storable(rows) && s <= MAX_SEQUENCE
    ensures a == Find(rows, s, user)
  {
    hide IsTable, KeyOrder, InternalOrder, AppendInternalKey, ParseInternalKey, TotalOrder, Find, LowerBound, Bytewise,
      StrictlySorted;
    var key := InternalKey(user, s, Value);
    BytewiseIsTotal();
    EncodedSorted(rows);
    SeekAgrees(rows, key);
    ghost var p := LowerBound(InternalOrder(Bytewise), rows, key);
    FindAtSeek(Bytewise, rows, user, s, p);
    var r := InternalGet(bytes, Encoded(rows), verify, codec, AppendInternalKey(key));
    a := Absent;
    if r.Some? {
      InternalKeyRoundTrip(rows[p].0, r.value.0);
      var parsed := ParseInternalKey(r.value.0);
      if parsed.Some? {
        BytewiseEqual(parsed.value.user, user);
        if Bytewise(parsed.value.user, user) == 0 {
          a := if parsed.value.kind == Value then Found(r.value.1) else Deleted;
        }
      }
    } else if p < |rows| {
      UserOfAppended(rows[p].0);
      UserOfAppended(key);
    }
  }

  lemma UserOfAppended(key: Key)
    ensures UserOf(AppendInternalKey(key)) == key.user
  {
  }
}
