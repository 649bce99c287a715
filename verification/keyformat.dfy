/** Internal keys as bytes, the bytewise order, and short keys for an index (dbformat.cc). */
module KeyFormat {
  import opened Ordering
  import opened Bytes
  import opened Coding
  import opened Versions

  // ----- The bytewise order -----

  /** Compare as strings of unsigned bytes; a proper prefix comes first. */
  function Bytewise(a: seq<byte>, b: seq<byte>): int {
    if a == [] then (if b == [] then 0 else -1)
    else if b == [] then 1
    else if a[0] < b[0] then -1
    else if a[0] > b[0] then 1
    else Bytewise(a[1..], b[1..])
  }

  lemma {:induction false} BytewiseEqual(a: seq<byte>, b: seq<byte>)
    ensures Bytewise(a, b) == 0 <==> a == b
    ensures Bytewise(a, b) < 0 <==> Bytewise(b, a) > 0
  {
    if a != [] && b != [] {
      BytewiseEqual(a[1..], b[1..]);
      assert a == [a[0]] + a[1..] && b == [b[0]] + b[1..];
    }
  }

  lemma {:induction false} BytewiseChain(a: seq<byte>, b: seq<byte>, c: seq<byte>)
    ensures Bytewise(a, b) < 0 && Bytewise(b, c) < 0 ==> Bytewise(a, c) < 0
  {
    if a != [] && b != [] && c != [] {
      BytewiseChain(a[1..], b[1..], c[1..]);
    }
  }

  lemma {:induction false} BytewiseIsTotal()
    ensures TotalOrder(Bytewise)
  {
    forall a, b
      ensures Bytewise(a, b) == 0 <==> a == b
      ensures Bytewise(a, b) < 0 <==> Bytewise(b, a) > 0
    {
      BytewiseEqual(a, b);
    }
    forall a, b, c
      ensures Bytewise(a, b) < 0 && Bytewise(b, c) < 0 ==> Bytewise(a, c) < 0
    {
      BytewiseChain(a, b, c);
    }
  }

  /** The first difference decides. */
  lemma {:induction false} BytewiseAt(a: seq<byte>, b: seq<byte>, d: nat)
    requires d <= |a| && d <= |b| && a[..d] == b[..d]
    ensures Bytewise(a, b) == Bytewise(a[d..], b[d..])
  {
    if d > 0 {
      assert a[0] == a[..d][0] && b[0] == b[..d][0];
      assert a[1..][..d - 1] == a[..d][1..] && b[1..][..d - 1] == b[..d][1..];
      BytewiseAt(a[1..], b[1..], d - 1);
      assert a[1..][d - 1..] == a[d..] && b[1..][d - 1..] == b[d..];
    } else {
      assert a[0..] == a && b[0..] == b;
    }
  }

  lemma {:induction false} BytewiseDiffers(a: seq<byte>, b: seq<byte>, d: nat)
    requires d < |a| && d < |b| && a[..d] == b[..d] && a[d] != b[d]
    ensures Bytewise(a, b) < 0 <==> a[d] < b[d]
  {
    BytewiseAt(a, b, d);
  }

  /** A short key in [start, limit) if there is an obvious one, and otherwise `start`. */
  method FindShortestSeparator(start: seq<byte>, limit: seq<byte>) returns (key: seq<byte>)
    ensures Bytewise(start, limit) < 0 ==> Bytewise(start, key) <= 0 && Bytewise(key, limit) < 0
    ensures key != start ==> |key| <= |start| && Bytewise(start, key) < 0 && Bytewise(key, limit) < 0
    ensures key != start <==>
            var d := CommonPrefix(start, limit);
            d < |start| && d < |limit| && start[d] < 255 && start[d] as int + 1 < limit[d] as int
    ensures key != start ==>
      var n := |key| - 1;
      && 0 <= n < |start| && n < |limit| && key[..n] == start[..n] == limit[..n]
      && key[n] as int == start[n] as int + 1
  {
    hide Bytewise;
    key := start;
    var minLength := if |start| < |limit| then |start| else |limit|;
    var diffIndex := 0;
    while diffIndex < minLength && start[diffIndex] == limit[diffIndex]
      invariant diffIndex <= minLength && start[..diffIndex] == limit[..diffIndex]
    {
      diffIndex := diffIndex + 1;
    }
    PrefixIs(start, limit, diffIndex);
    BytewiseEqual(start, start);
    if diffIndex < minLength {
      var diffByte := start[diffIndex];
      if diffByte < 0xff && diffByte as int + 1 < limit[diffIndex] as int {
        key := start[..diffIndex] + [diffByte + 1];
        Incremented(start, limit, key, diffIndex);
      }
    }
  }

  lemma Incremented(start: seq<byte>, limit: seq<byte>, key: seq<byte>, d: nat)
    requires d < |start| && d < |limit| && start[..d] == limit[..d]
    requires start[d] < 255 && start[d] as int + 1 < limit[d] as int
    requires key == start[..d] + [start[d] + 1]
    ensures key != start && Bytewise(start, key) < 0 && Bytewise(key, limit) < 0
  {
    assert key[..d] == start[..d] && key[d] == start[d] + 1;
    BytewiseDiffers(start, key, d);
    BytewiseDiffers(key, limit, d);
  }

  /** A short key at or above `key`: it is `key` itself only when every byte is 255. */
  method FindShortSuccessor(key: seq<byte>) returns (successor: seq<byte>)
    ensures Bytewise(key, successor) <= 0 && |successor| <= |key|
    ensures successor == key <==> forall i :: 0 <= i < |key| ==> key[i] == 255
    ensures successor != key ==>
      var n := |successor| - 1;
      && 0 <= n < |key| && successor[..n] == key[..n] && successor[n] as int == key[n] as int + 1
      && forall i :: 0 <= i < n ==> key[i] == 255
  {
    hide Bytewise;
    var i := 0;
    while i < |key|
      invariant i <= |key|
      invariant forall j :: 0 <= j < i ==> key[j] == 255
    {
      if key[i] != 255 {
        successor := key[..i] + [key[i] + 1];
        assert successor[..i] == key[..i] && successor[i] == key[i] + 1;
        BytewiseDiffers(key, successor, i);
        return;
      }
      i := i + 1;
    }
    BytewiseEqual(key, key);
    return key;
  }

  // ----- Internal keys as bytes -----

  type Key = InternalKey<seq<byte>>

  function AppendInternalKey(key: Key): (rep: seq<byte>)
    ensures |rep| == |key.user| + 8
  {
    key.user + Fixed(Pack(key.sequence, key.kind), 8)
  }

  function Tag(rep: seq<byte>): nat
    requires |rep| >= 8
  {
    Unfixed(rep[|rep| - 8..])
  }

  function ParseInternalKey(rep: seq<byte>): Option<Key> {
    if |rep| < 8 then None
    else if Tag(rep) % 256 > 1 then None
    else Some(InternalKey(rep[..|rep| - 8], Tag(rep) / 256, if Tag(rep) % 256 == 1 then Value else Deletion))
  }

  lemma LowByte(b: nat, rest: nat)
    requires b < 256
    ensures (b + 256 * rest) % 256 == b && (b + 256 * rest) / 256 == rest
  {
  }

  lemma {:induction false} UnfixedFits(bs: seq<byte>)
    ensures Unfixed(bs) < Pow256(|bs|)
    ensures Fixed(Unfixed(bs), |bs|) == bs
  {
    if bs != [] {
      var rest := Unfixed(bs[1..]);
      UnfixedFits(bs[1..]);
      LowByte(bs[0] as nat, rest);
      assert bs == [bs[0]] + bs[1..];
    }
  }

  lemma TagOfAppended(key: Key)
    requires key.sequence <= MAX_SEQUENCE
    ensures Tag(AppendInternalKey(key)) == Pack(key.sequence, key.kind)
  {
    hide Fixed, Unfixed;
    var rep := AppendInternalKey(key);
    assert rep[|rep| - 8..] == Fixed(Pack(key.sequence, key.kind), 8);
    Pow256Values();
    FixedRoundTrip(Pack(key.sequence, key.kind), 8);
  }

  /** Parsing inverts appending, and every string that parses is the appending of what it parses to. */
  lemma {:induction false} InternalKeyRoundTrip(key: Key, rep: seq<byte>)
    ensures key.sequence <= MAX_SEQUENCE ==> ParseInternalKey(AppendInternalKey(key)) == Some(key)
    ensures ParseInternalKey(rep).Some? ==>
              AppendInternalKey(ParseInternalKey(rep).value) == rep
                && ParseInternalKey(rep).value.sequence <= MAX_SEQUENCE
  {
    hide Fixed, Unfixed;
    if key.sequence <= MAX_SEQUENCE {
      TagOfAppended(key);
      var bytes := AppendInternalKey(key);
      assert bytes[..|bytes| - 8] == key.user;
    }
    if ParseInternalKey(rep).Some? {
      var parsed := ParseInternalKey(rep).value;
      assert Pack(parsed.sequence, parsed.kind) == Tag(rep);
      UnfixedFits(rep[|rep| - 8..]);
      Pow256Values();
      assert rep == rep[..|rep| - 8] + rep[|rep| - 8..];
    }
  }

  /** Behind the user key of an internal key: 1 for a value and 0 for a deletion, and seven bytes of the sequence. */
  lemma KeyBytes(key: Key)
    ensures AppendInternalKey(key) == key.user + ([if key.kind == Value then 1 else 0] + Fixed(key.sequence, 7))
    ensures MAX_SEQUENCE == 0xff_ffff_ffff_ffff
  {
    var tag := Pack(key.sequence, key.kind);
    assert tag % 256 == if key.kind == Value then 1 else 0;
    assert tag / 256 == key.sequence;
    assert Fixed(tag, 8) == [(tag % 256) as byte] + Fixed(tag / 256, 7);
    hide Fixed;
  }

  /** The comparison made on the bytes. */
  function CompareBytes(ucmp: (seq<byte>, seq<byte>) -> int, a: seq<byte>, b: seq<byte>): int
    requires |a| >= 8 && |b| >= 8
  {
    var r := ucmp(a[..|a| - 8], b[..|b| - 8]);
    if r != 0 then r else if Tag(a) > Tag(b) then -1 else if Tag(a) < Tag(b) then 1 else 0
  }

  lemma {:induction false} CompareAgrees(ucmp: (seq<byte>, seq<byte>) -> int, a: Key, b: Key)
    requires a.sequence <= MAX_SEQUENCE && b.sequence <= MAX_SEQUENCE
    ensures CompareBytes(ucmp, AppendInternalKey(a), AppendInternalKey(b)) == InternalCompare(ucmp, a, b)
  {
    hide Fixed, Unfixed, Tag;
    TagOfAppended(a);
    TagOfAppended(b);
    assert AppendInternalKey(a)[..|a.user|] == a.user && AppendInternalKey(b)[..|b.user|] == b.user;
  }

  /** The user key of an internal key. */
  function UserOf(rep: seq<byte>): seq<byte>
    requires |rep| >= 8
  {
    rep[..|rep| - 8]
  }

  /** The order of internal keys as bytes; strings too short to be one come first. */
  function KeyOrder(a: seq<byte>, b: seq<byte>): int {
    if |a| >= 8 && |b| >= 8 then CompareBytes(Bytewise, a, b)
    else if |a| >= 8 then 1
    else if |b| >= 8 then -1
    else Bytewise(a, b)
  }

  lemma SameParts(a: seq<byte>, b: seq<byte>)
    requires |a| >= 8 && |b| >= 8 && UserOf(a) == UserOf(b) && Tag(a) == Tag(b)
    ensures a == b
  {
    hide Fixed, Unfixed;
    UnfixedFits(a[|a| - 8..]);
    UnfixedFits(b[|b| - 8..]);
    assert a == UserOf(a) + a[|a| - 8..] && b == UserOf(b) + b[|b| - 8..];
  }

  lemma {:induction false} KeyOrderIsTotal()
    ensures TotalOrder(KeyOrder)
  {
    hide Bytewise, Tag;
    forall a, b
      ensures KeyOrder(a, b) == 0 <==> a == b
      ensures KeyOrder(a, b) < 0 <==> KeyOrder(b, a) > 0
    {
      KeyOrderEqual(a, b);
    }
    forall a, b, c
      ensures KeyOrder(a, b) < 0 && KeyOrder(b, c) < 0 ==> KeyOrder(a, c) < 0
    {
      KeyOrderChain(a, b, c);
    }
  }

  lemma KeyOrderEqual(a: seq<byte>, b: seq<byte>)
    ensures KeyOrder(a, b) == 0 <==> a == b
    ensures KeyOrder(a, b) < 0 <==> KeyOrder(b, a) > 0
  {
    hide Bytewise, Tag;
    BytewiseEqual(a, b);
    BytewiseEqual(b, a);
    if |a| >= 8 && |b| >= 8 {
      BytewiseEqual(UserOf(a), UserOf(b));
      BytewiseEqual(UserOf(b), UserOf(a));
      if UserOf(a) == UserOf(b) && Tag(a) == Tag(b) {
        SameParts(a, b);
      }
    }
  }

  lemma KeyOrderChain(a: seq<byte>, b: seq<byte>, c: seq<byte>)
    ensures KeyOrder(a, b) < 0 && KeyOrder(b, c) < 0 ==> KeyOrder(a, c) < 0
  {
    hide Bytewise, Tag;
    if |a| >= 8 && |b| >= 8 && |c| >= 8 {
      BytewiseChain(UserOf(a), UserOf(b), UserOf(c));
      BytewiseEqual(UserOf(a), UserOf(b));
      BytewiseEqual(UserOf(b), UserOf(c));
      BytewiseEqual(UserOf(a), UserOf(c));
    } else if |a| < 8 && |b| < 8 && |c| < 8 {
      BytewiseChain(a, b, c);
    }
  }

  /** A smaller user key makes a smaller internal key. */
  lemma UsersDecide(a: seq<byte>, b: seq<byte>)
    requires |a| >= 8 && |b| >= 8 && Bytewise(UserOf(a), UserOf(b)) < 0
    ensures KeyOrder(a, b) < 0
  {
  }

  // ----- Short internal keys -----

  /** The first of all internal keys of a user key. */
  function Earliest(user: seq<byte>): (rep: seq<byte>)
    ensures |rep| == |user| + 8 && UserOf(rep) == user
  {
    user + Fixed(Pack(MAX_SEQUENCE, Value), 8)
  }

  /**
   * A short key in [start, limit) for internal keys: `start` itself, or one of a user key strictly in between. The
   * assertions hold.
   */
  method InternalSeparator(start: seq<byte>, limit: seq<byte>) returns (key: seq<byte>)
    requires |start| >= 8 && |limit| >= 8
    ensures |key| >= 8
    ensures KeyOrder(start, limit) < 0 ==> KeyOrder(start, key) <= 0 && KeyOrder(key, limit) < 0
    ensures key != start ==>
      && |key| < |start| && KeyOrder(start, key) < 0 && KeyOrder(key, limit) < 0
      && Bytewise(UserOf(start), UserOf(key)) < 0 && Bytewise(UserOf(key), UserOf(limit)) < 0
      && ParseInternalKey(key) == Some(InternalKey(UserOf(key), MAX_SEQUENCE, Value))
  {
    hide Bytewise, KeyOrder, ParseInternalKey, Fixed;
    key := start;
    KeyOrderEqual(start, start);
    BytewiseEqual(UserOf(start), UserOf(start));
    var tmp := FindShortestSeparator(UserOf(start), UserOf(limit));
    if |tmp| < |UserOf(start)| && Bytewise(UserOf(start), tmp) < 0 {
      key := Earliest(tmp);
      InternalKeyRoundTrip(InternalKey(tmp, MAX_SEQUENCE, Value), []);
      UsersDecide(start, key);
      UsersDecide(key, limit);
      assert KeyOrder(start, key) < 0;
      assert KeyOrder(key, limit) < 0;
    }
  }

  /** A short key at or above `key` for internal keys. */
  method InternalSuccessor(key: seq<byte>) returns (successor: seq<byte>)
    requires |key| >= 8
    ensures KeyOrder(key, successor) <= 0 && 8 <= |successor| <= |key|
    ensures successor == key || Bytewise(UserOf(key), UserOf(successor)) < 0
    ensures successor == key || ParseInternalKey(successor) == Some(InternalKey(UserOf(successor), MAX_SEQUENCE, Value))
  {
    hide Bytewise, KeyOrder, ParseInternalKey, Fixed;
    successor := key;
    KeyOrderEqual(key, key);
    var tmp := FindShortSuccessor(UserOf(key));
    if |tmp| < |UserOf(key)| && Bytewise(UserOf(key), tmp) < 0 {
      successor := Earliest(tmp);
      InternalKeyRoundTrip(InternalKey(tmp, MAX_SEQUENCE, Value), []);
      UsersDecide(key, successor);
      assert KeyOrder(key, successor) < 0;
    }
  }
}
