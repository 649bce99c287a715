/** One client of the Redis proxy in cluster mode: replies in request order (redisproxy.cc). */
module Proxy {
  import opened Ordering

  // ----- Requests, replies and what the client is sent -----

  datatype Kind = Mget | Mset | Del

  /** A forwarded request: one command, or one for each key of a fan-out. */
  datatype Request = Plain | Fanout(kind: Kind, n: nat)

  datatype Shape =
    | StatusReply(text: string)
    | IntegerReply(value: int)
    | ArrayReply(items: seq<Option<string>>)
    | OtherReply(text: string)

  /** A backend's reply, parsed, with its bytes as received. */
  datatype Reply = Reply(shape: Shape, buffer: string)

  datatype Token =
    | Raw(buffer: string)
    | OkLine
    | ArrayHeader(size: nat)
    | Bulk(item: Option<string>)
    | Number(value: int)

  /** What a sub-request carries along: its number, and for a fan-out its command and how many it has. */
  datatype Tag = Tag(count: nat, kind: Option<Kind>, commandCount: nat)

  function Width(r: Request): nat { if r.Plain? then 1 else r.n }

  predicate WellFormed(requests: seq<Request>) {
    forall i :: 0 <= i < |requests| ==> Width(requests[i]) >= 1
  }

  function Total(requests: seq<Request>): nat {
    if requests == [] then 0 else Width(requests[0]) + Total(requests[1..])
  }

  /** The tag of the sub-request at a position counted from 0. */
  function TagAt(requests: seq<Request>, at: nat, count: nat): Tag
    requires at < Total(requests)
  {
    var w := Width(requests[0]);
    if at >= w then TagAt(requests[1..], at - w, count)
    else
      match requests[0]
      case Plain => Tag(count, None, count)
      case Fanout(kind, n) => Tag(count, Some(kind), n)
  }

  predicate MsetFails(r: Reply) {
    !r.shape.StatusReply? && !(r.shape.OtherReply? && r.shape.text == "OK")
  }

  /** The merged reply of an mset: the first failure as received, or OK. */
  function MergeMset(replies: seq<Reply>): seq<Token> {
    if replies == [] then [OkLine]
    else if MsetFails(replies[0]) then [Raw(replies[0].buffer)]
    else MergeMset(replies[1..])
  }

  function Items(items: seq<Option<string>>): seq<Token> {
    seq(|items|, i requires 0 <= i < |items| => Bulk(items[i]))
  }

  function MgetBody(replies: seq<Reply>): seq<Token> {
    if replies == [] then []
    else if replies[0].shape.ArrayReply? then Items(replies[0].shape.items) + MgetBody(replies[1..])
    else [Raw(replies[0].buffer)]
  }

  function MergeMget(replies: seq<Reply>): seq<Token> { [ArrayHeader(|replies|)] + MgetBody(replies) }

  function MergeDel(replies: seq<Reply>, count: nat): seq<Token> {
    if replies == [] then [Number(count)]
    else if replies[0].shape == IntegerReply(1) then MergeDel(replies[1..], count + 1)
    else [Raw(replies[0].buffer)]
  }

  function Merge(kind: Kind, replies: seq<Reply>): seq<Token> {
    match kind
    case Mget => MergeMget(replies)
    case Mset => MergeMset(replies)
    case Del => MergeDel(replies, 0)
  }

  /** What a request with all its replies sends to the client. */
  function Show(r: Request, replies: seq<Reply>): seq<Token>
    requires |replies| == Width(r)
  {
    match r
    case Plain => [Raw(replies[0].buffer)]
    case Fanout(kind, _) => Merge(kind, replies)
  }

  /**
   * What the client must have been sent once exactly the first |replies| sub-requests are answered: each
   * completely answered request, in order, merged from exactly its own replies in key order.
   */
  function Expected(requests: seq<Request>, replies: seq<Reply>): seq<Token> {
    if requests == [] || |replies| < Width(requests[0]) then []
    else
      var w := Width(requests[0]);
      Show(requests[0], replies[..w]) + Expected(requests[1..], replies[w..])
  }

  /** The replies of the request that is answered in part. */
  function Partial(requests: seq<Request>, replies: seq<Reply>): seq<Reply> {
    if requests == [] || |replies| < Width(requests[0]) then replies
    else Partial(requests[1..], replies[Width(requests[0])..])
  }

  // ----- The merge callbacks -----

  lemma MsetStep(replies: seq<Reply>, i: nat)
    requires i <= |replies|
    ensures MergeMset(replies[i..]) ==
      if i == |replies| then [OkLine]
      else if MsetFails(replies[i]) then [Raw(replies[i].buffer)] else MergeMset(replies[i + 1..])
  {
    if i < |replies| {
      assert replies[i..][1..] == replies[i + 1..];
    }
  }

  method MsetCallback(replies: seq<Reply>) returns (out: seq<Token>)
    ensures out == MergeMset(replies)
  {
    assert replies[0..] == replies;
    for i := 0 to |replies|
      invariant MergeMset(replies) == MergeMset(replies[i..])
    {
      MsetStep(replies, i);
      if MsetFails(replies[i]) {
        return [Raw(replies[i].buffer)];
      }
    }
    return [OkLine];
  }

  method MgetCallback(replies: seq<Reply>) returns (out: seq<Token>)
    ensures out == MergeMget(replies)
  {
    out := [ArrayHeader(|replies|)];
    assert replies[0..] == replies;
    for i := 0 to |replies|
      invariant MergeMget(replies) == out + MgetBody(replies[i..])
    {
      assert replies[i..][1..] == replies[i + 1..];
      if replies[i].shape.ArrayReply? {
        var items := replies[i].shape.items;
        ghost var start := out;
        for j := 0 to |items|
          invariant out == start + Items(items[..j])
        {
          out := out + [Bulk(items[j])];
          assert items[..j + 1] == items[..j] + [items[j]];
        }
        assert items[..|items|] == items;
      } else {
        return out + [Raw(replies[i].buffer)];
      }
    }
  }

  method DelCallback(replies: seq<Reply>) returns (out: seq<Token>)
    ensures out == MergeDel(replies, 0)
  {
    var count := 0;
    assert replies[0..] == replies;
    for i := 0 to |replies|
      invariant count == i && MergeDel(replies, 0) == MergeDel(replies[i..], count)
    {
      assert replies[i..][1..] == replies[i + 1..];
      if replies[i].shape == IntegerReply(1) {
        count := count + 1;
      } else {
        return [Raw(replies[i].buffer)];
      }
    }
    return [Number(count)];
  }

  method ProcessCommandReply(kind: Kind, replies: seq<Reply>) returns (out: seq<Token>)
    ensures out == Merge(kind, replies)
  {
    match kind
    case Mget => out := MgetCallback(replies);
    case Mset => out := MsetCallback(replies);
    case Del => out := DelCallback(replies);
  }

  /** When every backend answers with one item, the client gets the items in key order under their number. */
  lemma {:induction false} MgetInKeyOrder(replies: seq<Reply>)
    requires forall i :: 0 <= i < |replies| ==> replies[i].shape.ArrayReply? && |replies[i].shape.items| == 1
    ensures |MgetBody(replies)| == |replies|
    ensures forall i :: 0 <= i < |replies| ==> MgetBody(replies)[i] == Bulk(replies[i].shape.items[0])
  {
    if replies != [] {
      MgetInKeyOrder(replies[1..]);
    }
  }

  /** An mset answers OK exactly if none of its parts failed, and otherwise with the first failure. */
  lemma {:induction false} MsetOkIff(replies: seq<Reply>)
    ensures MergeMset(replies) == [OkLine] <==> forall i :: 0 <= i < |replies| ==> !MsetFails(replies[i])
    ensures forall i ::
              0 <= i < |replies| && MsetFails(replies[i]) && (forall j :: 0 <= j < i ==> !MsetFails(replies[j]))
              ==> MergeMset(replies) == [Raw(replies[i].buffer)]
  {
    if replies != [] {
      MsetOkIff(replies[1..]);
      assert forall i :: 0 < i < |replies| ==> replies[1..][i - 1] == replies[i];
      forall i | 0 <= i < |replies| && MsetFails(replies[i]) && forall j :: 0 <= j < i ==> !MsetFails(replies[j])
        ensures MergeMset(replies) == [Raw(replies[i].buffer)]
      {
        if i > 0 {
          assert !MsetFails(replies[0]);
          assert replies[1..][i - 1] == replies[i];
          assert forall j :: 0 <= j < i - 1 ==> replies[1..][j] == replies[j + 1];
        }
      }
    }
  }

  predicate One(r: Reply) { r.shape == IntegerReply(1) }

  /** A del whose parts all replied 1 answers their number. */
  lemma {:induction false} DelCounts(replies: seq<Reply>, count: nat)
    requires forall i :: 0 <= i < |replies| ==> One(replies[i])
    ensures MergeDel(replies, count) == [Number(count + |replies|)]
  {
    if replies != [] {
      assert One(replies[0]);
      assert forall i :: 0 < i < |replies| ==> replies[1..][i - 1] == replies[i];
      DelCounts(replies[1..], count + 1);
    }
  }

  /** Otherwise it answers with the first reply that is not 1, as received: the parts deleted are not counted. */
  lemma {:induction false} DelStops(replies: seq<Reply>, count: nat, i: nat)
    requires i < |replies| && !One(replies[i]) && forall j :: 0 <= j < i ==> One(replies[j])
    ensures MergeDel(replies, count) == [Raw(replies[i].buffer)]
  {
    if i > 0 {
      assert One(replies[0]);
      assert forall j :: 0 <= j < |replies| - 1 ==> replies[1..][j] == replies[j + 1];
      DelStops(replies[1..], count + 1, i - 1);
    }
  }

  // ----- One more reply -----

  /** Is the sub-request at this position the last of its request? */
  predicate Completes(requests: seq<Request>, at: nat)
    requires at < Total(requests)
  {
    var w := Width(requests[0]);
    if at >= w then Completes(requests[1..], at - w) else at + 1 == w
  }

  lemma {:induction false} OneMore(requests: seq<Request>, replies: seq<Reply>, x: Reply)
    requires WellFormed(requests) && |replies| < Total(requests)
    ensures var tag := TagAt(requests, |replies|, |replies| + 1);
      var group := Partial(requests, replies) + [x];
      && (tag.kind.Some? ==> (|group| >= tag.commandCount <==> Completes(requests, |replies|)))
      && (tag.kind.None? ==> group == [x])
      && (if tag.kind.None? || |group| >= tag.commandCount then
            && Expected(requests, replies + [x]) ==
              Expected(requests, replies) + (if tag.kind.None? then [Raw(x.buffer)] else Merge(tag.kind.value, group))
            && Partial(requests, replies + [x]) == []
          else
            && Expected(requests, replies + [x]) == Expected(requests, replies)
            && Partial(requests, replies + [x]) == group)
    decreases |requests|
  {
    OneMoreFor(requests, replies, x, |replies| + 1);
  }

  lemma {:induction false} OneMoreFor(requests: seq<Request>, replies: seq<Reply>, x: Reply, count: nat)
    requires WellFormed(requests) && |replies| < Total(requests)
    ensures var tag := TagAt(requests, |replies|, count);
      var group := Partial(requests, replies) + [x];
      && (tag.kind.Some? ==> (|group| >= tag.commandCount <==> Completes(requests, |replies|)))
      && (tag.kind.None? ==> group == [x])
      && (if tag.kind.None? || |group| >= tag.commandCount then
            && Expected(requests, replies + [x]) ==
              Expected(requests, replies) + (if tag.kind.None? then [Raw(x.buffer)] else Merge(tag.kind.value, group))
            && Partial(requests, replies + [x]) == []
          else
            && Expected(requests, replies + [x]) == Expected(requests, replies)
            && Partial(requests, replies + [x]) == group)
    decreases |requests|
  {
    hide Merge;
    var w := Width(requests[0]);
    if |replies| >= w {
      assert (replies + [x])[..w] == replies[..w] && (replies + [x])[w..] == replies[w..] + [x];
      OneMoreFor(requests[1..], replies[w..], x, count);
    } else if |replies| + 1 == w {
      assert (replies + [x])[..w] == replies + [x] && (replies + [x])[w..] == [];
      NoReplies(requests[1..]);
    }
  }

  lemma NoReplies(requests: seq<Request>)
    requires WellFormed(requests)
    ensures Expected(requests, []) == [] && Partial(requests, []) == []
  {
  }

  /** A new request changes nothing yet. */
  lemma {:induction false} NewRequest(requests: seq<Request>, r: Request, replies: seq<Reply>)
    requires WellFormed(requests + [r]) && |replies| <= Total(requests)
    ensures Expected(requests + [r], replies) == Expected(requests, replies)
    ensures Partial(requests + [r], replies) == Partial(requests, replies)
    decreases |requests|
  {
    hide Show;
    assert (requests + [r])[|requests|] == r;
    if requests != [] {
      assert (requests + [r])[0] == requests[0] && (requests + [r])[1..] == requests[1..] + [r];
      if |replies| >= Width(requests[0]) {
        NewRequest(requests[1..], r, replies[Width(requests[0])..]);
      }
    }
  }

  lemma {:induction false} NewTags(requests: seq<Request>, r: Request, at: nat, count: nat)
    ensures Total(requests + [r]) == Total(requests) + Width(r)
    ensures at < Total(requests) ==> TagAt(requests + [r], at, count) == TagAt(requests, at, count)
    ensures Total(requests) <= at < Total(requests) + Width(r) ==>
              TagAt(requests + [r], at, count) == if r.Plain? then Tag(count, None, count)
                else Tag(count, Some(r.kind), r.n)
    decreases |requests|
  {
    if requests == [] {
      assert requests + [r] == [r] && [r][1..] == [];
    } else {
      assert (requests + [r])[0] == requests[0] && (requests + [r])[1..] == requests[1..] + [r];
      NewTags(requests[1..], r, if at >= Width(requests[0]) then at - Width(requests[0]) else 0, count);
    }
  }

  // ----- What each kind of request adds to the output -----

  lemma PlusAll(a: seq<Reply>, b: seq<Reply>, n: nat)
    requires n <= |a|
    ensures (a + b)[..n] == a[..n] && (a + b)[n..] == a[n..] + b
    ensures a[..n] + a[n..] == a
  {
  }

  lemma {:induction false} TotalSplit(a: seq<Request>, b: seq<Request>)
    ensures Total(a + b) == Total(a) + Total(b)
    decreases |a|
  {
    if a == [] {
      assert a + b == b;
    } else {
      assert (a + b)[0] == a[0] && (a + b)[1..] == a[1..] + b;
      TotalSplit(a[1..], b);
    }
  }

  /** Requests that are answered completely add what they add, whatever follows them. */
  lemma {:induction false} ExpectedSplit(a: seq<Request>, b: seq<Request>, xs: seq<Reply>, ys: seq<Reply>)
    requires |xs| == Total(a)
    ensures Expected(a + b, xs + ys) == Expected(a, xs) + Expected(b, ys)
    decreases |a|
  {
    hide Show;
    if a == [] {
      assert a + b == b && xs + ys == ys;
    } else {
      var w := Width(a[0]);
      assert (a + b)[0] == a[0] && (a + b)[1..] == a[1..] + b;
      PlusAll(xs, ys, w);
      ExpectedSplit(a[1..], b, xs[w..], ys);
    }
  }

  lemma ExpectedOne(f: Request, xs: seq<Reply>)
    requires |xs| == Width(f)
    ensures Expected([f], xs) == Show(f, xs)
  {
    hide Show;
    assert xs[..Width(f)] == xs && xs[Width(f)..] == [] && [f][1..] == [];
    assert Expected([], []) == [];
  }

  /** A part of an mset failed. */
  predicate Failed(r: Reply) { !r.shape.StatusReply? && r.shape != OtherReply("OK") }

  /** The first n backends answered with one item each. */
  predicate OneEach(xs: seq<Reply>, n: nat)
    requires n <= |xs|
  {
    forall i :: 0 <= i < n ==> xs[i].shape.ArrayReply? && |xs[i].shape.items| == 1
  }

  /** The one item of a reply is what is sent at this place. */
  predicate Itemized(r: Reply, sent: seq<Token>, at: nat) {
    r.shape.ArrayReply? && |r.shape.items| == 1 && at < |sent| && sent[at] == Bulk(r.shape.items[0])
  }

  /** Reply i is the first that is not as those before it. */
  predicate FirstNot(good: Reply -> bool, xs: seq<Reply>, i: nat) {
    i < |xs| && !good(xs[i]) && forall j :: 0 <= j < i ==> good(xs[j])
  }

  /**
   * What the client is sent for one request whose sub-requests were answered with xs, in key order: a plain reply as
   * received; for an mget the number of replies, and the items; for an mset OK, or the first failure; for a del the
   * number of parts if all are 1, or the first reply that is not. A fan-out that gets an answer of another kind sends
   * that answer as received, for an mget after the items before it.
   */
  ghost predicate Answers(f: Request, xs: seq<Reply>, sent: seq<Token>) {
    match f
    case Plain => |xs| == 1 && sent == [Raw(xs[0].buffer)]
    case Fanout(Mget, n) =>
      && |xs| == n && |sent| > 0 && sent[0] == ArrayHeader(n)
      && (OneEach(xs, n) ==> |sent| == n + 1)
      && (forall j :: 0 <= j < n && OneEach(xs, j + 1) ==> Itemized(xs[j], sent, j + 1))
      && forall j :: 0 <= j < n && OneEach(xs, j) && !xs[j].shape.ArrayReply? ==>
           |sent| == j + 2 && sent[j + 1] == Raw(xs[j].buffer)
    case Fanout(Mset, n) =>
      && |xs| == n
      && ((forall j :: 0 <= j < n ==> !Failed(xs[j])) ==> sent == [OkLine])
      && forall i: nat :: FirstNot(r => !Failed(r), xs, i) ==> sent == [Raw(xs[i].buffer)]
    case Fanout(Del, n) =>
      && |xs| == n
      && ((forall j :: 0 <= j < n ==> One(xs[j])) ==> sent == [Number(n)])
      && forall i: nat :: FirstNot(One, xs, i) ==> sent == [Raw(xs[i].buffer)]
  }

  lemma {:induction false} ShowAnswers(f: Request, xs: seq<Reply>)
    requires |xs| == Width(f)
    ensures Answers(f, xs, Show(f, xs))
  {
    hide MgetBody, MergeMset, MergeDel;
    match f
    case Plain =>
    case Fanout(Mget, n) => MgetAnswers(xs);
    case Fanout(Mset, n) => MsetOkIff(xs);
    case Fanout(Del, n) => DelAnswers(xs);
  }

  lemma MgetAnswers(xs: seq<Reply>)
    ensures Answers(Fanout(Mget, |xs|), xs, MergeMget(xs))
  {
    hide MgetBody, OneEach, Itemized;
    forall j | 0 <= j < |xs| && OneEach(xs, j + 1)
      ensures Itemized(xs[j], MergeMget(xs), j + 1)
    {
      ItemAt(xs, j);
      Behind(ArrayHeader(|xs|), MgetBody(xs), xs[j], j);
    }
    if OneEach(xs, |xs|) {
      ItemsOnly(xs);
    }
    forall j | 0 <= j < |xs| && OneEach(xs, j) && !xs[j].shape.ArrayReply?
      ensures |MgetBody(xs)| == j + 1 && MgetBody(xs)[j] == Raw(xs[j].buffer)
    {
      MgetStops(xs, j);
    }
  }

  lemma Behind(header: Token, body: seq<Token>, r: Reply, j: nat)
    requires Itemized(r, body, j)
    ensures Itemized(r, [header] + body, j + 1)
  {
  }

  lemma ItemsOnly(xs: seq<Reply>)
    requires OneEach(xs, |xs|)
    ensures |MgetBody(xs)| == |xs|
  {
    hide MgetBody;
    MgetInKeyOrder(xs);
  }

  lemma DelAnswers(xs: seq<Reply>)
    ensures Answers(Fanout(Del, |xs|), xs, MergeDel(xs, 0))
  {
    hide MergeDel;
    if forall j :: 0 <= j < |xs| ==> One(xs[j]) {
      DelCounts(xs, 0);
    }
    forall i: nat | FirstNot(One, xs, i)
      ensures MergeDel(xs, 0) == [Raw(xs[i].buffer)]
    {
      DelStops(xs, 0, i);
    }
  }

  lemma {:induction false} ItemAt(xs: seq<Reply>, j: nat)
    requires j < |xs| && OneEach(xs, j + 1)
    ensures Itemized(xs[j], MgetBody(xs), j)
  {
    if j > 0 {
      assert forall i :: 0 <= i < j ==> xs[1..][i] == xs[i + 1];
      ItemAt(xs[1..], j - 1);
    }
  }

  lemma {:induction false} MgetStops(xs: seq<Reply>, i: nat)
    requires i < |xs| && OneEach(xs, i) && !xs[i].shape.ArrayReply?
    ensures |MgetBody(xs)| == i + 1 && MgetBody(xs)[i] == Raw(xs[i].buffer)
  {
    if i > 0 {
      assert forall j :: 0 <= j < i ==> xs[1..][j] == xs[j + 1];
      MgetStops(xs[1..], i - 1);
    }
  }

  // ----- An ordered map and an ordered set -----

  predicate Ascending<T>(m: seq<(nat, T)>) {
    forall i, j :: 0 <= i < j < |m| ==> m[i].0 < m[j].0
  }

  predicate HasKey<T>(m: seq<(nat, T)>, k: nat) {
    exists i :: 0 <= i < |m| && m[i].0 == k
  }

  /** Insertion into an ordered map: a key that is there keeps its value. */
  function MapInsert<T>(m: seq<(nat, T)>, k: nat, v: T): seq<(nat, T)> {
    if m == [] || k < m[0].0 then [(k, v)] + m
    else if k == m[0].0 then m
    else [m[0]] + MapInsert(m[1..], k, v)
  }

  /** Where an insertion puts the key, if it is new. */
  lemma {:induction false} MapInsertAt<T>(m: seq<(nat, T)>, k: nat, v: T) returns (p: nat)
    requires Ascending(m)
    ensures p <= |m| && forall i :: 0 <= i < p ==> m[i].0 < k
    ensures p < |m| ==> k <= m[p].0
    ensures MapInsert(m, k, v) == if p < |m| && m[p].0 == k then m else m[..p] + [(k, v)] + m[p..]
  {
    if m == [] || k <= m[0].0 {
      p := 0;
    } else {
      var q := MapInsertAt(m[1..], k, v);
      p := q + 1;
      assert forall i :: 0 < i < |m| ==> m[1..][i - 1] == m[i];
      InsertShifts(m, q, (k, v));
    }
  }

  lemma InsertShifts<T>(m: seq<T>, q: nat, x: T)
    requires q < |m|
    ensures [m[0]] + (m[1..][..q] + [x] + m[1..][q..]) == m[..q + 1] + [x] + m[q + 1..]
    ensures [m[0]] + m[1..] == m
  {
  }

  lemma {:induction false} MapTail<T>(m: seq<(nat, T)>)
    requires Ascending(m) && m != []
    ensures Ascending(m[1..])
    ensures forall i :: 0 <= i < |m[1..]| ==> m[0].0 < m[1..][i].0 && m[1..][i] in m
    ensures forall x :: x in m <==> x == m[0] || x in m[1..]
  {
    assert m == [m[0]] + m[1..];
  }

  lemma HasKeyAt<T>(m: seq<(nat, T)>, i: nat)
    requires i < |m|
    ensures HasKey(m, m[i].0)
  {
  }

  // ----- The connection -----

  /** A reply in the map, with the tag its callback put on it. */
  type Tagged = (Tag, Reply)

  /** The numbers first to last, in order. */
  function Numbers(first: nat, last: nat): seq<nat>
    requires first <= last + 1
  {
    seq(last + 1 - first, i requires 0 <= i < last + 1 - first => first + i)
  }

  /**
   * What holds between callbacks. `flushed` are the replies already used, to sub-requests 1, 2, ...;
   * `arrived` is every first reply received. Waiting replies are those that came early.
   */
  ghost predicate Inv(
    requests: seq<Request>, arrived: map<nat, Reply>, flushed: seq<Reply>,
    count: nat, sends: seq<nat>, replies: seq<(nat, Tagged)>, group: seq<Reply>, output: seq<Token>)
  {
    && WellFormed(requests) && count == Total(requests) && |flushed| <= count
    && sends == Numbers(|flushed| + 1, count)
    && (forall c :: 1 <= c <= |flushed| ==> c in arrived && arrived[c] == flushed[c - 1])
    && (forall c :: c in arrived ==> 1 <= c <= count && (c <= |flushed| || HasKey(replies, c)))
    && Waiting(requests, arrived, |flushed|, count, replies)
    && group == Partial(requests, flushed) && output == Expected(requests, flushed)
  }

  ghost predicate Waiting(
    requests: seq<Request>, arrived: map<nat, Reply>, done: nat, count: nat, replies: seq<(nat, Tagged)>)
  {
    && Ascending(replies) && count == Total(requests)
    && forall i :: 0 <= i < |replies| ==>
         && done < replies[i].0 <= count && replies[i].0 in arrived
         && replies[i].1 == (TagAt(requests, replies[i].0 - 1, replies[i].0), arrived[replies[i].0])
  }

  class Connection {
    var count: nat
    var sends: seq<nat>
    var replies: seq<(nat, Tagged)>
    var group: seq<Reply>
    var output: seq<Token>
    ghost var requests: seq<Request>
    ghost var arrived: map<nat, Reply>
    ghost var flushed: seq<Reply>
    /** What the client was sent up to the last time a backend was missing, and since then. */
    ghost var before: seq<Token>
    ghost var shown: seq<Token>

    /** Everything that can be sent has been: the next sub-request in order has no reply yet. */
    ghost predicate Valid()
      reads this
    {
      && Inv(requests, arrived, flushed, count, sends, replies, group, shown) && output == before + shown
      && |flushed| + 1 !in arrived
    }

    constructor ()
      ensures Valid() && requests == [] && output == before == [] && arrived == map[] && count == 0
    {
      hide Inv;
      NothingYet();
      count, sends, replies, group, output := 0, [], [], [], [];
      requests, arrived, flushed, before, shown := [], map[], [], [], [];
    }

    /** Forward a request: every sub-request gets the next number, and is noted as sent. */
    method Submit(r: Request) returns (tags: seq<Tag>)
      requires Valid() && Width(r) >= 1
      modifies this
      ensures Valid() && requests == old(requests) + [r] && output == old(output) && before == old(before)
      ensures arrived == old(arrived) && count == old(count) + Width(r)
      ensures |tags| == Width(r)
      ensures forall i :: 0 <= i < |tags| ==> tags[i] == TagAt(requests, old(count) + i, old(count) + i + 1)
    {
      hide Inv;
      tags := [];
      ghost var were := requests;
      var i := 0;
      Submitting(requests, arrived, flushed, count, sends, replies, group, shown, r);
      while i < Width(r)
        invariant i == |tags| <= Width(r) && count == old(count) + i
        invariant sends == old(sends) + Numbers(old(count) + 1, old(count) + i)
        invariant requests == were && arrived == old(arrived) && flushed == old(flushed)
        invariant replies == old(replies) && group == old(group) && output == old(output)
        invariant before == old(before) && shown == old(shown)
        invariant forall j :: 0 <= j < i ==> tags[j] == TagAt(were + [r], old(count) + j, old(count) + j + 1)
      {
        count := count + 1;
        sends := sends + [count];
        NewTags(were, r, count - 1, count);
        tags := tags + [if r.Plain? then Tag(count, None, count) else Tag(count, Some(r.kind), r.n)];
        i := i + 1;
      }
      requests := requests + [r];
    }

    /**
     * The client has been sent exactly what the longest answered prefix of the sub-requests calls for,
     * whatever order the replies came in; since the last time a backend was missing, if one ever was.
     */
    lemma Delivered()
      requires Valid()
      ensures output == before + Expected(requests, InOrder(arrived, 1, count))
    {
      hide TagAt, Expected, Partial, Waiting;
      InOrderIs(arrived, flushed, count, 1);
      assert flushed[0..] == flushed;
    }

    /**
     * The output, request by request: behind what the requests in front of f call for comes the answer to f, once all
     * its sub-requests are answered and theirs, and then what the requests behind it call for.
     */
    lemma Answered(front: seq<Request>, f: Request, rest: seq<Request>) returns (sent: seq<Token>)
      requires Valid() && requests == front + [f] + rest
      requires forall c :: 1 <= c <= Total(front) + Width(f) ==> c in arrived
      ensures Total(front) + Width(f) <= |flushed|
      ensures var a, b := Total(front), Total(front) + Width(f);
        && output == before + (Expected(front, flushed[..a]) + sent + Expected(rest, flushed[b..]))
        && Answers(f, flushed[a..b], sent)
      ensures forall c :: 1 <= c <= |flushed| ==> c in arrived && flushed[c - 1] == arrived[c]
    {
      hide TagAt, Expected, Partial, Waiting, Answers;
      AllFlushed(front, f, arrived, flushed);
      sent := AnsweredIs(front, f, rest, flushed);
    }

    /**
     * A backend's reply to one sub-request. Replies that are next in order go to the client at once, with
     * those that waited behind them; an early one waits. A reply to a number that is not in flight, or a
     * second one to a number that has one, changes nothing.
     */
    method Callback(tag: Tag, reply: Reply)
      requires Valid() && 1 <= tag.count <= count && tag == TagAt(requests, tag.count - 1, tag.count)
      modifies this`arrived, this`flushed, this`sends, this`replies, this`group, this`output, this`shown
      ensures Valid()
      ensures arrived == if tag.count in old(arrived) then old(arrived) else old(arrived)[tag.count := reply]
      ensures old(flushed) <= flushed && old(output) <= output
    {
      hide Inv, Merge, TagAt;
      InFlight(requests, arrived, flushed, count, sends, replies, group, shown, tag.count);
      if tag.count !in sends {
        return;
      }
      var begin := sends[0];
      if tag.count !in arrived {
        Arriving(requests, arrived, flushed, count, sends, replies, group, shown, tag.count, reply);
      } else {
        SecondReply(requests, arrived, flushed, count, sends, replies, group, shown, tag, reply);
      }
      replies := MapInsert(replies, tag.count, (tag, reply));
      arrived := if tag.count in arrived then arrived else arrived[tag.count := reply];
      while replies != [] && begin == replies[0].0
        invariant Inv(requests, arrived, flushed, count, sends, replies, group, shown)
        invariant output == before + shown && begin == |flushed| + 1
        invariant arrived == if tag.count in old(arrived) then old(arrived) else old(arrived)[tag.count := reply]
        invariant old(flushed) <= flushed && old(output) <= output
        decreases |replies|
      {
        FlushFirst();
        begin := begin + 1;
      }
      NotArrived(requests, arrived, flushed, count, sends, replies, group, shown);
    }

    /** The first waiting reply, which is the next in order, is used up. */
    method FlushFirst()
      requires Inv(requests, arrived, flushed, count, sends, replies, group, shown) && output == before + shown
      requires replies != [] && replies[0].0 == |flushed| + 1
      modifies this`flushed, this`sends, this`replies, this`group, this`output, this`shown
      ensures Inv(requests, arrived, flushed, count, sends, replies, group, shown) && output == before + shown
      ensures |flushed| == |old(flushed)| + 1 && |replies| == |old(replies)| - 1
      ensures old(flushed) <= flushed && old(output) <= output
    {
      hide Inv, Merge, TagAt;
      Flushing(requests, arrived, flushed, count, sends, replies, group, shown);
      var (t, r) := replies[0].1;
      if t.kind.None? {
        Send([Raw(r.buffer)]);
      } else {
        group := group + [r];
        if |group| >= t.commandCount {
          var merged := ProcessCommandReply(t.kind.value, group);
          Send(merged);
          group := [];
        }
      }
      flushed := flushed + [r];
      sends := sends[1..];
      replies := replies[1..];
    }

    method Send(more: seq<Token>)
      requires output == before + shown
      modifies `output, `shown
      ensures output == before + shown == old(output) + more && shown == old(shown) + more
    {
      ShowMore(before, shown, more);
      output := output + more;
      shown := shown + more;
    }

    /**
     * A request for which there is no backend: everything in flight is forgotten, the numbers start again, and the
     * client is sent an error.
     */
    method NoBackend(error: string)
      requires Valid()
      modifies this
      ensures Valid() && requests == [] && arrived == map[] && count == 0
      ensures output == before == old(output) + [Raw(error)]
    {
      hide Inv;
      NothingYet();
      count, sends, replies, group := 0, [], [], [];
      output := output + [Raw(error)];
      requests, arrived, flushed, before, shown := [], map[], [], output, [];
    }
  }

  lemma AllFlushed(front: seq<Request>, f: Request, arrived: map<nat, Reply>, flushed: seq<Reply>)
    requires forall c :: 1 <= c <= Total(front) + Width(f) ==> c in arrived
    requires |flushed| + 1 !in arrived
    ensures Total(front) + Width(f) <= |flushed|
  {
  }

  lemma {:induction false} AnsweredIs(front: seq<Request>, f: Request, rest: seq<Request>, xs: seq<Reply>)
    returns (sent: seq<Token>)
    requires Total(front) + Width(f) <= |xs|
    ensures var a, b := Total(front), Total(front) + Width(f);
      && Expected(front + [f] + rest, xs) == Expected(front, xs[..a]) + sent + Expected(rest, xs[b..])
      && Answers(f, xs[a..b], sent)
  {
    hide Expected, Answers, Show;
    var a, b := Total(front), Total(front) + Width(f);
    sent := Show(f, xs[a..b]);
    TotalSplit(front, [f]);
    assert [f][1..] == [];
    assert xs == xs[..b] + xs[b..] && xs[..b] == xs[..a] + xs[a..b];
    ExpectedSplit(front + [f], rest, xs[..b], xs[b..]);
    ExpectedSplit(front, [f], xs[..a], xs[a..b]);
    ExpectedOne(f, xs[a..b]);
    ShowAnswers(f, xs[a..b]);
  }

  /** A first reply joins the waiting ones under its number. */
  lemma Arriving(
    requests: seq<Request>, arrived: map<nat, Reply>, flushed: seq<Reply>,
    count: nat, sends: seq<nat>, replies: seq<(nat, Tagged)>, group: seq<Reply>, output: seq<Token>, c: nat, x: Reply)
    requires Inv(requests, arrived, flushed, count, sends, replies, group, output)
    requires |flushed| < c <= count && c !in arrived
    ensures Inv(requests, arrived[c := x], flushed, count, sends,
                MapInsert(replies, c, (TagAt(requests, c - 1, c), x)), group, output)
  {
    hide TagAt, Expected, Partial, MapInsert, HasKey;
    var v := (TagAt(requests, c - 1, c), x);
    var p := MapInsertAt(replies, c, v);
    var after := MapInsert(replies, c, v);
    assert p < |replies| ==> replies[p].0 in arrived;
    assert after == replies[..p] + [(c, v)] + replies[p..];
    assert after[p] == (c, v);
    HasKeyAt(after, p);
    forall d | d in arrived && |flushed| < d
      ensures HasKey(after, d)
    {
      HasKeyMoves(replies, after, p, d);
    }
    ArrivingWaits(requests, arrived, |flushed|, count, replies, c, x, p);
  }

  lemma HasKeyMoves<T>(m: seq<(nat, T)>, n: seq<(nat, T)>, p: nat, d: nat)
    requires p <= |m| && |n| == |m| + 1 && n == m[..p] + [n[p]] + m[p..] && HasKey(m, d)
    ensures HasKey(n, d)
  {
    var i :| 0 <= i < |m| && m[i].0 == d;
    if i < p {
      assert n[i] == m[i];
    } else {
      assert n[i + 1] == m[i];
    }
  }

  lemma ArrivingWaits(
    requests: seq<Request>, arrived: map<nat, Reply>, done: nat, count: nat, replies: seq<(nat, Tagged)>,
    c: nat, x: Reply, p: nat)
    requires Waiting(requests, arrived, done, count, replies) && done < c <= count && c !in arrived
    requires p <= |replies| && (forall i :: 0 <= i < p ==> replies[i].0 < c) && (p < |replies| ==> c < replies[p].0)
    ensures Waiting(requests, arrived[c := x], done, count,
      replies[..p] + [(c, (TagAt(requests, c - 1, c), x))] + replies[p..])
  {
    hide TagAt;
  }

  /** The reply to the next sub-request in order is used up. */
  lemma Flushing(
    requests: seq<Request>, arrived: map<nat, Reply>, flushed: seq<Reply>,
    count: nat, sends: seq<nat>, replies: seq<(nat, Tagged)>, group: seq<Reply>, output: seq<Token>)
    requires Inv(requests, arrived, flushed, count, sends, replies, group, output)
    requires replies != [] && replies[0].0 == |flushed| + 1
    ensures sends != [] && sends[0] == |flushed| + 1
    ensures var (tag, x) := replies[0].1; var more := group + [x];
      var done := tag.kind.None? || |more| >= tag.commandCount;
      && tag == TagAt(requests, |flushed|, |flushed| + 1) && (tag.kind.None? ==> group == [])
      && Inv(requests, arrived, flushed + [x], count, sends[1..], replies[1..],
             if done then [] else more,
             if tag.kind.None? then output + [Raw(x.buffer)]
             else if done then output + Merge(tag.kind.value, more) else output)
  {
    hide TagAt, Expected, Partial, Merge, Waiting, HasKey;
    FlushWaiting(requests, arrived, |flushed|, count, replies);
    var x := replies[0].1.1;
    OneMore(requests, flushed, x);
    NoneBefore(group, x);
    assert sends[1..] == Numbers(|flushed| + 2, count);
    forall c | c in arrived && |flushed| + 1 < c
      ensures HasKey(replies[1..], c)
    {
      HasKeyTail(replies, c);
    }
  }

  lemma NoneBefore<T>(group: seq<T>, x: T)
    ensures group + [x] == [x] ==> group == []
  {
    assert group + [x] == [x] ==> |group + [x]| == 1;
  }

  lemma HasKeyTail<T>(m: seq<(nat, T)>, c: nat)
    requires HasKey(m, c) && m[0].0 != c
    ensures HasKey(m[1..], c)
  {
    var i :| 0 <= i < |m| && m[i].0 == c;
    assert m[1..][i - 1].0 == c;
  }

  lemma FlushWaiting(requests: seq<Request>, arrived: map<nat, Reply>, done: nat, count: nat,
      replies: seq<(nat, Tagged)>)
    requires Waiting(requests, arrived, done, count, replies) && replies != [] && replies[0].0 == done + 1
    ensures done + 1 in arrived && done < count && replies[0].1 == (TagAt(requests, done, done + 1), arrived[done + 1])
    ensures Waiting(requests, arrived, done + 1, count, replies[1..])
  {
    hide TagAt;
    MapTail(replies);
  }

  /** No waiting reply is the next in order: then the next in order has not arrived. */
  lemma NotArrived(
    requests: seq<Request>, arrived: map<nat, Reply>, flushed: seq<Reply>,
    count: nat, sends: seq<nat>, replies: seq<(nat, Tagged)>, group: seq<Reply>, output: seq<Token>)
    requires Inv(requests, arrived, flushed, count, sends, replies, group, output)
    requires replies == [] || replies[0].0 != |flushed| + 1
    ensures |flushed| + 1 !in arrived
  {
    hide TagAt, Expected, Partial;
    forall i | 0 <= i < |replies|
      ensures replies[i].0 != |flushed| + 1
    {
      assert i > 0 ==> replies[0].0 < replies[i].0;
    }
  }

  /** The replies to number `from` and on, up to the first number without one. */
  function InOrder(arrived: map<nat, Reply>, from: nat, count: nat): seq<Reply>
    decreases count + 1 - from
  {
    if from > count || from !in arrived then [] else [arrived[from]] + InOrder(arrived, from + 1, count)
  }

  lemma {:induction false} InOrderIs(arrived: map<nat, Reply>, flushed: seq<Reply>, count: nat, from: nat)
    requires 1 <= from <= |flushed| + 1 <= count + 1 && |flushed| + 1 !in arrived
    requires forall c :: 1 <= c <= |flushed| ==> c in arrived && arrived[c] == flushed[c - 1]
    ensures InOrder(arrived, from, count) == flushed[from - 1..]
    decreases |flushed| - from + 1
  {
    if from <= |flushed| {
      InOrderIs(arrived, flushed, count, from + 1);
      assert flushed[from - 1..] == [flushed[from - 1]] + flushed[from..];
    }
  }

  /** The numbers in flight are those after the ones used up. */
  lemma InFlight(
    requests: seq<Request>, arrived: map<nat, Reply>, flushed: seq<Reply>,
    count: nat, sends: seq<nat>, replies: seq<(nat, Tagged)>, group: seq<Reply>, output: seq<Token>, c: nat)
    requires Inv(requests, arrived, flushed, count, sends, replies, group, output) && 1 <= c <= count
    ensures c in sends <==> |flushed| < c
    ensures c in sends ==> sends[0] == |flushed| + 1
    ensures c !in sends ==> c in arrived
  {
    hide TagAt, Expected, Partial, Waiting;
    if |flushed| < c {
      assert sends[c - |flushed| - 1] == c;
    }
  }

  /** An ordered map keeps the first value of a key. */
  lemma SecondReply(
    requests: seq<Request>, arrived: map<nat, Reply>, flushed: seq<Reply>,
    count: nat, sends: seq<nat>, replies: seq<(nat, Tagged)>, group: seq<Reply>, output: seq<Token>, tag: Tag, x: Reply)
    requires Inv(requests, arrived, flushed, count, sends, replies, group, output)
    requires |flushed| < tag.count && tag.count in arrived
    ensures MapInsert(replies, tag.count, (tag, x)) == replies
  {
    hide TagAt, Expected, Partial, MapInsert;
    var p := MapInsertAt(replies, tag.count, (tag, x));
    assert forall i :: p < i < |replies| ==> replies[p].0 < replies[i].0;
  }

  /** Numbering the sub-requests of a new request keeps everything else. */
  lemma Submitting(
    requests: seq<Request>, arrived: map<nat, Reply>, flushed: seq<Reply>,
    count: nat, sends: seq<nat>, replies: seq<(nat, Tagged)>, group: seq<Reply>, output: seq<Token>, r: Request)
    requires Inv(requests, arrived, flushed, count, sends, replies, group, output) && Width(r) >= 1
    ensures count == Total(requests) && Total(requests + [r]) == count + Width(r)
    ensures Inv(requests + [r], arrived, flushed, count + Width(r),
                sends + Numbers(count + 1, count + Width(r)), replies, group, output)
  {
    hide TagAt, Expected, Partial;
    NewTags(requests, r, 0, 0);
    NewRequest(requests, r, flushed);
    forall i | 0 <= i < |replies|
      ensures TagAt(requests + [r], replies[i].0 - 1, replies[i].0) == TagAt(requests, replies[i].0 - 1, replies[i].0)
    {
      NewTags(requests, r, replies[i].0 - 1, replies[i].0);
    }
  }

  lemma NothingYet()
    ensures Inv([], map[], [], 0, [], [], [], [])
  {
  }

  lemma ShowMore(before: seq<Token>, shown: seq<Token>, more: seq<Token>)
    ensures before + shown + more == before + (shown + more)
  {
  }

  // ----- A reply that comes after its request has been forgotten -----

  /**
   * Three requests, of which the second finds no backend while the first is in flight. The reply to the first one has
   * the number of the third: it is what the client is sent for the third, whose own reply is dropped.
   */
  method StaleReply(error: string, first: Reply, third: Reply) returns (conn: Connection)
    ensures fresh(conn) && conn.Valid() && conn.output == [Raw(error), Raw(first.buffer)]
    ensures conn.requests == [Plain] && conn.arrived == map[1 := first]
  {
    hide Inv, TagAt, Expected;
    FirstPlain(first);
    conn := new Connection();
    var one := conn.Submit(Plain);
    conn.NoBackend(error);
    var three := conn.Submit(Plain);
    conn.Callback(one[0], first);
    conn.Callback(three[0], third);
    conn.Delivered();
  }

  lemma FirstPlain(first: Reply)
    ensures [] + [Plain] == [Plain] && TagAt([Plain], 0, 1) == Tag(1, None, 1)
    ensures Expected([Plain], InOrder(map[1 := first], 1, 1)) == [Raw(first.buffer)]
  {
    assert InOrder(map[1 := first], 1, 1) == [first] + InOrder(map[1 := first], 2, 1);
    assert Expected([Plain], [first]) == [Raw(first.buffer)] + Expected([Plain][1..], [first][1..]);
  }
}
