/** External word count: segments, combined by word, merged by count, and the sharded variant (mapreduce). */
module WordCount {
  import opened Lists
  import opened Ordering

  type Line<K> = (K, nat)

  /** A text file: its words, and whether white space follows the last one. */
  datatype Text<K> = Text(words: seq<K>, trailing: bool)

  // ----- What lines of words and counts stand for -----

  ghost function Tally<K(!new)>(lines: seq<Line<K>>): multiset<K> {
    if lines == [] then multiset{} else Tally(lines[1..]) + multiset{}[lines[0].0 := lines[0].1]
  }

  ghost function TallyAll<K(!new)>(lists: seq<seq<Line<K>>>): multiset<K> {
    if lists == [] then multiset{} else TallyAll(lists[..|lists| - 1]) + Tally(lists[|lists| - 1])
  }

  ghost function WordsOf<K(!new)>(texts: seq<Text<K>>): multiset<K> {
    if texts == [] then multiset{} else WordsOf(texts[..|texts| - 1]) + multiset(texts[|texts| - 1].words)
  }

  ghost predicate Positive<K>(lines: seq<Line<K>>) {
    forall i :: 0 <= i < |lines| ==> lines[i].1 > 0
  }

  ghost predicate Segment<K(!new)>(cmp: (K, K) -> int, lines: seq<Line<K>>) {
    StrictlySorted(cmp, lines) && Positive(lines)
  }

  /** The result wanted: every word once, with its number, and by number from the highest down. */
  ghost predicate CountsOf<K(!new)>(out: seq<(nat, K)>, total: multiset<K>) {
    && (forall i, j :: 0 <= i < j < |out| ==> out[i].1 != out[j].1)
    && (forall i :: 0 <= i < |out| ==> out[i].0 == total[out[i].1] > 0)
    && (forall w :: w in total ==> (total[w], w) in out)
  }

  ghost predicate Descending<K>(out: seq<(nat, K)>) {
    forall i, j :: 0 <= i < j < |out| ==> out[i].0 >= out[j].0
  }

  // ----- Reading the input -----

  /** One more of a word in an ordered map. */
  function Increment<K(==)>(cmp: (K, K) -> int, counts: seq<Line<K>>, w: K): seq<Line<K>> {
    if counts == [] || cmp(w, counts[0].0) < 0 then [(w, 1)] + counts
    else if w == counts[0].0 then [(w, counts[0].1 + 1)] + counts[1..]
    else [counts[0]] + Increment(cmp, counts[1..], w)
  }

  ghost predicate Mentions<K>(lines: seq<Line<K>>, w: K) {
    exists i :: 0 <= i < |lines| && lines[i].0 == w
  }

  lemma {:induction false} IncrementTally<K(!new)>(cmp: (K, K) -> int, counts: seq<Line<K>>, w: K)
    ensures Tally(Increment(cmp, counts, w)) == Tally(counts) + multiset{w}
  {
    var more := Increment(cmp, counts, w);
    if counts == [] || cmp(w, counts[0].0) < 0 {
      assert more[1..] == counts;
    } else if w == counts[0].0 {
      assert more[1..] == counts[1..];
    } else {
      IncrementTally(cmp, counts[1..], w);
      assert more[1..] == Increment(cmp, counts[1..], w);
    }
  }

  lemma {:induction false} IncrementMentions<K(!new)>(cmp: (K, K) -> int, counts: seq<Line<K>>, w: K, i: nat)
    requires i < |Increment(cmp, counts, w)|
    ensures var x := Increment(cmp, counts, w)[i].0; x == w || Mentions(counts, x)
  {
    var more := Increment(cmp, counts, w);
    if counts == [] || cmp(w, counts[0].0) < 0 {
      if i > 0 {
        assert more[i] == counts[i - 1];
      }
    } else if w == counts[0].0 {
      assert i > 0 ==> more[i] == counts[i];
    } else if i > 0 {
      IncrementMentions(cmp, counts[1..], w, i - 1);
      if more[i].0 != w {
        var j :| 0 <= j < |counts[1..]| && counts[1..][j].0 == more[i].0;
        assert counts[j + 1].0 == more[i].0;
      }
    }
  }

  lemma Trichotomy<K(!new)>(cmp: (K, K) -> int, a: K, b: K)
    requires TotalOrder(cmp)
    ensures cmp(a, b) < 0 || a == b || cmp(b, a) < 0
  {
  }

  /** The rest of a segment is one, and its words are all above the first. */
  lemma SegmentTail<K(!new)>(cmp: (K, K) -> int, counts: seq<Line<K>>, w: K)
    requires Segment(cmp, counts) && counts != []
    ensures Segment(cmp, counts[1..]) && counts[0].1 > 0
    ensures Mentions(counts[1..], w) ==> cmp(counts[0].0, w) < 0
    ensures |counts| > 1 ==> cmp(counts[0].0, counts[1..][0].0) < 0
  {
  }

  lemma {:induction false} IncrementSorted<K(!new)>(cmp: (K, K) -> int, counts: seq<Line<K>>, w: K)
    requires TotalOrder(cmp) && Segment(cmp, counts)
    ensures Segment(cmp, Increment(cmp, counts, w))
  {
    hide TotalOrder, Segment, Mentions;
    if counts == [] || cmp(w, counts[0].0) < 0 {
      InFront(cmp, (w, 1), counts);
    } else {
      SegmentTail(cmp, counts, w);
      if w == counts[0].0 {
        InFront(cmp, (w, counts[0].1 + 1), counts[1..]);
      } else {
        Trichotomy(cmp, w, counts[0].0);
        IncrementSorted(cmp, counts[1..], w);
        var rest := Increment(cmp, counts[1..], w);
        IncrementMentions(cmp, counts[1..], w, 0);
        SegmentTail(cmp, counts, rest[0].0);
        InFront(cmp, counts[0], rest);
      }
    }
  }

  lemma InFront<K(!new)>(cmp: (K, K) -> int, x: Line<K>, lines: seq<Line<K>>)
    requires TotalOrder(cmp) && Segment(cmp, lines) && x.1 > 0
    requires lines == [] || cmp(x.0, lines[0].0) < 0
    ensures Segment(cmp, [x] + lines)
  {
    forall j | 0 <= j < |lines|
      ensures cmp(x.0, lines[j].0) < 0
    {
      if j > 0 {
        assert cmp(lines[0].0, lines[j].0) < 0;
      }
    }
  }

  /** The words from `start` on up to the end or to the first split. */
  method ReadSegment<K(!new,==)>(cmp: (K, K) -> int, words: seq<K>, start: nat, limit: nat)
    returns (counts: seq<Line<K>>, pos: nat, split: bool)
    requires TotalOrder(cmp) && start <= |words|
    ensures start <= pos <= |words| && (split ==> pos > start) && (!split ==> pos == |words|)
    ensures Segment(cmp, counts) && Tally(counts) == multiset(words[start..pos])
  {
    hide TotalOrder, StrictlySorted, Positive, Tally, Increment;
    counts, pos, split := [], start, false;
    NoLines<K>(cmp);
    while pos < |words| && !split
      invariant start <= pos <= |words| && (split ==> pos > start)
      invariant Segment(cmp, counts) && Tally(counts) == multiset(words[start..pos])
      decreases |words| - pos
    {
      IncrementSorted(cmp, counts, words[pos]);
      IncrementTally(cmp, counts, words[pos]);
      assert words[start..pos + 1] == words[start..pos] + [words[pos]];
      counts := Increment(cmp, counts, words[pos]);
      pos := pos + 1;
      split := |counts| > limit;
    }
  }

  lemma AddList<K(!new)>(lists: seq<seq<Line<K>>>, one: seq<Line<K>>)
    ensures TallyAll(lists + [one]) == TallyAll(lists) + Tally(one)
  {
    assert (lists + [one])[..|lists|] == lists;
  }

  lemma SplitWords<K>(words: seq<K>, a: nat, b: nat)
    requires a <= b <= |words|
    ensures multiset(words[..a]) + multiset(words[a..b]) == multiset(words[..b])
  {
    assert words[..b] == words[..a] + words[a..b];
  }

  /** One file, in segments of little more than `limit` distinct words. */
  method InputFile<K(!new,==)>(cmp: (K, K) -> int, text: Text<K>, limit: nat) returns (segments: seq<seq<Line<K>>>)
    requires TotalOrder(cmp)
    ensures forall s :: 0 <= s < |segments| ==> Segment(cmp, segments[s])
    ensures TallyAll(segments) == multiset(text.words)
  {
    hide TotalOrder, Segment, Tally, TallyAll;
    segments := [];
    var pos, more := 0, true;
    NoLists<K>();
    while more
      invariant pos <= |text.words|
      invariant forall s :: 0 <= s < |segments| ==> Segment(cmp, segments[s])
      invariant TallyAll(segments) == multiset(text.words[..pos])
      invariant !more ==> pos == |text.words|
      decreases |text.words| - pos, more
    {
      var counts, next, split := ReadSegment(cmp, text.words, pos, limit);
      AddList(segments, counts);
      SplitWords(text.words, pos, next);
      segments := segments + [counts];
      pos := next;
      more := split && (pos < |text.words| || text.trailing);
    }
    assert text.words[..pos] == text.words;
  }

  lemma NoLists<K(!new)>()
    ensures TallyAll<K>([]) == multiset{}
  {
  }

  /** All files, one after the other. */
  method Input<K(!new,==)>(cmp: (K, K) -> int, texts: seq<Text<K>>, limit: nat) returns (segments: seq<seq<Line<K>>>)
    requires TotalOrder(cmp)
    ensures forall s :: 0 <= s < |segments| ==> Segment(cmp, segments[s])
    ensures TallyAll(segments) == WordsOf(texts)
  {
    hide TotalOrder, Segment, Tally, TallyAll, WordsOf;
    segments := [];
    NoLists<K>();
    NoTexts<K>();
    assert texts[..0] == [];
    for t := 0 to |texts|
      invariant forall s :: 0 <= s < |segments| ==> Segment(cmp, segments[s])
      invariant TallyAll(segments) == WordsOf(texts[..t])
    {
      var more := InputFile(cmp, texts[t], limit);
      AddLists(segments, more);
      NextText(texts, t);
      segments := segments + more;
    }
    assert texts[..|texts|] == texts;
  }

  lemma NoTexts<K(!new)>()
    ensures WordsOf<K>([]) == multiset{}
  {
  }

  lemma NextText<K(!new)>(texts: seq<Text<K>>, t: nat)
    requires t < |texts|
    ensures WordsOf(texts[..t + 1]) == WordsOf(texts[..t]) + multiset(texts[t].words)
  {
    assert texts[..t + 1][..t] == texts[..t];
  }

  lemma {:induction false} AddLists<K(!new)>(a: seq<seq<Line<K>>>, b: seq<seq<Line<K>>>)
    ensures TallyAll(a + b) == TallyAll(a) + TallyAll(b)
    decreases |b|
  {
    if b == [] {
      assert a + b == a;
    } else {
      assert (a + b)[..|a + b| - 1] == a + b[..|b| - 1];
      AddLists(a, b[..|b| - 1]);
    }
  }

  lemma NoLines<K(!new)>(cmp: (K, K) -> int)
    ensures Segment<K>(cmp, []) && Tally<K>([]) == multiset{}
  {
  }

  // ----- Count files -----

  /** The pairs of number and word that a table of counts stands for. */
  ghost function Entries<K(!new)>(counts: map<K, nat>): set<(nat, K)> {
    set w | w in counts :: (counts[w], w)
  }

  lemma EntriesWithout<K(!new)>(counts: map<K, nat>, w: K)
    requires w in counts
    ensures Entries(counts) == Entries(counts - {w}) + {(counts[w], w)}
    ensures (counts[w], w) !in Entries(counts - {w})
  {
    var rest := counts - {w};
    forall x | x in Entries(counts)
      ensures x in Entries(rest) + {(counts[w], w)}
    {
      if x.1 != w {
        assert x.1 in rest && rest[x.1] == counts[x.1];
      }
    }
  }

  lemma EntriesJoin<K(!new)>(a: map<K, nat>, b: map<K, nat>)
    requires a.Keys !! b.Keys
    ensures multiset(Entries(a + b)) == multiset(Entries(a)) + multiset(Entries(b))
  {
    forall x: (nat, K)
      ensures x in Entries(a + b) <==> x in Entries(a) || x in Entries(b)
      ensures !(x in Entries(a) && x in Entries(b))
    {
      if x.1 in a + b {
        assert (a + b)[x.1] == if x.1 in b then b[x.1] else a[x.1];
      }
    }
  }

  /** The order of a count file: by number, then by word, from the highest down. */
  predicate Above<K>(cmp: (K, K) -> int, a: (nat, K), b: (nat, K)) {
    a.0 > b.0 || (a.0 == b.0 && cmp(a.1, b.1) > 0)
  }

  ghost predicate Down<K>(cmp: (K, K) -> int, out: seq<(nat, K)>) {
    forall i, j :: 0 <= i < j < |out| ==> Above(cmp, out[i], out[j])
  }

  /** The numbers do not increase, and equal ones have their words from the highest down. */
  lemma DownIs<K>(cmp: (K, K) -> int, out: seq<(nat, K)>)
    ensures Down(cmp, out) <==>
      forall i, j :: 0 <= i < j < |out| ==>
        out[i].0 >= out[j].0 && (out[i].0 == out[j].0 ==> cmp(out[i].1, out[j].1) > 0)
  {
  }

  function InsertDown<K>(cmp: (K, K) -> int, out: seq<(nat, K)>, x: (nat, K)): seq<(nat, K)> {
    if out == [] || Above(cmp, x, out[0]) then [x] + out else [out[0]] + InsertDown(cmp, out[1..], x)
  }

  lemma {:induction false} InsertDownHas<K(!new)>(cmp: (K, K) -> int, out: seq<(nat, K)>, x: (nat, K))
    ensures multiset(InsertDown(cmp, out, x)) == multiset(out) + multiset{x}
  {
    if out == [] || Above(cmp, x, out[0]) {
    } else {
      InsertDownHas(cmp, out[1..], x);
      assert out == [out[0]] + out[1..];
    }
  }

  lemma AboveChain<K(!new)>(cmp: (K, K) -> int, a: (nat, K), b: (nat, K), c: (nat, K))
    requires TotalOrder(cmp)
    ensures Above(cmp, a, b) && Above(cmp, b, c) ==> Above(cmp, a, c)
    ensures a != b && !Above(cmp, a, b) ==> Above(cmp, b, a)
  {
    assert cmp(a.1, b.1) > 0 <==> cmp(b.1, a.1) < 0;
    assert cmp(b.1, c.1) > 0 <==> cmp(c.1, b.1) < 0;
    assert cmp(a.1, c.1) > 0 <==> cmp(c.1, a.1) < 0;
  }

  lemma {:induction false} InsertDownSorts<K(!new)>(cmp: (K, K) -> int, out: seq<(nat, K)>, x: (nat, K))
    requires TotalOrder(cmp) && Down(cmp, out) && x !in out
    ensures Down(cmp, InsertDown(cmp, out, x))
  {
    hide TotalOrder, Above;
    if out == [] || Above(cmp, x, out[0]) {
      forall j | 0 <= j < |out|
        ensures Above(cmp, x, out[j])
      {
        if j > 0 {
          AboveChain(cmp, x, out[0], out[j]);
        }
      }
    } else {
      InsertDownSorts(cmp, out[1..], x);
      InsertDownHas(cmp, out[1..], x);
      AboveChain(cmp, x, out[0], x);
      var rest := InsertDown(cmp, out[1..], x);
      forall j | 0 <= j < |rest|
        ensures Above(cmp, out[0], rest[j])
      {
        assert rest[j] in multiset(rest);
        if rest[j] != x {
          assert rest[j] in out[1..];
        }
      }
    }
  }

  /** Write a table of counts as a file. */
  method Output<K(!new,==)>(cmp: (K, K) -> int, counts: map<K, nat>) returns (out: seq<(nat, K)>)
    requires TotalOrder(cmp)
    ensures Down(cmp, out) && multiset(out) == multiset(Entries(counts))
  {
    hide TotalOrder, Above, Entries, InsertDown, Down;
    out := [];
    ghost var done: map<K, nat> := map[];
    var rest := counts;
    NothingCounted<K>(cmp);
    while rest != map[]
      invariant Down(cmp, out)
      invariant multiset(out) + multiset(Entries(rest)) == multiset(Entries(counts))
      decreases |rest|
    {
      var w :| w in rest;
      var x := (rest[w], w);
      EntriesWithout(rest, w);
      assert x !in out by {
        OnlyOnce(multiset(out), Entries(rest), Entries(counts), x);
      }
      InsertDownHas(cmp, out, x);
      InsertDownSorts(cmp, out, x);
      out := InsertDown(cmp, out, x);
      rest := rest - {w};
    }
  }

  lemma NothingCounted<K(!new)>(cmp: (K, K) -> int)
    ensures Down<K>(cmp, []) && Entries<K>(map[]) == {}
  {
  }

  lemma OnlyOnce<T>(out: multiset<T>, rest: set<T>, all: set<T>, x: T)
    requires out + multiset(rest) == multiset(all) && x in rest
    ensures x !in out
  {
    assert multiset(all)[x] <= 1;
    assert multiset(rest)[x] == 1;
  }

  // ----- Combining by word -----

  /** How often the table counts a word. */
  function InTable<K>(counts: map<K, nat>, w: K): nat { if w in counts then counts[w] else 0 }

  ghost predicate Streams<K(!new)>(cmp: (K, K) -> int, keys: seq<seq<Line<K>>>) {
    forall k :: 0 <= k < |keys| ==> keys[k] != [] && Segment(cmp, keys[k])
  }

  /** Move past the first line of stream i; a stream that has ended is dropped. */
  function Advance<T>(keys: seq<seq<T>>, i: nat): seq<seq<T>>
    requires i < |keys| && keys[i] != []
  {
    if |keys[i]| > 1 then keys[i := keys[i][1..]] else keys[..i] + keys[i + 1..]
  }

  lemma {:induction false} TallyWithout<K(!new)>(keys: seq<seq<Line<K>>>, i: nat)
    requires i < |keys|
    ensures TallyAll(keys) == TallyAll(keys[..i] + keys[i + 1..]) + Tally(keys[i])
    decreases |keys|
  {
    hide Tally;
    var n := |keys| - 1;
    if i == n {
      assert keys[..i] + keys[i + 1..] == keys[..n];
    } else {
      TallyWithout(keys[..n], i);
      assert (keys[..i] + keys[i + 1..])[..n - 1] == keys[..n][..i] + keys[..n][i + 1..];
    }
  }

  lemma TallyAdvance<K(!new)>(keys: seq<seq<Line<K>>>, i: nat)
    requires i < |keys| && keys[i] != []
    ensures TallyAll(keys) == TallyAll(Advance(keys, i)) + multiset{}[keys[i][0].0 := keys[i][0].1]
  {
    hide TallyAll;
    TallyWithout(keys, i);
    if |keys[i]| > 1 {
      var more := Advance(keys, i);
      TallyWithout(more, i);
      assert more[..i] + more[i + 1..] == keys[..i] + keys[i + 1..];
    } else {
      assert keys[i][1..] == [];
    }
  }

  /** Every line that is left is a line of the streams before. */
  lemma AdvanceFrom<T>(keys: seq<seq<T>>, i: nat, k: nat, j: nat) returns (k': nat, j': nat)
    requires i < |keys| && keys[i] != [] && k < |Advance(keys, i)| && j < |Advance(keys, i)[k]|
    ensures k' < |keys| && j' < |keys[k']| && keys[k'][j'] == Advance(keys, i)[k][j]
  {
    if |keys[i]| > 1 {
      k', j' := k, if k == i then j + 1 else j;
    } else {
      k', j' := if k < i then k else k + 1, j;
    }
  }

  lemma AdvanceStreams<K(!new)>(cmp: (K, K) -> int, keys: seq<seq<Line<K>>>, i: nat)
    requires Streams(cmp, keys) && i < |keys|
    ensures Streams(cmp, Advance(keys, i))
  {
  }

  /** The stream with the least word at its head, as the heap finds it. */
  method PopLeast<K(!new,==)>(cmp: (K, K) -> int, keys: seq<seq<Line<K>>>) returns (i: nat)
    requires TotalOrder(cmp) && Streams(cmp, keys) && keys != []
    ensures i < |keys|
    ensures forall k, j :: 0 <= k < |keys| && 0 <= j < |keys[k]| ==> cmp(keys[i][0].0, keys[k][j].0) <= 0
  {
    i := 0;
    for k := 1 to |keys|
      invariant i < |keys|
      invariant forall m :: 0 <= m < k ==> cmp(keys[i][0].0, keys[m][0].0) <= 0
    {
      if cmp(keys[k][0].0, keys[i][0].0) < 0 {
        i := k;
      }
    }
    LeastOfAll(cmp, keys, i);
  }

  lemma LeastOfAll<K(!new)>(cmp: (K, K) -> int, keys: seq<seq<Line<K>>>, i: nat)
    requires TotalOrder(cmp) && Streams(cmp, keys) && i < |keys|
    requires forall m :: 0 <= m < |keys| ==> cmp(keys[i][0].0, keys[m][0].0) <= 0
    ensures forall k, j :: 0 <= k < |keys| && 0 <= j < |keys[k]| ==> cmp(keys[i][0].0, keys[k][j].0) <= 0
  {
    forall k, j | 0 <= k < |keys| && 0 <= j < |keys[k]|
      ensures cmp(keys[i][0].0, keys[k][j].0) <= 0
    {
      if j > 0 {
        assert cmp(keys[k][0].0, keys[k][j].0) < 0;
      }
    }
  }

  /** All that is left is at or above a word. */
  ghost predicate From<K>(cmp: (K, K) -> int, keys: seq<seq<Line<K>>>, w: K) {
    forall k, j :: 0 <= k < |keys| && 0 <= j < |keys[k]| ==> cmp(w, keys[k][j].0) <= 0
  }

  ghost predicate Beyond<K>(cmp: (K, K) -> int, keys: seq<seq<Line<K>>>, w: K) {
    forall k, j :: 0 <= k < |keys| && 0 <= j < |keys[k]| ==> cmp(w, keys[k][j].0) < 0
  }

  /** Between the words written out (done), the table, and the streams nothing is lost, and no word is in two. */
  ghost predicate Combining<K(!new)>(
    cmp: (K, K) -> int, total: multiset<K>, done: map<K, nat>, counts: map<K, nat>, keys: seq<seq<Line<K>>>,
    last: Option<K>)
  {
    && Streams(cmp, keys) && done.Keys !! counts.Keys
    && (forall w :: total[w] == InTable(done, w) + InTable(counts, w) + TallyAll(keys)[w])
    && (forall w :: w in done ==> done[w] > 0 && Beyond(cmp, keys, w))
    && (forall w :: w in counts ==> counts[w] > 0 && last.Some? && cmp(w, last.value) <= 0)
    && (last.Some? ==> From(cmp, keys, last.value))
  }

  lemma BelowNext<K(!new)>(cmp: (K, K) -> int, keys: seq<seq<Line<K>>>, v: K, last: K, w: K)
    requires TotalOrder(cmp) && cmp(v, last) <= 0 && cmp(last, w) < 0 && From(cmp, keys, w)
    ensures Beyond(cmp, keys, v)
  {
    forall k, j | 0 <= k < |keys| && 0 <= j < |keys[k]|
      ensures cmp(v, keys[k][j].0) < 0
    {
      assert cmp(w, keys[k][j].0) <= 0;
    }
  }

  lemma WithinLast<K(!new)>(cmp: (K, K) -> int, v: K, last: K, w: K)
    requires TotalOrder(cmp) && cmp(v, last) <= 0 && cmp(last, w) < 0
    ensures cmp(v, w) <= 0
  {
  }

  /** A new word is next: the table may be written out, and stays below what is left. */
  lemma NextWord<K(!new)>(
    cmp: (K, K) -> int, total: multiset<K>, done: map<K, nat>, counts: map<K, nat>, keys: seq<seq<Line<K>>>,
    last: Option<K>, w: K)
    requires TotalOrder(cmp) && Combining(cmp, total, done, counts, keys, last) && From(cmp, keys, w)
    requires last.Some? ==> cmp(last.value, w) < 0
    ensures Combining(cmp, total, done, counts, keys, Some(w))
    ensures Combining(cmp, total, done + counts, map[], keys, Some(w))
  {
    hide TotalOrder, TallyAll, Streams, Beyond, From;
    forall v | v in counts
      ensures cmp(v, w) <= 0 && Beyond(cmp, keys, v)
    {
      WithinLast(cmp, v, last.value, w);
      BelowNext(cmp, keys, v, last.value, w);
    }
    forall v: K
      ensures InTable(done + counts, v) + InTable(map[], v) == InTable(done, v) + InTable(counts, v)
    {
    }
  }

  lemma AdvanceKeeps<K(!new)>(cmp: (K, K) -> int, keys: seq<seq<Line<K>>>, i: nat, v: K)
    requires i < |keys| && keys[i] != []
    ensures Beyond(cmp, keys, v) ==> Beyond(cmp, Advance(keys, i), v)
    ensures From(cmp, keys, v) ==> From(cmp, Advance(keys, i), v)
  {
    hide Advance;
    var more: seq<seq<Line<K>>> := Advance(keys, i);
    forall k, j | 0 <= k < |more| && 0 <= j < |more[k]|
      ensures Beyond(cmp, keys, v) ==> cmp(v, more[k][j].0) < 0
      ensures From(cmp, keys, v) ==> cmp(v, more[k][j].0) <= 0
    {
      var k', j' := AdvanceFrom(keys, i, k, j);
    }
  }

  /** The head of a stream is positive and not beyond itself. */
  lemma HeadIs<K(!new)>(cmp: (K, K) -> int, keys: seq<seq<Line<K>>>, i: nat)
    requires TotalOrder(cmp) && Streams(cmp, keys) && i < |keys|
    ensures keys[i][0].1 > 0 && cmp(keys[i][0].0, keys[i][0].0) == 0 && !Beyond(cmp, keys, keys[i][0].0)
  {
    assert cmp(keys[i][0].0, keys[i][0].0) == 0;
  }

  lemma TakeCounts<K(!new)>(keys: seq<seq<Line<K>>>, i: nat, counts: map<K, nat>, v: K)
    requires i < |keys| && keys[i] != []
    ensures var w, n := keys[i][0].0, keys[i][0].1;
      InTable(counts[w := InTable(counts, w) + n], v) + TallyAll(Advance(keys, i))[v] ==
        InTable(counts, v) + TallyAll(keys)[v]
  {
    hide TallyAll, Advance;
    TallyAdvance(keys, i);
  }

  /** The line at the head of a stream goes into the table. */
  lemma TakeLine<K(!new)>(
    cmp: (K, K) -> int, total: multiset<K>, done: map<K, nat>, counts: map<K, nat>, keys: seq<seq<Line<K>>>, i: nat)
    requires TotalOrder(cmp) && i < |keys| && keys[i] != []
    requires Combining(cmp, total, done, counts, keys, Some(keys[i][0].0))
    ensures var w, n := keys[i][0].0, keys[i][0].1;
      Combining(cmp, total, done, counts[w := InTable(counts, w) + n], Advance(keys, i), Some(w))
  {
    hide TotalOrder, TallyAll, Streams, Advance, InTable, From, Beyond;
    var w, n := keys[i][0].0, keys[i][0].1;
    AdvanceStreams(cmp, keys, i);
    HeadIs(cmp, keys, i);
    forall v: K
      ensures InTable(done, v) + InTable(counts[w := InTable(counts, w) + n], v) + TallyAll(Advance(keys, i))[v] ==
        total[v]
      ensures Beyond(cmp, keys, v) ==> Beyond(cmp, Advance(keys, i), v)
      ensures From(cmp, keys, v) ==> From(cmp, Advance(keys, i), v)
    {
      TakeCounts(keys, i, counts, v);
      AdvanceKeeps(cmp, keys, i, v);
    }
  }

  // ----- The combining loop -----

  lemma FlatNext<T>(files: seq<seq<T>>, one: seq<T>)
    ensures multiset(Flatten(files + [one])) == multiset(Flatten(files)) + multiset(one)
  {
    FlattenAppend(files, one);
  }

  /** The streams to start with: the segments that hold anything. */
  method OpenStreams<K(!new,==)>(cmp: (K, K) -> int, segments: seq<seq<Line<K>>>) returns (keys: seq<seq<Line<K>>>)
    requires forall s :: 0 <= s < |segments| ==> Segment(cmp, segments[s])
    ensures Streams(cmp, keys) && TallyAll(keys) == TallyAll(segments)
  {
    hide Segment, Tally, TallyAll;
    keys := [];
    NoLists<K>();
    assert segments[..0] == [];
    for s := 0 to |segments|
      invariant Streams(cmp, keys) && TallyAll(keys) == TallyAll(segments[..s])
    {
      assert segments[..s + 1] == segments[..s] + [segments[s]];
      AddList(segments[..s], segments[s]);
      if segments[s] != [] {
        AddList(keys, segments[s]);
        keys := keys + [segments[s]];
      } else {
        NoLines<K>(cmp);
      }
    }
    assert segments[..|segments|] == segments;
  }

  lemma StartCombining<K(!new)>(cmp: (K, K) -> int, keys: seq<seq<Line<K>>>)
    requires Streams(cmp, keys)
    ensures Combining(cmp, TallyAll(keys), map[], map[], keys, None)
  {
  }

  /** Merge segments by word into files of counts; a word is never divided between two files. */
  method Combine<K(!new,==)>(cmp: (K, K) -> int, segments: seq<seq<Line<K>>>, limit: nat)
    returns (files: seq<seq<(nat, K)>>, ghost done: map<K, nat>)
    requires TotalOrder(cmp) && forall s :: 0 <= s < |segments| ==> Segment(cmp, segments[s])
    ensures forall f :: 0 <= f < |files| ==> Down(cmp, files[f])
    ensures multiset(Flatten(files)) == multiset(Entries(done))
    ensures forall w :: TallyAll(segments)[w] == InTable(done, w) && (w in done ==> done[w] > 0)
  {
    hide TotalOrder, Segment, TallyAll, Entries, Down, Combining, Flatten, Streams, Advance;
    ghost var total := TallyAll(segments);
    var keys := OpenStreams(cmp, segments);
    StartCombining(cmp, keys);
    var last: Option<K>, counts: map<K, nat> := None, map[];
    files, done := [], map[];
    NothingCounted<K>(cmp);
    NoFiles<(nat, K)>();
    while keys != []
      invariant Streams(cmp, keys) && Combining(cmp, total, done, counts, keys, last)
      invariant forall f :: 0 <= f < |files| ==> Down(cmp, files[f])
      invariant multiset(Flatten(files)) == multiset(Entries(done))
      decreases Lines(keys)
    {
      var i := PopLeast(cmp, keys);
      StreamIs(cmp, keys, i);
      var w, n := keys[i][0].0, keys[i][0].1;
      LastIsBelow(cmp, total, done, counts, keys, last, i);
      if last != Some(w) {
        NextWord(cmp, total, done, counts, keys, last, w);
        last := Some(w);
        if |counts| > limit {
          var out := Output(cmp, counts);
          FlatNext(files, out);
          DoneJoins(cmp, total, done, counts, keys, last);
          files, done, counts := files + [out], done + counts, map[];
        }
      }
      TakeLine(cmp, total, done, counts, keys, i);
      AdvanceStreams(cmp, keys, i);
      FewerLines(keys, i);
      counts := counts[w := (if w in counts then counts[w] else 0) + n];
      keys := Advance(keys, i);
    }
    DoneJoins(cmp, total, done, counts, keys, last);
    CombinedAll(cmp, total, done, counts, keys, last);
    if counts != map[] {
      var out := Output(cmp, counts);
      FlatNext(files, out);
      files := files + [out];
      done := done + counts;
    }
  }

  function Lines<T>(keys: seq<seq<T>>): nat {
    if keys == [] then 0 else Lines(keys[..|keys| - 1]) + |keys[|keys| - 1]|
  }

  lemma {:induction false} LinesWithout<T>(keys: seq<seq<T>>, i: nat)
    requires i < |keys|
    ensures Lines(keys) == Lines(keys[..i] + keys[i + 1..]) + |keys[i]|
    decreases |keys|
  {
    var n := |keys| - 1;
    if i == n {
      assert keys[..i] + keys[i + 1..] == keys[..n];
    } else {
      LinesWithout(keys[..n], i);
      assert (keys[..i] + keys[i + 1..])[..n - 1] == keys[..n][..i] + keys[..n][i + 1..];
    }
  }

  lemma FewerLines<T>(keys: seq<seq<T>>, i: nat)
    requires i < |keys| && keys[i] != []
    ensures Lines(Advance(keys, i)) < Lines(keys)
  {
    LinesWithout(keys, i);
    if |keys[i]| > 1 {
      var more := Advance(keys, i);
      LinesWithout(more, i);
      assert more[..i] + more[i + 1..] == keys[..i] + keys[i + 1..];
    }
  }

  lemma NoFiles<T>()
    ensures Flatten<T>([]) == []
  {
  }

  lemma StreamIs<K(!new)>(cmp: (K, K) -> int, keys: seq<seq<Line<K>>>, i: nat)
    requires Streams(cmp, keys) && i < |keys|
    ensures keys[i] != []
  {
  }

  lemma LastIsBelow<K(!new)>(
    cmp: (K, K) -> int, total: multiset<K>, done: map<K, nat>, counts: map<K, nat>, keys: seq<seq<Line<K>>>,
    last: Option<K>, i: nat)
    requires TotalOrder(cmp) && Combining(cmp, total, done, counts, keys, last) && i < |keys| && keys[i] != []
    requires forall k, j :: 0 <= k < |keys| && 0 <= j < |keys[k]| ==> cmp(keys[i][0].0, keys[k][j].0) <= 0
    ensures From(cmp, keys, keys[i][0].0)
    ensures last.Some? && last != Some(keys[i][0].0) ==> cmp(last.value, keys[i][0].0) < 0
  {
  }

  lemma DoneJoins<K(!new)>(
    cmp: (K, K) -> int, total: multiset<K>, done: map<K, nat>, counts: map<K, nat>, keys: seq<seq<Line<K>>>,
    last: Option<K>)
    requires Combining(cmp, total, done, counts, keys, last)
    ensures multiset(Entries(done + counts)) == multiset(Entries(done)) + multiset(Entries(counts))
  {
    hide Entries;
    EntriesJoin(done, counts);
  }

  lemma CombinedAll<K(!new)>(
    cmp: (K, K) -> int, total: multiset<K>, done: map<K, nat>, counts: map<K, nat>, keys: seq<seq<Line<K>>>,
    last: Option<K>)
    requires Combining(cmp, total, done, counts, keys, last) && keys == []
    ensures forall w :: total[w] == InTable(done + counts, w) && (w in done + counts ==> (done + counts)[w] > 0)
    ensures counts == map[] ==> done + counts == done
  {
  }

  // ----- Merging by number -----

  lemma {:induction false} FlatWithout<T>(keys: seq<seq<T>>, i: nat)
    requires i < |keys|
    ensures multiset(Flatten(keys)) == multiset(Flatten(keys[..i] + keys[i + 1..])) + multiset(keys[i])
    decreases |keys|
  {
    hide Flatten;
    var n := |keys| - 1;
    if i == n {
      FlatLast(keys);
      assert keys[..i] + keys[i + 1..] == keys[..n];
    } else {
      FlatWithout(keys[..n], i);
      var rest := keys[..i] + keys[i + 1..];
      assert rest[..n - 1] == keys[..n][..i] + keys[..n][i + 1..] && rest[n - 1] == keys[n];
      FlatLast(rest);
      FlatLast(keys);
    }
  }

  lemma FlatLast<T>(files: seq<seq<T>>)
    requires files != []
    ensures multiset(Flatten(files)) == multiset(Flatten(files[..|files| - 1])) + multiset(files[|files| - 1])
  {
  }

  lemma FlatAdvance<T>(keys: seq<seq<T>>, i: nat)
    requires i < |keys| && keys[i] != []
    ensures multiset(Flatten(keys)) == multiset(Flatten(Advance(keys, i))) + multiset{keys[i][0]}
  {
    hide Flatten;
    FlatWithout(keys, i);
    assert keys[i] == [keys[i][0]] + keys[i][1..];
    if |keys[i]| > 1 {
      var more := Advance(keys, i);
      FlatWithout(more, i);
      assert more[..i] + more[i + 1..] == keys[..i] + keys[i + 1..];
    }
  }

  ghost predicate Files<K>(keys: seq<seq<(nat, K)>>) {
    forall k :: 0 <= k < |keys| ==> keys[k] != [] && Descending(keys[k])
  }

  ghost predicate AtMost<K>(keys: seq<seq<(nat, K)>>, n: nat) {
    forall k, j :: 0 <= k < |keys| && 0 <= j < |keys[k]| ==> keys[k][j].0 <= n
  }

  /** The file with the greatest number at its head, as the heap finds it. */
  method PopMost<K>(keys: seq<seq<(nat, K)>>) returns (i: nat)
    requires Files(keys) && keys != []
    ensures i < |keys| && AtMost(keys, keys[i][0].0)
  {
    i := 0;
    for k := 1 to |keys|
      invariant i < |keys|
      invariant forall m :: 0 <= m < k ==> keys[m][0].0 <= keys[i][0].0
    {
      if keys[i][0].0 < keys[k][0].0 {
        i := k;
      }
    }
  }

  lemma AdvanceFiles<K>(keys: seq<seq<(nat, K)>>, i: nat, n: nat)
    requires Files(keys) && i < |keys| && AtMost(keys, n)
    ensures Files(Advance(keys, i)) && AtMost(Advance(keys, i), n)
  {
  }

  lemma DownDescends<K(!new)>(cmp: (K, K) -> int, out: seq<(nat, K)>)
    requires Down(cmp, out)
    ensures Descending(out)
  {
  }

  /** Merge the count files into the output. */
  method Merge<K(==)>(files: seq<seq<(nat, K)>>) returns (out: seq<(nat, K)>)
    requires forall f :: 0 <= f < |files| ==> Descending(files[f])
    ensures Descending(out) && multiset(out) == multiset(Flatten(files))
  {
    hide Flatten, Advance, AtMost, Descending;
    var keys: seq<seq<(nat, K)>> := [];
    NoneDescend<K>();
    assert files[..0] == [];
    for f := 0 to |files|
      invariant Files(keys) && multiset(Flatten(keys)) == multiset(Flatten(files[..f]))
    {
      assert files[..f + 1] == files[..f] + [files[f]];
      FlatNext(files[..f], files[f]);
      if files[f] != [] {
        FlatNext(keys, files[f]);
        keys := keys + [files[f]];
      }
    }
    assert files[..|files|] == files;
    out := [];
    NoFiles<(nat, K)>();
    while keys != []
      invariant Files(keys) && Descending(out)
      invariant multiset(out) + multiset(Flatten(keys)) == multiset(Flatten(files))
      invariant out != [] ==> AtMost(keys, out[|out| - 1].0)
      decreases Lines(keys)
    {
      var i := PopMost(keys);
      var x := keys[i][0];
      MergeStep(out, keys, i, multiset(Flatten(files)));
      FewerLines(keys, i);
      AdvanceFiles(keys, i, x.0);
      if out != [] {
        HeadAtMost(keys, i, out[|out| - 1].0);
      }
      DescendingNext(out, x);
      out := out + [x];
      keys := Advance(keys, i);
    }
  }

  /** Moving a line to the output keeps all lines. */
  lemma MergeStep<T>(out: seq<T>, keys: seq<seq<T>>, i: nat, all: multiset<T>)
    requires i < |keys| && keys[i] != [] && multiset(out) + multiset(Flatten(keys)) == all
    ensures multiset(out + [keys[i][0]]) + multiset(Flatten(Advance(keys, i))) == all
  {
    hide Flatten, Advance;
    FlatAdvance(keys, i);
  }

  lemma DescendingNext<K>(out: seq<(nat, K)>, x: (nat, K))
    requires Descending(out) && (out != [] ==> x.0 <= out[|out| - 1].0)
    ensures Descending(out + [x])
  {
  }

  lemma NoneDescend<K>()
    ensures Descending<K>([])
  {
  }

  lemma HeadAtMost<K>(keys: seq<seq<(nat, K)>>, i: nat, n: nat)
    requires AtMost(keys, n) && i < |keys| && keys[i] != []
    ensures keys[i][0].0 <= n
  {
  }

  // ----- The whole job -----

  /** Lines that are exactly the entries of a table are its counts, each word once. */
  lemma {:induction false} EntriesAreCounts<K(!new)>(out: seq<(nat, K)>, done: map<K, nat>, total: multiset<K>)
    requires multiset(out) == multiset(Entries(done))
    requires forall w :: total[w] == InTable(done, w) && (w in done ==> done[w] > 0)
    ensures CountsOf(out, total)
  {
    forall i | 0 <= i < |out|
      ensures out[i].1 in done && out[i].0 == done[out[i].1]
    {
      assert out[i] in multiset(out);
      assert out[i] in Entries(done);
    }
    forall i, j | 0 <= i < j < |out|
      ensures out[i].1 != out[j].1
    {
      if out[i] == out[j] {
        Twice(out, i, j);
      }
      assert multiset(Entries(done))[out[i]] <= 1;
    }
    forall w | w in total
      ensures (total[w], w) in out
    {
      assert (done[w], w) in Entries(done);
      assert (done[w], w) in multiset(out);
    }
  }

  lemma Twice<T>(xs: seq<T>, i: nat, j: nat)
    requires i < j < |xs| && xs[i] == xs[j]
    ensures multiset(xs)[xs[i]] >= 2
  {
    assert xs == xs[..j] + [xs[j]] + xs[j + 1..];
    assert xs[i] in xs[..j];
    assert xs[i] in multiset(xs[..j]);
  }

  /**
   * For any files and any limits on the size of the tables: the output has every word of the files once, with
   * the exact number of its occurrences, by number from the highest down.
   */
  method MasterSort<K(!new,==)>(cmp: (K, K) -> int, texts: seq<Text<K>>, limit: nat) returns (out: seq<(nat, K)>)
    requires TotalOrder(cmp)
    ensures CountsOf(out, WordsOf(texts)) && Descending(out)
  {
    hide TotalOrder, CountsOf, WordsOf, Segment, TallyAll, Flatten, Entries, Down;
    var segments := Input(cmp, texts, limit);
    ghost var done;
    var files;
    files, done := Combine(cmp, segments, limit);
    forall f | 0 <= f < |files|
      ensures Descending(files[f])
    {
      DownDescends(cmp, files[f]);
    }
    out := Merge(files);
    EntriesAreCounts(out, done, WordsOf(texts));
  }

  // ----- The variant with shards -----

  ghost predicate Sharded<K>(hash: K -> nat, shards: seq<seq<Line<K>>>) {
    forall b, i :: 0 <= b < |shards| && 0 <= i < |shards[b]| ==> hash(shards[b][i].0) % |shards| == b
  }

  lemma ShardNext<K(!new)>(hash: K -> nat, shards: seq<seq<Line<K>>>, x: Line<K>)
    requires Sharded(hash, shards) && shards != []
    ensures var b := hash(x.0) % |shards|; var more := shards[b := shards[b] + [x]];
      Sharded(hash, more) && TallyAll(more) == TallyAll(shards) + multiset{}[x.0 := x.1]
  {
    hide Tally, TallyAll;
    var b := hash(x.0) % |shards|;
    var more := shards[b := shards[b] + [x]];
    TallyWithout(shards, b);
    TallyWithout(more, b);
    assert more[..b] + more[b + 1..] == shards[..b] + shards[b + 1..];
    TallyNext(shards[b], x);
  }

  lemma {:induction false} TallyNext<K(!new)>(lines: seq<Line<K>>, x: Line<K>)
    ensures Tally(lines + [x]) == Tally(lines) + multiset{}[x.0 := x.1]
  {
    if lines == [] {
      assert lines + [x] == [x] && [x][1..] == [];
    } else {
      assert (lines + [x])[0] == lines[0] && (lines + [x])[1..] == lines[1..] + [x];
      TallyNext(lines[1..], x);
    }
  }

  /** Spread the counts of a table over the shards. */
  method Spread<K(!new)>(hash: K -> nat, shards: seq<seq<Line<K>>>, counts: seq<Line<K>>)
      returns (more: seq<seq<Line<K>>>)
    requires Sharded(hash, shards) && shards != []
    ensures Sharded(hash, more) && |more| == |shards| && TallyAll(more) == TallyAll(shards) + Tally(counts)
  {
    hide Tally, TallyAll, Sharded;
    more := shards;
    NoTally<K>();
    assert counts[..0] == [];
    for i := 0 to |counts|
      invariant Sharded(hash, more) && |more| == |shards| && TallyAll(more) == TallyAll(shards) + Tally(counts[..i])
    {
      ShardNext(hash, more, counts[i]);
      TallyNext(counts[..i], counts[i]);
      assert counts[..i + 1] == counts[..i] + [counts[i]];
      var b := hash(counts[i].0) % |more|;
      more := more[b := more[b] + [counts[i]]];
    }
    assert counts[..|counts|] == counts;
  }

  lemma NoTally<K(!new)>()
    ensures Tally<K>([]) == multiset{}
  {
  }

  /** The shards before anything is written. */
  function EmptyShards<K>(n: nat): (shards: seq<seq<Line<K>>>)
    ensures |shards| == n && forall b :: 0 <= b < n ==> shards[b] == []
  {
    if n == 0 then [] else EmptyShards(n - 1) + [[]]
  }

  lemma {:induction false} EmptyTally<K(!new)>(n: nat)
    ensures TallyAll(EmptyShards<K>(n)) == multiset{}
  {
    hide Tally;
    if n > 0 {
      EmptyTally<K>(n - 1);
      AddList(EmptyShards<K>(n - 1), []);
      NoTally<K>();
    }
  }

  method ShardText<K(!new,==)>(cmp: (K, K) -> int, hash: K -> nat, shards: seq<seq<Line<K>>>, text: Text<K>, limit: nat)
    returns (more: seq<seq<Line<K>>>)
    requires TotalOrder(cmp) && Sharded(hash, shards) && shards != []
    ensures Sharded(hash, more) && |more| == |shards| && TallyAll(more) == TallyAll(shards) + multiset(text.words)
  {
    hide TotalOrder, Segment, Tally, TallyAll, Sharded;
    more := shards;
    var pos, again := 0, true;
    while again
      invariant pos <= |text.words| && |more| == |shards| && Sharded(hash, more)
      invariant TallyAll(more) == TallyAll(shards) + multiset(text.words[..pos])
      invariant !again ==> pos == |text.words|
      decreases |text.words| - pos, again
    {
      var counts, next, split := ReadSegment(cmp, text.words, pos, limit);
      SplitWords(text.words, pos, next);
      more := Spread(hash, more, counts);
      pos := next;
      again := split && (pos < |text.words| || text.trailing);
    }
    assert text.words[..pos] == text.words;
  }

  method Shard<K(!new,==)>(cmp: (K, K) -> int, hash: K -> nat, nbuckets: nat, texts: seq<Text<K>>, limit: nat)
    returns (shards: seq<seq<Line<K>>>)
    requires TotalOrder(cmp) && nbuckets > 0
    ensures Sharded(hash, shards) && |shards| == nbuckets && TallyAll(shards) == WordsOf(texts)
  {
    hide TotalOrder, Tally, TallyAll, WordsOf;
    shards := EmptyShards(nbuckets);
    EmptyTally<K>(nbuckets);
    NoTexts<K>();
    assert texts[..0] == [];
    for t := 0 to |texts|
      invariant Sharded(hash, shards) && |shards| == nbuckets && TallyAll(shards) == WordsOf(texts[..t])
    {
      NextText(texts, t);
      shards := ShardText(cmp, hash, shards, texts[t], limit);
    }
    assert texts[..|texts|] == texts;
  }

  /** Add up the lines of a shard. */
  method ReadShard<K(!new,==)>(lines: seq<Line<K>>) returns (counts: map<K, nat>)
    ensures forall w :: InTable(counts, w) == Tally(lines)[w] && (w in counts ==> counts[w] > 0)
    ensures forall w :: w in counts ==> Mentions(lines, w)
  {
    hide Tally;
    counts := map[];
    NoTally<K>();
    assert lines[..0] == [];
    for i := 0 to |lines|
      invariant forall w :: InTable(counts, w) == Tally(lines[..i])[w] && (w in counts ==> counts[w] > 0)
      invariant forall w :: w in counts ==> Mentions(lines, w)
    {
      TallyNext(lines[..i], lines[i]);
      assert lines[..i + 1] == lines[..i] + [lines[i]];
      var w, n := lines[i].0, lines[i].1;
      if n > 0 {
        assert Mentions(lines, w);
        counts := counts[w := (if w in counts then counts[w] else 0) + n];
      }
    }
    assert lines[..|lines|] == lines;
  }

  /** Count each shard and write it as a file; no word is in two shards. */
  method SortShards<K(!new,==)>(cmp: (K, K) -> int, hash: K -> nat, shards: seq<seq<Line<K>>>)
    returns (files: seq<seq<(nat, K)>>, ghost done: map<K, nat>)
    requires TotalOrder(cmp) && Sharded(hash, shards)
    ensures forall f :: 0 <= f < |files| ==> Down(cmp, files[f])
    ensures multiset(Flatten(files)) == multiset(Entries(done))
    ensures forall w :: TallyAll(shards)[w] == InTable(done, w) && (w in done ==> done[w] > 0)
  {
    hide TotalOrder, Tally, TallyAll, Flatten, Entries, Down;
    files, done := [], map[];
    NothingCounted<K>(cmp);
    NoFiles<(nat, K)>();
    NoLists<K>();
    assert shards[..0] == [];
    for b := 0 to |shards|
      invariant forall f :: 0 <= f < |files| ==> Down(cmp, files[f])
      invariant multiset(Flatten(files)) == multiset(Entries(done))
      invariant forall w :: TallyAll(shards[..b])[w] == InTable(done, w) && (w in done ==> done[w] > 0)
      invariant forall w :: w in done ==> hash(w) % |shards| < b
    {
      var counts := ReadShard(shards[b]);
      forall w | w in counts
        ensures hash(w) % |shards| == b
      {
        var i :| 0 <= i < |shards[b]| && shards[b][i].0 == w;
      }
      var out := Output(cmp, counts);
      assert shards[..b + 1] == shards[..b] + [shards[b]];
      AddList(shards[..b], shards[b]);
      FlatNext(files, out);
      EntriesJoin(done, counts);
      files, done := files + [out], done + counts;
    }
    assert shards[..|shards|] == shards;
  }

  /** The sharded job produces the same result, for any hash and any number of shards. */
  method ShardSort<K(!new,==)>(cmp: (K, K) -> int, hash: K -> nat, nbuckets: nat, texts: seq<Text<K>>, limit: nat)
    returns (out: seq<(nat, K)>)
    requires TotalOrder(cmp) && nbuckets > 0
    ensures CountsOf(out, WordsOf(texts)) && Descending(out)
  {
    hide TotalOrder, CountsOf, WordsOf, TallyAll, Flatten, Entries, Down, Sharded;
    var shards := Shard(cmp, hash, nbuckets, texts, limit);
    ghost var done;
    var files;
    files, done := SortShards(cmp, hash, shards);
    forall f | 0 <= f < |files|
      ensures Descending(files[f])
    {
      DownDescends(cmp, files[f]);
    }
    out := Merge(files);
    EntriesAreCounts(out, done, WordsOf(texts));
  }

  /** Two right results differ only in the order of words that occur equally often. */
  lemma {:induction false} SameLines<K(!new)>(a: seq<(nat, K)>, b: seq<(nat, K)>, total: multiset<K>)
    requires CountsOf(a, total) && CountsOf(b, total)
    ensures multiset(a) == multiset(b)
  {
    forall x
      ensures multiset(a)[x] == multiset(b)[x]
    {
      LineOnce(a, total, x);
      LineOnce(b, total, x);
    }
  }

  lemma LineOnce<K(!new)>(a: seq<(nat, K)>, total: multiset<K>, x: (nat, K))
    requires CountsOf(a, total)
    ensures multiset(a)[x] == if x.1 in total && x.0 == total[x.1] then 1 else 0
  {
    if x in a {
      var i :| 0 <= i < |a| && a[i] == x;
      assert a == a[..i] + [a[i]] + a[i + 1..];
      assert x !in a[..i] && x !in a[i + 1..];
    }
  }
}
