/** The winning-hand search (mahjong/main.cc). */
module Mahjong {

  // ----- What a winning hand is -----

  datatype Meld = Triplet(tile: int) | Run(first: int) | Pair(tile: int)

  /** A run may start here: not at an honour, and not at the eighth or ninth tile of a suit. */
  predicate StartsRun(tile: int) {
    tile <= 30 && !(tile >= 0 && (tile % 10 == 8 || tile % 10 == 9))
  }

  function TilesOf(m: Meld): multiset<int> {
    match m
    case Triplet(t) => multiset{t, t, t}
    case Run(t) => multiset{t, t + 1, t + 2}
    case Pair(t) => multiset{t, t}
  }

  function Union(melds: seq<Meld>): multiset<int> {
    if melds == [] then multiset{} else TilesOf(melds[0]) + Union(melds[1..])
  }

  function Pairs(melds: seq<Meld>): nat {
    if melds == [] then 0 else (if melds[0].Pair? then 1 else 0) + Pairs(melds[1..])
  }

  /** The melds use up exactly these tiles, with no pair if one is spent already and at most one otherwise. */
  ghost predicate Partitions(melds: seq<Meld>, tiles: multiset<int>, will: bool) {
    && Union(melds) == tiles
    && (forall i :: 0 <= i < |melds| && melds[i].Run? ==> StartsRun(melds[i].first))
    && Pairs(melds) <= if will then 0 else 1
  }

  ghost predicate Wins(tiles: multiset<int>, will: bool) {
    exists melds :: Partitions(melds, tiles, will)
  }

  /** A meld that may be taken off, and whether the pair is spent after it. */
  predicate Allowed(m: Meld, will: bool) {
    (m.Run? ==> StartsRun(m.first)) && (m.Pair? ==> !will)
  }

  lemma {:induction false} PutBack(tiles: multiset<int>, m: Meld, will: bool)
    requires Allowed(m, will) && TilesOf(m) <= tiles && Wins(tiles - TilesOf(m), will || m.Pair?)
    ensures Wins(tiles, will)
  {
    hide TilesOf;
    var melds :| Partitions(melds, tiles - TilesOf(m), will || m.Pair?);
    var more := [m] + melds;
    assert more[0] == m && more[1..] == melds;
    Refill(tiles, TilesOf(m));
    assert Partitions(more, tiles, will);
  }

  lemma Refill(tiles: multiset<int>, some: multiset<int>)
    requires some <= tiles
    ensures some + (tiles - some) == tiles
  {
  }

  lemma Joins(a: multiset<int>, b: multiset<int>, c: multiset<int>)
    ensures a + (b + c) == b + (a + c)
    ensures a <= a + b && (a + b) - a == b
    ensures forall x :: x in a + b <==> x in a || x in b
  {
  }

  lemma {:induction false} MeldWith(melds: seq<Meld>, tile: int) returns (j: nat)
    requires tile in Union(melds)
    ensures j < |melds| && tile in TilesOf(melds[j])
  {
    hide TilesOf;
    Joins(TilesOf(melds[0]), Union(melds[1..]), multiset{});
    if tile in TilesOf(melds[0]) {
      j := 0;
    } else {
      var k := MeldWith(melds[1..], tile);
      j := k + 1;
    }
  }

  lemma {:induction false} Without(melds: seq<Meld>, j: nat)
    requires j < |melds|
    ensures Union(melds) == TilesOf(melds[j]) + Union(melds[..j] + melds[j + 1..])
    ensures Pairs(melds) == (if melds[j].Pair? then 1 else 0) + Pairs(melds[..j] + melds[j + 1..])
  {
    hide TilesOf;
    var rest := melds[..j] + melds[j + 1..];
    if j == 0 {
      assert rest == melds[1..];
    } else {
      Without(melds[1..], j - 1);
      assert rest[0] == melds[0] && rest[1..] == melds[1..][..j - 1] + melds[1..][j..];
      Joins(TilesOf(melds[0]), TilesOf(melds[j]), Union(rest[1..]));
    }
  }

  lemma MeldAt(m: Meld, t: int)
    requires t in TilesOf(m) && forall x :: x in TilesOf(m) ==> t <= x
    ensures m in [Triplet(t), Pair(t), Run(t)]
  {
    match m
    case Run(k) => assert k in TilesOf(m);
    case _ =>
  }

  /** In a winning hand the smallest tile is in a triplet, in the pair, or starts a run. */
  lemma {:induction false} SmallestTile(tiles: multiset<int>, t: int, will: bool) returns (m: Meld)
    requires Wins(tiles, will) && t in tiles && forall x :: x in tiles ==> t <= x
    ensures m in [Triplet(t), Pair(t), Run(t)]
    ensures Allowed(m, will) && TilesOf(m) <= tiles && Wins(tiles - TilesOf(m), will || m.Pair?)
  {
    hide TilesOf, Union;
    var melds :| Partitions(melds, tiles, will);
    var j := MeldWith(melds, t);
    Without(melds, j);
    m := melds[j];
    var rest := melds[..j] + melds[j + 1..];
    Joins(TilesOf(m), Union(rest), multiset{});
    MeldAt(m, t);
    assert Partitions(rest, tiles - TilesOf(m), will || m.Pair?);
  }

  // ----- Suits -----

  /** The tiles of the game: three suits of nine, and seven honours. */
  predicate IsTile(t: int) { InSuit(t) || 31 <= t <= 37 }

  predicate InSuit(t: int) { 1 <= t <= 9 || 11 <= t <= 19 || 21 <= t <= 29 }

  /** Three tiles in a row of one suit. */
  predicate OneSuit(t: int) { 1 <= t <= 7 || 11 <= t <= 17 || 21 <= t <= 27 }

  /** Three tiles in a row are a winning hand if and only if they are of one suit. */
  lemma {:induction false} RunWinsIff(t: int)
    requires IsTile(t)
    ensures Wins(multiset{t, t + 1, t + 2}, false) <==> OneSuit(t)
    ensures OneSuit(t) <==> InSuit(t) && InSuit(t + 1) && InSuit(t + 2)
  {
    MayStart(t);
    if OneSuit(t) {
      RunWins(t);
    }
    if Wins(multiset{t, t + 1, t + 2}, false) {
      MustStart(t);
    }
    hide Wins, StartsRun;
  }

  lemma MayStart(t: int)
    requires IsTile(t)
    ensures StartsRun(t) <==> OneSuit(t)
  {
  }

  lemma RunWins(t: int)
    requires StartsRun(t)
    ensures Wins(multiset{t, t + 1, t + 2}, false)
  {
    hide StartsRun;
    assert [Run(t)][1..] == [];
    assert Union([Run(t)]) == TilesOf(Run(t)) + multiset{} == multiset{t, t + 1, t + 2};
    assert Pairs([Run(t)]) == Pairs([]) == 0;
    assert Partitions([Run(t)], multiset{t, t + 1, t + 2}, false);
  }

  lemma {:induction false} MustStart(t: int)
    requires Wins(multiset{t, t + 1, t + 2}, false)
    ensures StartsRun(t)
  {
    hide StartsRun, Wins;
    var tiles := multiset{t, t + 1, t + 2};
    var m := SmallestTile(tiles, t, false);
    assert tiles[t] == 1;
    assert m == Triplet(t) ==> TilesOf(m)[t] == 3;
    assert m == Pair(t) ==> TilesOf(m)[t] == 2;
  }

  /** Every run of a winning hand is of one suit. */
  lemma RunsAreOfOneSuit(melds: seq<Meld>, tiles: multiset<int>, will: bool, i: nat)
    requires Partitions(melds, tiles, will) && i < |melds| && melds[i].Run?
    requires forall t :: t in tiles ==> IsTile(t)
    ensures OneSuit(melds[i].first)
  {
    hide Union;
    Without(melds, i);
    assert melds[i].first in TilesOf(melds[i]);
    Joins(TilesOf(melds[i]), Union(melds[..i] + melds[i + 1..]), multiset{});
  }

  // ----- Winning, by counting -----

  /** How many triplets, runs and pairs there are of every kind. */
  datatype Counts = Counts(triplets: multiset<int>, runs: multiset<int>, pairs: multiset<int>)

  /** The number of tiles t in so many. */
  function Needed(c: Counts, t: int): nat {
    3 * c.triplets[t] + 2 * c.pairs[t] + c.runs[t] + c.runs[t - 1] + c.runs[t - 2]
  }

  /** The hand is a sum of triplets, runs of one suit, and at most one pair, or none if it is spent already. */
  ghost predicate Composed(tiles: multiset<int>, c: Counts, will: bool) {
    && (forall t :: tiles[t] == Needed(c, t))
    && (forall t :: t in c.runs ==> OneSuit(t))
    && |c.pairs| <= if will then 0 else 1
  }

  /** A hand wins exactly if it can be composed. */
  lemma {:induction false} WinsIff(tiles: multiset<int>, will: bool)
    requires forall t :: t in tiles ==> IsTile(t)
    ensures Wins(tiles, will) <==> exists c :: Composed(tiles, c, will)
  {
    hide StartsRun, OneSuit, IsTile, Union, Needed;
    if Wins(tiles, will) {
      var melds :| Partitions(melds, tiles, will);
      var c := Count(melds);
      forall t | t in c.runs
        ensures OneSuit(t)
      {
        var i :| 0 <= i < |melds| && melds[i] == Run(t);
        RunsAreOfOneSuit(melds, tiles, will, i);
      }
      assert Composed(tiles, c, will);
    }
    if c :| Composed(tiles, c, will) {
      var melds := Deal(tiles, c);
      forall i | 0 <= i < |melds| && melds[i].Run?
        ensures StartsRun(melds[i].first)
      {
        SuitStarts(melds[i].first);
      }
      assert Partitions(melds, tiles, will);
    }
  }

  lemma SuitStarts(t: int)
    requires OneSuit(t)
    ensures StartsRun(t)
  {
    MayStart(t);
  }

  function With(c: Counts, m: Meld): Counts {
    match m
    case Triplet(t) => c.(triplets := c.triplets + multiset{t})
    case Run(t) => c.(runs := c.runs + multiset{t})
    case Pair(t) => c.(pairs := c.pairs + multiset{t})
  }

  lemma NeededMore(c: Counts, m: Meld, t: int)
    ensures Needed(With(c, m), t) == TilesOf(m)[t] + Needed(c, t)
  {
  }

  lemma {:induction false} Count(melds: seq<Meld>) returns (c: Counts)
    ensures |c.pairs| == Pairs(melds)
    ensures forall t :: Union(melds)[t] == Needed(c, t)
    ensures forall t :: t in c.runs ==> Run(t) in melds
  {
    hide Needed, TilesOf, With;
    if melds == [] {
      c := Counts(multiset{}, multiset{}, multiset{});
      forall t
        ensures Needed(c, t) == 0
      {
        NeededNone(t);
      }
    } else {
      var rest := Count(melds[1..]);
      c := With(rest, melds[0]);
      WithIs(rest, melds[0]);
      forall t
        ensures Union(melds)[t] == Needed(c, t)
      {
        NeededMore(rest, melds[0], t);
      }
    }
  }

  lemma WithIs(c: Counts, m: Meld)
    ensures |With(c, m).pairs| == |c.pairs| + if m.Pair? then 1 else 0
    ensures forall t :: t in With(c, m).runs ==> t in c.runs || m == Run(t)
  {
  }

  lemma NeededNone(t: int)
    ensures Needed(Counts(multiset{}, multiset{}, multiset{}), t) == 0
  {
  }

  lemma {:induction false} Deal(tiles: multiset<int>, c: Counts) returns (melds: seq<Meld>)
    requires forall t :: tiles[t] == Needed(c, t)
    ensures Union(melds) == tiles && Pairs(melds) == |c.pairs|
    ensures forall i :: 0 <= i < |melds| && melds[i].Run? ==> melds[i].first in c.runs
    decreases |c.triplets| + |c.runs| + |c.pairs|
  {
    hide Needed, TilesOf;
    if |c.triplets| + |c.runs| + |c.pairs| == 0 {
      assert c == Counts(multiset{}, multiset{}, multiset{});
      forall t
        ensures tiles[t] == 0
      {
        NeededNone(t);
      }
      melds := [];
    } else {
      var less, m := LastMeld(c);
      TakenOff(tiles, less, m);
      var rest := Deal(tiles - TilesOf(m), less);
      Refill(tiles, TilesOf(m));
      melds := [m] + rest;
      assert melds[0] == m && melds[1..] == rest;
    }
  }

  lemma TakenOff(tiles: multiset<int>, c: Counts, m: Meld)
    requires forall t :: tiles[t] == Needed(With(c, m), t)
    ensures TilesOf(m) <= tiles && forall t :: (tiles - TilesOf(m))[t] == Needed(c, t)
  {
    hide Needed, TilesOf, With;
    forall t: int
      ensures TilesOf(m)[t] <= tiles[t] && (tiles - TilesOf(m))[t] == Needed(c, t)
    {
      NeededMore(c, m, t);
    }
    AtMost(TilesOf(m), tiles);
  }

  lemma AtMost(some: multiset<int>, tiles: multiset<int>)
    requires forall t: int :: some[t] <= tiles[t]
    ensures some <= tiles
  {
    forall t: int
      ensures some[t] <= tiles[t]
    {
    }
  }

  lemma LastMeld(c: Counts) returns (less: Counts, m: Meld)
    requires |c.triplets| + |c.runs| + |c.pairs| > 0
    ensures c == With(less, m)
  {
    if |c.triplets| > 0 {
      var t, ts := One(c.triplets);
      less, m := c.(triplets := ts), Triplet(t);
    } else if |c.runs| > 0 {
      var t, ts := One(c.runs);
      less, m := c.(runs := ts), Run(t);
    } else {
      var t, ts := One(c.pairs);
      less, m := c.(pairs := ts), Pair(t);
    }
  }

  lemma One(tiles: multiset<int>) returns (t: int, rest: multiset<int>)
    requires |tiles| > 0
    ensures tiles == rest + multiset{t}
  {
    t := Smallest(tiles);
    rest := tiles[t := tiles[t] - 1];
  }

  // ----- The hand as a sorted map from tile to number -----

  predicate Sorted(keys: seq<int>) {
    forall i, j :: 0 <= i < j < |keys| ==> keys[i] < keys[j]
  }

  function Tiles(keys: seq<int>, counts: seq<nat>): multiset<int>
    requires |keys| == |counts|
  {
    if keys == [] then multiset{} else Tiles(keys[1..], counts[1..])[keys[0] := counts[0]]
  }

  lemma {:induction false} TilesIs(keys: seq<int>, counts: seq<nat>, x: int)
    requires |keys| == |counts| && Sorted(keys)
    ensures x !in keys ==> Tiles(keys, counts)[x] == 0
    ensures forall i :: 0 <= i < |keys| && keys[i] == x ==> Tiles(keys, counts)[x] == counts[i]
  {
    if keys != [] {
      TilesIs(keys[1..], counts[1..], x);
      assert keys == [keys[0]] + keys[1..];
      forall i | 0 <= i < |keys| && keys[i] == x
        ensures Tiles(keys, counts)[x] == counts[i]
      {
        if i > 0 {
          assert keys[1..][i - 1] == x && counts[1..][i - 1] == counts[i];
        }
      }
    }
  }

  /** Taking tiles off by position takes them off the hand. */
  lemma {:induction false} TakeOff(keys: seq<int>, counts: seq<nat>, fewer: seq<nat>, gone: multiset<int>)
    requires |keys| == |counts| == |fewer| && Sorted(keys)
    requires forall x :: x in gone ==> x in keys
    requires forall i :: 0 <= i < |keys| ==> fewer[i] + gone[keys[i]] == counts[i]
    ensures gone <= Tiles(keys, counts) && Tiles(keys, fewer) == Tiles(keys, counts) - gone
  {
    hide Sorted, Tiles;
    forall x: int
      ensures gone[x] <= Tiles(keys, counts)[x] && Tiles(keys, fewer)[x] == Tiles(keys, counts)[x] - gone[x]
    {
      TilesIs(keys, counts, x);
      TilesIs(keys, fewer, x);
      if x in keys {
        var i :| 0 <= i < |keys| && keys[i] == x;
      }
    }
  }

  function Sum(counts: seq<nat>): nat {
    if counts == [] then 0 else counts[0] + Sum(counts[1..])
  }

  lemma {:induction false} SumUpdate(counts: seq<nat>, i: nat, v: nat)
    requires i < |counts|
    ensures Sum(counts[i := v]) == Sum(counts) - counts[i] + v
  {
    if i > 0 {
      SumUpdate(counts[1..], i - 1, v);
      assert counts[i := v][1..] == counts[1..][i - 1 := v];
    } else {
      assert counts[i := v][1..] == counts[1..];
    }
  }

  lemma {:induction false} SumPositive(counts: seq<nat>)
    ensures Sum(counts) == 0 <==> forall i :: 0 <= i < |counts| ==> counts[i] == 0
  {
    if counts != [] {
      SumPositive(counts[1..]);
      assert forall i :: 0 < i < |counts| ==> counts[1..][i - 1] == counts[i];
    }
  }

  lemma {:induction false} TilesSize(keys: seq<int>, counts: seq<nat>)
    requires |keys| == |counts| && Sorted(keys)
    ensures |Tiles(keys, counts)| == Sum(counts)
  {
    if keys != [] {
      TilesSize(keys[1..], counts[1..]);
      TilesIs(keys[1..], counts[1..], keys[0]);
    }
  }

  // ----- What the search decides -----

  function FirstOf(m: Meld): int {
    match m
    case Triplet(t) => t
    case Run(t) => t
    case Pair(t) => t
  }

  /** The search comes to tile t: nothing in front of it is an honour or lacks the run that may start there. */
  ghost predicate Front(tiles: multiset<int>, t: int) {
    forall x :: x in tiles && x < t ==> x <= 30 && (StartsRun(x) ==> TilesOf(Run(x)) <= tiles)
  }

  /** A meld that the search takes off. */
  ghost predicate Takes(tiles: multiset<int>, m: Meld, will: bool) {
    Allowed(m, will) && TilesOf(m) <= tiles && Front(tiles, FirstOf(m))
  }

  /** Melds that can be taken off one after the other. */
  ghost predicate TakesAll(tiles: multiset<int>, melds: seq<Meld>, will: bool) {
    melds != [] ==>
      Takes(tiles, melds[0], will) && TakesAll(tiles - TilesOf(melds[0]), melds[1..], will || melds[0].Pair?)
  }

  /** Melds can be taken off until the number of tiles left, as a signed byte, is not positive. */
  ghost predicate Reaches(tiles: multiset<int>, will: bool) {
    exists melds :: TakesAll(tiles, melds, will) && Char(|tiles| - |Union(melds)|) <= 0
  }

  lemma {:induction false} ReachesNow(tiles: multiset<int>, will: bool)
    requires Char(|tiles|) <= 0
    ensures Reaches(tiles, will)
  {
    assert TakesAll(tiles, [], will) && |tiles| - |Union([])| == |tiles|;
  }

  lemma SizeLess(tiles: multiset<int>, some: multiset<int>)
    requires some <= tiles
    ensures |tiles - some| == |tiles| - |some|
  {
    Refill(tiles, some);
  }

  lemma {:induction false} ReachesBy(tiles: multiset<int>, m: Meld, will: bool)
    requires Takes(tiles, m, will) && Reaches(tiles - TilesOf(m), will || m.Pair?)
    ensures Reaches(tiles, will)
  {
    hide TilesOf, Front, Char;
    var rest := tiles - TilesOf(m);
    var melds :| TakesAll(rest, melds, will || m.Pair?) && Char(|rest| - |Union(melds)|) <= 0;
    var more := [m] + melds;
    assert more[0] == m && more[1..] == melds;
    SizeLess(tiles, TilesOf(m));
    assert |Union(more)| == |TilesOf(m)| + |Union(melds)|;
    assert TakesAll(tiles, more, will);
  }

  lemma Found(tiles: multiset<int>, m: Meld, will: bool)
    requires Allowed(m, will) && TilesOf(m) <= tiles && Front(tiles, FirstOf(m))
    requires Reaches(tiles - TilesOf(m), will || m.Pair?)
    ensures Reaches(tiles, will)
  {
    hide TilesOf, Front, Reaches, Allowed;
    ReachesBy(tiles, m, will);
  }

  /** Unless it is there already, the search gets there by some first meld. */
  lemma {:induction false} ReachesFirst(tiles: multiset<int>, will: bool) returns (m: Meld)
    requires Reaches(tiles, will) && Char(|tiles|) > 0
    ensures Takes(tiles, m, will) && Reaches(tiles - TilesOf(m), will || m.Pair?)
  {
    hide TilesOf, Front, Char;
    var melds :| TakesAll(tiles, melds, will) && Char(|tiles| - |Union(melds)|) <= 0;
    assert melds == [] ==> |tiles| - |Union(melds)| == |tiles|;
    m := melds[0];
    var rest := tiles - TilesOf(m);
    SizeLess(tiles, TilesOf(m));
    assert |Union(melds)| == |TilesOf(m)| + |Union(melds[1..])|;
    assert TakesAll(rest, melds[1..], will || m.Pair?);
  }

  /** Up to 127 tiles that is to use up all of them: the hand wins. */
  lemma {:induction false} ReachesIsWin(tiles: multiset<int>, will: bool)
    requires |tiles| <= 127
    ensures Reaches(tiles, will) <==> Wins(tiles, will)
    decreases |tiles|
  {
    hide TilesOf, Wins, Reaches;
    CharIs(|tiles|);
    if tiles == multiset{} {
      assert Wins(multiset{}, will) by {
        WinsEmpty(will);
      }
      ReachesNow(tiles, will);
    } else {
      assert |tiles| > 0;
      if Reaches(tiles, will) {
        var m := ReachesFirst(tiles, will);
        MeldSize(m);
        SizeLess(tiles, TilesOf(m));
        ReachesIsWin(tiles - TilesOf(m), will || m.Pair?);
        PutBack(tiles, m, will);
      }
      if Wins(tiles, will) {
        var t := Smallest(tiles);
        var m := SmallestTile(tiles, t, will);
        MeldSize(m);
        SizeLess(tiles, TilesOf(m));
        ReachesIsWin(tiles - TilesOf(m), will || m.Pair?);
        assert Front(tiles, t);
        ReachesBy(tiles, m, will);
      }
    }
  }

  lemma WinsEmpty(will: bool)
    ensures Wins(multiset{}, will)
  {
    assert Partitions([], multiset{}, will);
  }

  lemma MeldSize(m: Meld)
    ensures |TilesOf(m)| >= 2
  {
  }

  lemma {:induction false} Smallest(tiles: multiset<int>) returns (t: int)
    requires tiles != multiset{}
    ensures t in tiles && forall x :: x in tiles ==> t <= x
    decreases |tiles|
  {
    assert (forall x :: x !in tiles) ==> tiles == multiset{};
    t :| t in tiles;
    var rest := tiles[t := 0];
    forall x | x in tiles
      ensures x == t || x in rest
    {
      assert x != t ==> rest[x] == tiles[x];
    }
    if rest != multiset{} {
      var u := Smallest(rest);
      if u < t {
        t := u;
      }
    }
  }

  // ----- The search -----

  /** A number kept in a signed byte. */
  function Char(x: int): int { (x + 128) % 256 - 128 }

  lemma CharAdds(x: int, y: int)
    ensures Char(Char(x) + y) == Char(x + y) && -128 <= Char(x) <= 127
  {
  }

  lemma CharIs(x: int)
    ensures -128 <= x <= 127 ==> Char(x) == x
    ensures 128 <= x <= 256 ==> Char(x) <= 0
  {
  }

  lemma SumFrom(counts: seq<nat>, i: nat)
    requires i <= |counts|
    ensures Sum(counts[i..]) == if i == |counts| then 0 else counts[i] + Sum(counts[i + 1..])
  {
    if i < |counts| {
      assert counts[i..][1..] == counts[i + 1..];
    }
  }

  class Hand {
    const keys: seq<int>
    const counts: array<nat>

    ghost predicate Valid()
      reads counts
    {
      && Sorted(keys) && counts.Length == |keys|
      && forall i :: 0 <= i < |keys| ==> counts[i] <= 127
    }

    constructor (keys: seq<int>, counts: array<nat>)
      requires Sorted(keys) && counts.Length == |keys| && forall i :: 0 <= i < |keys| ==> counts[i] <= 127
      ensures this.keys == keys && this.counts == counts && Valid()
    {
      this.keys, this.counts := keys, counts;
    }

    ghost function Held(): multiset<int>
      requires counts.Length == |keys|
      reads counts
    {
      Tiles(keys, counts[..])
    }

    method GetRemain() returns (remain: int)
      requires Valid()
      ensures remain == Char(Sum(counts[..]))
    {
      hide Char, Sum;
      CharIs(0);
      remain := 0;
      var i := 0;
      assert counts[0..] == counts[..];
      while i < counts.Length
        invariant i <= counts.Length
        invariant Char(remain + Sum(counts[i..])) == Char(Sum(counts[..])) && Char(remain) == remain
      {
        SumFrom(counts[..], i);
        assert counts[i..] == counts[..][i..] && counts[i + 1..] == counts[..][i + 1..];
        CharAdds(remain + counts[i], Sum(counts[i + 1..]));
        CharAdds(remain + counts[i], 0);
        remain := Char(remain + counts[i]);
        i := i + 1;
      }
      SumFrom(counts[..], i);
      assert counts[i..] == counts[..][i..];
    }

    /** Search without one meld, and put it back. */
    method TryTriplet(i: nat, will: bool) returns (r: bool)
      requires Valid() && i < |keys| && counts[i] >= 3
      modifies counts
      ensures Valid() && counts[..] == old(counts[..])
      ensures TilesOf(Triplet(keys[i])) <= Held()
      ensures r <==> Reaches(Held() - TilesOf(Triplet(keys[i])), will)
      decreases Sum(counts[..]), 0
    {
      hide Sorted, Tiles, Sum, TilesOf, Wins, Reaches;
      ghost var was := counts[..];
      counts[i] := counts[i] - 3;
      assert counts[..] == was[i := was[i] - 3];
      SumUpdate(was, i, was[i] - 3);
      TakesTriplet(keys, was, i);
      r := HuBrand(will);
      counts[i] := counts[i] + 3;
      assert counts[..] == was;
    }

    method TryPair(i: nat) returns (r: bool)
      requires Valid() && i < |keys| && counts[i] >= 2
      modifies counts
      ensures Valid() && counts[..] == old(counts[..])
      ensures TilesOf(Pair(keys[i])) <= Held()
      ensures r <==> Reaches(Held() - TilesOf(Pair(keys[i])), true)
      decreases Sum(counts[..]), 0
    {
      hide Sorted, Tiles, Sum, TilesOf, Wins, Reaches;
      ghost var was := counts[..];
      counts[i] := counts[i] - 2;
      assert counts[..] == was[i := was[i] - 2];
      SumUpdate(was, i, was[i] - 2);
      TakesPair(keys, was, i);
      r := HuBrand(true);
      counts[i] := counts[i] + 2;
      assert counts[..] == was;
    }

    method TryRun(i: nat, will: bool) returns (r: bool)
      requires Valid() && RunAt(keys, counts[..], i)
      modifies counts
      ensures Valid() && counts[..] == old(counts[..])
      ensures TilesOf(Run(keys[i])) <= Held()
      ensures r <==> Reaches(Held() - TilesOf(Run(keys[i])), will)
      decreases Sum(counts[..]), 0
    {
      hide Sorted, Tiles, Sum, TilesOf, Wins, Reaches;
      ghost var was := counts[..];
      counts[i] := counts[i] - 1;
      counts[i + 1] := counts[i + 1] - 1;
      counts[i + 2] := counts[i + 2] - 1;
      assert counts[..] == Fewer(was, i);
      TakesRun(keys, was, i);
      r := HuBrand(will);
      counts[i] := counts[i] + 1;
      counts[i + 1] := counts[i + 1] + 1;
      counts[i + 2] := counts[i + 2] + 1;
      assert counts[..] == was;
    }

    /** Can a run be taken off that starts at position i? */
    method HasRun(i: nat) returns (has: bool)
      requires Valid() && i < |keys| && counts[i] > 0
      ensures has <==> RunAt(keys, counts[..], i)
    {
      if i + 1 >= |keys| || counts[i + 1] <= 0 {
        return false;
      }
      if i + 2 >= |keys| || counts[i + 2] <= 0 {
        return false;
      }
      return keys[i] + 1 == keys[i + 1] && keys[i + 1] + 1 == keys[i + 2];
    }

    /**
     * Is the hand a winning one? The answer is yes exactly if melds can be taken off until the number of tiles left,
     * which is kept in a signed byte, is not positive. For up to 127 tiles that is a winning hand.
     */
    method HuBrand(will: bool) returns (r: bool)
      requires Valid()
      modifies counts
      ensures Valid() && counts[..] == old(counts[..])
      ensures r <==> Reaches(Held(), will)
      ensures Sum(counts[..]) <= 127 ==> (r <==> Wins(Held(), will))
      ensures Char(Sum(counts[..])) <= 0 ==> r
      decreases Sum(counts[..]), 1
    {
      hide Sorted, Tiles, Sum, TilesOf, Wins, Reaches, Char, Searched, RunAt, Front, Takes;
      ghost var was := counts[..];
      TilesSize(keys, was);
      if Sum(was) <= 127 {
        ReachesIsWin(Held(), will);
      }
      var remain := GetRemain();
      if remain <= 0 {
        ReachesNow(Held(), will);
        return true;
      }
      SearchedNone(keys, was, will);
      var i := 0;
      while i < |keys|
        invariant i <= |keys| && Valid() && counts[..] == was
        invariant Searched(keys, was, i, will)
      {
        if counts[i] == 0 {
          NothingAt(keys, was, i, will);
          i := i + 1;
          continue;
        }
        var t := keys[i];
        ComesTo(keys, was, i, will);
        if counts[i] >= 3 {
          r := TryTriplet(i, will);
          if r {
            Found(Held(), Triplet(t), will);
            return;
          }
        }
        if !will && counts[i] >= 2 {
          r := TryPair(i);
          if r {
            Found(Held(), Pair(t), will);
            return;
          }
        }
        if t > 30 {
          Decided(keys, was, i, will);
          return false;
        }
        if StartsRun(t) {
          var has := HasRun(i);
          if !has {
            Decided(keys, was, i, will);
            return false;
          }
          r := TryRun(i, will);
          if r {
            Found(Held(), Run(t), will);
            return;
          }
        }
        GoesOn(keys, was, i, will);
        i := i + 1;
      }
      AllSearched(keys, was, will);
      return false;
    }
  }

  /** The search comes to position i, and no meld that starts before it gets it there. */
  ghost predicate Searched(keys: seq<int>, counts: seq<nat>, i: nat, will: bool)
    requires i <= |keys| == |counts|
  {
    var tiles := Tiles(keys, counts);
    && (forall k :: 0 <= k < i && counts[k] > 0 ==>
          keys[k] <= 30 && (StartsRun(keys[k]) ==> TilesOf(Run(keys[k])) <= tiles))
    && (forall m :: Takes(tiles, m, will) && (exists k :: 0 <= k < i && keys[k] == FirstOf(m)) ==>
          !Reaches(tiles - TilesOf(m), will || m.Pair?))
  }

  lemma SearchedNone(keys: seq<int>, counts: seq<nat>, will: bool)
    requires |keys| == |counts|
    ensures Searched(keys, counts, 0, will)
  {
  }

  predicate RunAt(keys: seq<int>, counts: seq<nat>, i: nat) {
    && i + 2 < |keys| == |counts| && keys[i + 1] == keys[i] + 1 && keys[i + 2] == keys[i] + 2
    && counts[i] > 0 && counts[i + 1] > 0 && counts[i + 2] > 0
  }

  function Fewer(counts: seq<nat>, i: nat): seq<nat>
    requires i + 2 < |counts| && counts[i] > 0 && counts[i + 1] > 0 && counts[i + 2] > 0
  {
    counts[i := counts[i] - 1][i + 1 := counts[i + 1] - 1][i + 2 := counts[i + 2] - 1]
  }

  lemma TakesTriplet(keys: seq<int>, counts: seq<nat>, i: nat)
    requires i < |keys| == |counts| && Sorted(keys) && counts[i] >= 3
    ensures TilesOf(Triplet(keys[i])) <= Tiles(keys, counts)
    ensures Tiles(keys, counts[i := counts[i] - 3]) == Tiles(keys, counts) - TilesOf(Triplet(keys[i]))
  {
    hide Tiles;
    TakeOff(keys, counts, counts[i := counts[i] - 3], TilesOf(Triplet(keys[i])));
  }

  lemma TakesPair(keys: seq<int>, counts: seq<nat>, i: nat)
    requires i < |keys| == |counts| && Sorted(keys) && counts[i] >= 2
    ensures TilesOf(Pair(keys[i])) <= Tiles(keys, counts)
    ensures Tiles(keys, counts[i := counts[i] - 2]) == Tiles(keys, counts) - TilesOf(Pair(keys[i]))
  {
    hide Tiles;
    TakeOff(keys, counts, counts[i := counts[i] - 2], TilesOf(Pair(keys[i])));
  }

  lemma TakesRun(keys: seq<int>, counts: seq<nat>, i: nat)
    requires |keys| == |counts| && Sorted(keys) && RunAt(keys, counts, i)
    ensures TilesOf(Run(keys[i])) <= Tiles(keys, counts)
    ensures Tiles(keys, Fewer(counts, i)) == Tiles(keys, counts) - TilesOf(Run(keys[i]))
    ensures Sum(Fewer(counts, i)) == Sum(counts) - 3
  {
    hide Tiles, Sum;
    TakeOff(keys, counts, Fewer(counts, i), TilesOf(Run(keys[i])));
    SumFewer(counts, i);
  }

  lemma SumFewer(counts: seq<nat>, i: nat)
    requires i + 2 < |counts| && counts[i] > 0 && counts[i + 1] > 0 && counts[i + 2] > 0
    ensures Sum(Fewer(counts, i)) == Sum(counts) - 3
  {
    hide Sum;
    var one := counts[i := counts[i] - 1];
    var two := one[i + 1 := counts[i + 1] - 1];
    SumUpdate(counts, i, counts[i] - 1);
    SumUpdate(one, i + 1, counts[i + 1] - 1);
    SumUpdate(two, i + 2, counts[i + 2] - 1);
  }

  /** Three neighbouring tiles of the hand are at three neighbouring positions. */
  lemma RunIsAt(keys: seq<int>, counts: seq<nat>, i: nat)
    requires i < |keys| == |counts| && Sorted(keys) && counts[i] > 0
    requires keys[i] + 1 in Tiles(keys, counts) && keys[i] + 2 in Tiles(keys, counts)
    ensures RunAt(keys, counts, i)
  {
    hide Tiles;
    var j := PositionOf(keys, counts, keys[i] + 1);
    var k := PositionOf(keys, counts, keys[i] + 2);
    NextKey(keys, i, j);
    NextKey(keys, j, k);
  }

  lemma NextKey(keys: seq<int>, i: nat, j: nat)
    requires Sorted(keys) && i < |keys| && j < |keys| && keys[j] == keys[i] + 1
    ensures j == i + 1
  {
    assert forall m :: 0 <= m < i ==> keys[m] < keys[i];
    assert forall m :: i + 1 < m < |keys| ==> keys[m] > keys[i + 1] > keys[i];
  }

  lemma PositionOf(keys: seq<int>, counts: seq<nat>, x: int) returns (j: nat)
    requires |keys| == |counts| && Sorted(keys) && x in Tiles(keys, counts)
    ensures j < |keys| && keys[j] == x && counts[j] > 0
  {
    hide Tiles;
    TilesIs(keys, counts, x);
    j :| 0 <= j < |keys| && keys[j] == x;
  }

  lemma FirstIn(keys: seq<int>, counts: seq<nat>, m: Meld, will: bool) returns (j: nat)
    requires |keys| == |counts| && Sorted(keys) && Takes(Tiles(keys, counts), m, will)
    ensures j < |keys| && keys[j] == FirstOf(m) && counts[j] > 0
  {
    hide Tiles, Front;
    assert FirstOf(m) in TilesOf(m);
    j := PositionOf(keys, counts, FirstOf(m));
  }

  lemma NothingAt(keys: seq<int>, counts: seq<nat>, i: nat, will: bool)
    requires i < |keys| == |counts| && Sorted(keys) && counts[i] == 0 && Searched(keys, counts, i, will)
    ensures Searched(keys, counts, i + 1, will)
  {
    hide Tiles, Takes, Reaches, TilesOf;
    var tiles := Tiles(keys, counts);
    forall m | Takes(tiles, m, will) && exists k :: 0 <= k < i + 1 && keys[k] == FirstOf(m)
      ensures !Reaches(tiles - TilesOf(m), will || m.Pair?)
    {
      var j := FirstIn(keys, counts, m, will);
      SamePlace(keys, i, j);
    }
  }

  lemma SamePlace(keys: seq<int>, i: nat, j: nat)
    requires Sorted(keys) && i < |keys| && j < |keys|
    ensures keys[i] == keys[j] <==> i == j
    ensures keys[i] < keys[j] <==> i < j
  {
  }

  /** The tile at a position that is searched has only such tiles in front of it. */
  lemma ComesTo(keys: seq<int>, counts: seq<nat>, i: nat, will: bool)
    requires i < |keys| == |counts| && Sorted(keys) && Searched(keys, counts, i, will)
    ensures Front(Tiles(keys, counts), keys[i])
  {
    hide Tiles, TilesOf, Takes, Reaches;
    var tiles := Tiles(keys, counts);
    forall x | x in tiles && x < keys[i]
      ensures x <= 30 && (StartsRun(x) ==> TilesOf(Run(x)) <= tiles)
    {
      var j := PositionOf(keys, counts, x);
      SamePlace(keys, j, i);
    }
  }

  /** None of the three melds that may start at position i gets the search there. */
  ghost predicate Tried(keys: seq<int>, counts: seq<nat>, i: nat, will: bool)
    requires i < |keys| == |counts|
  {
    var tiles := Tiles(keys, counts);
    && (counts[i] >= 3 ==> !Reaches(tiles - TilesOf(Triplet(keys[i])), will))
    && (!will && counts[i] >= 2 ==> !Reaches(tiles - TilesOf(Pair(keys[i])), true))
    && (StartsRun(keys[i]) && RunAt(keys, counts, i) ==> !Reaches(tiles - TilesOf(Run(keys[i])), will))
  }

  lemma TriedAll(keys: seq<int>, counts: seq<nat>, i: nat, will: bool, m: Meld)
    requires i < |keys| == |counts| && Sorted(keys) && counts[i] > 0 && Tried(keys, counts, i, will)
    requires Takes(Tiles(keys, counts), m, will) && FirstOf(m) == keys[i]
    ensures !Reaches(Tiles(keys, counts) - TilesOf(m), will || m.Pair?)
  {
    hide Tiles, Reaches, TilesOf, Front, RunAt;
    TilesIs(keys, counts, keys[i]);
    Needs(Tiles(keys, counts), m);
    if m.Run? {
      RunIsAt(keys, counts, i);
    }
  }

  lemma GoesOn(keys: seq<int>, counts: seq<nat>, i: nat, will: bool)
    requires i < |keys| == |counts| && Sorted(keys) && counts[i] > 0 && Searched(keys, counts, i, will)
    requires Tried(keys, counts, i, will) && keys[i] <= 30 && (StartsRun(keys[i]) ==> RunAt(keys, counts, i))
    ensures Searched(keys, counts, i + 1, will)
  {
    hide Tiles, Takes, Reaches, TilesOf, Tried;
    var tiles := Tiles(keys, counts);
    if StartsRun(keys[i]) {
      TakesRun(keys, counts, i);
    }
    forall m | Takes(tiles, m, will) && exists k :: 0 <= k < i + 1 && keys[k] == FirstOf(m)
      ensures !Reaches(tiles - TilesOf(m), will || m.Pair?)
    {
      if FirstOf(m) == keys[i] {
        TriedAll(keys, counts, i, will, m);
      }
    }
  }

  /** At an honour, or where no run is, the search ends: it is not to get there at all. */
  lemma Decided(keys: seq<int>, counts: seq<nat>, i: nat, will: bool)
    requires i < |keys| == |counts| && Sorted(keys) && counts[i] > 0 && Searched(keys, counts, i, will)
    requires Tried(keys, counts, i, will) && Char(|Tiles(keys, counts)|) > 0
    requires keys[i] > 30 || (StartsRun(keys[i]) && !RunAt(keys, counts, i))
    ensures !Reaches(Tiles(keys, counts), will)
  {
    hide Tiles, Reaches, TilesOf, Tried, RunAt, Char;
    var tiles := Tiles(keys, counts);
    if Reaches(tiles, will) {
      var m := ReachesFirst(tiles, will);
      var j := FirstIn(keys, counts, m, will);
      SamePlace(keys, i, j);
      if j == i {
        TriedAll(keys, counts, i, will, m);
      } else if i < j {
        TilesIs(keys, counts, keys[i]);
        NoRun(keys, counts, i);
      }
    }
  }

  lemma NoRun(keys: seq<int>, counts: seq<nat>, i: nat)
    requires i < |keys| == |counts| && Sorted(keys) && counts[i] > 0
    ensures TilesOf(Run(keys[i])) <= Tiles(keys, counts) ==> RunAt(keys, counts, i)
  {
    hide Tiles, RunAt;
    if TilesOf(Run(keys[i])) <= Tiles(keys, counts) {
      Needs(Tiles(keys, counts), Run(keys[i]));
      RunIsAt(keys, counts, i);
    }
  }

  lemma AllSearched(keys: seq<int>, counts: seq<nat>, will: bool)
    requires |keys| == |counts| && Sorted(keys) && Searched(keys, counts, |keys|, will)
    requires Char(|Tiles(keys, counts)|) > 0
    ensures !Reaches(Tiles(keys, counts), will)
  {
    hide Tiles, Reaches, TilesOf, Char;
    if Reaches(Tiles(keys, counts), will) {
      var m := ReachesFirst(Tiles(keys, counts), will);
      var j := FirstIn(keys, counts, m, will);
    }
  }

  lemma Needs(tiles: multiset<int>, m: Meld)
    requires TilesOf(m) <= tiles
    ensures m.Triplet? ==> tiles[m.tile] >= 3
    ensures m.Pair? ==> tiles[m.tile] >= 2
    ensures m.Run? ==> m.first in tiles && m.first + 1 in tiles && m.first + 2 in tiles
  {
    assert m.Triplet? ==> TilesOf(m)[m.tile] == 3;
    assert m.Pair? ==> TilesOf(m)[m.tile] == 2;
    assert m.Run? ==> m.first in TilesOf(m) && m.first + 1 in TilesOf(m) && m.first + 2 in TilesOf(m);
  }

  // ----- More tiles than a signed byte can count -----

  lemma SumOfFour(a: nat, b: nat, c: nat, d: nat)
    ensures Sum([a, b, c, d]) == a + b + c + d
  {
    assert [d][1..] == [] && [c, d][1..] == [d] && [b, c, d][1..] == [c, d] && [a, b, c, d][1..] == [b, c, d];
    assert Sum([d]) == d;
    assert Sum([c, d]) == c + d;
    assert Sum([b, c, d]) == b + c + d;
  }

  /** For each number of tiles from 128 to 256 there is a hand that does not win and is called a win. */
  method TooManyTiles(n: nat) returns (hand: Hand, r: bool)
    requires 128 <= n <= 256
    ensures fresh(hand) && fresh(hand.counts) && hand.Valid() && Sum(hand.counts[..]) == n
    ensures r && !Wins(hand.Held(), false)
  {
    hide Wins, Tiles, TilesOf;
    var third: nat := if n - 2 <= 127 then n - 2 else 127;
    var fourth: nat := n - 2 - third;
    var counts := new nat[4];
    counts[0], counts[1], counts[2], counts[3] := 1, 1, third, fourth;
    hand := new Hand([31, 33, 35, 37], counts);
    var cs: seq<nat> := [1, 1, third, fourth];
    assert hand.counts[..] == cs;
    SumOfFour(1, 1, third, fourth);
    LoneHonour(hand.keys, cs);
    r := hand.HuBrand(false);
  }

  /** A single honour as the smallest tile is in no meld. */
  lemma LoneHonour(keys: seq<int>, counts: seq<nat>)
    requires Sorted(keys) && |keys| == |counts| > 0 && keys[0] > 30 && counts[0] == 1
    ensures !Wins(Tiles(keys, counts), false)
  {
    hide Wins, Tiles, TilesOf;
    var tiles := Tiles(keys, counts);
    if Wins(tiles, false) {
      TilesIs(keys, counts, keys[0]);
      forall x | x in tiles
        ensures keys[0] <= x
      {
        var j := PositionOf(keys, counts, x);
        SamePlace(keys, 0, j);
      }
      var m := SmallestTile(tiles, keys[0], false);
      Needs(tiles, m);
    }
  }
}
