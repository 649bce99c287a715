/** Lists of lists. */
module Lists {

  /** All elements, list after list. */
  function Flatten<T>(lists: seq<seq<T>>): seq<T> {
    if lists == [] then [] else Flatten(lists[..|lists| - 1]) + lists[|lists| - 1]
  }

  lemma FlattenAppend<T>(lists: seq<seq<T>>, one: seq<T>)
    ensures Flatten(lists + [one]) == Flatten(lists) + one
  {
    assert (lists + [one])[..|lists|] == lists;
  }

  lemma Regroup<T>(a: seq<T>, b: seq<T>, c: seq<T>)
    ensures a + b + c == a + (b + c) && b + [] == b
  {
  }

  /** xs holds `part` at position p. */
  ghost predicate At<T>(xs: seq<T>, p: nat, part: seq<T>) {
    p + |part| <= |xs| && xs[p..p + |part|] == part
  }

  lemma AtFits<T>(xs: seq<T>, p: nat, part: seq<T>)
    requires At(xs, p, part)
    ensures p + |part| <= |xs|
  {
  }

  lemma AtIndex<T>(xs: seq<T>, p: nat, part: seq<T>, i: nat)
    requires At(xs, p, part) && i < |part|
    ensures p + i < |xs| && xs[p + i] == part[i]
  {
    assert xs[p..p + |part|][i] == xs[p + i];
  }

  lemma AtTail<T>(xs: seq<T>, p: nat, part: seq<T>, k: nat)
    requires At(xs, p, part) && k <= |part|
    ensures At(xs, p + k, part[k..])
  {
    assert xs[p + k..p + |part|] == xs[p..p + |part|][k..];
  }

  lemma AtHead<T>(xs: seq<T>, p: nat, part: seq<T>, k: nat)
    requires At(xs, p, part) && k <= |part|
    ensures At(xs, p, part[..k])
  {
    assert xs[p..p + k] == xs[p..p + |part|][..k];
  }

  lemma AtSplit<T>(xs: seq<T>, p: nat, a: seq<T>, b: seq<T>)
    requires At(xs, p, a + b)
    ensures At(xs, p, a) && At(xs, p + |a|, b)
  {
    AtHead(xs, p, a + b, |a|);
    AtTail(xs, p, a + b, |a|);
    assert (a + b)[..|a|] == a && (a + b)[|a|..] == b;
  }
}
