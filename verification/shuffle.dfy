/**
  Shuffling the answers (scripts.js, `shuffleArray`, lines 34-36).

  The source sorts with a random comparator, which yields some
  permutation of its input but no particular distribution. The model
  replaces the random numbers by a sequence of picks: at each step the
  next pick selects the position of the element to place next (a missing
  or out-of-range pick selects the first). Every result
  is a permutation of the input, and every permutation is the result of
  some picks; nothing is claimed about how likely each one is.
 */
module Shuffle {

  /** The sequence without its `i`-th element. */
  function Remove<T>(xs: seq<T>, i: nat): (ys: seq<T>)
    requires i < |xs|
    ensures |ys| == |xs| - 1
    ensures multiset(ys) + multiset{xs[i]} == multiset(xs)
  {
    assert xs == xs[..i] + [xs[i]] + xs[i+1..];
    xs[..i] + xs[i+1..]
  }

  /** The position the first pick selects among `n` elements; 0 when there is no usable pick. */
  function Select(picks: seq<nat>, n: nat): (i: nat)
    requires n > 0
    ensures i < n
  {
    if |picks| > 0 && picks[0] < n then picks[0] else 0
  }

  /** The picks after the first. */
  function Rest(picks: seq<nat>): seq<nat> {
    if |picks| == 0 then [] else picks[1..]
  }

  /** Reorders `xs` as directed by `picks`. */
  function Shuffle<T>(xs: seq<T>, picks: seq<nat>): (ys: seq<T>)
    ensures |ys| == |xs|
    ensures multiset(ys) == multiset(xs)
    decreases |xs|
  {
    if |xs| == 0 then []
    else
      var i := Select(picks, |xs|);
      [xs[i]] + Shuffle(Remove(xs, i), Rest(picks))
  }

  /** Picking index `i` first places `xs[i]` first and shuffles the rest. */
  lemma ShufflePick<T>(xs: seq<T>, i: nat, tail: seq<nat>)
    requires i < |xs|
    ensures Shuffle(xs, [i] + tail) == [xs[i]] + Shuffle(Remove(xs, i), tail)
  {
    assert Select([i] + tail, |xs|) == i;
    assert Rest([i] + tail) == tail;
  }

  lemma MultisetCancel<T>(a: multiset<T>, b: multiset<T>, x: T)
    requires a + multiset{x} == b + multiset{x}
    ensures a == b
  {
    assert a == (a + multiset{x}) - multiset{x};
    assert b == (b + multiset{x}) - multiset{x};
  }

  /** A position of `x` in `xs`. */
  lemma IndexOf<T>(xs: seq<T>, x: T) returns (i: nat)
    requires x in multiset(xs)
    ensures i < |xs| && xs[i] == x
  {
    assert x in xs;
    i :| i < |xs| && xs[i] == x;
  }

  lemma RestPermutation<T>(xs: seq<T>, ys: seq<T>, i: nat)
    requires multiset(ys) == multiset(xs) && |ys| > 0 && i < |xs| && xs[i] == ys[0]
    ensures multiset(ys[1..]) == multiset(Remove(xs, i))
  {
    assert ys == [ys[0]] + ys[1..];
    assert multiset(ys[1..]) + multiset{ys[0]} == multiset(ys);
    MultisetCancel(multiset(ys[1..]), multiset(Remove(xs, i)), ys[0]);
  }

  lemma SameLength<T>(xs: seq<T>, ys: seq<T>)
    requires multiset(ys) == multiset(xs)
    ensures |ys| == |xs|
  {
    assert |ys| == |multiset(ys)|;
    assert |xs| == |multiset(xs)|;
  }

  lemma PickFirst<T>(xs: seq<T>, ys: seq<T>, i: nat, tail: seq<nat>)
    requires |ys| > 0 && i < |xs| && xs[i] == ys[0]
    requires Shuffle(Remove(xs, i), tail) == ys[1..]
    ensures Shuffle(xs, [i] + tail) == ys
  {
    ShufflePick(xs, i, tail);
    assert ys == [ys[0]] + ys[1..];
  }

  /** Picks under which the shuffle of `xs` yields `ys`. */
  lemma {:induction false} PicksFor<T>(xs: seq<T>, ys: seq<T>) returns (picks: seq<nat>)
    requires multiset(ys) == multiset(xs)
    ensures Shuffle(xs, picks) == ys
    decreases |xs|
  {
    SameLength(xs, ys);
    if |xs| == 0 {
      picks := [];
    } else {
      var i := IndexOf(xs, ys[0]);
      RestPermutation(xs, ys, i);
      var tail := PicksFor(Remove(xs, i), ys[1..]);
      PickFirst(xs, ys, i, tail);
      picks := [i] + tail;
    }
  }

  /** Every rearrangement of `xs` is the outcome of some picks. */
  lemma EveryPermutationReachable<T>(xs: seq<T>, ys: seq<T>)
    requires multiset(ys) == multiset(xs)
    ensures exists picks :: Shuffle(xs, picks) == ys
  {
    var picks := PicksFor(xs, ys);
  }
}
