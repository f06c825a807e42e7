/**
 * The Durstenfeld form of the Fisher-Yates shuffle used on the answer options:
 * for i from the last index down to 0, swap the element at i with the one at
 * some j in [0, i]. The random draws are given as the sequence `draws`, where
 * `draws[i]` is the j chosen at step i.
 */
module Shuffle {

  /** One admissible draw per position: the j chosen at step i never exceeds i. */
  predicate ValidDraws(draws: seq<nat>, n: nat): (b: bool)
    ensures b ==> forall i :: 0 <= i < |draws| ==> draws[i] < |draws|
  {
    |draws| == n && forall i :: 0 <= i < n ==> draws[i] <= i
  }

  /** Exchanges the elements at `i` and `j`. */
  function Swap<T>(s: seq<T>, i: nat, j: nat): (r: seq<T>)
    requires i < |s| && j < |s|
    ensures |r| == |s| && r[i] == s[j] && r[j] == s[i]
    ensures forall k :: 0 <= k < |s| && k != i && k != j ==> r[k] == s[k]
    ensures multiset(r) == multiset(s)
  {
    s[i := s[j]][j := s[i]]
  }

  /** The steps i = n-1, ..., 0 of the loop, for the first `n` positions. */
  function ShuffleBelow<T>(s: seq<T>, draws: seq<nat>, n: nat): (r: seq<T>)
    requires n <= |s| && ValidDraws(draws, |s|)
    ensures |r| == |s|
    ensures multiset(r) == multiset(s)
    ensures forall k :: n <= k < |s| ==> r[k] == s[k]
    decreases n
  {
    if n == 0 then s else ShuffleBelow(Swap(s, n - 1, draws[n - 1]), draws, n - 1)
  }

  /** Draws exist for every length: j = i at every step is always admissible. */
  lemma KeepingDrawsValid(n: nat)
    ensures ValidDraws(seq(n, i => i), n)
  {
  }

  /** The shuffle of a whole sequence. */
  function Shuffled<T>(s: seq<T>, draws: seq<nat>): (r: seq<T>)
    requires ValidDraws(draws, |s|)
    ensures |r| == |s|
    ensures multiset(r) == multiset(s)
  {
    ShuffleBelow(s, draws, |s|)
  }

  /** One step of the loop: step i is the last one still to run on the first i + 1 positions. */
  lemma ShuffleStep<T>(s: seq<T>, draws: seq<nat>, i: nat)
    requires i < |s| && ValidDraws(draws, |s|)
    ensures ShuffleBelow(s, draws, i + 1) == ShuffleBelow(Swap(s, i, draws[i]), draws, i)
  {
  }

  /**
   * `fisherYates(array)`: the loop from the last index down to 0, each step
   * swapping position i with position draws[i]. The array is modelled by a
   * local sequence holding its current contents.
   */
  method FisherYates<T>(input: seq<T>, draws: seq<nat>) returns (r: seq<T>)
    requires ValidDraws(draws, |input|)
    ensures r == Shuffled(input, draws)
    ensures |r| == |input| && multiset(r) == multiset(input)
  {
    r := input;
    var i := |r|;
    while i > 0
      invariant 0 <= i <= |r| == |input|
      invariant ShuffleBelow(r, draws, i) == Shuffled(input, draws)
      decreases i
    {
      i := i - 1;
      ShuffleStep(r, draws, i);
      r := Swap(r, i, draws[i]);
    }
  }

  /** Every value occurs as often after the shuffle as before, and is present after it exactly when it was before. */
  lemma ShuffledKeepsCount<T>(s: seq<T>, draws: seq<nat>, x: T)
    requires ValidDraws(draws, |s|)
    ensures multiset(Shuffled(s, draws))[x] == multiset(s)[x]
    ensures x in Shuffled(s, draws) <==> x in s
  {
    var r := Shuffled(s, draws);
    assert x in r <==> x in multiset(r);
    assert x in s <==> x in multiset(s);
  }

  /** On two elements, the draw j = 1 at step 1 keeps the order. */
  lemma TwoElementsKept<T>(a: T, b: T)
    ensures Shuffled([a, b], [0, 1]) == [a, b]
  {
    assert Swap([a, b], 1, 1) == [a, b];
    assert Swap([a, b], 0, 0) == [a, b];
    assert Shuffled([a, b], [0, 1]) == ShuffleBelow([a, b], [0, 1], 1);
    assert ShuffleBelow([a, b], [0, 1], 1) == ShuffleBelow([a, b], [0, 1], 0);
  }

  /** On two elements, the draw j = 0 at step 1 reverses the order: both orders are reachable. */
  lemma TwoElementsSwapped<T>(a: T, b: T)
    ensures Shuffled([a, b], [0, 0]) == [b, a]
  {
    assert Swap([a, b], 1, 0) == [b, a];
    assert Swap([b, a], 0, 0) == [b, a];
    assert Shuffled([a, b], [0, 0]) == ShuffleBelow([b, a], [0, 0], 1);
    assert ShuffleBelow([b, a], [0, 0], 1) == ShuffleBelow([b, a], [0, 0], 0);
  }
}
