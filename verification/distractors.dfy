/**
 * The answer options of multiple-choice play: the correct answer at index 0,
 * then the answers of at most three other quiz rows whose answer differs from
 * it, then the whole array shuffled.
 */
module Distractors {
  import opened Wrappers
  import opened Quizzes
  import opened Shuffle
  import Text

  /** The `limit` of the distractor query. */
  const DistractorLimit: nat := 3

  function Min(a: nat, b: nat): nat
  {
    if a <= b then a else b
  }

  /** The number of store rows whose answer is not exactly `correct`. */
  function Others(store: seq<Quiz>, correct: string): (n: nat)
    ensures n <= |store|
  {
    if |store| == 0 then 0
    else (if store[0].answer != correct then 1 else 0) + Others(store[1..], correct)
  }

  /**
   * The rows returned by `findAll({where: {answer: {notIn: [correct]}}, order: RANDOM(), limit: 3})`,
   * given as store indices: distinct rows, each with an answer other than
   * `correct`, as many as the limit and the store allow.
   */
  predicate ValidDraw(store: seq<Quiz>, correct: string, drawn: seq<nat>): (b: bool)
    ensures b ==> |drawn| <= DistractorLimit && |drawn| <= |store|
  {
    && (forall k :: 0 <= k < |drawn| ==> drawn[k] < |store| && store[drawn[k]].answer != correct)
    && (forall a, b :: 0 <= a < b < |drawn| ==> drawn[a] != drawn[b])
    && |drawn| == Min(DistractorLimit, Others(store, correct))
  }

  /** The indices at or after `i` of the rows whose answer differs, in store order. */
  function OthersFrom(store: seq<Quiz>, correct: string, i: nat): (r: seq<nat>)
    requires i <= |store|
    ensures |r| == Others(store[i..], correct)
    ensures forall k :: 0 <= k < |r| ==> i <= r[k] < |store| && store[r[k]].answer != correct
    ensures forall a, b :: 0 <= a < b < |r| ==> r[a] < r[b]
    decreases |store| - i
  {
    if i == |store| then []
    else
      assert store[i..][1..] == store[i + 1..];
      (if store[i].answer != correct then [i] else []) + OthersFrom(store, correct, i + 1)
  }

  /** Whatever the store holds, the query has an answer: the constraint on the draw never excludes a store. */
  lemma DrawExists(store: seq<Quiz>, correct: string)
    ensures exists drawn :: ValidDraw(store, correct, drawn)
  {
    var all := OthersFrom(store, correct, 0);
    assert store[0..] == store;
    var drawn := all[..Min(DistractorLimit, |all|)];
    assert ValidDraw(store, correct, drawn);
  }

  /** The answers of the drawn rows, in the order the query returned them. */
  function DrawnAnswers(store: seq<Quiz>, drawn: seq<nat>): (r: seq<string>)
    requires forall k :: 0 <= k < |drawn| ==> drawn[k] < |store|
    ensures |r| == |drawn|
    ensures forall k :: 0 <= k < |drawn| ==> r[k] == store[drawn[k]].answer && store[drawn[k]] in store
  {
    seq(|drawn|, k requires 0 <= k < |drawn| => store[drawn[k]].answer)
  }

  /** The option array before the shuffle. */
  function BuildOptions(store: seq<Quiz>, correct: string, drawn: seq<nat>): (r: seq<string>)
    requires ValidDraw(store, correct, drawn)
    ensures |r| == 1 + Min(DistractorLimit, Others(store, correct))
    ensures r[0] == correct
    ensures forall k :: 1 <= k < |r| ==> r[k] != correct
    ensures forall k :: 1 <= k < |r| ==> exists q :: q in store && q.answer == r[k]
    ensures multiset(r)[correct] == 1
  {
    var rest := DrawnAnswers(store, drawn);
    var r := [correct] + rest;
    assert forall k :: 1 <= k < |r| ==> r[k] == store[drawn[k - 1]].answer;
    assert correct !in rest;
    assert multiset(r) == multiset{correct} + multiset(rest);
    r
  }

  /** The option array as rendered: built, then shuffled with the given draws. */
  function ShuffledOptions(store: seq<Quiz>, correct: string, drawn: seq<nat>, draws: seq<nat>): (r: seq<string>)
    requires ValidDraw(store, correct, drawn)
    requires ValidDraws(draws, 1 + |drawn|)
    ensures |r| == 1 + Min(DistractorLimit, Others(store, correct))
    ensures multiset(r)[correct] == 1
    ensures forall x :: x in r ==> x == correct || exists q :: q in store && q.answer == x
    ensures multiset(r) == multiset(BuildOptions(store, correct, drawn))
  {
    var built := BuildOptions(store, correct, drawn);
    var r := Shuffled(built, draws);
    forall x | x in r
      ensures x == correct || exists q :: q in store && q.answer == x
    {
      assert x in multiset(r);
      assert x in built;
      var k :| 0 <= k < |built| && built[k] == x;
    }
    r
  }

  /** A value counted once in a sequence sits at one index only. */
  lemma OccursOnlyAt<T>(r: seq<T>, x: T, i: nat, k: nat)
    requires multiset(r)[x] == 1
    requires i < |r| && k < |r| && i != k && r[i] == x
    ensures r[k] != x
  {
    var cut := if i < k then k else i;
    assert r == r[..cut] + r[cut..];
    assert multiset(r) == multiset(r[..cut]) + multiset(r[cut..]);
    if i < k {
      assert r[..cut][i] == x;
      assert multiset(r[..cut])[x] >= 1;
      assert multiset(r[cut..])[x] == 0;
      assert r[cut..][0] == r[k];
    } else {
      assert r[cut..][0] == x;
      assert multiset(r[cut..])[x] >= 1;
      assert multiset(r[..cut])[x] == 0;
      assert r[..cut][k] == r[k];
    }
  }

  /** The correct answer is at exactly one position after the shuffle. */
  lemma CorrectAnswerOnce(store: seq<Quiz>, correct: string, drawn: seq<nat>, draws: seq<nat>)
    requires ValidDraw(store, correct, drawn)
    requires ValidDraws(draws, 1 + |drawn|)
    ensures var r := ShuffledOptions(store, correct, drawn, draws);
      exists i :: 0 <= i < |r| && r[i] == correct && forall k :: 0 <= k < |r| && k != i ==> r[k] != correct
  {
    var r := ShuffledOptions(store, correct, drawn, draws);
    assert correct in multiset(r);
    var i :| 0 <= i < |r| && r[i] == correct;
    forall k | 0 <= k < |r| && k != i
      ensures r[k] != correct
    {
      OccursOnlyAt(r, correct, i, k);
    }
  }

  /** Two other rows sharing an answer both make it into the options: distractors are not deduplicated. */
  lemma DistractorsMayRepeat()
    ensures var store := [Quiz(1, "Capital of France?", "Paris"), Quiz(2, "Capital of Italy?", "Rome"),
                          Quiz(3, "Where is the Colosseum?", "Rome")];
      ValidDraw(store, "Paris", [1, 2]) && BuildOptions(store, "Paris", [1, 2]) == ["Paris", "Rome", "Rome"]
  {
    var store := [Quiz(1, "Capital of France?", "Paris"), Quiz(2, "Capital of Italy?", "Rome"),
                  Quiz(3, "Where is the Colosseum?", "Rome")];
    assert Others(store, "Paris") == 2 by {
      assert store[1..][1..] == [store[2]];
    }
  }

  lemma NearDuplicateDraw()
    ensures var store := [Quiz(1, "Capital of France?", "Paris"), Quiz(2, "Ville lumiere?", "paris")];
      && ValidDraw(store, "Paris", [1])
      && BuildOptions(store, "Paris", [1]) == ["Paris", "paris"]
  {
    var store := [Quiz(1, "Capital of France?", "Paris"), Quiz(2, "Ville lumiere?", "paris")];
    assert Others(store, "Paris") == 1 by {
      assert store[1..][1..] == [];
    }
  }

  /** Exclusion is by exact equality, so a distractor can still be accepted by the normalising check. */
  lemma DistractorMayMatchCheck()
    ensures var store := [Quiz(1, "Capital of France?", "Paris"), Quiz(2, "Ville lumiere?", "paris")];
      && ValidDraw(store, "Paris", [1])
      && Text.Matches(Some(BuildOptions(store, "Paris", [1])[1]), "Paris")
  {
    NearDuplicateDraw();
    Text.MatchesExamples();
  }
}
