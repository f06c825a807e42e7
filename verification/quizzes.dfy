/**
 * The quiz store as the session engine sees it: a sequence of quiz rows, and
 * the "one random quiz whose id is not in a list" query, with the random
 * choice made explicit as an index into the eligible rows.
 */
module Quizzes {
  import opened Wrappers

  datatype Quiz = Quiz(id: int, question: string, answer: string)

  /** The rows of the store whose id is not in `excluded`, in store order. */
  function Candidates(store: seq<Quiz>, excluded: seq<int>): (c: seq<Quiz>)
    ensures |c| <= |store|
    ensures forall q :: q in c <==> q in store && q.id !in excluded
    ensures c == [] <==> forall q :: q in store ==> q.id in excluded
  {
    if |store| == 0 then []
    else (if store[0].id in excluded then [] else [store[0]]) + Candidates(store[1..], excluded)
  }

  /** The random choice is one of the eligible rows (any index when there is none). */
  predicate ValidPick(store: seq<Quiz>, excluded: seq<int>, pick: nat): (b: bool)
    ensures pick == 0 ==> b
    ensures b <==> (forall q :: q in store ==> q.id in excluded) || pick < |Candidates(store, excluded)|
  {
    var c := Candidates(store, excluded);
    c == [] || pick < |c|
  }

  /**
   * `findOne({where: {id: {notIn: excluded}}, order: RANDOM()})`: a quiz not
   * yet played, or nothing when every row's id is excluded.
   */
  function Select(store: seq<Quiz>, excluded: seq<int>, pick: nat): (r: Option<Quiz>)
    requires ValidPick(store, excluded, pick)
    ensures r.None? <==> forall q :: q in store ==> q.id in excluded
    ensures r.Some? ==> r.value in store && r.value.id !in excluded
  {
    var c := Candidates(store, excluded);
    if |c| == 0 then None else Some(c[pick])
  }

  /** Every quiz that is not excluded can be the one drawn. */
  lemma SelectReachesEveryCandidate(store: seq<Quiz>, excluded: seq<int>, q: Quiz)
    requires q in store && q.id !in excluded
    ensures exists pick: nat :: ValidPick(store, excluded, pick) && Select(store, excluded, pick) == Some(q)
  {
    var c := Candidates(store, excluded);
    assert q in c;
    var pick :| 0 <= pick < |c| && c[pick] == q;
    assert ValidPick(store, excluded, pick) && Select(store, excluded, pick) == Some(q);
  }

  /** When only one quiz is left, every valid draw returns exactly that quiz. */
  lemma SelectLastRemaining(store: seq<Quiz>, excluded: seq<int>, q: Quiz, pick: nat)
    requires q in store && q.id !in excluded
    requires forall p :: p in store && p.id !in excluded ==> p == q
    requires ValidPick(store, excluded, pick)
    ensures Select(store, excluded, pick) == Some(q)
  {
  }

  /** The set of ids present in the store. */
  function Ids(store: seq<Quiz>): set<int>
  {
    set q | q in store :: q.id
  }

  predicate NoDuplicates(xs: seq<int>)
  {
    forall i, j :: 0 <= i < j < |xs| ==> xs[i] != xs[j]
  }

  function Elements(xs: seq<int>): set<int>
  {
    set x | x in xs
  }

  lemma {:induction false} IdsBound(store: seq<Quiz>)
    ensures |Ids(store)| <= |store|
    decreases |store|
  {
    if |store| > 0 {
      IdsBound(store[1..]);
      assert Ids(store) == Ids(store[1..]) + {store[0].id} by {
        forall q | q in store
          ensures q == store[0] || q in store[1..]
        {
          var i :| 0 <= i < |store| && store[i] == q;
          if i > 0 {
            assert store[1..][i - 1] == q;
          }
        }
      }
    } else {
      assert Ids(store) == {};
    }
  }

  lemma {:induction false} ElementsOfDistinct(xs: seq<int>)
    requires NoDuplicates(xs)
    ensures |Elements(xs)| == |xs|
    decreases |xs|
  {
    if |xs| > 0 {
      var tail := xs[1..];
      assert NoDuplicates(tail) by {
        forall i, j | 0 <= i < j < |tail|
          ensures tail[i] != tail[j]
        {
          assert tail[i] == xs[i + 1] && tail[j] == xs[j + 1];
        }
      }
      ElementsOfDistinct(tail);
      assert xs[0] !in tail by {
        forall k | 0 <= k < |tail|
          ensures tail[k] != xs[0]
        {
          assert tail[k] == xs[k + 1];
        }
      }
      assert Elements(xs) == Elements(tail) + {xs[0]} by {
        forall x | x in xs
          ensures x == xs[0] || x in tail
        {
          var i :| 0 <= i < |xs| && xs[i] == x;
          if i > 0 {
            assert tail[i - 1] == x;
          }
        }
      }
    } else {
      assert Elements(xs) == {};
    }
  }

  lemma SubsetSize(a: set<int>, b: set<int>)
    requires a <= b
    ensures |a| <= |b|
  {
    assert b == a + (b - a);
    assert a * (b - a) == {};
  }

  /** A duplicate-free list of store ids is no longer than the store. */
  lemma PlayedBound(store: seq<Quiz>, played: seq<int>)
    requires NoDuplicates(played)
    requires forall x :: x in played ==> x in Ids(store)
    ensures |played| <= |store|
  {
    ElementsOfDistinct(played);
    IdsBound(store);
    SubsetSize(Elements(played), Ids(store));
  }

  lemma SubsetOfSameSize(a: set<int>, b: set<int>)
    requires a <= b && |a| >= |b|
    ensures a == b
  {
    assert b == a + (b - a);
    assert a * (b - a) == {};
    assert |b - a| == 0;
  }

  /**
   * Pigeonhole: a duplicate-free list of store ids at least as long as the
   * store covers every quiz, so nothing is left to draw.
   */
  lemma CoveredWhenLongEnough(store: seq<Quiz>, played: seq<int>)
    requires NoDuplicates(played)
    requires forall x :: x in played ==> x in Ids(store)
    requires |played| >= |store|
    ensures forall q :: q in store ==> q.id in played
    ensures Candidates(store, played) == []
  {
    ElementsOfDistinct(played);
    IdsBound(store);
    assert Elements(played) <= Ids(store);
    SubsetOfSameSize(Elements(played), Ids(store));
    forall q | q in store
      ensures q.id in played
    {
      assert q.id in Ids(store);
    }
  }
}
