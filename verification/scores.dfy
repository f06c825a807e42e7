/**
 * `updatescore` of the user controller: the per-mode high scores stored on the
 * user only ever go up, the total is recomputed as their sum, and only the
 * fields that changed (plus the total) are written back.
 */
module Scores {
  import opened Wrappers

  /** The per-mode columns as read from the user row; both may be NULL. */
  datatype StoredScores = StoredScores(scoreNormal: Option<nat>, scoreMultiple: Option<nat>)

  /** The request body; either score may be missing. */
  datatype ScoreBody = ScoreBody(scoreNormal: Option<nat>, scoreMultiple: Option<nat>)

  /** The user's scores after the call. */
  datatype UserScores = UserScores(scoreNormal: nat, scoreMultiple: nat, score: nat)

  /** The columns named in `save({fields: ...})`. */
  datatype Field = ScoreNormalField | ScoreMultipleField | ScoreField

  datatype ScoreUpdate = ScoreUpdate(user: UserScores, fields: seq<Field>)

  function Max(a: nat, b: nat): nat
  {
    if a >= b then a else b
  }

  /** JavaScript truthiness of a body field: present and not 0. */
  predicate Truthy(v: Option<nat>)
  {
    v.Some? && v.value != 0
  }

  /** Whether the incoming value replaces the stored one: truthy and strictly greater. */
  predicate Raises(stored: nat, incoming: Option<nat>)
  {
    Truthy(incoming) && incoming.value > stored
  }

  /** One mode's ratchet: the stored value, replaced by the incoming one only when it is larger. */
  function Ratchet(stored: nat, incoming: Option<nat>): (r: nat)
    ensures r == Max(stored, incoming.GetOr(0))
    ensures r >= stored
    ensures r != stored <==> Raises(stored, incoming)
  {
    if Raises(stored, incoming) then incoming.value else stored
  }

  function UpdateScore(stored: StoredScores, body: ScoreBody): (u: ScoreUpdate)
    ensures u.user.scoreNormal == Max(stored.scoreNormal.GetOr(0), body.scoreNormal.GetOr(0))
    ensures u.user.scoreMultiple == Max(stored.scoreMultiple.GetOr(0), body.scoreMultiple.GetOr(0))
    ensures u.user.score == u.user.scoreNormal + u.user.scoreMultiple
    ensures |u.fields| > 0 && u.fields[|u.fields| - 1] == ScoreField
    ensures ScoreNormalField in u.fields <==> u.user.scoreNormal > stored.scoreNormal.GetOr(0)
    ensures ScoreMultipleField in u.fields <==> u.user.scoreMultiple > stored.scoreMultiple.GetOr(0)
    ensures forall i, j :: 0 <= i < j < |u.fields| ==> u.fields[i] != u.fields[j]
  {
    var normal := stored.scoreNormal.GetOr(0);
    var multiple := stored.scoreMultiple.GetOr(0);
    var newNormal := Ratchet(normal, body.scoreNormal);
    var newMultiple := Ratchet(multiple, body.scoreMultiple);
    var fields :=
      (if Raises(normal, body.scoreNormal) then [ScoreNormalField] else [])
      + (if Raises(multiple, body.scoreMultiple) then [ScoreMultipleField] else [])
      + [ScoreField];
    ScoreUpdate(UserScores(newNormal, newMultiple, newNormal + newMultiple), fields)
  }

  /** The call applied to a user whose columns are already set. */
  function Apply(u: UserScores, body: ScoreBody): (v: UserScores)
    ensures v.scoreNormal == Max(u.scoreNormal, body.scoreNormal.GetOr(0))
    ensures v.scoreMultiple == Max(u.scoreMultiple, body.scoreMultiple.GetOr(0))
    ensures v.score == v.scoreNormal + v.scoreMultiple
  {
    UpdateScore(StoredScores(Some(u.scoreNormal), Some(u.scoreMultiple)), body).user
  }

  /** A missing stored score behaves exactly like a stored 0. */
  lemma MissingStoredIsZero(body: ScoreBody)
    ensures UpdateScore(StoredScores(None, None), body) == UpdateScore(StoredScores(Some(0), Some(0)), body)
  {
  }

  /** Neither per-mode score ever goes down, and each mode only looks at its own incoming value. */
  lemma NoDecrease(stored: StoredScores, body: ScoreBody)
    ensures UpdateScore(stored, body).user.scoreNormal >= stored.scoreNormal.GetOr(0)
    ensures UpdateScore(stored, body).user.scoreMultiple >= stored.scoreMultiple.GetOr(0)
    ensures UpdateScore(stored, body).user.scoreNormal
         == UpdateScore(stored, body.(scoreMultiple := None)).user.scoreNormal
    ensures UpdateScore(stored, body).user.scoreMultiple
         == UpdateScore(stored, body.(scoreNormal := None)).user.scoreMultiple
  {
  }

  /** Sending the same body twice changes nothing the second time, and only the total is written. */
  lemma Idempotent(u: UserScores, body: ScoreBody)
    ensures Apply(Apply(u, body), body) == Apply(u, body)
    ensures var v := Apply(u, body);
      UpdateScore(StoredScores(Some(v.scoreNormal), Some(v.scoreMultiple)), body).fields == [ScoreField]
  {
    var v := Apply(u, body);
    var second := UpdateScore(StoredScores(Some(v.scoreNormal), Some(v.scoreMultiple)), body);
    assert ScoreNormalField !in second.fields;
    assert ScoreMultipleField !in second.fields;
  }

  /** Two bodies applied in either order give the same scores: the per-mode maxima. */
  lemma Commutative(u: UserScores, b1: ScoreBody, b2: ScoreBody)
    ensures Apply(Apply(u, b1), b2) == Apply(Apply(u, b2), b1)
    ensures Apply(Apply(u, b1), b2).scoreNormal
         == Max(u.scoreNormal, Max(b1.scoreNormal.GetOr(0), b2.scoreNormal.GetOr(0)))
    ensures Apply(Apply(u, b1), b2).scoreMultiple
         == Max(u.scoreMultiple, Max(b1.scoreMultiple.GetOr(0), b2.scoreMultiple.GetOr(0)))
  {
    var n1, n2 := b1.scoreNormal.GetOr(0), b2.scoreNormal.GetOr(0);
    var m1, m2 := b1.scoreMultiple.GetOr(0), b2.scoreMultiple.GetOr(0);
    var n := Max(u.scoreNormal, Max(n1, n2));
    var m := Max(u.scoreMultiple, Max(m1, m2));
    MaxOrder(u.scoreNormal, n1, n2);
    MaxOrder(u.scoreMultiple, m1, m2);
    assert Apply(Apply(u, b1), b2) == UserScores(n, m, n + m);
    assert Apply(Apply(u, b2), b1) == UserScores(n, m, n + m);
  }

  lemma MaxOrder(a: nat, b: nat, c: nat)
    ensures Max(Max(a, b), c) == Max(a, Max(b, c))
    ensures Max(Max(a, c), b) == Max(a, Max(b, c))
  {
  }

  /** A user at 5 + 3 = 8: a lower normal score is ignored, a higher one raises the total once. */
  lemma Scenario()
    ensures Apply(UserScores(5, 3, 8), ScoreBody(Some(4), None)) == UserScores(5, 3, 8)
    ensures Apply(UserScores(5, 3, 8), ScoreBody(Some(7), None)) == UserScores(7, 3, 10)
    ensures Apply(UserScores(7, 3, 10), ScoreBody(Some(7), None)) == UserScores(7, 3, 10)
    ensures UpdateScore(StoredScores(Some(5), Some(3)), ScoreBody(Some(7), None)).fields
         == [ScoreNormalField, ScoreField]
  {
  }
}
