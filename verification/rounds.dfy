/**
 * The random-play session engine of the quiz controller. Each mode (normal and
 * multiple choice) keeps its own round in the session: the ids answered
 * correctly so far and the running score. A play draws a quiz not yet played,
 * a check compares the answer and moves the round on.
 */
module Rounds {
  import opened Wrappers
  import opened Quizzes
  import opened Shuffle
  import opened Distractors
  import Text

  /** One mode's round: the played-id list (a JavaScript array, duplicates allowed) and the score. */
  datatype Round = Round(played: seq<int>, score: nat)

  /** The session fields of both modes: `randomPlay`/`scoreNormal` and `randomPlayMultiple`/`scoreMultiple`. */
  datatype Session = Session(normal: Round, multiple: Round)

  /** A round never touched: no list and no score, read as an empty list and score 0. */
  const FreshRound := Round([], 0)

  /** What a play renders. */
  datatype PlayView =
    | Completed(score: nat)                                          // every quiz has been played
    | Question(quiz: Quiz, score: nat)                               // normal mode
    | ChoiceQuestion(quiz: Quiz, score: nat, options: seq<string>)   // multiple-choice mode

  datatype PlayStep = PlayStep(round: Round, view: PlayView)

  /** What a check renders: the verdict, the score shown and the answer echoed back. */
  datatype CheckView = CheckView(result: bool, score: nat, answer: string)

  /** What the stand-alone check renders: the verdict and the answer echoed back. */
  datatype Verdict = Verdict(result: bool, answer: string)

  datatype CheckStep = CheckStep(round: Round, view: CheckView)

  /** The round a play draws against: a score of 0 starts a new round with an empty list. */
  function StartRound(r: Round): (s: Round)
    ensures s.score == r.score
    ensures r.score == 0 ==> s.played == []
    ensures r.score != 0 ==> s == r
  {
    if r.score == 0 then Round([], 0) else r
  }

  /**
   * A play of either mode: reset when the score is 0, then draw a quiz whose
   * id is not in the list. When none is left the score becomes 0 and the list
   * stays; otherwise the score is written back unchanged.
   */
  function Play(r: Round, store: seq<Quiz>, pick: nat): (p: PlayStep)
    requires ValidPick(store, StartRound(r).played, pick)
    ensures p.round.played == StartRound(r).played
    ensures p.view.Completed? || p.view.Question?
    ensures p.view.Completed? <==> forall q :: q in store ==> q.id in p.round.played
    ensures p.view.Completed? ==> p.round.score == 0 && p.view.score == r.score
    ensures p.view.Question? ==>
      && p.view.quiz in store && p.view.quiz.id !in p.round.played
      && p.round.score == r.score && p.view.score == r.score
  {
    var start := StartRound(r);
    match Select(store, start.played, pick)
    case None => PlayStep(Round(start.played, 0), Completed(r.score))
    case Some(q) => PlayStep(start, Question(q, r.score))
  }

  /** The random inputs of a multiple-choice play: the quiz draw, the distractor rows and the shuffle draws. */
  predicate ChoiceDraws(r: Round, store: seq<Quiz>, pick: nat, drawn: seq<nat>, draws: seq<nat>)
  {
    && ValidPick(store, StartRound(r).played, pick)
    && var sel := Select(store, StartRound(r).played, pick);
       sel.Some? ==> ValidDraw(store, sel.value.answer, drawn) && ValidDraws(draws, 1 + |drawn|)
  }

  /**
   * A multiple-choice play: the same round step as `Play`, and when a quiz is
   * drawn, its shuffled options.
   */
  function PlayChoice(r: Round, store: seq<Quiz>, pick: nat, drawn: seq<nat>, draws: seq<nat>): (p: PlayStep)
    requires ChoiceDraws(r, store, pick, drawn, draws)
    ensures p.round == Play(r, store, pick).round
    ensures p.view.Completed? || p.view.ChoiceQuestion?
    ensures p.view.Completed? <==> forall q :: q in store ==> q.id in p.round.played
    ensures p.view.Completed? ==> p.view.score == r.score
    ensures p.view.ChoiceQuestion? ==>
      && p.view.quiz in store && p.view.quiz.id !in p.round.played && p.view.score == r.score
      && |p.view.options| == 1 + Min(DistractorLimit, Others(store, p.view.quiz.answer))
      && multiset(p.view.options)[p.view.quiz.answer] == 1
    ensures p.view.ChoiceQuestion? ==>
      && Select(store, StartRound(r).played, pick) == Some(p.view.quiz)
      && ValidDraw(store, p.view.quiz.answer, drawn)
      && multiset(p.view.options) == multiset(BuildOptions(store, p.view.quiz.answer, drawn))
  {
    var p := Play(r, store, pick);
    match p.view
    case Question(q, score) =>
      PlayStep(p.round, ChoiceQuestion(q, score, ShuffledOptions(store, q.answer, drawn, draws)))
    case _ => p
  }

  /**
   * A check of either mode. A correct answer appends the quiz id (with no
   * duplicate guard) and shows the incremented score; a wrong one sets the
   * score to 0, keeps the list and shows the score held before the answer.
   */
  function Check(r: Round, quiz: Quiz, submitted: Option<string>): (c: CheckStep)
    ensures c.view.result <==> Text.Matches(submitted, quiz.answer)
    ensures c.view.answer == submitted.GetOr("")
    ensures c.view.result ==> c.round.played == r.played + [quiz.id] && c.round.score == r.score + 1
    ensures c.view.result ==> c.view.score == c.round.score
    ensures !c.view.result ==> c.round.played == r.played && c.round.score == 0
    ensures !c.view.result ==> c.view.score == r.score
  {
    var answer := submitted.GetOr("");
    if Text.Matches(submitted, quiz.answer) then
      CheckStep(Round(r.played + [quiz.id], r.score + 1), CheckView(true, r.score + 1, answer))
    else
      CheckStep(Round(r.played, 0), CheckView(false, r.score, answer))
  }

  /** `check`: the stand-alone answer check of one quiz, which keeps no state. */
  function CheckQuiz(quiz: Quiz, submitted: Option<string>): (v: Verdict)
    ensures v.result <==> Text.Normalize(submitted.GetOr("")) == Text.Normalize(quiz.answer)
    ensures v.answer == submitted.GetOr("")
  {
    Verdict(Text.Matches(submitted, quiz.answer), submitted.GetOr(""))
  }

  datatype SessionPlay = SessionPlay(session: Session, view: PlayView)

  datatype SessionCheck = SessionCheck(session: Session, view: CheckView)

  /** `randomPlay`: a normal-mode play; the multiple-choice round is not touched. */
  function RandomPlay(s: Session, store: seq<Quiz>, pick: nat): (res: SessionPlay)
    requires ValidPick(store, StartRound(s.normal).played, pick)
    ensures res.session.multiple == s.multiple
    ensures res.session.normal == Play(s.normal, store, pick).round
    ensures res.view == Play(s.normal, store, pick).view
    ensures res.view.score == s.normal.score
    ensures res.session.normal.score == 0 ==> res.session.normal.played == [] || res.view.Completed?
    ensures res.view.Question? ==> res.view.quiz.id !in res.session.normal.played
    ensures res.view.Completed? <==> forall q :: q in store ==> q.id in StartRound(s.normal).played
  {
    var p := Play(s.normal, store, pick);
    SessionPlay(s.(normal := p.round), p.view)
  }

  /** `randomPlayMultiple`: a multiple-choice play; the normal round is not touched. */
  function RandomPlayMultiple(s: Session, store: seq<Quiz>, pick: nat, drawn: seq<nat>, draws: seq<nat>): (res: SessionPlay)
    requires ChoiceDraws(s.multiple, store, pick, drawn, draws)
    ensures res.session.normal == s.normal
    ensures res.session.multiple == PlayChoice(s.multiple, store, pick, drawn, draws).round
    ensures res.view == PlayChoice(s.multiple, store, pick, drawn, draws).view
    ensures res.view.score == s.multiple.score
    ensures res.view.ChoiceQuestion? ==>
      |res.view.options| == 1 + Min(DistractorLimit, Others(store, res.view.quiz.answer))
    ensures res.view.ChoiceQuestion? ==> res.view.quiz.id !in res.session.multiple.played
    ensures res.view.ChoiceQuestion? ==> multiset(res.view.options)[res.view.quiz.answer] == 1
    ensures res.view.Completed? <==> forall q :: q in store ==> q.id in StartRound(s.multiple).played
  {
    var p := PlayChoice(s.multiple, store, pick, drawn, draws);
    SessionPlay(s.(multiple := p.round), p.view)
  }

  /** `randomCheck`: checks `query.answer` in normal mode; the multiple-choice round is not touched. */
  function RandomCheck(s: Session, quiz: Quiz, answer: Option<string>): (res: SessionCheck)
    ensures res.session.multiple == s.multiple
    ensures res.view.result ==> res.view.score == s.normal.score + 1
    ensures !res.view.result ==> res.view.score == s.normal.score
    ensures res.view.answer == answer.GetOr("")
    ensures res.view.result <==> Text.Matches(answer, quiz.answer)
    ensures res.view.result ==> res.session.normal == Round(s.normal.played + [quiz.id], s.normal.score + 1)
    ensures !res.view.result ==> res.session.normal == Round(s.normal.played, 0)
  {
    var c := Check(s.normal, quiz, answer);
    SessionCheck(s.(normal := c.round), c.view)
  }

  /** `randomCheckMultiple`: checks the chosen `query.option`; the normal round is not touched. */
  function RandomCheckMultiple(s: Session, quiz: Quiz, option: Option<string>): (res: SessionCheck)
    ensures res.session.normal == s.normal
    ensures res.view.result ==> res.view.score == s.multiple.score + 1
    ensures !res.view.result ==> res.view.score == s.multiple.score
    ensures res.view.answer == option.GetOr("")
    ensures res.view.result <==> Text.Matches(option, quiz.answer)
    ensures res.view.result ==> res.session.multiple == Round(s.multiple.played + [quiz.id], s.multiple.score + 1)
    ensures !res.view.result ==> res.session.multiple == Round(s.multiple.played, 0)
  {
    var c := Check(s.multiple, quiz, option);
    SessionCheck(s.(multiple := c.round), c.view)
  }

  /** Each session check is exactly the round check of its own mode, in what it renders and in the round it writes. */
  lemma SessionChecksAreRoundChecks(s: Session, quiz: Quiz, answer: Option<string>)
    ensures RandomCheck(s, quiz, answer).view == Check(s.normal, quiz, answer).view
    ensures RandomCheck(s, quiz, answer).session.normal == Check(s.normal, quiz, answer).round
    ensures RandomCheckMultiple(s, quiz, answer).view == Check(s.multiple, quiz, answer).view
    ensures RandomCheckMultiple(s, quiz, answer).session.multiple == Check(s.multiple, quiz, answer).round
  {
  }

  /**
   * The round invariant kept by honest play (each check is of the quiz just
   * presented): no id twice, only ids of the store, and a score no larger
   * than the list.
   */
  predicate Consistent(store: seq<Quiz>, r: Round)
  {
    && NoDuplicates(r.played)
    && (forall x :: x in r.played ==> x in Ids(store))
    && r.score <= |r.played|
  }

  lemma PlayKeepsConsistent(store: seq<Quiz>, r: Round, pick: nat)
    requires Consistent(store, r)
    requires ValidPick(store, StartRound(r).played, pick)
    ensures Consistent(store, Play(r, store, pick).round)
  {
  }

  /** Answering the quiz just presented keeps the invariant, right or wrong. */
  lemma CheckPresentedKeepsConsistent(store: seq<Quiz>, r: Round, pick: nat, answer: Option<string>)
    requires Consistent(store, r)
    requires ValidPick(store, StartRound(r).played, pick)
    requires Play(r, store, pick).view.Question?
    ensures var p := Play(r, store, pick);
      Consistent(store, Check(p.round, p.view.quiz, answer).round)
  {
    var p := Play(r, store, pick);
    var q := p.view.quiz;
    var c := Check(p.round, q, answer);
    assert q.id in Ids(store);
    if c.view.result {
      var xs := c.round.played;
      assert xs == p.round.played + [q.id];
      forall i, j | 0 <= i < j < |xs|
        ensures xs[i] != xs[j]
      {
        if j == |xs| - 1 {
          assert xs[i] in p.round.played;
        }
      }
    }
  }

  /** Under the invariant the score never exceeds the number of quizzes in the store. */
  lemma ScoreBound(store: seq<Quiz>, r: Round)
    requires Consistent(store, r)
    ensures r.score <= |r.played| <= |store|
  {
    PlayedBound(store, r.played);
  }

  /**
   * After as many correct answers in a row as there are quizzes, the next
   * play finds none left: it shows the final score and sets the score to 0.
   */
  lemma RoundCompletes(store: seq<Quiz>, r: Round, pick: nat)
    requires Consistent(store, r)
    requires |store| <= r.score
    requires ValidPick(store, StartRound(r).played, pick)
    ensures Play(r, store, pick).view == Completed(r.score)
    ensures Play(r, store, pick).round == Round(r.played, 0)
  {
    CoveredWhenLongEnough(store, r.played);
    if r.played != [] {
      assert r.played[0] in Ids(store);
    }
  }

  /** A wrong answer keeps the list; the next play, seeing score 0, is the one that clears it. */
  lemma WrongAnswerClearsAtNextPlay(r: Round, quiz: Quiz, answer: Option<string>, store: seq<Quiz>, pick: nat)
    requires !Text.Matches(answer, quiz.answer)
    requires ValidPick(store, [], pick)
    ensures Check(r, quiz, answer).round == Round(r.played, 0)
    ensures Play(Check(r, quiz, answer).round, store, pick).round.played == []
  {
  }

  /** A correct check of an id already in the list appends it a second time. */
  lemma CheckHasNoDuplicateGuard()
    ensures Check(Round([7], 1), Quiz(7, "Capital of France?", "Paris"), Some("Paris")).round == Round([7, 7], 2)
  {
  }

  /** The state a play starts from: a fresh session plays against an empty list with score 0. */
  lemma FreshPlayDrawsFromWholeStore(store: seq<Quiz>, q: Quiz)
    requires q in store
    ensures exists pick: nat :: ValidPick(store, [], pick) && Play(FreshRound, store, pick).view == Question(q, 0)
  {
    SelectReachesEveryCandidate(store, [], q);
  }

  /** A store of three quizzes, used to follow one complete round. */
  const QuizOne := Quiz(1, "One?", "A")
  const QuizTwo := Quiz(2, "Two?", "B")
  const QuizThree := Quiz(3, "Three?", "C")
  const ThreeQuizzes := [QuizOne, QuizTwo, QuizThree]

  /** Submitting the stored answer itself is accepted: the quiz is recorded and the score goes up by one. */
  lemma CorrectAnswerCounts(r: Round, quiz: Quiz)
    ensures Check(r, quiz, Some(quiz.answer)).view.result
    ensures Check(r, quiz, Some(quiz.answer)).round == Round(r.played + [quiz.id], r.score + 1)
  {
  }

  /** The three correct answers of the round: each appends its id and adds one to the score. */
  lemma ThreeQuizChecks()
    ensures Check(FreshRound, QuizOne, Some("A")).round == Round([1], 1)
    ensures Check(Round([1], 1), QuizTwo, Some("B")).round == Round([1, 2], 2)
    ensures Check(Round([1, 2], 2), QuizThree, Some("C")).round == Round([1, 2, 3], 3)
  {
    FirstCheck();
    SecondCheck();
    ThirdCheck();
  }

  /** The first step of `ThreeQuizChecks`. */
  lemma FirstCheck()
    ensures Check(FreshRound, QuizOne, Some("A")).round == Round([1], 1)
  {
    CorrectAnswerCounts(FreshRound, QuizOne);
    assert [] + [1] == [1];
  }

  /** The second step of `ThreeQuizChecks`. */
  lemma SecondCheck()
    ensures Check(Round([1], 1), QuizTwo, Some("B")).round == Round([1, 2], 2)
  {
    CorrectAnswerCounts(Round([1], 1), QuizTwo);
    assert [1] + [2] == [1, 2];
  }

  /** The third step of `ThreeQuizChecks`. */
  lemma ThirdCheck()
    ensures Check(Round([1, 2], 2), QuizThree, Some("C")).round == Round([1, 2, 3], 3)
  {
    CorrectAnswerCounts(Round([1, 2], 2), QuizThree);
    assert [1, 2] + [3] == [1, 2, 3];
  }

  /** The plays of that round: each draws the first quiz not yet played. */
  lemma ThreeQuizPlays()
    ensures Play(FreshRound, ThreeQuizzes, 0) == PlayStep(FreshRound, Question(QuizOne, 0))
    ensures Play(Round([1], 1), ThreeQuizzes, 0) == PlayStep(Round([1], 1), Question(QuizTwo, 1))
    ensures Play(Round([1, 2], 2), ThreeQuizzes, 0) == PlayStep(Round([1, 2], 2), Question(QuizThree, 2))
  {
    ThreeQuizCandidates([]);
    ThreeQuizCandidates([1]);
    ThreeQuizCandidates([1, 2]);
  }

  /** The fourth play of that round finds nothing left: it shows the score 3 and resets it to 0. */
  lemma ThreeQuizCompletes()
    ensures Play(Round([1, 2, 3], 3), ThreeQuizzes, 0) == PlayStep(Round([1, 2, 3], 0), Completed(3))
  {
    ThreeQuizCandidates([1, 2, 3]);
  }

  /** The quizzes of the three-quiz store left to draw after `excluded`, in store order. */
  lemma ThreeQuizCandidates(excluded: seq<int>)
    ensures Candidates(ThreeQuizzes, excluded)
      == (if 1 in excluded then [] else [QuizOne])
       + (if 2 in excluded then [] else [QuizTwo])
       + (if 3 in excluded then [] else [QuizThree])
  {
    assert ThreeQuizzes[1..] == [QuizTwo, QuizThree];
    assert [QuizTwo, QuizThree][1..] == [QuizThree];
    assert [QuizThree][1..] == [];
  }
}
