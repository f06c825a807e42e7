# Quiz session engine

This is a Dafny model of the random-play core of a quiz web application. It covers:

- the stand-alone answer check of one quiz;
- the two random-play modes, normal (type the answer) and multiple choice (pick one of up to four options). Each mode keeps its own round in the session: the ids answered correctly and a running score;
- the Fisher-Yates shuffle of the answer options;
- the LIKE pattern built from the quiz-list search box;
- the high-score update on the user: within one call, per-mode scores never go down, and the total is recomputed (concurrent calls are not modelled; see "## Left out").

Modules:

- `Wrappers`: the `Option` type. A missing query parameter, request-body field or database column is `None`. A missing session round is `Rounds.FreshRound`.
- `Text`: `toLowerCase()` followed by `trim()`, and the answer comparison built on them (`Matches`).
- `Search`: `search.replace(/ +/g, "%")` wrapped in `%`.
- `Quizzes`: the quiz rows, and the "one random quiz whose id is not in a list" query. The random choice is an explicit index `pick` into the eligible rows, in store order.
- `Shuffle`: `fisherYates`, with the random draws given as a sequence `draws` where `draws[i] <= i`.
- `Distractors`: the option array of a multiple-choice play. The correct answer comes first, then the answers of at most three other rows whose answer differs. The random rows are given as distinct store indices.
- `Rounds`: `randomPlay`, `randomCheck`, `randomPlayMultiple`, `randomCheckMultiple` and `check`, on an explicit session value.
- `Scores`: `updatescore`.

Randomness (`ORDER BY RANDOM()`, `Math.random()`) is passed in as parameters (`pick`, `drawn`, `draws`). The preconditions on these parameters admit exactly the values the database or the generator could produce.

Three behaviours of the code are easy to misread; the model follows the code:

- A wrong answer sets the score to 0 but does not clear the played list. The list is cleared by the next play, which sees score 0. So score 0 does not imply an empty list. The model proves `score <= |played|` with no id twice (`Rounds.Consistent`).
- A correct check appends the quiz id with no duplicate guard (`Rounds.CheckHasNoDuplicateGuard`).
- Distractors are excluded only when their answer is exactly equal to the correct one. They are not deduplicated among themselves (`Distractors.DistractorsMayRepeat`). A case variant of the correct answer can be offered as a distractor and is then accepted by the check (`Distractors.DistractorMayMatchCheck`).

## Model

| member | source | states |
|---|---|---|
| Text.Lower | controllers/quiz.js:600 | `toLowerCase()` keeps the length; each capital A–Z or Latin-1 capital becomes the letter 32 code points above it and every other character is kept, so no upper-case letter is left and blanks stay blank |
| Text.Normalize | controllers/quiz.js:600 | `toLowerCase().trim()` equals lower-casing the trimmed text; it is no longer than its input, has non-blank ends and holds no upper-case letter |
| Text.Matches | controllers/quiz.js:600 | two answers equal up to letter case always match; a missing answer matches exactly the stored answers whose normal form is empty |
| Text.Trim | controllers/quiz.js:600 | the trimmed text is no longer than the input and neither starts nor ends with a whitespace or line-terminator character |
| Text.TrimIsInfix | controllers/quiz.js:600 | `trim()` removes only whitespace, and only at the two ends: the result is the infix of the input between its leading and trailing blanks |
| Text.TrimPadding | controllers/quiz.js:600 | whitespace added before or after a string does not change its trimmed form |
| Text.TrimOfTrimmed | controllers/quiz.js:600 | a string that neither starts nor ends with whitespace is its own trim |
| Text.LowerIdempotent | controllers/quiz.js:600 | lower-casing twice is the same as lower-casing once |
| Text.LowerKeepsBlanks | controllers/quiz.js:600 | lower-casing keeps the same leading and trailing whitespace counts |
| Text.NormalizeIsLowerOfTrim | controllers/quiz.js:600 | `toLowerCase().trim()` equals `trim().toLowerCase()` on every string |
| Text.NormalizeIdempotent | controllers/quiz.js:600 | a normalised answer is its own normal form |
| Text.MatchesIgnoresCaseAndPadding | controllers/quiz.js:651 | surrounding whitespace and letter case of the submitted answer do not change the verdict |
| Text.MatchesIsEquivalence | controllers/quiz.js:732 | answer matching is reflexive, symmetric and transitive |
| Text.MissingSubmission | controllers/quiz.js:599-600 | a missing answer is read as `""`; it matches exactly the stored answers that are all whitespace |
| Text.MatchesExamples | controllers/quiz.js:600 | `" paris "` and `"paris"` match `"Paris"`; `"Rome"` does not |
| Search.Collapse | controllers/quiz.js:120 | the replacement leaves no space; the output is no longer than the input; text without spaces is unchanged |
| Search.SearchPattern | controllers/quiz.js:118-122 | a filter is set exactly when the search is present and non-empty; the pattern is `%`, then the search with every run of spaces squeezed to one space and that space written as `%`, then `%`; it holds no space |
| Search.ReplaceSpaceRunsCounts | controllers/quiz.js:120 | the output holds one more `%` per maximal run of spaces than the input; the characters that are neither a space nor `%` are kept, in order |
| Search.ReplaceSpaceRunsIsSqueeze | controllers/quiz.js:120 | on any search text, `%` included, the replacement equals squeezing every run of spaces to one space and writing that space as `%`: each run becomes one `%` in its own place and every other character is kept where it was |
| Search.ReplaceSpaceRunsRoundTrip | controllers/quiz.js:120 | on text without `%` and without doubled spaces, turning `%` back into spaces restores the search text |
| Search.SearchPatternExample | controllers/quiz.js:118-120 | `"a  b"` gives the pattern `"%a%b%"`; an empty search sets no filter |
| Quizzes.Candidates | controllers/quiz.js:621-624 | the eligible rows are exactly the store rows whose id is not in the list; there are none exactly when every row's id is listed |
| Quizzes.ValidPick | controllers/quiz.js:621-624 | the random order may return any eligible row: every index below the number of eligible rows is admissible, index 0 always is, and when no row is eligible any index is |
| Quizzes.Select | controllers/quiz.js:621-629 | the query returns nothing exactly when every quiz id is in the list; a returned quiz is in the store and not in the list |
| Quizzes.SelectReachesEveryCandidate | controllers/quiz.js:621-624 | every quiz not in the list is returned for some random draw |
| Quizzes.SelectLastRemaining | controllers/quiz.js:621-624 | when one quiz is left, every draw returns it |
| Quizzes.PlayedBound | controllers/quiz.js:653 | a duplicate-free list of store ids is no longer than the store |
| Quizzes.CoveredWhenLongEnough | controllers/quiz.js:626-628 | a duplicate-free list of store ids as long as the store lists every quiz, so the query finds nothing |
| Shuffle.Swap | controllers/quiz.js:672-674 | the swap through `tmp` exchanges the two positions, leaves the others alone and keeps the multiset |
| Shuffle.ShuffleBelow | controllers/quiz.js:669-675 | steps i-1 down to 0 keep the length and multiset, and leave the positions above i untouched |
| Shuffle.Shuffled | controllers/quiz.js:668-676 | the shuffle is a permutation of its input |
| Shuffle.FisherYates | controllers/quiz.js:668-676 | the loop computes the shuffle defined step by step, a permutation of the input |
| Shuffle.ValidDraws | controllers/quiz.js:671 | `Math.floor(Math.random() * (i+1))` yields a j between 0 and i at step i, so every draw is an index of the array |
| Shuffle.KeepingDrawsValid | controllers/quiz.js:669-671 | admissible draws exist for every array length: drawing j = i at every step is allowed |
| Shuffle.ShuffledKeepsCount | controllers/quiz.js:668-676 | every value occurs as often after the shuffle as before |
| Shuffle.TwoElementsKept | controllers/quiz.js:671 | on two elements, drawing j = 1 at step 1 keeps the order |
| Shuffle.TwoElementsSwapped | controllers/quiz.js:671 | on two elements, drawing j = 0 at step 1 reverses it, so both orders are reachable |
| Distractors.OthersFrom | controllers/quiz.js:701-705 | lists, in store order, the indices of the rows whose answer differs from the correct one |
| Distractors.DrawExists | controllers/quiz.js:701-705 | the distractor query always has an admissible result: up to three distinct rows with a different answer |
| Distractors.BuildOptions | controllers/quiz.js:700-710 | the correct answer comes first and occurs once; there are 1 + min(3, rows with another answer) options; each other option is some row's answer, different from the correct one |
| Distractors.ValidDraw | controllers/quiz.js:701-705 | the query returns distinct rows whose answer is not the correct one, as many as the limit of 3 and the store allow, so never more than 3 and never more rows than the store has |
| Distractors.DrawnAnswers | controllers/quiz.js:706-710 | the loop copies the answer of the k-th returned row, a row of the store, into the k-th distractor slot |
| Distractors.ShuffledOptions | controllers/quiz.js:700-712 | the rendered options are a permutation of the built array: the same count, the correct answer exactly once, every option the correct answer or a stored answer |
| Distractors.OccursOnlyAt | controllers/quiz.js:712 | a value counted once in the options sits at one index only |
| Distractors.CorrectAnswerOnce | controllers/quiz.js:700-712 | after the shuffle, exactly one position holds the correct answer |
| Distractors.DistractorsMayRepeat | controllers/quiz.js:701-710 | two other rows with the same answer put that answer twice into the options |
| Distractors.NearDuplicateDraw | controllers/quiz.js:703 | a row whose answer differs from the correct one only in case is an admissible distractor |
| Distractors.DistractorMayMatchCheck | controllers/quiz.js:703 | such a distractor is accepted as correct by the answer check |
| Rounds.StartRound | controllers/quiz.js:615-619 | a score of 0 (or none) starts from an empty list; any other score keeps the round |
| Rounds.Play | controllers/quiz.js:613-638 | the list is reset when the score is 0. The play completes exactly when every quiz id is listed, and then shows the old score and sets it to 0. Otherwise it presents an unplayed store quiz and keeps the score |
| Rounds.PlayChoice | controllers/quiz.js:679-720 | same round step as a normal play; a presented quiz comes with 1 + min(3, other answers) options holding its answer exactly once; the presented quiz is the one the draw selects, the distractor rows are an admissible draw for its answer, and the options are a permutation of its answer followed by the drawn rows' answers |
| Rounds.Check | controllers/quiz.js:641-665 | verdict is the normalised comparison. A correct answer appends the id and shows the incremented score. A wrong answer keeps the list, sets the score to 0 and shows the old score |
| Rounds.CheckQuiz | controllers/quiz.js:595-607 | the stand-alone verdict is the normalised comparison; the answer is echoed, `""` when missing |
| Rounds.RandomPlay | controllers/quiz.js:613-638 | the normal round and the view are those of a play on the normal round (reset at score 0, score set to 0 on completion, kept otherwise); the rendered score is the score before the play; a presented quiz is not in the list; completion holds exactly when all ids are listed; the multiple-choice round is not touched |
| Rounds.RandomPlayMultiple | controllers/quiz.js:679-720 | the multiple-choice round and the view are those of a choice play on that round; the rendered score is the score before the play; a presented quiz is unplayed and comes with 1 + min(3, other answers) options holding its answer exactly once; the normal round is not touched |
| Rounds.RandomCheck | controllers/quiz.js:641-665 | a normal check moves only the normal round: append and increment on success, score 0 with the list kept on failure; the rendered score is the old score plus one on success and the old score on failure; the answer is echoed, `""` when missing |
| Rounds.RandomCheckMultiple | controllers/quiz.js:723-749 | the same for the multiple-choice round, reading the chosen option: append and increment on success, score 0 with the list kept on failure; rendered score old plus one or old; the option echoed, `""` when missing; the normal round is not touched |
| Rounds.SessionChecksAreRoundChecks | controllers/quiz.js:641-665 | `randomCheck` and `randomCheckMultiple` render exactly the verdict, score and answer of the round check of their own mode, and write exactly its round |
| Rounds.PlayKeepsConsistent | controllers/quiz.js:617-633 | a play keeps the round invariant: no id twice, only store ids, score at most the list length |
| Rounds.CheckPresentedKeepsConsistent | controllers/quiz.js:651-659 | checking the quiz just presented keeps the invariant, right or wrong |
| Rounds.ScoreBound | controllers/quiz.js:652-654 | under the invariant, the score is at most the list length, which is at most the store size |
| Rounds.RoundCompletes | controllers/quiz.js:626-628 | once the score reaches the store size (an empty store included), the next play shows it as the final score and sets the score to 0 |
| Rounds.WrongAnswerClearsAtNextPlay | controllers/quiz.js:656-659 | a wrong answer keeps the list; the next play, seeing score 0, clears it |
| Rounds.CheckHasNoDuplicateGuard | controllers/quiz.js:653 | a correct check of an id already listed appends it again |
| Rounds.FreshPlayDrawsFromWholeStore | controllers/quiz.js:615-624 | from a fresh session, every quiz of the store can be the one presented |
| Rounds.ThreeQuizCandidates | controllers/quiz.js:621-624 | in a three-quiz store, the rows left to draw are those whose ids are not listed, in store order |
| Rounds.CorrectAnswerCounts | controllers/quiz.js:651-654 | submitting exactly the stored answer is accepted: the quiz id is appended to the played list and the score goes up by one |
| Rounds.ThreeQuizChecks | controllers/quiz.js:652-654 | three correct answers build the list [1, 2, 3] with score 3 |
| Rounds.ThreeQuizPlays | controllers/quiz.js:621-633 | each play of that round presents the first unplayed quiz and keeps the score |
| Rounds.ThreeQuizCompletes | controllers/quiz.js:626-628 | the fourth play finds nothing, shows 3 and sets the score to 0 |
| Scores.Ratchet | controllers/user.js:230-235 | the stored score is replaced only by a present, non-zero, larger value: the result is the maximum |
| Scores.UpdateScore | controllers/user.js:206-247 | each mode keeps the maximum of stored and incoming; the total is their sum; a mode's field is written exactly when it went up; the total is always written last; no field is named twice |
| Scores.Apply | controllers/user.js:230-245 | on a user with both columns set, the update takes the per-mode maxima and sums them |
| Scores.MissingStoredIsZero | controllers/user.js:213-214 | a NULL stored score behaves exactly like a stored 0 |
| Scores.NoDecrease | controllers/user.js:230-242 | neither per-mode score goes down, and each mode looks only at its own incoming value |
| Scores.Idempotent | controllers/user.js:230-247 | sending the same body twice changes nothing the second time, and then only the total is written |
| Scores.Commutative | controllers/user.js:230-245 | two bodies in either order give the same scores: the per-mode maxima over both |
| Scores.Scenario | controllers/user.js:230-245 | at 5 + 3 = 8, a normal score of 4 changes nothing; 7 gives 7 + 3 = 10 and writes the normal score and the total |

## Left out

- The HTTP layer, rendering, flash messages, redirects and the error handlers are not modelled. The model returns the values passed to the views.
- The database is a sequence of quiz rows held in memory. `ORDER BY RANDOM()` is an explicit choice among the eligible rows. Uniformity of the draws is a probabilistic property and is not stated.
- `Math.random()` in `fisherYates` becomes an explicit draw `draws[i] <= i`. Floating point and the uniformity of `Math.floor(Math.random() * (i + 1))` are not modelled.
- The array in `fisherYates` is modelled by a local sequence of its contents. JavaScript aliasing of the array is not modelled.
- The rest of the quiz controller is not part of this model: CRUD, favourites, pagination, attachments, the author and ownership checks, and the rest of the `index` query. So is the rest of the user controller.
- The migrations only add the two integer columns. Column widths are not modelled; scores are unbounded naturals.
- Text.Lower: `toLowerCase()` is modelled for ASCII and Latin-1 capitals only. Full Unicode case mapping and UTF-16 code units are not modelled.
- Rounds.RandomCheck: a check before any play reads an undefined list and score in the source (`push` on undefined, `++undefined`). The model starts every session from `FreshRound`, an empty list with score 0.
- Rounds.RandomCheckMultiple: the same undefined-session case as for RandomCheck is not modelled.
- Rounds.Check: the check does not verify that the quiz is the one last presented. The round invariant is proved only for honest play (`Rounds.CheckPresentedKeepsConsistent`).
- Scores.UpdateScore: body values arrive as form strings in the source. The comparison `>` coerces them to numbers, but the assignment keeps the string, so the total `scoremultiple + scorenormal` can become a string concatenation. The model takes body values as naturals and the total as their sum.
- Scores.UpdateScore: concurrent calls are not modelled. The source loads the user and saves only its own field list, with no transaction. With 5 stored and racing bodies `{scoreNormal: 7}` and `{scoreNormal: 6}`, if the 7 is saved first, the 6 then writes `scorenormal = 6` and `score = 9`, so the column goes down. Racing `{scoreNormal: 7}` and `{scoreMultiple: 9}` can leave `score` different from the sum. `Scores.NoDecrease` and `Scores.Commutative` hold for calls applied one after another.
- Scores.UpdateScore: the model returns the in-memory user. A column left out of `fields` is not written, so a NULL column stays NULL in the database while the in-memory value is 0.
- Distractors.ValidDraw: SQL collation is not modelled; the distractor exclusion (`NOT IN`) is modelled as exact string equality. Rows with a NULL answer are not modelled; every quiz has a string answer.
