# Quizer core, modelled in Dafny

Quizer is a small Django application. Users sign up, log in, take quizzes and collect score records. This project models the parts of it that carry logic:

- **Session guard** (`sessions.dfy`). `start_user_session`, `end_user_session` and `check_user_session` work on the per-client session dictionary. The dictionary is a `map<string, Option<SessionValue>>` held by a `Session` class. A stored Python `None` is `None`, and a missing key is a key outside the map. `check_user_session` first ends a session that lacks the `logged` key. It then reports whether `logged` holds something other than `None`.
- **Quiz scorer** (`scoring.dfy`, with laws in `scoring_laws.dfy`). `check_user_quiz` is a method with the view's two nested loops and its three counters. It is proved equal to the function `Scoring.Score`.
  - Each question adds nothing when none of its answers is checked.
  - It adds its whole weight when it has no correct answer.
  - Otherwise it adds `points * user_correct / (question_correct * user_answers)`, divided exactly in `real`.
  - The sum of the weights is subtracted at the end.
- **Checked-answer extraction** (`extraction.dfy`). The loop of the POST branch of `run` keeps the form keys whose value is `'on'` and turns each one into an integer with `int`. A key that `int` rejects raises `ValueError`; the model returns that error as a result.
- **Submission** (`runner.dfy`). The POST branch of `run`: the guard, then the extraction, then the scorer.
- **Data model and uniqueness check** (`models.dfy`).
  - The Quiz → Question → Answer shape, with the defaults `Question.points = 1` and `Answer.correct = False`.
  - `User.check_existence` over a table of stored users. The email is looked up first and the username second. A username clash overwrites an email clash. `objects.get` raises `MultipleObjectsReturned` when several rows match; the model returns that as a `Failure`.
- **Corrected scorer** (`corrected_scoring.dfy`). The fix for the finding below.

The ORM is replaced by plain data. A quiz is a value holding its questions, in the order the query returns them. The user table is a sequence of users. A submitted form is a sequence of key/value pairs in iteration order, each with the last value sent for its key.

Where the code and what it evidently aims at differ, the model follows the code:

- `check_existence` (quiz/models.py:26-38) and the login by email (quiz/views.py:144) both assume that email and username are each unique. Django's `AbstractUser` enforces this only for the username. The model therefore keeps the lookup's `MultipleObjectsReturned` path and proves that a table with both columns unique never takes it.
- A partial-credit scorer evidently aims to give the base points for perfect play. In the code, a question of positive weight with two or more correct answers earns less than its weight under perfect play; see Findings.
- Authentication is `logged is not None`. A session whose `logged` value is `False` therefore counts as authenticated. The views never store `False`.

## Model

| member | source | states |
|---|---|---|
| Models.Get | quiz/models.py:29-34 | `objects.get` on one column: `DoesNotExist` iff no stored user has that value, `MultipleObjectsReturned` iff two rows have it, otherwise the one matching user |
| Models.MatchingAmbiguous | quiz/models.py:29-34 | the ORM's filter has two or more rows exactly when two different rows of the table share the value |
| Models.CheckExistence | quiz/models.py:26-38 | raises `MultipleObjectsReturned` exactly when a lookup is ambiguous; otherwise no message iff neither the email nor the username is taken; a taken username gives "Username already exist." whether or not the email is taken; a taken email with a free username gives "Email already exist." |
| Models.UniqueTableNeverRaises | quiz/models.py:26-38 | on a table where email and username are each unique, `check_existence` always returns a message or `None` |
| Scoring.Elements | quiz/views.py:114 | the checked list is used only through membership |
| Scoring.CheckedCount | quiz/views.py:111-117 | `user_answers` is 0 iff no answer of the question is checked, and never exceeds the number of answers |
| Scoring.CorrectCount | quiz/views.py:111-120 | `question_correct` is 0 iff the question has no correct answer |
| Scoring.CheckedCorrectCount | quiz/views.py:111-117 | `user_correct` never exceeds `user_answers` nor `question_correct` |
| Scoring.CheckUserQuiz | quiz/views.py:100-130 | the nested loops return exactly `Score(quiz, set of checked ids)`: base points plus each question's contribution (0, whole weight, or the partial fraction) minus the sum of the weights |
| ScoringLaws.EarnedNothing | quiz/views.py:123-124 | with nothing checked no question contributes |
| ScoringLaws.NothingCheckedScore | quiz/views.py:107-110 | checking nothing scores `quiz.points` minus the sum of the weights |
| ScoringLaws.ContributionBounds | quiz/views.py:111-128 | with a non-negative weight, a question's contribution lies in `[0, points]` |
| ScoringLaws.EarnedBounds | quiz/views.py:109-128 | with non-negative weights, the summed contributions lie between 0 and the sum of the weights |
| ScoringLaws.ScoreBounds | quiz/views.py:107-130 | with non-negative weights, the score lies in `[quiz.points - Σweights, quiz.points]` |
| ScoringLaws.ZeroCorrectFullWeight | quiz/views.py:125-126 | a question with no correct answer contributes its whole weight once any one of its answers is checked, whichever it is |
| ScoringLaws.CountsAgree | quiz/views.py:112-117 | two checked sets that agree on a question's answer ids give the same counts |
| ScoringLaws.EarnedAgree | quiz/views.py:109-128 | two checked sets that agree on every answer id of the quiz earn the same |
| ScoringLaws.OnlyQuizIdsMatter | quiz/views.py:114 | the score with a checked set equals the score with that set cut down to the quiz's answer ids |
| ScoringLaws.ForeignIdsIgnored | quiz/views.py:114 | appending ids of no answer of the quiz to the checked list leaves the score unchanged |
| ScoringLaws.AnswerListOrderIrrelevant | quiz/views.py:114 | checked lists with the same members, whatever their order or repetitions, score the same |
| ScoringLaws.AgreementCounts | quiz/views.py:112-120 | when each answer is checked iff it is correct, the three counters are equal |
| ScoringLaws.ExactSelectionAgrees | quiz/views.py:112-120 | with distinct answer ids, checking exactly the correct ids of a question means each answer is checked iff it is correct |
| ScoringLaws.SomethingChecked | quiz/views.py:114-117 | a checked id that belongs to an answer of the question makes `user_answers` positive |
| ScoringLaws.CorrectIdsEmpty | quiz/views.py:119-120 | a question's correct-id set is empty iff `question_correct` is 0 |
| ScoringLaws.ExactPlayContribution | quiz/views.py:122-128 | under exact play a question contributes its weight divided by its number of correct answers, or its whole weight when it has none |
| ScoringLaws.EarnedAllWeights | quiz/views.py:109-129 | when every question contributes its weight, the contributions cancel the subtracted maximum |
| ScoringLaws.ExactPlaySingleCorrect | quiz/views.py:122-128 | exact play on a question with at most one correct answer earns its whole weight |
| ScoringLaws.PerfectPlayAtMostOneCorrect | quiz/views.py:107-130 | exact play on every question of a quiz whose questions have at most one correct answer scores exactly `quiz.points` |
| ScoringLaws.FullCreditAsWritten | quiz/views.py:127-128 | with a positive weight and a correct answer, a question earns its whole weight iff exactly one answer is checked and it is the only correct one |
| ScoringLaws.PerfectPlayCounterexample | quiz/views.py:127-128 | checking both correct answers of a 10-point question with two correct answers contributes 5, and the quiz scores -5 instead of 0 |
| ScoringLaws.WorkedExample | quiz/views.py:107-130 | base 0, one 10-point question with A1 correct and A2 wrong: {A1} scores 0, {A1, A2} scores -5, {A2} scores -10, {} scores -10 |
| ScoringLaws.NoCorrectAnswerExample | quiz/views.py:125-126 | a 5-point question with two wrong answers contributes 5 for any non-empty selection of them |
| ScoringLaws.DefaultsScore | quiz/models.py:59-68 | `Question.points` defaults to 1 and `Answer.correct` to false, and a one-answer question built that way contributes 1 when its answer is checked |
| CorrectedScoring.CheckedAreCorrect | quiz/views.py:114-117 | `user_correct == user_answers` means every checked answer is correct |
| CorrectedScoring.CorrectAreChecked | quiz/views.py:114-120 | `user_correct == question_correct` means every correct answer is checked |
| CorrectedScoring.ExactSelectionIffCounts | quiz/views.py:112-120 | with distinct ids, the checked ids of a question are its correct ids iff the three counters are equal |
| CorrectedScoring.CorrectedFullCreditIffExact | quiz/views.py:127-128 | corrected formula: a question with a positive weight and a correct answer earns its whole weight iff exactly its correct answers are checked |
| CorrectedScoring.CorrectedExactPlay | quiz/views.py:122-128 | corrected formula: exact play earns every question its whole weight |
| CorrectedScoring.CorrectedEarnedAllWeights | quiz/views.py:109-129 | corrected formula: under exact play the contributions equal the sum of the weights |
| CorrectedScoring.CorrectedPerfectPlay | quiz/views.py:107-130 | corrected formula: exact play on every question scores exactly `quiz.points` |
| CorrectedScoring.CorrectedEarnedBounds | quiz/views.py:109-128 | corrected formula: with non-negative weights the contributions lie between 0 and the sum of the weights |
| CorrectedScoring.CorrectedScoreBounds | quiz/views.py:107-130 | corrected formula: with non-negative weights the score lies in `[quiz.points - Σweights, quiz.points]` |
| CorrectedScoring.CorrectedAgreesOnSingleCorrect | quiz/views.py:127-128 | where no question has more than one correct answer, the corrected formula gives what the view gives |
| Sessions.Ended | quiz/views.py:33-36 | the ended session holds `None` under the four guard keys, keeps every other key, and is not authenticated |
| Sessions.Started | quiz/views.py:20-23 | the started session stores `True` under `logged` and so is authenticated, holds the user's id, username and email, and keeps every other key |
| Sessions.SessionUserId | quiz/views.py:90 | a number stored under `id` is read back as that id, and an id read back is the number stored there |
| Sessions.Session.constructor | quiz/views.py:40-50 | a session starts from whatever the framework's storage holds, possibly without any key |
| Sessions.Session.StartUserSession | quiz/views.py:13-24 | the new session is `Started(old session, user)` |
| Sessions.Session.EndUserSession | quiz/views.py:27-37 | the new session is `Ended(old session)` |
| Sessions.Session.CheckUserSession | quiz/views.py:40-50 | a session without `logged` becomes the ended session and one with `logged` is unchanged; the answer is true iff `logged` was present and not `None`, before and after; it never raises |
| Sessions.EndIdempotent | quiz/views.py:27-37 | ending a session twice equals ending it once |
| Sessions.EndAfterStart | quiz/views.py:13-37 | logging out after logging in leaves what logging out alone leaves |
| Sessions.StartAfterEnd | quiz/views.py:13-37 | a login overwrites everything an earlier logout wrote |
| Sessions.StartedUserId | quiz/views.py:20-23 | after a login the views read back the user's id |
| Sessions.EmptySessionAnonymous | quiz/views.py:46-50 | an empty session is not authenticated, and healing it gives exactly the four keys set to `None` |
| Sessions.HealingKeepsVerdict | quiz/views.py:46-50 | healing a session never changes whether it counts as authenticated |
| Sessions.LoginLogoutScenario | quiz/views.py:154-167 | after a login the guard answers true; after a logout it answers false |
| Extraction.OnKeys | quiz/views.py:85-87 | a key is kept iff some form entry has that key with value `'on'` |
| Extraction.OnKeysAppend | quiz/views.py:86-88 | the kept keys of a concatenated form are the kept keys of each part, in order |
| Extraction.ParseInt | quiz/views.py:88 | `int` accepts exactly an optionally signed, non-empty run of ASCII digits |
| Extraction.ShowNat | quiz/views.py:88 | the decimal numeral of a natural number is a non-empty run of digits |
| Extraction.ShowNatValue | quiz/views.py:88 | a numeral's digits evaluate back to the number |
| Extraction.ParseShowInt | quiz/views.py:88 | a key written as the decimal numeral of an answer id parses back to that id |
| Extraction.Extracted | quiz/views.py:85-88 | extraction succeeds iff every kept key parses; its ids are the kept keys parsed, position by position; otherwise it fails on a kept key that `int` rejects |
| Extraction.ExtractedFailureSticks | quiz/views.py:86-88 | once an early key raises, the whole extraction raises the same error |
| Extraction.ExtractAnswers | quiz/views.py:85-88 | the appending loop returns exactly `Extracted(form)` |
| Extraction.TickedCheckboxes | quiz/views.py:85-88 | a form of ticked checkboxes named by answer ids (`Checkboxes`) extracts exactly those ids, in order |
| QuizRunner.RunSubmission | quiz/views.py:70-92 | an unauthenticated client gets no score; for an authenticated one the result is the form's extraction error, or the score of the extracted ids; the session is healed as by the guard |

## Left out

- Rendering, redirects and HTTP handling (`home`, `render`, the GET branch of `run`) are presentation.
- `Http404` on a missing quiz is left out. The quiz is given, not looked up.
- The ORM queries (`objects.get`, `filter`, `order_by`, `save`) are replaced by sequences of records. Question order is the query's order, and the model takes it as given.
- Saving the `Record` (quiz/views.py:90-94) and storing the score in `Record.points`, an `IntegerField`, are storage-layer conversions and are left out. The lookup `User.objects.get(id=request.session['id'])` at quiz/views.py:90 is left out too. It is a storage-layer lookup that runs, and may raise `DoesNotExist`, before the scorer: Python evaluates the `Record(...)` keyword arguments in order.
- Floating-point rounding of `float(...)` at quiz/views.py:128 is not modelled; the division is exact in `real`.
- The Django `login`, `logout`, `signup`, `profile`, `password_change`, `info_change`, `quiz_board` and `records` views are left out. `login` starts a session with `start_user_session` and `logout` ends one with `end_user_session`. `password_change`, `info_change` and `quiz_board` call `check_user_session`. `signup` calls `check_existence` and then lets a password mismatch overwrite the message it returned (quiz/views.py:182-185). `profile` and `records` call neither; they query and render. `info_change` copies form fields onto the user and saves it (quiz/views.py:249-256). The rest of these views is form validation, password hashing, ORM queries and saves, and rendering.
- Extraction.ParseInt: Python's `int` also accepts surrounding whitespace, underscores between digits and non-ASCII digits. The model raises on such keys.
- The form is a sequence of (key, last value) pairs. The multi-value structure of Django's `QueryDict` is not modelled.
- ScoringLaws.PerfectPlayAtMostOneCorrect: perfect play is proved only for questions with at most one correct answer, because the view's formula gives less otherwise. See Findings; `CorrectedScoring.CorrectedPerfectPlay` proves the general property for the corrected formula.
- ScoringLaws.ExactSelectionAgrees, ScoringLaws.ExactPlayContribution, ScoringLaws.PerfectPlayAtMostOneCorrect, CorrectedScoring.CorrectedPerfectPlay: each requires distinct answer ids within a question. Answer ids are primary keys, so this always holds.
- Models.CheckExistence: "only reads the user table" holds by construction, since the user table is a value passed to a function. No separate statement is made.
- Sessions.SessionUserId: a missing `id` key, where `session['id']` raises `KeyError`, gives the same `None` as a stored `None`. Only the user lookups at quiz/views.py:90, 201, 225 and 249 read it, all in code left out. `profile` reads it at quiz/views.py:201 with no guard, so that `KeyError` can occur there.
- quiz/forms.py, quiz/admin.py and quiz/urls.py are left out: they hold only declarations, admin registration and routing.
- Image upload paths, `datetime.now()` and cascade deletion belong to the storage layer and are left out.

## Findings

| source | as written | input that shows it | evidently intended | confidence | as-written member | corrected member |
|---|---|---|---|---|---|---|
| quiz/views.py:128 | a question with correct answers earns `points * user_correct / (question_correct * user_answers)`, which, for a positive weight, reaches the whole weight only when exactly one answer is correct and checked | base 0; one 10-point question with correct answers 1 and 2; both checked: contribution 5, score -5 instead of 0 | precision times recall, `points * user_correct² / (question_correct * user_answers)`: the whole weight iff exactly the correct answers are checked, so perfect play scores the base points | medium, not executed | ScoringLaws.PerfectPlayCounterexample | CorrectedScoring.CorrectedPerfectPlay |

`Scoring.CheckUserQuiz` and `QuizRunner.RunSubmission` keep the view's formula, because they model the view as written. The corrected scorer is stated beside them. `CorrectedScoring.CorrectedAgreesOnSingleCorrect` shows that the two give the same score on every quiz where no question has two correct answers. That covers `ScoringLaws.WorkedExample`, `ScoringLaws.NoCorrectAnswerExample` and `ScoringLaws.DefaultsScore`, but not the counterexample in the table, whose question has two correct answers.
