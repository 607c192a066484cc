/**
 * The scorer with the partial credit the view's formula evidently aims at:
 * precision times recall, `points * (uc / ua) * (uc / qc)`, so that a
 * question earns its whole weight exactly when its correct answers, and only
 * those, are checked. The zero-checked and zero-correct branches are the view's.
 */
module CorrectedScoring {
  import opened Models
  import opened Scoring
  import opened ScoringLaws

  /** One question's credit: `points * uc * uc / (qc * ua)` in the general case. */
  function CorrectedContribution(q: Question, checked: set<int>): real {
    var userAnswers := CheckedCount(q.answers, checked);
    var questionCorrect := CorrectCount(q.answers);
    var userCorrect := CheckedCorrectCount(q.answers, checked);
    if userAnswers == 0 then 0.0
    else if questionCorrect == 0 then q.points as real
    else (q.points * userCorrect * userCorrect) as real / (questionCorrect * userAnswers) as real
  }

  function CorrectedEarned(questions: seq<Question>, checked: set<int>): real {
    if questions == [] then 0.0
    else CorrectedEarned(questions[..|questions| - 1], checked) + CorrectedContribution(questions[|questions| - 1], checked)
  }

  /** The corrected score: base points plus the corrected credits minus the sum of the weights. */
  function CorrectedScore(quiz: Quiz, checked: set<int>): real {
    quiz.points as real + CorrectedEarned(quiz.questions, checked) - MaxPoints(quiz.questions) as real
  }

  // ---------------------------------------------------------------- arithmetic

  /** `a * b <= a * c` for `a >= 0` and `b <= c`. */
  lemma MulMonotone(a: int, b: int, c: int)
    requires a >= 0 && b <= c
    ensures a * b <= a * c
  {
    assert a * c - a * b == a * (c - b);
  }

  /** A numerator between 0 and `p` times the denominator gives a fraction in `[0, p]`. */
  lemma FractionWithin(n: int, d: int, p: int)
    requires d > 0 && 0 <= n <= p * d
    ensures 0.0 <= n as real / d as real <= p as real
  {
    assert (p * d) as real == p as real * d as real;
    assert n as real / d as real <= (p * d) as real / d as real;
  }

  /** `p * k * k / (k * k)` is `p`. */
  lemma CancelSquare(p: int, k: int)
    requires k > 0
    ensures (p * k * k) as real / (k * k) as real == p as real
  {
    assert p * k * k == p * (k * k);
    PositiveProduct(k, k);
    assert (p * (k * k)) as real == p as real * (k * k) as real;
  }

  /** `p * uc * uc / (qc * ua)` lies in `[0, p]` when `uc <= qc` and `uc <= ua`. */
  lemma PrecisionRecallBounds(p: int, uc: int, qc: int, ua: int)
    requires p >= 0 && 0 <= uc <= qc && uc <= ua && qc >= 1 && ua >= 1
    ensures 0.0 <= (p * uc * uc) as real / (qc * ua) as real <= p as real
  {
    PositiveProduct(qc, ua);
    MulMonotone(uc, uc, ua);
    MulMonotone(ua, uc, qc);
    assert uc * ua == ua * uc && qc * ua == ua * qc;
    assert 0 <= uc * uc <= qc * ua;
    MulMonotone(p, 0, uc * uc);
    MulMonotone(p, uc * uc, qc * ua);
    assert p * uc * uc == p * (uc * uc);
    FractionWithin(p * uc * uc, qc * ua, p);
  }

  /** `uc * uc == qc * ua` with `0 <= uc <= qc`, `uc <= ua` and `qc, ua > 0` iff `uc == qc == ua`. */
  lemma SquareMeetsProduct(uc: int, qc: int, ua: int)
    requires 0 <= uc <= qc && uc <= ua && qc > 0 && ua > 0
    ensures uc * uc == qc * ua <==> uc == qc && uc == ua
  {
    MulMonotone(uc, uc, ua);
    assert qc * ua - uc * ua == (qc - uc) * ua;
    if uc < qc {
      assert (qc - uc) * ua > 0;
    } else if uc < ua {
      assert uc * ua - uc * uc == uc * (ua - uc);
      assert uc * (ua - uc) > 0;
    }
  }

  /** `p * uc * uc / (qc * ua) == p`, with `uc <= qc`, `uc <= ua` and all positive, iff `uc == qc == ua`. */
  lemma FullPrecisionRecall(p: int, uc: int, qc: int, ua: int)
    requires p > 0 && 0 <= uc <= qc && uc <= ua && qc > 0 && ua > 0
    ensures (p * uc * uc) as real / (qc * ua) as real == p as real <==> uc == qc && uc == ua
  {
    PositiveProduct(qc, ua);
    FractionEquals(p * uc * uc, qc * ua, p);
    assert p * uc * uc == p * (uc * uc);
    CancelFactor(p, uc * uc, qc * ua);
    SquareMeetsProduct(uc, qc, ua);
  }

  // ---------------------------------------------------------------- counts and selections

  /** As many checked-correct as checked answers means every checked answer is correct. */
  lemma {:induction false} CheckedAreCorrect(answers: seq<Answer>, checked: set<int>)
    requires CheckedCorrectCount(answers, checked) == CheckedCount(answers, checked)
    ensures forall a :: a in answers && a.id in checked ==> a.correct
  {
    if answers != [] {
      var init, last := answers[..|answers| - 1], answers[|answers| - 1];
      assert answers == init + [last];
      CheckedAreCorrect(init, checked);
    }
  }

  /** As many checked-correct as correct answers means every correct answer is checked. */
  lemma {:induction false} CorrectAreChecked(answers: seq<Answer>, checked: set<int>)
    requires CheckedCorrectCount(answers, checked) == CorrectCount(answers)
    ensures forall a :: a in answers && a.correct ==> a.id in checked
  {
    if answers != [] {
      var init, last := answers[..|answers| - 1], answers[|answers| - 1];
      assert answers == init + [last];
      CorrectAreChecked(init, checked);
    }
  }

  /** With distinct ids, the three counts coincide iff the checked ids of the question are its correct ids. */
  lemma ExactSelectionIffCounts(answers: seq<Answer>, checked: set<int>)
    requires DistinctIds(answers)
    ensures checked * Ids(answers) == CorrectIds(answers) <==>
      CheckedCorrectCount(answers, checked) == CheckedCount(answers, checked) == CorrectCount(answers)
  {
    if checked * Ids(answers) == CorrectIds(answers) {
      ExactSelectionAgrees(answers, checked);
      AgreementCounts(answers, checked);
    }
    if CheckedCorrectCount(answers, checked) == CheckedCount(answers, checked) == CorrectCount(answers) {
      CheckedAreCorrect(answers, checked);
      CorrectAreChecked(answers, checked);
      forall x | x in checked * Ids(answers) ensures x in CorrectIds(answers) {
        var a :| a in answers && a.id == x;
      }
      forall x | x in CorrectIds(answers) ensures x in checked * Ids(answers) {
        var a :| a in answers && a.correct && a.id == x;
      }
    }
  }

  // ---------------------------------------------------------------- laws

  /**
   * For a question with a positive weight and a correct answer, the corrected
   * credit is the whole weight iff exactly its correct answers are checked.
   */
  lemma CorrectedFullCreditIffExact(q: Question, checked: set<int>)
    requires DistinctIds(q.answers) && q.points > 0 && CorrectIds(q.answers) != {}
    ensures CorrectedContribution(q, checked) == q.points as real <==> checked * Ids(q.answers) == CorrectIds(q.answers)
  {
    CorrectIdsEmpty(q.answers);
    ExactSelectionIffCounts(q.answers, checked);
    var ua := CheckedCount(q.answers, checked);
    if ua > 0 {
      FullPrecisionRecall(q.points, CheckedCorrectCount(q.answers, checked), CorrectCount(q.answers), ua);
    }
  }

  /** Exact play earns a question its whole weight under the corrected formula. */
  lemma CorrectedExactPlay(q: Question, checked: set<int>)
    requires DistinctIds(q.answers) && PerfectlyAnswered(q, checked)
    ensures CorrectedContribution(q, checked) == q.points as real
  {
    SomethingChecked(q.answers, checked);
    CorrectIdsEmpty(q.answers);
    if CorrectCount(q.answers) != 0 {
      ExactSelectionAgrees(q.answers, checked);
      AgreementCounts(q.answers, checked);
      CancelSquare(q.points, CorrectCount(q.answers));
    }
  }

  /** Under the corrected formula, exact play on every question scores exactly the base points. */
  lemma {:induction false} CorrectedPerfectPlay(quiz: Quiz, checked: set<int>)
    requires forall q :: q in quiz.questions ==> DistinctIds(q.answers) && PerfectlyAnswered(q, checked)
    ensures CorrectedScore(quiz, checked) == quiz.points as real
  {
    CorrectedEarnedAllWeights(quiz.questions, checked);
  }

  lemma {:induction false} CorrectedEarnedAllWeights(questions: seq<Question>, checked: set<int>)
    requires forall q :: q in questions ==> DistinctIds(q.answers) && PerfectlyAnswered(q, checked)
    ensures CorrectedEarned(questions, checked) == MaxPoints(questions) as real
  {
    if questions != [] {
      var init, last := questions[..|questions| - 1], questions[|questions| - 1];
      assert forall q :: q in init ==> q in questions;
      assert last in questions;
      CorrectedExactPlay(last, checked);
      CorrectedEarnedAllWeights(init, checked);
    }
  }

  /** With non-negative weights, the corrected score lies between the empty-play score and the base points. */
  lemma {:induction false} CorrectedEarnedBounds(questions: seq<Question>, checked: set<int>)
    requires forall q :: q in questions ==> q.points >= 0
    ensures 0.0 <= CorrectedEarned(questions, checked) <= MaxPoints(questions) as real
  {
    if questions != [] {
      var init, last := questions[..|questions| - 1], questions[|questions| - 1];
      assert forall q :: q in init ==> q in questions;
      assert last in questions;
      CorrectedEarnedBounds(init, checked);
      var ua, qc := CheckedCount(last.answers, checked), CorrectCount(last.answers);
      if ua > 0 && qc > 0 {
        PrecisionRecallBounds(last.points, CheckedCorrectCount(last.answers, checked), qc, ua);
      }
    }
  }

  lemma CorrectedScoreBounds(quiz: Quiz, checked: set<int>)
    requires forall q :: q in quiz.questions ==> q.points >= 0
    ensures quiz.points as real - MaxPoints(quiz.questions) as real <= CorrectedScore(quiz, checked) <= quiz.points as real
  {
    CorrectedEarnedBounds(quiz.questions, checked);
  }

  /** Where no question has more than one correct answer, the corrected score is the view's score. */
  lemma {:induction false} CorrectedAgreesOnSingleCorrect(questions: seq<Question>, checked: set<int>)
    requires forall q :: q in questions ==> CorrectCount(q.answers) <= 1
    ensures CorrectedEarned(questions, checked) == Earned(questions, checked)
  {
    if questions != [] {
      var init, last := questions[..|questions| - 1], questions[|questions| - 1];
      assert forall q :: q in init ==> q in questions;
      assert last in questions;
      CorrectedAgreesOnSingleCorrect(init, checked);
      CorrectedAgreesOnQuestion(last, checked);
    }
  }

  /** On a question with at most one correct answer, the corrected credit is the view's credit. */
  lemma CorrectedAgreesOnQuestion(q: Question, checked: set<int>)
    requires CorrectCount(q.answers) <= 1
    ensures CorrectedContribution(q, checked) == Contribution(q, checked)
  {
    SquareOfAtMostOne(q.points, CheckedCorrectCount(q.answers, checked));
  }

  /** `p * u * u == p * u` for `u` in `{0, 1}`. */
  lemma SquareOfAtMostOne(p: int, u: int)
    requires 0 <= u <= 1
    ensures p * u * u == p * u
  {
    if u == 1 {
      assert p * 1 * 1 == p * 1;
    }
  }
}
