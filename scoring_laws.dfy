/** Laws of the quiz scorer as the view computes it. */
module ScoringLaws {
  import opened Models
  import opened Scoring

  // ---------------------------------------------------------------- empty play

  /** With nothing checked no question contributes. */
  lemma {:induction false} EarnedNothing(questions: seq<Question>)
    ensures Earned(questions, {}) == 0.0
  {
    if questions != [] {
      EarnedNothing(questions[..|questions| - 1]);
    }
  }

  /** Checking nothing scores the base points minus the sum of the weights. */
  lemma NothingCheckedScore(quiz: Quiz)
    ensures Score(quiz, {}) == quiz.points as real - MaxPoints(quiz.questions) as real
  {
    EarnedNothing(quiz.questions);
  }

  // ---------------------------------------------------------------- bounds

  /** A product of two non-negative integers is non-negative. */
  lemma NonNegativeProduct(a: int, b: int)
    requires a >= 0 && b >= 0
    ensures a * b >= 0
  {
  }

  /** The partial credit `p * uc / (qc * ua)` lies in `[0, p]` when `uc <= qc` and `ua >= 1`. */
  lemma PartialCreditBounds(p: int, uc: int, qc: int, ua: int)
    requires p >= 0 && 0 <= uc <= qc && qc >= 1 && ua >= 1
    ensures 0.0 <= (p * uc) as real / (qc * ua) as real <= p as real
  {
    var d := qc * ua;
    PositiveProduct(qc, ua);
    NonNegativeProduct(p, uc);
    if uc > 0 {
      assert d >= qc by { assert qc * ua - qc == qc * (ua - 1) >= 0; }
      assert p * uc <= p * d by { assert p * d - p * uc == p * (d - uc) >= 0; }
      assert (p * d) as real == p as real * d as real;
      assert (p * uc) as real / d as real <= (p * d) as real / d as real;
    }
  }

  /** With a non-negative weight, a question contributes between 0 and its weight. */
  lemma ContributionBounds(q: Question, checked: set<int>)
    requires q.points >= 0
    ensures 0.0 <= Contribution(q, checked) <= q.points as real
  {
    var userAnswers := CheckedCount(q.answers, checked);
    var questionCorrect := CorrectCount(q.answers);
    if userAnswers > 0 && questionCorrect > 0 {
      PartialCreditBounds(q.points, CheckedCorrectCount(q.answers, checked), questionCorrect, userAnswers);
    }
  }

  /** With non-negative weights, the earned total lies between 0 and the sum of the weights. */
  lemma {:induction false} EarnedBounds(questions: seq<Question>, checked: set<int>)
    requires forall q :: q in questions ==> q.points >= 0
    ensures 0.0 <= Earned(questions, checked) <= MaxPoints(questions) as real
  {
    if questions != [] {
      var init, last := questions[..|questions| - 1], questions[|questions| - 1];
      assert forall q :: q in init ==> q in questions;
      EarnedBounds(init, checked);
      ContributionBounds(last, checked);
    }
  }

  /** With non-negative weights, a score lies between the empty-play score and the base points. */
  lemma ScoreBounds(quiz: Quiz, checked: set<int>)
    requires forall q :: q in quiz.questions ==> q.points >= 0
    ensures quiz.points as real - MaxPoints(quiz.questions) as real <= Score(quiz, checked) <= quiz.points as real
  {
    EarnedBounds(quiz.questions, checked);
  }

  // ---------------------------------------------------------------- zero-correct questions

  /**
   * A question without a correct answer earns its whole weight as soon as any
   * of its answers is checked, whichever and however many.
   */
  lemma ZeroCorrectFullWeight(q: Question, checked: set<int>, a: Answer)
    requires forall b :: b in q.answers ==> !b.correct
    requires a in q.answers && a.id in checked
    ensures Contribution(q, checked) == q.points as real
  {
  }

  // ---------------------------------------------------------------- only membership counts

  /** Two checked sets that agree on the ids of some answers give the same counts. */
  lemma {:induction false} CountsAgree(answers: seq<Answer>, c1: set<int>, c2: set<int>)
    requires forall a :: a in answers ==> (a.id in c1 <==> a.id in c2)
    ensures CheckedCount(answers, c1) == CheckedCount(answers, c2)
    ensures CheckedCorrectCount(answers, c1) == CheckedCorrectCount(answers, c2)
  {
    if answers != [] {
      var init := answers[..|answers| - 1];
      assert forall a :: a in init ==> a in answers;
      assert answers[|answers| - 1] in answers;
      CountsAgree(init, c1, c2);
    }
  }

  /** Two checked sets that agree on every answer id of the questions earn the same. */
  lemma {:induction false} EarnedAgree(questions: seq<Question>, c1: set<int>, c2: set<int>)
    requires forall id :: id in AnswerIds(questions) ==> (id in c1 <==> id in c2)
    ensures Earned(questions, c1) == Earned(questions, c2)
  {
    if questions != [] {
      var init, last := questions[..|questions| - 1], questions[|questions| - 1];
      assert AnswerIds(init) <= AnswerIds(questions) by {
        forall id | id in AnswerIds(init) ensures id in AnswerIds(questions) {
          var q, a :| q in init && a in q.answers && a.id == id;
          assert q in questions;
        }
      }
      forall a | a in last.answers ensures a.id in AnswerIds(questions) {
        assert last in questions;
      }
      CountsAgree(last.answers, c1, c2);
      EarnedAgree(init, c1, c2);
    }
  }

  /** Checked ids that belong to no answer of the quiz do not change the score. */
  lemma OnlyQuizIdsMatter(quiz: Quiz, checked: set<int>)
    ensures Score(quiz, checked) == Score(quiz, checked * AnswerIds(quiz.questions))
  {
    EarnedAgree(quiz.questions, checked, checked * AnswerIds(quiz.questions));
  }

  /** Adding ids of no answer of the quiz to the checked list does not change the score. */
  lemma ForeignIdsIgnored(quiz: Quiz, checked: seq<int>, foreign: seq<int>)
    requires forall x :: x in foreign ==> x !in AnswerIds(quiz.questions)
    ensures Score(quiz, Elements(checked + foreign)) == Score(quiz, Elements(checked))
  {
    EarnedAgree(quiz.questions, Elements(checked + foreign), Elements(checked));
  }

  /** Reordering the checked list or repeating its entries does not change the score. */
  lemma AnswerListOrderIrrelevant(quiz: Quiz, xs: seq<int>, ys: seq<int>)
    requires forall x :: x in xs <==> x in ys
    ensures Score(quiz, Elements(xs)) == Score(quiz, Elements(ys))
  {
    assert forall x :: x in Elements(xs) <==> x in Elements(ys);
    assert Elements(xs) == Elements(ys);
  }

  // ---------------------------------------------------------------- exact play

  /** A question whose checked answers are exactly its correct ones, and which has something checked. */
  predicate PerfectlyAnswered(q: Question, checked: set<int>) {
    && (CorrectIds(q.answers) != {} ==> checked * Ids(q.answers) == CorrectIds(q.answers))
    && checked * Ids(q.answers) != {}
  }

  /** When checkedness and correctness agree on every answer, the three counts coincide. */
  lemma {:induction false} AgreementCounts(answers: seq<Answer>, checked: set<int>)
    requires forall a :: a in answers ==> (a.id in checked <==> a.correct)
    ensures CheckedCorrectCount(answers, checked) == CheckedCount(answers, checked) == CorrectCount(answers)
  {
    if answers != [] {
      var init := answers[..|answers| - 1];
      assert forall a :: a in init ==> a in answers;
      assert answers[|answers| - 1] in answers;
      AgreementCounts(init, checked);
    }
  }

  /** With distinct ids, checking exactly the correct ids means each answer is checked iff it is correct. */
  lemma ExactSelectionAgrees(answers: seq<Answer>, checked: set<int>)
    requires DistinctIds(answers)
    requires checked * Ids(answers) == CorrectIds(answers)
    ensures forall a :: a in answers ==> (a.id in checked <==> a.correct)
  {
    forall a | a in answers ensures a.id in checked <==> a.correct {
      if a.correct {
        assert a.id in CorrectIds(answers);
      }
      if a.id in checked {
        assert a.id in checked * Ids(answers);
        var b :| b in answers && b.correct && b.id == a.id;
        var i :| 0 <= i < |answers| && answers[i] == a;
        var j :| 0 <= j < |answers| && answers[j] == b;
        assert i == j;
      }
    }
  }

  /** Some checked id belongs to an answer of the question: the question has something checked. */
  lemma SomethingChecked(answers: seq<Answer>, checked: set<int>)
    requires checked * Ids(answers) != {}
    ensures CheckedCount(answers, checked) > 0
  {
    var id :| id in checked * Ids(answers);
    var a :| a in answers && a.id == id;
  }

  /** A question has a correct answer iff its set of correct ids is non-empty. */
  lemma CorrectIdsEmpty(answers: seq<Answer>)
    ensures CorrectIds(answers) == {} <==> CorrectCount(answers) == 0
  {
    if CorrectCount(answers) != 0 {
      var a :| a in answers && a.correct;
      assert a.id in CorrectIds(answers);
    }
  }

  /** `p * k / (k * k)` is `p / k`. */
  lemma CancelFraction(p: int, k: int)
    requires k > 0
    ensures (p * k) as real / (k * k) as real == p as real / k as real
  {
    assert (p * k) as real == p as real * k as real;
    assert (k * k) as real == k as real * k as real;
  }

  /**
   * Under exact play, the view awards a question its weight divided by its
   * number of correct answers, and its whole weight when it has none.
   */
  lemma ExactPlayContribution(q: Question, checked: set<int>)
    requires DistinctIds(q.answers) && PerfectlyAnswered(q, checked)
    ensures Contribution(q, checked) ==
      if CorrectCount(q.answers) == 0 then q.points as real
      else q.points as real / CorrectCount(q.answers) as real
  {
    SomethingChecked(q.answers, checked);
    CorrectIdsEmpty(q.answers);
    if CorrectCount(q.answers) != 0 {
      ExactSelectionAgrees(q.answers, checked);
      AgreementCounts(q.answers, checked);
      CancelFraction(q.points, CorrectCount(q.answers));
    }
  }

  /** When every question contributes its weight, the earned total is the sum of the weights. */
  lemma {:induction false} EarnedAllWeights(questions: seq<Question>, checked: set<int>)
    requires forall q :: q in questions ==> Contribution(q, checked) == q.points as real
    ensures Earned(questions, checked) == MaxPoints(questions) as real
  {
    if questions != [] {
      var init := questions[..|questions| - 1];
      assert forall q :: q in init ==> q in questions;
      assert questions[|questions| - 1] in questions;
      EarnedAllWeights(init, checked);
    }
  }

  /** Exact play on a question with at most one correct answer earns its whole weight. */
  lemma ExactPlaySingleCorrect(q: Question, checked: set<int>)
    requires DistinctIds(q.answers) && PerfectlyAnswered(q, checked) && CorrectCount(q.answers) <= 1
    ensures Contribution(q, checked) == q.points as real
  {
    ExactPlayContribution(q, checked);
    assert q.points as real / 1 as real == q.points as real;
  }

  /**
   * Exact play on a quiz whose questions have at most one correct answer each
   * scores exactly the base points.
   */
  lemma PerfectPlayAtMostOneCorrect(quiz: Quiz, checked: set<int>)
    requires forall q :: q in quiz.questions ==>
      DistinctIds(q.answers) && PerfectlyAnswered(q, checked) && CorrectCount(q.answers) <= 1
    ensures Score(quiz, checked) == quiz.points as real
  {
    forall q | q in quiz.questions ensures Contribution(q, checked) == q.points as real {
      ExactPlaySingleCorrect(q, checked);
    }
    EarnedAllWeights(quiz.questions, checked);
  }

  /** A fraction equals `p` iff its numerator is `p` times its denominator. */
  lemma FractionEquals(n: int, d: int, p: int)
    requires d > 0
    ensures n as real / d as real == p as real <==> n == p * d
  {
    assert (p * d) as real == p as real * d as real;
  }

  /** A positive factor cancels from an equation. */
  lemma CancelFactor(p: int, a: int, b: int)
    requires p > 0
    ensures p * a == p * b <==> a == b
  {
    assert p * a - p * b == p * (a - b);
  }

  /** `p * uc / (qc * ua) == p` with `uc <= qc`, `uc <= ua` and all positive forces `uc == qc == ua == 1`. */
  lemma FullPartialCredit(p: int, uc: int, qc: int, ua: int)
    requires p > 0 && 0 <= uc <= qc && uc <= ua && qc > 0 && ua > 0
    ensures (p * uc) as real / (qc * ua) as real == p as real <==> uc == qc == ua == 1
  {
    PositiveProduct(qc, ua);
    FractionEquals(p * uc, qc * ua, p);
    CancelFactor(p, uc, qc * ua);
    if uc == qc * ua {
      assert qc * ua - qc == qc * (ua - 1);
    }
  }

  /**
   * With a positive weight and a correct answer, the view awards the whole
   * weight only when exactly one answer is checked and it is the only correct one.
   */
  lemma FullCreditAsWritten(q: Question, checked: set<int>)
    requires q.points > 0 && CorrectCount(q.answers) > 0
    ensures Contribution(q, checked) == q.points as real <==>
      CheckedCorrectCount(q.answers, checked) == CorrectCount(q.answers) == CheckedCount(q.answers, checked) == 1
  {
    var ua := CheckedCount(q.answers, checked);
    if ua > 0 {
      FullPartialCredit(q.points, CheckedCorrectCount(q.answers, checked), CorrectCount(q.answers), ua);
    }
  }

  /**
   * Exact play on a question with two correct answers: the view awards half
   * of the weight, and the quiz scores below its base points.
   */
  lemma PerfectPlayCounterexample()
    ensures var q := Question([Answer(1, true), Answer(2, true)], 10);
      && DistinctIds(q.answers) && PerfectlyAnswered(q, {1, 2})
      && Contribution(q, {1, 2}) == 5.0
      && Score(Quiz(0, [q]), {1, 2}) == -5.0
  {
    var q := Question([Answer(1, true), Answer(2, true)], 10);
    assert Ids(q.answers) == {1, 2} by {
      assert q.answers[0] in q.answers && q.answers[1] in q.answers;
    }
    assert CorrectIds(q.answers) == {1, 2} by {
      assert q.answers[0] in q.answers && q.answers[1] in q.answers;
    }
    assert q.answers[..1] == [Answer(1, true)];
    assert [Answer(1, true)][..0] == [];
    assert [q][..0] == [];
  }

  // ---------------------------------------------------------------- worked examples and defaults

  /** One 10-point question with a correct and a wrong answer, on a quiz with base 0. */
  lemma WorkedExample()
    ensures var quiz := Quiz(0, [Question([Answer(1, true), Answer(2, false)], 10)]);
      && Score(quiz, {1}) == 0.0
      && Score(quiz, {1, 2}) == -5.0
      && Score(quiz, {2}) == -10.0
      && Score(quiz, {}) == -10.0
  {
    var answers := [Answer(1, true), Answer(2, false)];
    assert answers[..1] == [Answer(1, true)];
    assert [Answer(1, true)][..0] == [];
    assert [Question(answers, 10)][..0] == [];
  }

  /** A 5-point question whose two answers are both wrong earns 5 for any non-empty selection. */
  lemma NoCorrectAnswerExample(checked: set<int>)
    requires checked * {1, 2} != {}
    ensures Contribution(Question([Answer(1, false), Answer(2, false)], 5), checked) == 5.0
  {
    var answers := [Answer(1, false), Answer(2, false)];
    if 1 in checked {
      ZeroCorrectFullWeight(Question(answers, 5), checked, answers[0]);
    } else {
      ZeroCorrectFullWeight(Question(answers, 5), checked, answers[1]);
    }
  }

  /**
   * A question built without a weight is worth 1, an answer built without a
   * flag is wrong, and a one-answer question of that kind earns 1 once checked.
   */
  lemma DefaultsScore(id: int)
    ensures Question([Answer(id)]).points == 1 && !Answer(id).correct
    ensures Contribution(Question([Answer(id)]), {id}) == 1.0
  {
    ZeroCorrectFullWeight(Question([Answer(id)]), {id}, Answer(id));
  }
}
