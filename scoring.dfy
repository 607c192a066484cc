/**
 * The quiz scorer `check_user_quiz` (quiz/views.py): for each question of a
 * quiz, count the checked answers, the checked correct answers and the
 * correct answers, add a partial credit, and finally subtract the sum of the
 * weights from the quiz's base points.
 */
module Scoring {
  import opened Models

  /** The checked-answer list as the set of its members; `in answers` only tests membership. */
  function Elements(answers: seq<int>): (s: set<int>)
    ensures forall x :: x in s <==> x in answers
  {
    set x | x in answers
  }

  /** Answers that the user checked (`user_answers`). */
  function CheckedCount(answers: seq<Answer>, checked: set<int>): (n: nat)
    ensures n == 0 <==> forall a :: a in answers ==> a.id !in checked
    ensures n <= |answers|
  {
    if answers == [] then 0
    else
      var init, last := answers[..|answers| - 1], answers[|answers| - 1];
      assert answers == init + [last];
      CheckedCount(init, checked) + (if last.id in checked then 1 else 0)
  }

  /** Answers that are correct (`question_correct`). */
  function CorrectCount(answers: seq<Answer>): (n: nat)
    ensures n == 0 <==> forall a :: a in answers ==> !a.correct
    ensures n <= |answers|
  {
    if answers == [] then 0
    else
      var init, last := answers[..|answers| - 1], answers[|answers| - 1];
      assert answers == init + [last];
      CorrectCount(init) + (if last.correct then 1 else 0)
  }

  /** Answers that are checked and correct (`user_correct`); never more than either count above. */
  function CheckedCorrectCount(answers: seq<Answer>, checked: set<int>): (n: nat)
    ensures n <= CheckedCount(answers, checked) && n <= CorrectCount(answers)
  {
    if answers == [] then 0
    else
      var init, last := answers[..|answers| - 1], answers[|answers| - 1];
      CheckedCorrectCount(init, checked) + (if last.id in checked && last.correct then 1 else 0)
  }

  /**
   * What one question adds to the running result: nothing when none of its
   * answers is checked, its whole weight when it has no correct answer, and
   * otherwise `points * user_correct / (question_correct * user_answers)`,
   * divided exactly.
   */
  function Contribution(q: Question, checked: set<int>): real {
    var userAnswers := CheckedCount(q.answers, checked);
    var questionCorrect := CorrectCount(q.answers);
    if userAnswers == 0 then 0.0
    else if questionCorrect == 0 then q.points as real
    else (q.points * CheckedCorrectCount(q.answers, checked)) as real / (questionCorrect * userAnswers) as real
  }

  /** The sum of the question weights (`max_amount_of_points`). */
  function MaxPoints(questions: seq<Question>): int {
    if questions == [] then 0
    else MaxPoints(questions[..|questions| - 1]) + questions[|questions| - 1].points
  }

  /** The sum of the contributions of the questions. */
  function Earned(questions: seq<Question>, checked: set<int>): real {
    if questions == [] then 0.0
    else Earned(questions[..|questions| - 1], checked) + Contribution(questions[|questions| - 1], checked)
  }

  /** The value `check_user_quiz` returns for a quiz and a set of checked answer ids. */
  function Score(quiz: Quiz, checked: set<int>): real {
    quiz.points as real + Earned(quiz.questions, checked) - MaxPoints(quiz.questions) as real
  }

  /** Every answer id of every question of the quiz. */
  function AnswerIds(questions: seq<Question>): set<int> {
    set q, a | q in questions && a in q.answers :: a.id
  }

  /** The answer ids of one question. */
  function Ids(answers: seq<Answer>): set<int> {
    set a | a in answers :: a.id
  }

  /** The ids of the correct answers of one question. */
  function CorrectIds(answers: seq<Answer>): set<int> {
    set a | a in answers && a.correct :: a.id
  }

  /** No two answers of a question share an id (ids are primary keys). */
  predicate DistinctIds(answers: seq<Answer>) {
    forall i, j :: 0 <= i < j < |answers| ==> answers[i].id != answers[j].id
  }

  lemma PositiveProduct(a: int, b: int)
    requires a > 0 && b > 0
    ensures a * b > 0
  {
  }

  /**
   * `check_user_quiz(answers, quiz_id)`: the nested loops over questions and
   * answers, with the quiz read from storage given as `quiz`.
   */
  method CheckUserQuiz(answers: seq<int>, quiz: Quiz) returns (result: real)
    ensures result == Score(quiz, Elements(answers))
  {
    ghost var checked := Elements(answers);
    result := quiz.points as real;
    var maxAmountOfPoints := 0;
    for i := 0 to |quiz.questions|
      invariant result == quiz.points as real + Earned(quiz.questions[..i], checked)
      invariant maxAmountOfPoints == MaxPoints(quiz.questions[..i])
    {
      var question := quiz.questions[i];
      maxAmountOfPoints := maxAmountOfPoints + question.points;
      var userCorrect, userAnswers, questionCorrect := 0, 0, 0;
      for j := 0 to |question.answers|
        invariant userCorrect == CheckedCorrectCount(question.answers[..j], checked)
        invariant userAnswers == CheckedCount(question.answers[..j], checked)
        invariant questionCorrect == CorrectCount(question.answers[..j])
      {
        var answer := question.answers[j];
        assert question.answers[..j + 1][..j] == question.answers[..j];
        if answer.id in answers {
          if answer.correct {
            userCorrect := userCorrect + 1;
          }
          userAnswers := userAnswers + 1;
        }
        if answer.correct {
          questionCorrect := questionCorrect + 1;
        }
      }
      assert question.answers[..|question.answers|] == question.answers;
      ghost var before := result;
      if userAnswers == 0 {
        result := result + 0.0;
      } else if questionCorrect == 0 {
        result := result + question.points as real;
      } else {
        PositiveProduct(questionCorrect, userAnswers);
        result := result + (question.points * userCorrect) as real / (questionCorrect * userAnswers) as real;
      }
      assert result == before + Contribution(question, checked);
      assert quiz.questions[..i + 1][..i] == quiz.questions[..i];
    }
    assert quiz.questions[..|quiz.questions|] == quiz.questions;
    result := result - maxAmountOfPoints as real;
  }
}
