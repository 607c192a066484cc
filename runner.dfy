/**
 * The POST branch of the quiz runner `run` (quiz/views.py): the session guard
 * gates the submission, the checked answer ids are extracted from the form,
 * and the scorer computes the points stored in the new record.
 */
module QuizRunner {
  import opened Models
  import opened Scoring
  import opened Sessions
  import opened Extraction

  /** How a submission ends: refused to an anonymous client, a key `int` rejects, or a score. */
  datatype RunOutcome = NotRegistered | AnswerKeyRejected(error: ValueError) | Scored(points: real)

  /** A quiz submission, with the quiz already read from storage. */
  method RunSubmission(session: Session, quiz: Quiz, form: seq<FormField>) returns (outcome: RunOutcome)
    modifies session
    ensures session.store == if LoggedKey in old(session.store) then old(session.store) else Ended(old(session.store))
    ensures !IsAuthenticated(old(session.store)) ==> outcome == NotRegistered
    ensures IsAuthenticated(old(session.store)) ==>
      outcome == (match Extracted(form)
                  case Failure(e) => AnswerKeyRejected(e)
                  case Success(ids) => Scored(Score(quiz, Elements(ids))))
  {
    var logged := session.CheckUserSession();
    if !logged {
      return NotRegistered;
    }
    var answers := ExtractAnswers(form);
    if answers.Failure? {
      return AnswerKeyRejected(answers.error);
    }
    var points := CheckUserQuiz(answers.value, quiz);
    return Scored(points);
  }
}
