/** Shared vocabulary of the quiz-session engine: identifiers, an optional
    value, and the error kinds the controllers answer with instead of an
    HTTP status code. */
module Common {

  type UserId = nat
  type QuizId = nat
  type QuestionId = nat
  type SubjectId = nat
  type SessionId = nat

  datatype Option<+T> = None | Some(value: T) {
    function GetOr(default: T): T {
      match this
      case Some(v) => v
      case None => default
    }
  }

  /** The failures of the session routes, one per distinct response. */
  datatype Error =
    | Forbidden           // 403: the session belongs to another user
    | NotActive           // 400: the session is not in_progress
    | ValidationFailed    // 422: bad selected_answer / time_taken, or unknown question
    | NotInQuiz           // 400: the question is not attached to the session's quiz
    | AlreadyAnswered     // 400: the question was answered before in this session
    | ActiveSessionExists // 409: start() while an in_progress session exists

  datatype Result<+T> = Ok(value: T) | Err(error: Error)

  function Max(a: int, b: int): int { if a < b then b else a }
  function Min(a: int, b: int): int { if a < b then a else b }
}
