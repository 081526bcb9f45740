/** The data the engine reads and writes: the `quiz_sessions` rows, the
    `user_answers` rows of each session in insertion order, and the
    progression columns of `users`, next to the read-only catalog. The
    invariant `Valid` is what every operation of the controllers keeps. */
module Store {
  import opened Common
  import opened QuestionModel
  import opened QuizCatalog
  import opened QuizSessionModel
  import opened Progression

  /** The answer log of one session: every answer is to a question of the
      session's quiz, carries an A-D letter and the verdict of the answer
      check, and no question is answered twice. */
  ghost predicate AnswersOk(c: Catalog, quiz: Quiz, answers: seq<AnswerRecord>) {
    && (forall i :: 0 <= i < |answers| ==>
          && HasQuestion(quiz, answers[i].questionId)
          && answers[i].questionId in c.questions
          && IsLetter(answers[i].selectedAnswer)
          && answers[i].isCorrect == IsCorrectAnswer(c.questions[answers[i].questionId], answers[i].selectedAnswer))
    && (forall i, j :: 0 <= i < j < |answers| ==> answers[i].questionId != answers[j].questionId)
  }

  /** A session agrees with its answer log: correct_answers counts the
      correct answers, score is ten points per correct answer, and an
      in-progress session has not yet reached its question count. */
  ghost predicate SessionOk(c: Catalog, s: Session, answers: seq<AnswerRecord>) {
    && s.quizId in c.quizzes
    && AnswersOk(c, c.quizzes[s.quizId], answers)
    && s.correctAnswers == CorrectCount(answers)
    && s.score == 10 * s.correctAnswers
    && |answers| <= Max(s.totalQuestions, 1)
    && (s.status == InProgress ==> |answers| == 0 || |answers| < s.totalQuestions)
  }

  predicate IsActiveFor(s: Session, user: UserId, quiz: QuizId) {
    s.userId == user && s.quizId == quiz && s.status == InProgress
  }

  /** The query of `start`: an in_progress session of this user for this quiz. */
  predicate HasActiveSession(sessions: map<SessionId, Session>, user: UserId, quiz: QuizId) {
    exists id :: id in sessions && IsActiveFor(sessions[id], user, quiz)
  }

  /** At most one in_progress session per user and quiz. */
  ghost predicate OneActivePerQuiz(sessions: map<SessionId, Session>) {
    forall i, j {:trigger sessions[i], sessions[j]} ::
      i in sessions && j in sessions &&
      sessions[i].status == InProgress && sessions[j].status == InProgress &&
      sessions[i].userId == sessions[j].userId && sessions[i].quizId == sessions[j].quizId
      ==> i == j
  }

  ghost predicate IdsBelow(sessions: map<SessionId, Session>, next: SessionId) {
    forall id :: id in sessions ==> id < next
  }

  ghost predicate OwnersKnown(sessions: map<SessionId, Session>, users: map<UserId, UserProgress>) {
    forall id :: id in sessions ==> sessions[id].userId in users
  }

  ghost predicate SessionsOk(c: Catalog, sessions: map<SessionId, Session>,
                             answers: map<SessionId, seq<AnswerRecord>>) {
    && answers.Keys == sessions.Keys
    && forall id :: id in sessions ==> SessionOk(c, sessions[id], answers[id])
  }

  ghost predicate UsersOk(users: map<UserId, UserProgress>) {
    forall u :: u in users ==> LevelKeepsUp(users[u])
  }

  /** The store invariant, over the store's fields as values. */
  ghost predicate StoreOk(c: Catalog, sessions: map<SessionId, Session>,
                          answers: map<SessionId, seq<AnswerRecord>>,
                          users: map<UserId, UserProgress>, nextSessionId: SessionId)
  {
    && CatalogOk(c)
    && SessionsOk(c, sessions, answers)
    && IdsBelow(sessions, nextSessionId)
    && OwnersKnown(sessions, users)
    && UsersOk(users)
    && OneActivePerQuiz(sessions)
  }

  /** Writing one session row (and its answer log) keeps every session in
      agreement with its log when the written one agrees with its own. */
  lemma SessionsOkUpdate(c: Catalog, sessions: map<SessionId, Session>,
                         answers: map<SessionId, seq<AnswerRecord>>,
                         id: SessionId, s: Session, log: seq<AnswerRecord>)
    requires SessionsOk(c, sessions, answers)
    requires SessionOk(c, s, log)
    ensures SessionsOk(c, sessions[id := s], answers[id := log])
  {
    var sessions', answers' := sessions[id := s], answers[id := log];
    forall i | i in sessions' ensures SessionOk(c, sessions'[i], answers'[i]) {
      if i != id {
        assert sessions'[i] == sessions[i] && answers'[i] == answers[i];
      }
    }
  }

  /** Writing one session row keeps at most one in_progress session per
      user and quiz when the written row is not in progress, or no other
      session is active for its user and quiz. */
  lemma OneActiveUpdate(sessions: map<SessionId, Session>, id: SessionId, s: Session)
    requires OneActivePerQuiz(sessions)
    requires s.status == InProgress ==>
               forall j :: j in sessions && j != id ==> !IsActiveFor(sessions[j], s.userId, s.quizId)
    ensures OneActivePerQuiz(sessions[id := s])
  {
    var sessions' := sessions[id := s];
    forall i, j | i in sessions' && j in sessions' &&
                  sessions'[i].status == InProgress && sessions'[j].status == InProgress &&
                  sessions'[i].userId == sessions'[j].userId && sessions'[i].quizId == sessions'[j].quizId
      ensures i == j
    {
      if i != id && j != id {
        assert sessions'[i] == sessions[i] && sessions'[j] == sessions[j];
      }
    }
  }

  /** Moving one session out of in_progress, without touching its counts
      or its answers, keeps the invariant. */
  lemma LeaveInProgressKeepsOk(c: Catalog, sessions: map<SessionId, Session>,
                               answers: map<SessionId, seq<AnswerRecord>>,
                               users: map<UserId, UserProgress>, next: SessionId,
                               id: SessionId, s: Session)
    requires StoreOk(c, sessions, answers, users, next)
    requires id in sessions && s.status != InProgress
    requires s.userId == sessions[id].userId && s.quizId == sessions[id].quizId
    requires s.score == sessions[id].score && s.correctAnswers == sessions[id].correctAnswers
    requires s.totalQuestions == sessions[id].totalQuestions
    ensures StoreOk(c, sessions[id := s], answers, users, next)
  {
    assert SessionOk(c, sessions[id], answers[id]);
    SessionsOkUpdate(c, sessions, answers, id, s, answers[id]);
    assert answers[id := answers[id]] == answers;
    OneActiveUpdate(sessions, id, s);
  }

  /** Rewriting the row of an in-progress session (and its answer log),
      keeping its user and quiz, keeps the invariant when the new row
      agrees with the new log. */
  lemma RewriteActiveKeepsOk(c: Catalog, sessions: map<SessionId, Session>,
                             answers: map<SessionId, seq<AnswerRecord>>,
                             users: map<UserId, UserProgress>, next: SessionId,
                             id: SessionId, s: Session, log: seq<AnswerRecord>)
    requires StoreOk(c, sessions, answers, users, next)
    requires id in sessions && sessions[id].status == InProgress
    requires s.userId == sessions[id].userId && s.quizId == sessions[id].quizId
    requires SessionOk(c, s, log)
    ensures StoreOk(c, sessions[id := s], answers[id := log], users, next)
  {
    SessionsOkUpdate(c, sessions, answers, id, s, log);
    forall j | j in sessions && j != id
      ensures !IsActiveFor(sessions[j], s.userId, s.quizId)
    {
      assert sessions[id].status == InProgress;
    }
    OneActiveUpdate(sessions, id, s);
  }

  /** Writing the progression of a known user keeps the invariant when the
      stored level keeps up with the experience. */
  lemma UserWriteKeepsOk(c: Catalog, sessions: map<SessionId, Session>,
                         answers: map<SessionId, seq<AnswerRecord>>,
                         users: map<UserId, UserProgress>, next: SessionId,
                         u: UserId, p: UserProgress)
    requires StoreOk(c, sessions, answers, users, next)
    requires u in users && LevelKeepsUp(p)
    ensures StoreOk(c, sessions, answers, users[u := p], next)
  {
  }

  /** Closing a session as `LeaveInProgressKeepsOk` does and writing a
      known user's progression, with a level that keeps up, keeps the
      invariant. */
  lemma CloseAndAwardKeepsOk(c: Catalog, sessions: map<SessionId, Session>,
                             answers: map<SessionId, seq<AnswerRecord>>,
                             users: map<UserId, UserProgress>, next: SessionId,
                             id: SessionId, s: Session, u: UserId, p: UserProgress)
    requires StoreOk(c, sessions, answers, users, next)
    requires id in sessions && s.status != InProgress
    requires s.userId == sessions[id].userId && s.quizId == sessions[id].quizId
    requires s.score == sessions[id].score && s.correctAnswers == sessions[id].correctAnswers
    requires s.totalQuestions == sessions[id].totalQuestions
    requires u in users && LevelKeepsUp(p)
    ensures StoreOk(c, sessions[id := s], answers, users[u := p], next)
  {
    LeaveInProgressKeepsOk(c, sessions, answers, users, next, id, s);
    UserWriteKeepsOk(c, sessions[id := s], answers, users, next, u, p);
  }

  /** The same, for a store that may or may not satisfy the invariant
      beforehand: a valid store stays valid. */
  lemma LeaveInProgressKeepsValid(c: Catalog, sessions: map<SessionId, Session>,
                                  answers: map<SessionId, seq<AnswerRecord>>,
                                  users: map<UserId, UserProgress>, next: SessionId,
                                  id: SessionId, s: Session)
    requires id in sessions && s.status != InProgress
    requires s.userId == sessions[id].userId && s.quizId == sessions[id].quizId
    requires s.score == sessions[id].score && s.correctAnswers == sessions[id].correctAnswers
    requires s.totalQuestions == sessions[id].totalQuestions
    ensures StoreOk(c, sessions, answers, users, next) ==> StoreOk(c, sessions[id := s], answers, users, next)
  {
    if StoreOk(c, sessions, answers, users, next) {
      LeaveInProgressKeepsOk(c, sessions, answers, users, next, id, s);
    }
  }

  /** A second write to the same key replaces the first. */
  lemma UpdateTwice<K, V>(m: map<K, V>, k: K, v1: V, v2: V)
    ensures m[k := v1][k := v2] == m[k := v2]
  {
  }

  class Database {
    const catalog: Catalog
    var sessions: map<SessionId, Session>
    var answers: map<SessionId, seq<AnswerRecord>>
    var users: map<UserId, UserProgress>
    var nextSessionId: SessionId

    ghost predicate Valid()
      reads this
    {
      StoreOk(catalog, sessions, answers, users, nextSessionId)
    }

    /** A store with no sessions over the given catalog and users. */
    constructor (catalog: Catalog, users: map<UserId, UserProgress>)
      requires CatalogOk(catalog)
      requires forall u :: u in users ==> LevelKeepsUp(users[u])
      ensures Valid()
      ensures this.catalog == catalog && this.users == users
      ensures sessions == map[] && answers == map[]
    {
      this.catalog := catalog;
      this.users := users;
      sessions := map[];
      answers := map[];
      nextSessionId := 0;
    }

    /** `markAsCompleted`: status becomes completed and completed_at is
        now; score, correct_answers and total_questions stay as they are.
        It applies in any status, and it keeps the invariant. */
    method MarkAsCompleted(id: SessionId, now: int)
      requires id in sessions
      modifies this
      ensures sessions == old(sessions)[id := old(sessions[id]).(status := Completed, completedAt := Some(now))]
      ensures answers == old(answers) && users == old(users) && nextSessionId == old(nextSessionId)
      ensures old(Valid()) ==> Valid()
    {
      var s := sessions[id].(status := Completed, completedAt := Some(now));
      LeaveInProgressKeepsValid(catalog, sessions, answers, users, nextSessionId, id, s);
      sessions := sessions[id := s];
    }

    /** `markAsExpired`: only the status changes; completed_at is left as
        it was. Nothing in the engine calls it: expiry is a status without
        a producer here. It keeps the invariant. */
    method MarkAsExpired(id: SessionId)
      requires id in sessions
      modifies this
      ensures sessions == old(sessions)[id := old(sessions[id]).(status := Expired)]
      ensures answers == old(answers) && users == old(users) && nextSessionId == old(nextSessionId)
      ensures old(Valid()) ==> Valid()
    {
      var s := sessions[id].(status := Expired);
      LeaveInProgressKeepsValid(catalog, sessions, answers, users, nextSessionId, id, s);
      sessions := sessions[id := s];
    }
  }

  /** The store keeps `score == 10 * correct_answers`, and a
      session never counts more correct answers than it holds answers. */
  lemma ScoreMatchesAnswers(db: Database, id: SessionId)
    requires db.Valid() && id in db.sessions
    ensures db.sessions[id].score == 10 * db.sessions[id].correctAnswers
    ensures db.sessions[id].correctAnswers <= |db.answers[id]|
    ensures db.sessions[id].totalQuestions > 0 ==> db.sessions[id].correctAnswers <= db.sessions[id].totalQuestions
  {
  }
}
