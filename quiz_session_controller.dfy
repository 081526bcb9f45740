/** The session endpoints: `show` (where the user stands), `submitAnswer`
    (record one answer, and complete the session after the last one),
    `submit` (complete the session now) and `results` (the per-answer and
    per-subject breakdown). Each acts only for the session's owner. */
module QuizSessionController {
  import opened Common
  import opened QuestionModel
  import opened QuizCatalog
  import opened QuizSessionModel
  import opened Progression
  import opened Grouping
  import opened Store
  import QuizController

  // ---------------------------------------------------------------- show

  /** `time_remaining`: the seconds left until the session expires, never
      below 0; none when the quiz has no (or a zero) time limit. */
  function TimeRemaining(startedAt: int, timeLimit: Option<nat>, now: int): (r: Option<nat>)
    ensures r.Some? <==> QuizController.ExpiresAt(startedAt, timeLimit).Some?
    ensures r.Some? ==> (r.value == 0 <==> now >= QuizController.ExpiresAt(startedAt, timeLimit).value)
    ensures r.Some? && startedAt <= now ==> r.value <= 60 * timeLimit.value
  {
    match QuizController.ExpiresAt(startedAt, timeLimit)
    case None => None
    case Some(expiresAt) => Some(Max(0, expiresAt - now) as nat)
  }

  /** The clock runs down: a session starts with its whole limit, loses one
      second per second, and stays at 0 once expired. */
  lemma TimeRunsDown(startedAt: int, limit: nat, t1: int, t2: int)
    requires limit > 0 && t1 <= t2
    ensures TimeRemaining(startedAt, Some(limit), startedAt) == Some(60 * limit)
    ensures TimeRemaining(startedAt, Some(limit), t2).value <= TimeRemaining(startedAt, Some(limit), t1).value
    ensures t2 <= startedAt + 60 * limit ==>
              TimeRemaining(startedAt, Some(limit), t1).value - TimeRemaining(startedAt, Some(limit), t2).value == t2 - t1
  {
  }

  /** `answered_questions`: the question of every answer, in order. */
  function AnsweredIds(log: seq<AnswerRecord>): (ids: seq<QuestionId>)
    ensures |ids| == |log|
    ensures forall i :: 0 <= i < |log| ==> ids[i] == log[i].questionId
  {
    seq(|log|, i requires 0 <= i < |log| => log[i].questionId)
  }

  /** `bookmarked_questions`: the questions of the bookmarked answers. */
  function BookmarkedIds(log: seq<AnswerRecord>): (ids: seq<QuestionId>)
    ensures |ids| <= |log|
    ensures forall x :: x in ids <==> exists i :: 0 <= i < |log| && log[i].isBookmarked && log[i].questionId == x
  {
    if log == [] then []
    else
      var rest := BookmarkedIds(log[1..]);
      assert forall i :: 0 < i < |log| ==> log[i] == log[1..][i - 1];
      (if log[0].isBookmarked then [log[0].questionId] else []) + rest
  }

  /** The data of `show`. */
  datatype SessionView = SessionView(
    sessionId: SessionId,
    status: Status,
    currentQuestionNumber: nat,
    totalQuestions: nat,
    timeRemaining: Option<nat>,
    score: nat,
    currentQuestion: Option<QuestionView>,
    answeredQuestions: seq<QuestionId>,
    bookmarkedQuestions: seq<QuestionId>)

  /** The view `show` renders of a session row and its answers: the
      question due next is number answers + 1, served while that number
      does not pass the session's question count. */
  function ViewOf(c: Catalog, sid: SessionId, s: Session, log: seq<AnswerRecord>, now: int): (v: SessionView)
    requires s.quizId in c.quizzes && QuizOk(c, c.quizzes[s.quizId])
    ensures v.currentQuestion.Some? <==> |log| < s.totalQuestions && |log| < |c.quizzes[s.quizId].links|
    ensures v.currentQuestion.Some? ==> v.currentQuestion.value.number == v.currentQuestionNumber
    ensures |v.answeredQuestions| == |log|
  {
    var quiz := c.quizzes[s.quizId];
    var number := |log| + 1;
    var current := if number <= s.totalQuestions then QuestionAt(c, quiz, |log|) else None;
    SessionView(sid, s.status, number, s.totalQuestions, TimeRemaining(s.startedAt, quiz.timeLimit, now),
                s.score, current, AnsweredIds(log), BookmarkedIds(log))
  }

  /** What `show` tells the owner of a consistent session: the score is ten
      points per correct answer, the current question is the next one in
      order_number order while answers and attached questions remain, every
      answered question belongs to the quiz and appears once, and every
      bookmarked question is an answered one. */
  lemma ViewSpec(c: Catalog, sid: SessionId, s: Session, log: seq<AnswerRecord>, now: int)
    requires CatalogOk(c) && SessionOk(c, s, log)
    ensures var quiz := c.quizzes[s.quizId];
            var v := ViewOf(c, sid, s, log, now);
            && v.sessionId == sid && v.status == s.status && v.totalQuestions == s.totalQuestions
            && v.score == 10 * CorrectCount(log)
            && v.currentQuestionNumber == |log| + 1
            && (v.currentQuestion.Some? <==> |log| < s.totalQuestions && |log| < |quiz.links|)
            && (v.currentQuestion.Some? ==>
                  v.currentQuestion.value.number == v.currentQuestionNumber &&
                  v.currentQuestion.value.id == quiz.links[|log|].questionId)
            && v.timeRemaining == TimeRemaining(s.startedAt, quiz.timeLimit, now)
            && |v.answeredQuestions| == |log|
            && (forall i, j :: 0 <= i < j < |v.answeredQuestions| ==> v.answeredQuestions[i] != v.answeredQuestions[j])
            && (forall x :: x in v.answeredQuestions ==> HasQuestion(quiz, x))
            && (forall x :: x in v.bookmarkedQuestions ==> x in v.answeredQuestions)
  {
    var v := ViewOf(c, sid, s, log, now);
    forall x | x in v.bookmarkedQuestions ensures x in v.answeredQuestions {
      var i :| 0 <= i < |log| && log[i].isBookmarked && log[i].questionId == x;
      assert v.answeredQuestions[i] == x;
    }
    forall x | x in v.answeredQuestions ensures HasQuestion(c.quizzes[s.quizId], x) {
      var i :| 0 <= i < |v.answeredQuestions| && v.answeredQuestions[i] == x;
      assert log[i].questionId == x;
    }
  }

  /** `show`: refused to anyone but the owner; otherwise the session's view. */
  function Show(db: Database, sid: SessionId, user: UserId, now: int): (r: Result<SessionView>)
    reads db
    requires db.Valid() && sid in db.sessions
    ensures r.Err? <==> db.sessions[sid].userId != user
    ensures r.Err? ==> r.error == Forbidden
    ensures r.Ok? ==> SessionOk(db.catalog, db.sessions[sid], db.answers[sid])
    ensures r.Ok? ==> r.value == ViewOf(db.catalog, sid, db.sessions[sid], db.answers[sid], now)
  {
    var s := db.sessions[sid];
    if s.userId != user then Err(Forbidden)
    else
      assert SessionOk(db.catalog, s, db.answers[sid]);
      Ok(ViewOf(db.catalog, sid, s, db.answers[sid], now))
  }

  // -------------------------------------------------------- submitAnswer

  const PointsPerCorrect: nat := 10

  /** The request rules of `submitAnswer`: the question exists, the answer
      is one of the upper-case letters A-D (the `in:` rule compares
      strictly), and a given time_taken is a non-negative integer. */
  predicate ValidInput(c: Catalog, questionId: QuestionId, selected: string, timeTaken: Option<int>) {
    questionId in c.questions && IsLetter(selected) && (timeTaken.None? || timeTaken.value >= 0)
  }

  /** The session already holds an answer to the question. */
  predicate Answered(log: seq<AnswerRecord>, questionId: QuestionId) {
    exists i :: 0 <= i < |log| && log[i].questionId == questionId
  }

  /** The data of a successful `submitAnswer`. */
  datatype AnswerOutcome = AnswerOutcome(
    isCorrect: bool,
    correctAnswer: string,
    explanation: Option<string>,
    pointsEarned: nat,
    currentScore: nat,
    nextQuestion: Option<QuestionView>,
    isCompleted: bool)

  /** Appending a valid, first answer to a question of the quiz keeps a
      session in agreement with its log once the row is updated as an
      answer updates it. */
  lemma AppendAnswerOk(c: Catalog, s: Session, log: seq<AnswerRecord>, record: AnswerRecord, now: int)
    requires SessionOk(c, s, log) && s.status == InProgress
    requires record.questionId in c.questions && HasQuestion(c.quizzes[s.quizId], record.questionId)
    requires IsLetter(record.selectedAnswer)
    requires record.isCorrect == IsCorrectAnswer(c.questions[record.questionId], record.selectedAnswer)
    requires !Answered(log, record.questionId)
    ensures SessionOk(c, AfterAnswer(s, record.isCorrect, |log| + 1, now), log + [record])
  {
    var log' := log + [record];
    CorrectCountAppend(log, record);
    assert forall i :: 0 <= i < |log| ==> log'[i] == log[i];
  }

  /** The progression write at completion: the experience award and the
      level raise, as successive updates of the user row. */
  method AwardExperience(db: Database, owner: UserId, correct: nat, total: nat) returns (oldLevel: nat, newLevel: nat)
    requires owner in db.users
    modifies db
    ensures db.users == old(db.users)[owner := Award(old(db.users[owner]), correct, total)]
    ensures db.sessions == old(db.sessions) && db.answers == old(db.answers)
    ensures db.nextSessionId == old(db.nextSessionId)
    ensures oldLevel == old(db.users[owner].level)
    ensures newLevel == CalculateLevel(db.users[owner].experiencePoints)
    ensures newLevel > oldLevel <==> LevelUp(old(db.users[owner]), correct, total)
  {
    var p := db.users[owner];
    oldLevel := p.level;
    var gained := ExperienceGained(correct, total);
    db.users := db.users[owner := p.(experiencePoints := p.experiencePoints + gained)];
    newLevel := CalculateLevel(db.users[owner].experiencePoints);
    if newLevel > db.users[owner].level {
      db.users := db.users[owner := db.users[owner].(level := newLevel)];
    }
  }

  /** The streak write at completion through the last answer. */
  method UpdateDailyStreak(db: Database, owner: UserId, today: int)
    requires owner in db.users
    modifies db
    ensures db.users == old(db.users)[owner := UpdateStreak(old(db.users[owner]), today)]
    ensures db.sessions == old(db.sessions) && db.answers == old(db.answers)
    ensures db.nextSessionId == old(db.nextSessionId)
  {
    var p := db.users[owner];
    if p.lastQuizDate.None? || p.lastQuizDate.value != today {
      if p.lastQuizDate.Some? && p.lastQuizDate.value == today - 1 {
        db.users := db.users[owner := p.(dailyStreak := p.dailyStreak + 1)];
      } else {
        db.users := db.users[owner := p.(dailyStreak := 1)];
      }
      db.users := db.users[owner := db.users[owner].(lastQuizDate := Some(today))];
    }
  }

  /** The question is attached to the session's quiz. */
  predicate InQuiz(c: Catalog, s: Session, questionId: QuestionId) {
    s.quizId in c.quizzes && HasQuestion(c.quizzes[s.quizId], questionId)
  }

  /** The `user_answers` row `submitAnswer` writes: the answer upper-cased
      with its verdict, 0 seconds and no bookmark unless given. The stored
      verdict is the verdict on the stored answer, and a valid answer is
      stored as given. */
  function NewAnswer(q: Question, questionId: QuestionId, selected: string,
                     timeTaken: Option<int>, bookmarked: Option<bool>): (a: AnswerRecord)
    requires timeTaken.None? || timeTaken.value >= 0
    ensures a.questionId == questionId
    ensures a.isCorrect == IsCorrectAnswer(q, selected) == IsCorrectAnswer(q, a.selectedAnswer)
    ensures IsLetter(selected) ==> a.selectedAnswer == selected
    ensures a.timeTaken == (if timeTaken.Some? then timeTaken.value else 0)
    ensures a.isBookmarked == (bookmarked.Some? && bookmarked.value)
  {
    VerdictIgnoresCase(q, selected);
    LettersAreUpper(selected);
    AnswerRecord(questionId, ToUpper(selected), IsCorrectAnswer(q, selected), timeTaken.GetOr(0) as nat, bookmarked.GetOr(false))
  }

  /** The session row after one more answer: ten points and one correct
      answer more when it is correct, and completed now once the answers
      reach the session's question count. */
  function AfterAnswer(s: Session, correct: bool, answered: nat, now: int): (s': Session)
    ensures s'.userId == s.userId && s'.quizId == s.quizId && s'.totalQuestions == s.totalQuestions
    ensures s'.score == s.score + (if correct then PointsPerCorrect else 0)
    ensures s'.correctAnswers == s.correctAnswers + (if correct then 1 else 0)
    ensures s'.status == (if answered >= s.totalQuestions then Completed else s.status)
    ensures s'.completedAt == (if answered >= s.totalQuestions then Some(now) else s.completedAt)
    ensures s'.startedAt == s.startedAt && s'.timeTaken == s.timeTaken
  {
    var scored := s.(score := s.score + (if correct then PointsPerCorrect else 0),
                     correctAnswers := s.correctAnswers + (if correct then 1 else 0));
    if answered >= s.totalQuestions then scored.(status := Completed, completedAt := Some(now)) else scored
  }

  /** The answer and session rows of an accepted answer keep the invariant
      once the new row agrees with the longer log. */
  lemma RecordedAnswerKeepsOk(c: Catalog, sessions: map<SessionId, Session>,
                              answers: map<SessionId, seq<AnswerRecord>>,
                              users: map<UserId, UserProgress>, next: SessionId,
                              sid: SessionId, a: AnswerRecord, now: int)
    requires StoreOk(c, sessions, answers, users, next)
    requires sid in sessions && sessions[sid].status == InProgress
    requires SessionOk(c, AfterAnswer(sessions[sid], a.isCorrect, |answers[sid]| + 1, now), answers[sid] + [a])
    ensures StoreOk(c, sessions[sid := AfterAnswer(sessions[sid], a.isCorrect, |answers[sid]| + 1, now)],
                    answers[sid := answers[sid] + [a]], users, next)
  {
    RewriteActiveKeepsOk(c, sessions, answers, users, next, sid,
                         AfterAnswer(sessions[sid], a.isCorrect, |answers[sid]| + 1, now), answers[sid] + [a]);
  }

  /** An accepted answer keeps the invariant: the new row agrees with the
      longer log, and when the answer completes the session, so does the
      award and streak update of the owner. */
  lemma AcceptedAnswerKeepsOk(c: Catalog, sessions: map<SessionId, Session>,
                              answers: map<SessionId, seq<AnswerRecord>>,
                              users: map<UserId, UserProgress>, next: SessionId,
                              sid: SessionId, a: AnswerRecord, now: int, today: int,
                              sessions': map<SessionId, Session>,
                              answers': map<SessionId, seq<AnswerRecord>>,
                              users': map<UserId, UserProgress>)
    requires StoreOk(c, sessions, answers, users, next)
    requires sid in sessions && sessions[sid].status == InProgress && sessions[sid].userId in users
    requires a.questionId in c.questions && InQuiz(c, sessions[sid], a.questionId)
    requires !Answered(answers[sid], a.questionId)
    requires IsLetter(a.selectedAnswer) && a.isCorrect == IsCorrectAnswer(c.questions[a.questionId], a.selectedAnswer)
    requires var s' := AfterAnswer(sessions[sid], a.isCorrect, |answers[sid]| + 1, now);
             var u := sessions[sid].userId;
             && sessions' == sessions[sid := s']
             && answers' == answers[sid := answers[sid] + [a]]
             && users' == if s'.status == Completed
                          then users[u := UpdateStreak(Award(users[u], s'.correctAnswers, s'.totalQuestions), today)]
                          else users
    ensures StoreOk(c, sessions', answers', users', next)
  {
    var s, log := sessions[sid], answers[sid];
    var s' := AfterAnswer(s, a.isCorrect, |log| + 1, now);
    assert SessionOk(c, s, log);
    AppendAnswerOk(c, s, log, a, now);
    RecordedAnswerKeepsOk(c, sessions, answers, users, next, sid, a, now);
    if s'.status == Completed {
      UserWriteKeepsOk(c, sessions', answers', users, next,
                       s.userId, UpdateStreak(Award(users[s.userId], s'.correctAnswers, s'.totalQuestions), today));
    }
  }

  /** What an accepted answer does to the store's rows: the answer row
      and the session row of `AfterAnswer`, then the award and streak of
      the owner when the answer completes the session; with the response
      it returns, whose next question is the next link in order. */
  ghost predicate AnswerEffect(c: Catalog, sid: SessionId, user: UserId, questionId: QuestionId, selected: string,
                               timeTaken: Option<int>, bookmarked: Option<bool>, now: int, today: int,
                               sessions: map<SessionId, Session>, answers: map<SessionId, seq<AnswerRecord>>,
                               users: map<UserId, UserProgress>,
                               sessions': map<SessionId, Session>, answers': map<SessionId, seq<AnswerRecord>>,
                               users': map<UserId, UserProgress>, outcome: AnswerOutcome)
  {
    && sid in sessions && sid in answers && user in users
    && ValidInput(c, questionId, selected, timeTaken)
    && sessions[sid].quizId in c.quizzes && QuizOk(c, c.quizzes[sessions[sid].quizId])
    && (var s, log := sessions[sid], answers[sid];
        var q := c.questions[questionId];
        var a := NewAnswer(q, questionId, selected, timeTaken, bookmarked);
        var s' := AfterAnswer(s, a.isCorrect, |log| + 1, now);
        var done := s'.status == Completed;
        && answers' == answers[sid := log + [a]]
        && sessions' == sessions[sid := s']
        && users' == (if done then users[user := UpdateStreak(Award(users[user], s'.correctAnswers, s.totalQuestions), today)]
                      else users)
        && outcome == AnswerOutcome(a.isCorrect, q.correctAnswer, q.explanation,
                                    if a.isCorrect then PointsPerCorrect else 0, s'.score,
                                    if done then None else QuestionAt(c, c.quizzes[s.quizId], |log| + 1),
                                    done))
  }

  /** The session writes of an accepted answer, in the order `submitAnswer`
      makes them: the answer row, the score increment, the correct-answer
      increment when it is correct, and `markAsCompleted` once the answers
      reach the session's question count. */
  method RecordAnswer(db: Database, sid: SessionId, q: Question, questionId: QuestionId, selected: string,
                      timeTaken: Option<int>, bookmarked: Option<bool>, now: int)
    returns (correct: bool, done: bool)
    requires sid in db.sessions && sid in db.answers && db.sessions[sid].status == InProgress
    requires timeTaken.None? || timeTaken.value >= 0
    modifies db
    ensures var a := NewAnswer(q, questionId, selected, timeTaken, bookmarked);
            var s' := AfterAnswer(old(db.sessions[sid]), a.isCorrect, |old(db.answers[sid])| + 1, now);
            && db.answers == old(db.answers)[sid := old(db.answers[sid]) + [a]]
            && db.sessions == old(db.sessions)[sid := s']
            && correct == a.isCorrect
            && done == (s'.status == Completed)
            && done == (|old(db.answers[sid])| + 1 >= old(db.sessions[sid].totalQuestions))
    ensures db.users == old(db.users) && db.nextSessionId == old(db.nextSessionId)
  {
    var s := db.sessions[sid];
    var log := db.answers[sid];
    correct := IsCorrectAnswer(q, selected);
    var a := NewAnswer(q, questionId, selected, timeTaken, bookmarked);
    db.answers := db.answers[sid := log + [a]];
    var row := s.(score := s.score + if correct then PointsPerCorrect else 0);
    if correct {
      row := row.(correctAnswers := row.correctAnswers + 1);
    }
    db.sessions := db.sessions[sid := row];
    done := |log| + 1 >= s.totalQuestions;
    if done {
      db.MarkAsCompleted(sid, now);
      UpdateTwice(old(db.sessions), sid, row, AfterAnswer(s, correct, |log| + 1, now));
    }
  }

  /** The user writes of a completion through the last answer: the
      experience award, then the streak. */
  method AwardCompletion(db: Database, owner: UserId, correct: nat, total: nat, today: int)
    requires owner in db.users
    modifies db
    ensures db.users == old(db.users)[owner := UpdateStreak(Award(old(db.users[owner]), correct, total), today)]
    ensures db.sessions == old(db.sessions) && db.answers == old(db.answers)
    ensures db.nextSessionId == old(db.nextSessionId)
  {
    var p := db.users[owner];
    var _, _ := AwardExperience(db, owner, correct, total);
    UpdateDailyStreak(db, owner, today);
    UpdateTwice(old(db.users), owner, Award(p, correct, total), UpdateStreak(Award(p, correct, total), today));
  }

  /** The writes of an accepted answer, in the order `submitAnswer` makes
      them: the answer and session rows, then the award and streak when the
      session completes; and the response. */
  method ApplyAnswer(db: Database, sid: SessionId, user: UserId, questionId: QuestionId, selected: string,
                     timeTaken: Option<int>, bookmarked: Option<bool>, now: int, today: int)
    returns (outcome: AnswerOutcome)
    requires sid in db.sessions && sid in db.answers && user in db.users
    requires db.sessions[sid].status == InProgress
    requires ValidInput(db.catalog, questionId, selected, timeTaken)
    requires db.sessions[sid].quizId in db.catalog.quizzes && QuizOk(db.catalog, db.catalog.quizzes[db.sessions[sid].quizId])
    modifies db
    ensures AnswerEffect(db.catalog, sid, user, questionId, selected, timeTaken, bookmarked, now, today,
                         old(db.sessions), old(db.answers), old(db.users), db.sessions, db.answers, db.users, outcome)
    ensures db.nextSessionId == old(db.nextSessionId)
  {
    var s := db.sessions[sid];
    var q := db.catalog.questions[questionId];
    var quiz := db.catalog.quizzes[s.quizId];
    var log := db.answers[sid];
    var correct, done := RecordAnswer(db, sid, q, questionId, selected, timeTaken, bookmarked, now);
    var s' := db.sessions[sid];
    var next := None;
    if done {
      AwardCompletion(db, user, s'.correctAnswers, s'.totalQuestions, today);
    } else {
      next := QuestionAt(db.catalog, quiz, |log| + 1);
    }
    outcome := AnswerOutcome(correct, q.correctAnswer, q.explanation, if correct then PointsPerCorrect else 0,
                             s'.score, next, done);
  }

  /** The accepted path of `submitAnswer`, once every check has passed:
      the writes keep the store's invariant. */
  method AcceptAnswer(db: Database, sid: SessionId, user: UserId, questionId: QuestionId, selected: string,
                      timeTaken: Option<int>, bookmarked: Option<bool>, now: int, today: int)
    returns (outcome: AnswerOutcome)
    requires db.Valid() && sid in db.sessions && user in db.users
    requires db.sessions[sid].userId == user && db.sessions[sid].status == InProgress
    requires ValidInput(db.catalog, questionId, selected, timeTaken)
    requires InQuiz(db.catalog, db.sessions[sid], questionId) && !Answered(db.answers[sid], questionId)
    modifies db
    ensures db.Valid()
    ensures AnswerEffect(db.catalog, sid, user, questionId, selected, timeTaken, bookmarked, now, today,
                         old(db.sessions), old(db.answers), old(db.users), db.sessions, db.answers, db.users, outcome)
    ensures db.nextSessionId == old(db.nextSessionId)
  {
    ghost var sessions, answers, users := db.sessions, db.answers, db.users;
    assert SessionOk(db.catalog, sessions[sid], answers[sid]);
    outcome := ApplyAnswer(db, sid, user, questionId, selected, timeTaken, bookmarked, now, today);
    AcceptedAnswerKeepsOk(db.catalog, sessions, answers, users, db.nextSessionId, sid,
                          NewAnswer(db.catalog.questions[questionId], questionId, selected, timeTaken, bookmarked), now, today,
                          db.sessions, db.answers, db.users);
  }

  /** `submitAnswer`: refuses, in this order, another user's session, a
      session no longer in progress, a request that breaks the rules, a
      question not attached to the quiz and a question answered before,
      changing nothing; otherwise records the answer, and completes the
      session, awards experience and counts the streak when the answers
      reach the session's question count. */
  method SubmitAnswer(db: Database, sid: SessionId, user: UserId, questionId: QuestionId, selected: string,
                      timeTaken: Option<int>, bookmarked: Option<bool>, now: int, today: int)
    returns (r: Result<AnswerOutcome>)
    requires db.Valid() && sid in db.sessions && user in db.users
    modifies db
    ensures db.Valid()
    ensures r.Ok? <==> old(db.sessions[sid].userId) == user && old(db.sessions[sid].status) == InProgress &&
                       ValidInput(db.catalog, questionId, selected, timeTaken) &&
                       InQuiz(db.catalog, old(db.sessions[sid]), questionId) && !Answered(old(db.answers[sid]), questionId)
    ensures old(db.sessions[sid].userId) != user ==> r == Err(Forbidden)
    ensures old(db.sessions[sid].userId) == user && old(db.sessions[sid].status) != InProgress ==>
              r == Err(NotActive)
    ensures old(db.sessions[sid].userId) == user && old(db.sessions[sid].status) == InProgress &&
            !ValidInput(db.catalog, questionId, selected, timeTaken) ==>
              r == Err(ValidationFailed)
    ensures old(db.sessions[sid].userId) == user && old(db.sessions[sid].status) == InProgress &&
            ValidInput(db.catalog, questionId, selected, timeTaken) &&
            !InQuiz(db.catalog, old(db.sessions[sid]), questionId) ==>
              r == Err(NotInQuiz)
    ensures old(db.sessions[sid].userId) == user && old(db.sessions[sid].status) == InProgress &&
            ValidInput(db.catalog, questionId, selected, timeTaken) &&
            InQuiz(db.catalog, old(db.sessions[sid]), questionId) && Answered(old(db.answers[sid]), questionId) ==>
              r == Err(AlreadyAnswered)
    ensures r.Err? ==> unchanged(db)
    ensures r.Ok? ==>
              && AnswerEffect(db.catalog, sid, user, questionId, selected, timeTaken, bookmarked, now, today,
                              old(db.sessions), old(db.answers), old(db.users), db.sessions, db.answers, db.users, r.value)
              && db.nextSessionId == old(db.nextSessionId)
  {
    var s := db.sessions[sid];
    if s.userId != user {
      return Err(Forbidden);
    }
    if s.status != InProgress {
      return Err(NotActive);
    }
    if !ValidInput(db.catalog, questionId, selected, timeTaken) {
      return Err(ValidationFailed);
    }
    if !InQuiz(db.catalog, s, questionId) {
      return Err(NotInQuiz);
    }
    if Answered(db.answers[sid], questionId) {
      return Err(AlreadyAnswered);
    }
    var outcome := AcceptAnswer(db, sid, user, questionId, selected, timeTaken, bookmarked, now, today);
    r := Ok(outcome);
  }

  /** While the session goes on, the question `submitAnswer` offers next is
      the one `show` then presents as current. */
  lemma NextQuestionIsShown(c: Catalog, sid: SessionId, s: Session, log: seq<AnswerRecord>, a: AnswerRecord, now: int, later: int)
    requires CatalogOk(c) && SessionOk(c, s, log) && s.status == InProgress
    requires AfterAnswer(s, a.isCorrect, |log| + 1, now).status == InProgress
    ensures ViewOf(c, sid, AfterAnswer(s, a.isCorrect, |log| + 1, now), log + [a], later).currentQuestion ==
            QuestionAt(c, c.quizzes[s.quizId], |log| + 1)
    ensures ViewOf(c, sid, AfterAnswer(s, a.isCorrect, |log| + 1, now), log + [a], later).currentQuestionNumber == |log| + 2
  {
  }

  /** Answering the same question twice: the second answer is refused and
      changes nothing, as already answered while the session goes on, and
      as no longer active once the first answer completed it. */
  method AnswerTwice(db: Database, sid: SessionId, user: UserId, questionId: QuestionId,
                     first: string, second: string, now: int, today: int, later: int)
    returns (r1: Result<AnswerOutcome>, r2: Result<AnswerOutcome>)
    requires db.Valid() && sid in db.sessions && user in db.users
    requires IsLetter(second)
    modifies db
    ensures r1.Ok? && !r1.value.isCompleted ==> r2 == Err(AlreadyAnswered)
    ensures r1.Ok? && r1.value.isCompleted ==> r2 == Err(NotActive)
  {
    r1 := SubmitAnswer(db, sid, user, questionId, first, None, None, now, today);
    ghost var log := db.answers[sid];
    if r1.Ok? {
      assert log[|log| - 1].questionId == questionId;
    }
    r2 := SubmitAnswer(db, sid, user, questionId, second, None, None, later, today);
  }

  // -------------------------------------------------------------- submit

  /** `time_taken` of submit: Carbon's diffInSeconds, which is absolute by
      default. */
  function ElapsedSeconds(from: int, to: int): (d: nat)
    ensures from <= to ==> from + d == to
    ensures to <= from ==> to + d == from
  {
    if from <= to then to - from else from - to
  }

  /** The data of a successful `submit`. */
  datatype SubmitOutcome = SubmitOutcome(
    sessionId: SessionId,
    finalScore: nat,
    totalQuestions: nat,
    correctAnswers: nat,
    timeTaken: nat,
    percentage: nat,
    passed: bool,
    experienceGained: nat,
    newLevel: nat,
    levelUp: bool)

  /** The session writes of `submit`: `markAsCompleted`, then the
      elapsed time. */
  method CompleteSession(db: Database, sid: SessionId, now: int, taken: nat)
    requires sid in db.sessions
    modifies db
    ensures db.sessions == old(db.sessions)[sid := old(db.sessions[sid]).(status := Completed, completedAt := Some(now), timeTaken := Some(taken))]
    ensures db.answers == old(db.answers) && db.users == old(db.users) && db.nextSessionId == old(db.nextSessionId)
  {
    db.MarkAsCompleted(sid, now);
    var completed := db.sessions[sid].(timeTaken := Some(taken));
    db.sessions := db.sessions[sid := completed];
    UpdateTwice(old(db.sessions), sid, old(db.sessions[sid]).(status := Completed, completedAt := Some(now)), completed);
  }

  /** `submit`: for the owner of an in-progress session, completes it now
      with its elapsed time, and awards experience (but not the streak).
      The reported level is the one computed from the new experience. */
  method Submit(db: Database, sid: SessionId, user: UserId, now: int) returns (r: Result<SubmitOutcome>)
    requires db.Valid() && sid in db.sessions && user in db.users
    modifies db
    ensures db.Valid()
    ensures old(db.sessions[sid].userId) != user ==> r == Err(Forbidden)
    ensures old(db.sessions[sid].userId) == user && old(db.sessions[sid].status) != InProgress ==>
              r == Err(NotActive)
    ensures r.Ok? <==> old(db.sessions[sid].userId) == user && old(db.sessions[sid].status) == InProgress
    ensures r.Err? ==> unchanged(db)
    ensures r.Ok? ==>
              var s := old(db.sessions[sid]);
              var p := old(db.users[user]);
              var taken := ElapsedSeconds(s.startedAt, now);
              var gained := ExperienceGained(s.correctAnswers, s.totalQuestions);
              && db.sessions == old(db.sessions)[sid := s.(status := Completed, completedAt := Some(now), timeTaken := Some(taken))]
              && db.answers == old(db.answers) && db.nextSessionId == old(db.nextSessionId)
              && db.users == old(db.users)[user := Award(p, s.correctAnswers, s.totalQuestions)]
              && db.users[user].dailyStreak == p.dailyStreak
              && r.value == SubmitOutcome(sid, s.score, s.totalQuestions, s.correctAnswers, taken,
                                          Percentage(s), HasPassed(s, db.catalog.quizzes[s.quizId].passingScore), gained,
                                          CalculateLevel(db.users[user].experiencePoints), LevelUp(p, s.correctAnswers, s.totalQuestions))
              && r.value.finalScore == 10 * r.value.correctAnswers
  {
    var s := db.sessions[sid];
    if s.userId != user {
      return Err(Forbidden);
    }
    if s.status != InProgress {
      return Err(NotActive);
    }
    var taken := ElapsedSeconds(s.startedAt, now);
    CloseAndAwardKeepsOk(db.catalog, db.sessions, db.answers, db.users, db.nextSessionId,
                         sid, s.(status := Completed, completedAt := Some(now), timeTaken := Some(taken)),
                         user, Award(db.users[user], s.correctAnswers, s.totalQuestions));
    assert s.quizId in db.catalog.quizzes by {
      assert SessionOk(db.catalog, s, db.answers[sid]);
    }
    CompleteSession(db, sid, now, taken);
    var quiz := db.catalog.quizzes[s.quizId];
    var percentage := Percentage(s);
    var passed := HasPassed(s, quiz.passingScore);
    var oldLevel, newLevel := AwardExperience(db, user, s.correctAnswers, s.totalQuestions);
    r := Ok(SubmitOutcome(sid, s.score, s.totalQuestions, s.correctAnswers, taken,
                          percentage, passed, ExperienceGained(s.correctAnswers, s.totalQuestions),
                          newLevel, newLevel > oldLevel));
  }

  /** Experience is awarded once per session: after the last answer has
      completed a session, submitting it is refused. */
  method SubmitAfterLastAnswer(db: Database, sid: SessionId, user: UserId, questionId: QuestionId,
                               selected: string, now: int, today: int, later: int)
    returns (answer: Result<AnswerOutcome>, submit: Result<SubmitOutcome>)
    requires db.Valid() && sid in db.sessions && user in db.users
    modifies db
    ensures answer.Ok? && answer.value.isCompleted ==> submit == Err(NotActive)
  {
    answer := SubmitAnswer(db, sid, user, questionId, selected, None, None, now, today);
    submit := Submit(db, sid, user, later);
  }

  // ------------------------------------------------------------- results

  /** `session_summary` (the rank is always null and is not modelled). */
  datatype Summary = Summary(quizTitle: string, finalScore: nat, percentage: nat, timeTaken: Option<nat>)

  /** One entry of `question_analysis`. */
  datatype AnalysisEntry = AnalysisEntry(
    questionId: QuestionId,
    questionText: string,
    selectedAnswer: string,
    correctAnswer: string,
    isCorrect: bool,
    timeTaken: nat,
    explanation: Option<string>,
    isBookmarked: bool)

  /** One entry of `subject_wise_performance`; accuracy is in tenths of a
      percent. */
  datatype SubjectPerformance = SubjectPerformance(
    subjectId: SubjectId, questionsAttempted: nat, correctAnswers: nat, accuracy: nat)

  datatype Report = Report(summary: Summary, analysis: seq<AnalysisEntry>, subjects: seq<SubjectPerformance>)

  /** Each answer beside its question. */
  function Analysis(c: Catalog, log: seq<AnswerRecord>): (r: seq<AnalysisEntry>)
    requires forall i :: 0 <= i < |log| ==> log[i].questionId in c.questions
    ensures |r| == |log|
    ensures forall i :: 0 <= i < |log| ==>
              var q := c.questions[log[i].questionId];
              r[i] == AnalysisEntry(log[i].questionId, q.text, log[i].selectedAnswer, q.correctAnswer,
                                    log[i].isCorrect, log[i].timeTaken, q.explanation, log[i].isBookmarked)
  {
    seq(|log|, i requires 0 <= i < |log| =>
      var q := c.questions[log[i].questionId];
      AnalysisEntry(log[i].questionId, q.text, log[i].selectedAnswer, q.correctAnswer,
                    log[i].isCorrect, log[i].timeTaken, q.explanation, log[i].isBookmarked))
  }

  /** The grouping entries of the subject rollup: the subject of each
      answer's question, and whether the answer was correct. */
  function SubjectEntries(c: Catalog, log: seq<AnswerRecord>): (e: seq<(SubjectId, bool)>)
    requires forall i :: 0 <= i < |log| ==> log[i].questionId in c.questions
    ensures |e| == |log|
    ensures forall i :: 0 <= i < |log| ==> e[i] == (c.questions[log[i].questionId].subjectId, log[i].isCorrect)
  {
    seq(|log|, i requires 0 <= i < |log| => (c.questions[log[i].questionId].subjectId, log[i].isCorrect))
  }

  lemma {:induction false} SubjectEntriesHits(c: Catalog, log: seq<AnswerRecord>)
    requires forall i :: 0 <= i < |log| ==> log[i].questionId in c.questions
    ensures CountHits(SubjectEntries(c, log)) == CorrectCount(log)
  {
    if log != [] {
      var init := log[..|log| - 1];
      SubjectEntriesHits(c, init);
      assert SubjectEntries(c, log)[..|log| - 1] == SubjectEntries(c, init);
    }
  }

  function SumAttempted(r: seq<SubjectPerformance>): nat {
    if r == [] then 0 else r[0].questionsAttempted + SumAttempted(r[1..])
  }

  function SumCorrect(r: seq<SubjectPerformance>): nat {
    if r == [] then 0 else r[0].correctAnswers + SumCorrect(r[1..])
  }

  /** Renders each group as a subject entry with its accuracy. */
  function Performances(groups: seq<Group<SubjectId>>): (r: seq<SubjectPerformance>)
    ensures |r| == |groups|
    ensures forall i :: 0 <= i < |r| ==>
              r[i] == SubjectPerformance(groups[i].key, groups[i].count, groups[i].hits,
                                         RoundedPercent(groups[i].hits, groups[i].count, 10))
    ensures SumAttempted(r) == TotalCount(groups) && SumCorrect(r) == TotalHits(groups)
  {
    if groups == [] then []
    else
      var g := groups[0];
      [SubjectPerformance(g.key, g.count, g.hits, RoundedPercent(g.hits, g.count, 10))] + Performances(groups[1..])
  }

  /** `subject_wise_performance`: one entry per subject answered, in order
      of first appearance. */
  function SubjectRollup(c: Catalog, log: seq<AnswerRecord>): seq<SubjectPerformance>
    requires forall i :: 0 <= i < |log| ==> log[i].questionId in c.questions
  {
    Performances(GroupBy(SubjectEntries(c, log)))
  }

  /** The rollup names each subject once, with at least one attempt, no
      more correct answers than attempts and an accuracy of at most 100.0,
      counts for each subject exactly its answers and correct answers, and
      accounts for every answer and every correct answer of the log. */
  lemma SubjectRollupSpec(c: Catalog, log: seq<AnswerRecord>)
    requires forall i :: 0 <= i < |log| ==> log[i].questionId in c.questions
    ensures var r := SubjectRollup(c, log);
            && (forall i, j :: 0 <= i < j < |r| ==> r[i].subjectId != r[j].subjectId)
            && (forall i :: 0 <= i < |r| ==>
                  && 1 <= r[i].questionsAttempted && r[i].correctAnswers <= r[i].questionsAttempted
                  && r[i].accuracy <= 1000
                  && r[i].questionsAttempted == CountKey(SubjectEntries(c, log), r[i].subjectId)
                  && r[i].correctAnswers == HitsKey(SubjectEntries(c, log), r[i].subjectId))
            && SumAttempted(r) == |log|
            && SumCorrect(r) == CorrectCount(log)
  {
    var entries := SubjectEntries(c, log);
    GroupBySpec(entries);
    SubjectEntriesHits(c, log);
    forall i | 0 <= i < |GroupBy(entries)|
      ensures GroupBy(entries)[i].count == CountKey(entries, GroupBy(entries)[i].key)
      ensures GroupBy(entries)[i].hits == HitsKey(entries, GroupBy(entries)[i].key)
    {
      GroupCounts(entries, i);
    }
  }

  /** The report `results` renders of a session row and its answers. */
  function ReportOf(c: Catalog, s: Session, log: seq<AnswerRecord>): (r: Report)
    requires s.quizId in c.quizzes
    requires forall i :: 0 <= i < |log| ==> log[i].questionId in c.questions
    ensures |r.analysis| == |log|
    ensures forall i :: 0 <= i < |log| ==> r.analysis[i].isCorrect == log[i].isCorrect
    ensures s.correctAnswers <= s.totalQuestions ==> r.summary.percentage <= 10000
  {
    Report(Summary(c.quizzes[s.quizId].title, s.score, Percentage(s), s.timeTaken),
           Analysis(c, log), SubjectRollup(c, log))
  }

  /** What `results` tells the owner of a consistent session: the
      per-subject rollup adds up to the session's answers, its correct
      answers and its score; the percentage is the session's; and each
      analysed answer is marked correct exactly when it is the key. */
  lemma ReportSpec(c: Catalog, s: Session, log: seq<AnswerRecord>)
    requires CatalogOk(c) && SessionOk(c, s, log)
    ensures var rep := ReportOf(c, s, log);
            && SumAttempted(rep.subjects) == |log|
            && SumCorrect(rep.subjects) == s.correctAnswers
            && rep.summary.finalScore == 10 * SumCorrect(rep.subjects)
            && rep.summary.percentage == Percentage(s)
            && |rep.analysis| == |log|
            && (forall i :: 0 <= i < |log| ==>
                  && rep.analysis[i].questionId == log[i].questionId
                  && (rep.analysis[i].isCorrect <==> rep.analysis[i].selectedAnswer == rep.analysis[i].correctAnswer))
  {
    SubjectRollupSpec(c, log);
    var analysis := Analysis(c, log);
    forall i | 0 <= i < |log|
      ensures analysis[i].isCorrect <==> analysis[i].selectedAnswer == analysis[i].correctAnswer
    {
      ExactlyOneLetterCorrect(c.questions[log[i].questionId], log[i].selectedAnswer);
    }
  }

  /** `results`: refused to anyone but the owner; otherwise the report. */
  function Results(db: Database, sid: SessionId, user: UserId): (r: Result<Report>)
    reads db
    requires db.Valid() && sid in db.sessions
    ensures r.Err? <==> db.sessions[sid].userId != user
    ensures r.Err? ==> r.error == Forbidden
    ensures r.Ok? ==> SessionOk(db.catalog, db.sessions[sid], db.answers[sid])
    ensures r.Ok? ==> r.value == ReportOf(db.catalog, db.sessions[sid], db.answers[sid])
  {
    var s := db.sessions[sid];
    if s.userId != user then Err(Forbidden)
    else
      assert SessionOk(db.catalog, s, db.answers[sid]);
      Ok(ReportOf(db.catalog, s, db.answers[sid]))
  }
}
