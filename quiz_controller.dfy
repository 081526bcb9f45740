/** The quiz endpoints the session engine starts from: the difficulty and
    subject tallies of a quiz's details, the expiry of a session, and
    `start`, which opens a session unless one is already in progress. */
module QuizController {
  import opened Common
  import opened QuestionModel
  import opened QuizCatalog
  import opened QuizSessionModel
  import opened Progression
  import opened Grouping
  import opened Store

  /** The questions attached to a quiz, in order_number order. */
  function AttachedQuestions(c: Catalog, quiz: Quiz): (qs: seq<Question>)
    requires QuizOk(c, quiz)
    ensures |qs| == |quiz.links|
    ensures forall i :: 0 <= i < |qs| ==> qs[i] == c.questions[quiz.links[i].questionId]
  {
    seq(|quiz.links|, i requires 0 <= i < |quiz.links| => c.questions[quiz.links[i].questionId])
  }

  /** How many of the questions have difficulty d. */
  function CountDifficulty(qs: seq<Question>, d: Difficulty): (n: nat)
    ensures n <= |qs|
    ensures n == 0 <==> forall i :: 0 <= i < |qs| ==> qs[i].difficulty != d
  {
    if qs == [] then 0
    else CountDifficulty(qs[..|qs| - 1], d) + (if qs[|qs| - 1].difficulty == d then 1 else 0)
  }

  /** The three difficulties split the questions between them. */
  lemma {:induction false} DifficultiesPartition(qs: seq<Question>)
    ensures CountDifficulty(qs, Basic) + CountDifficulty(qs, Intermediate) + CountDifficulty(qs, Advanced) == |qs|
  {
    if qs != [] {
      DifficultiesPartition(qs[..|qs| - 1]);
    }
  }

  /** The `difficulty_distribution` of a quiz. */
  datatype DifficultyDistribution = DifficultyDistribution(basic: nat, intermediate: nat, advanced: nat)

  function Distribution(qs: seq<Question>): (r: DifficultyDistribution)
    ensures r.basic + r.intermediate + r.advanced == |qs|
    ensures r.basic == CountDifficulty(qs, Basic)
    ensures r.intermediate == CountDifficulty(qs, Intermediate)
    ensures r.advanced == CountDifficulty(qs, Advanced)
  {
    DifficultiesPartition(qs);
    DifficultyDistribution(CountDifficulty(qs, Basic), CountDifficulty(qs, Intermediate), CountDifficulty(qs, Advanced))
  }

  /** One entry of the `subjects` list: a subject and how many of the
      quiz's questions belong to it. */
  datatype SubjectCount = SubjectCount(id: SubjectId, questionsCount: nat)

  /** How many of the questions belong to subject id. */
  function CountSubject(qs: seq<Question>, id: SubjectId): nat {
    if qs == [] then 0
    else CountSubject(qs[..|qs| - 1], id) + (if qs[|qs| - 1].subjectId == id then 1 else 0)
  }

  /** The grouping entries of the subject tally: the subject of each question. */
  function SubjectKeys(qs: seq<Question>): (e: seq<(SubjectId, bool)>)
    ensures |e| == |qs| && forall i :: 0 <= i < |qs| ==> e[i] == (qs[i].subjectId, false)
  {
    seq(|qs|, i requires 0 <= i < |qs| => (qs[i].subjectId, false))
  }

  lemma {:induction false} SubjectKeysCount(qs: seq<Question>, id: SubjectId)
    ensures CountKey(SubjectKeys(qs), id) == CountSubject(qs, id)
  {
    if qs != [] {
      SubjectKeysCount(qs[..|qs| - 1], id);
      assert SubjectKeys(qs)[..|qs| - 1] == SubjectKeys(qs[..|qs| - 1]);
    }
  }

  function SumQuestions(r: seq<SubjectCount>): nat {
    if r == [] then 0 else r[0].questionsCount + SumQuestions(r[1..])
  }

  /** Renders each group as a subject entry. */
  function SubjectCounts(groups: seq<Group<SubjectId>>): (r: seq<SubjectCount>)
    ensures |r| == |groups|
    ensures forall i :: 0 <= i < |r| ==> r[i] == SubjectCount(groups[i].key, groups[i].count)
    ensures SumQuestions(r) == TotalCount(groups)
  {
    if groups == [] then []
    else [SubjectCount(groups[0].key, groups[0].count)] + SubjectCounts(groups[1..])
  }

  /** The `subjects` list: one entry per subject among the questions, in
      order of first appearance. */
  function SubjectTally(qs: seq<Question>): seq<SubjectCount> {
    SubjectCounts(GroupBy(SubjectKeys(qs)))
  }

  /** The subject tally names every subject of the quiz once, counts for
      each exactly its questions, and so accounts for every question. */
  lemma SubjectTallySpec(qs: seq<Question>)
    ensures forall i, j :: 0 <= i < j < |SubjectTally(qs)| ==> SubjectTally(qs)[i].id != SubjectTally(qs)[j].id
    ensures forall i :: 0 <= i < |SubjectTally(qs)| ==>
              SubjectTally(qs)[i].questionsCount == CountSubject(qs, SubjectTally(qs)[i].id) >= 1
    ensures forall k :: 0 <= k < |qs| ==> exists i :: 0 <= i < |SubjectTally(qs)| && SubjectTally(qs)[i].id == qs[k].subjectId
    ensures SumQuestions(SubjectTally(qs)) == |qs|
  {
    var entries := SubjectKeys(qs);
    var groups := GroupBy(entries);
    var r := SubjectTally(qs);
    GroupBySpec(entries);
    forall i | 0 <= i < |r| ensures r[i].questionsCount == CountSubject(qs, r[i].id) >= 1 {
      GroupCounts(entries, i);
      SubjectKeysCount(qs, r[i].id);
    }
    forall k | 0 <= k < |qs| ensures exists i :: 0 <= i < |r| && r[i].id == qs[k].subjectId {
      GroupByCovers(entries, k);
      var j :| 0 <= j < |groups| && groups[j].key == entries[k].0;
      assert r[j].id == qs[k].subjectId;
    }
  }

  /** The tallies of the quiz details. */
  datatype QuizDetails = QuizDetails(distribution: DifficultyDistribution, subjects: seq<SubjectCount>)

  /** The tallies `show` computes over the quiz's attached questions: both
      account for every attached question, and every attached question's
      subject is listed. */
  function Details(c: Catalog, quiz: Quiz): (d: QuizDetails)
    requires QuizOk(c, quiz)
    ensures d.distribution.basic + d.distribution.intermediate + d.distribution.advanced == |quiz.links|
    ensures SumQuestions(d.subjects) == |quiz.links|
    ensures forall k :: 0 <= k < |quiz.links| ==>
              exists i :: 0 <= i < |d.subjects| && d.subjects[i].id == c.questions[quiz.links[k].questionId].subjectId
  {
    var qs := AttachedQuestions(c, quiz);
    SubjectTallySpec(qs);
    QuizDetails(Distribution(qs), SubjectTally(qs))
  }

  /** `expires_at`: the start plus the quiz's time limit in minutes; none
      when the quiz has no limit, or a limit of 0 (which PHP reads as
      false). */
  function ExpiresAt(startedAt: int, timeLimit: Option<nat>): (r: Option<int>)
    ensures r.Some? <==> timeLimit.Some? && timeLimit.value > 0
    ensures r.Some? ==> r.value > startedAt && r.value - startedAt == 60 * timeLimit.value
  {
    if timeLimit.Some? && timeLimit.value > 0 then Some(startedAt + 60 * timeLimit.value) else None
  }

  /** The row `start` creates: in progress, no score yet, the quiz's
      question count, started now. */
  function NewSession(user: UserId, quizId: QuizId, quiz: Quiz, now: int): Session {
    Session(user, quizId, InProgress, 0, quiz.totalQuestions, 0, None, now, None)
  }

  /** The data of a successful `start`. */
  datatype StartResult = StartResult(
    sessionId: SessionId,
    title: string,
    startedAt: int,
    expiresAt: Option<int>,
    firstQuestion: Option<QuestionView>)

  /** Adding a new in-progress session, with no answers yet, under a fresh
      id keeps the invariant when its user is known and has no session of
      that quiz in progress. */
  lemma OpenSessionKeepsOk(c: Catalog, sessions: map<SessionId, Session>,
                           answers: map<SessionId, seq<AnswerRecord>>,
                           users: map<UserId, UserProgress>, next: SessionId, s: Session)
    requires StoreOk(c, sessions, answers, users, next)
    requires s.quizId in c.quizzes && s.userId in users
    requires s.status == InProgress && s.score == 0 && s.correctAnswers == 0
    requires !HasActiveSession(sessions, s.userId, s.quizId)
    ensures StoreOk(c, sessions[next := s], answers[next := []], users, next + 1)
    ensures IsActiveFor(sessions[next := s][next], s.userId, s.quizId)
  {
    assert SessionOk(c, s, []);
    SessionsOkUpdate(c, sessions, answers, next, s, []);
    OneActiveUpdate(sessions, next, s);
  }

  /** The session row `start` creates, under the next free id. */
  method OpenSession(db: Database, user: UserId, quizId: QuizId, now: int) returns (id: SessionId)
    requires db.Valid()
    requires user in db.users && quizId in db.catalog.quizzes
    requires !HasActiveSession(db.sessions, user, quizId)
    modifies db
    ensures db.Valid()
    ensures id !in old(db.sessions)
    ensures db.sessions == old(db.sessions)[id := NewSession(user, quizId, db.catalog.quizzes[quizId], now)]
    ensures db.answers == old(db.answers)[id := []]
    ensures db.users == old(db.users)
    ensures HasActiveSession(db.sessions, user, quizId)
  {
    id := db.nextSessionId;
    var s := NewSession(user, quizId, db.catalog.quizzes[quizId], now);
    OpenSessionKeepsOk(db.catalog, db.sessions, db.answers, db.users, id, s);
    db.sessions, db.answers, db.nextSessionId := db.sessions[id := s], db.answers[id := []], id + 1;
  }

  /** `start`: refuses with a conflict while the user has a session of this
      quiz in progress, and otherwise opens one and serves the question
      with the lowest order_number. */
  method Start(db: Database, user: UserId, quizId: QuizId, now: int) returns (r: Result<StartResult>)
    requires db.Valid()
    requires user in db.users && quizId in db.catalog.quizzes
    modifies db
    ensures db.Valid()
    ensures r.Err? <==> old(HasActiveSession(db.sessions, user, quizId))
    ensures r.Err? ==> r.error == ActiveSessionExists && unchanged(db)
    ensures r.Ok? ==>
              var quiz := db.catalog.quizzes[quizId];
              && r.value.sessionId !in old(db.sessions)
              && db.sessions == old(db.sessions)[r.value.sessionId := NewSession(user, quizId, quiz, now)]
              && db.answers == old(db.answers)[r.value.sessionId := []]
              && db.users == old(db.users)
              && r.value.title == quiz.title
              && r.value.startedAt == now
              && r.value.expiresAt == ExpiresAt(now, quiz.timeLimit)
              && r.value.firstQuestion == QuestionAt(db.catalog, quiz, 0)
    ensures HasActiveSession(db.sessions, user, quizId)
  {
    if HasActiveSession(db.sessions, user, quizId) {
      return Err(ActiveSessionExists);
    }
    var quiz := db.catalog.quizzes[quizId];
    var id := OpenSession(db, user, quizId, now);
    r := Ok(StartResult(id, quiz.title, now, ExpiresAt(now, quiz.timeLimit), QuestionAt(db.catalog, quiz, 0)));
  }

  /** Starting the same quiz twice in a row: the second call meets the
      session the first one opened (or found) and is refused. */
  method StartTwice(db: Database, user: UserId, quizId: QuizId, now: int, later: int)
    returns (second: Result<StartResult>)
    requires db.Valid()
    requires user in db.users && quizId in db.catalog.quizzes
    modifies db
    ensures second == Err(ActiveSessionExists)
  {
    var first := Start(db, user, quizId, now);
    second := Start(db, user, quizId, later);
  }
}
