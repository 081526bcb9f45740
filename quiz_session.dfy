/** A row of `quiz_sessions`, the rows of `user_answers` that belong to it,
    and the helpers of the `QuizSession` model: the status predicates, the
    rounded percentage and the pass check. Percentages are exact integers
    in hundredths (two decimals) or tenths (one decimal) of a percent. */
module QuizSessionModel {
  import opened Common
  import opened QuestionModel

  /** The `status` enum; new rows default to in_progress. */
  datatype Status = InProgress | Completed | Expired

  datatype Session = Session(
    userId: UserId,
    quizId: QuizId,
    status: Status,
    score: nat,
    totalQuestions: nat,      // copied from the quiz when the session starts
    correctAnswers: nat,
    timeTaken: Option<nat>,   // seconds
    startedAt: int,           // seconds
    completedAt: Option<int>)

  /** A row of `user_answers`; the session it belongs to is the key under
      which the store files it. */
  datatype AnswerRecord = AnswerRecord(
    questionId: QuestionId,
    selectedAnswer: string,
    isCorrect: bool,
    timeTaken: nat,
    isBookmarked: bool)

  predicate IsCompleted(s: Session)
    ensures IsCompleted(s) ==> !s.status.InProgress? && !s.status.Expired?
  {
    s.status == Completed
  }

  predicate IsInProgress(s: Session)
    ensures IsInProgress(s) ==> !s.status.Completed? && !s.status.Expired?
  {
    s.status == InProgress
  }

  predicate IsExpired(s: Session)
    ensures IsExpired(s) ==> !s.status.Completed? && !s.status.InProgress?
  {
    s.status == Expired
  }

  /** Whatever its status, a session satisfies exactly one of the three
      status predicates. */
  lemma ExactlyOneStatus(s: Session)
    ensures IsInProgress(s) <==> !IsCompleted(s) && !IsExpired(s)
    ensures !(IsCompleted(s) && IsExpired(s))
  {
  }

  /** round(part / whole * 100, d) as a whole number of units, where
      `units` is 10^d units per percent; 0 when `whole` is 0. PHP rounds
      halves away from zero, which for these non-negative values is up. */
  function RoundedPercent(part: nat, whole: nat, units: nat): (r: nat)
    ensures whole == 0 ==> r == 0
    ensures whole > 0 ==> 2 * whole * r <= 200 * units * part + whole < 2 * whole * r + 2 * whole
    ensures part <= whole ==> r <= 100 * units
  {
    if whole == 0 then 0
    else
      RoundingBounds(part, whole, units);
      (200 * units * part + whole) / (2 * whole)
  }

  lemma RoundingBounds(part: nat, whole: nat, units: nat)
    requires whole > 0
    ensures var r := (200 * units * part + whole) / (2 * whole);
            2 * whole * r <= 200 * units * part + whole < 2 * whole * r + 2 * whole
    ensures part <= whole ==> (200 * units * part + whole) / (2 * whole) <= 100 * units
  {
    var n, d := 200 * units * part + whole, 2 * whole;
    var r := n / d;
    assert d * r <= n < d * r + d;
    if part <= whole {
      MulMonotone(200 * units, part, whole);
      assert n <= d * (100 * units) + whole;
      if r > 100 * units {
        MulMonotone(d, 100 * units + 1, r);
        assert false;
      }
    }
  }

  lemma MulMonotone(d: nat, a: nat, b: nat)
    requires a <= b
    ensures d * a <= d * b
  {
  }

  /** `percentage`: the share of correct answers in hundredths of a percent. */
  function Percentage(s: Session): (p: nat)
    ensures s.totalQuestions == 0 ==> p == 0
    ensures s.correctAnswers <= s.totalQuestions ==> p <= 10000
    ensures s.totalQuestions > 0 && s.correctAnswers == s.totalQuestions ==> p == 10000
  {
    FullMarksRound(s.totalQuestions);
    RoundedPercent(s.correctAnswers, s.totalQuestions, 100)
  }

  /** All of a non-empty set of questions answered correctly rounds to
      exactly 100.00. */
  lemma FullMarksRound(w: nat)
    ensures w > 0 ==> RoundedPercent(w, w, 100) == 10000
  {
    if w > 0 {
      var r := RoundedPercent(w, w, 100);
      ScaleCompare(2 * w, r, 20000 * w + w, 10000);
      ScaleCompare(2 * w, r, 20000 * w + w, 10001);
    }
  }

  /** When r is the quotient of n by d, rounded down, comparing r with p
      is comparing n with d * p. */
  lemma ScaleCompare(d: nat, r: nat, n: nat, p: nat)
    requires d * r <= n < d * r + d
    ensures r >= p <==> n >= d * p
  {
    if r >= p {
      MulMonotone(d, p, r);
    } else {
      MulMonotone(d, r + 1, p);
      assert d * (r + 1) == d * r + d;
    }
  }

  /** A percentage of exactly 100.00 means a perfect session, and back,
      for every quiz of fewer than 20000 questions. */
  lemma PerfectIffFullMarks(s: Session)
    requires 0 < s.totalQuestions < 20000
    requires s.correctAnswers <= s.totalQuestions
    ensures Percentage(s) == 10000 <==> s.correctAnswers == s.totalQuestions
  {
    var c, t := s.correctAnswers, s.totalQuestions;
    ScaleCompare(2 * t, Percentage(s), 20000 * c + t, 10000);
    assert 2 * t * 10000 == 20000 * t;
  }

  /** From 20000 questions on, one wrong answer still rounds to 100.00. */
  lemma PerfectRoundingLimit()
    ensures Percentage(Session(0, 0, Completed, 199990, 20000, 19999, None, 0, None)) == 10000
  {
  }

  /** `hasPassed`: the rounded percentage reaches the quiz's passing score. */
  predicate HasPassed(s: Session, passingScore: nat)
    ensures s.totalQuestions == 0 ==> (HasPassed(s, passingScore) <==> passingScore == 0)
    ensures s.correctAnswers <= s.totalQuestions && passingScore > 100 ==> !HasPassed(s, passingScore)
  {
    Percentage(s) >= 100 * passingScore
  }

  /** What passing means before rounding: 100 * correct / total reaches
      passingScore - 0.005, the half-unit that rounding adds. */
  lemma PassedIff(s: Session, passingScore: nat)
    requires s.totalQuestions > 0
    ensures HasPassed(s, passingScore) <==>
              20000 * s.correctAnswers + s.totalQuestions >= 200 * passingScore * s.totalQuestions
    ensures 100 * s.correctAnswers >= passingScore * s.totalQuestions ==> HasPassed(s, passingScore)
  {
    var c, t, p := s.correctAnswers, s.totalQuestions, passingScore;
    ScaleCompare(2 * t, Percentage(s), 20000 * c + t, 100 * p);
    assert 2 * t * (100 * p) == 200 * p * t;
  }

  /** The number of answers of the log judged correct. */
  function CorrectCount(answers: seq<AnswerRecord>): (n: nat)
    ensures n <= |answers|
  {
    if answers == [] then 0
    else CorrectCount(answers[..|answers| - 1]) + (if answers[|answers| - 1].isCorrect then 1 else 0)
  }

  lemma CorrectCountAppend(answers: seq<AnswerRecord>, a: AnswerRecord)
    ensures CorrectCount(answers + [a]) == CorrectCount(answers) + (if a.isCorrect then 1 else 0)
  {
    assert (answers + [a])[..|answers|] == answers;
  }
}
