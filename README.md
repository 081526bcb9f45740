# Quiz-session scoring engine, in Dafny

This project models the session-scoring engine of a multiple-choice quiz
platform (a Laravel back end) and proves what it promises. The engine:

- starts a quiz session;
- serves the quiz's questions in `order_number` order;
- records each answer once and scores it at 10 points per correct answer;
- completes the session after the last answer, or on an explicit submit;
- awards experience, levels and the daily streak;
- reports the per-answer and per-subject breakdown.

The model has one Dafny module per piece of the source:

| module | file | models |
|---|---|---|
| `Common` | common.dfy | ids, `Option`, `Result`, and the error kinds the controllers answer with (403, 400, 409 and 422 become `Forbidden`, `NotActive`, `ValidationFailed`, `NotInQuiz`, `AlreadyAnswered`, `ActiveSessionExists`) |
| `QuestionModel` | question.dfy | the `Question` model and `isCorrectAnswer` |
| `QuizCatalog` | catalog.dfy | quizzes with their ordered `quiz_questions` links; `skip(k)->first()` as `QuestionAt` |
| `QuizSessionModel` | quiz_session.dfy | the `QuizSession` row: status predicates, `percentage`, `hasPassed` |
| `Progression` | progression.dfy | `calculateLevel`, the experience award, the level raise and the daily streak |
| `Grouping` | grouping.dfy | the `groupBy(...)->map(count)` both controllers use, as a generic group-and-count |
| `Store` | store.dfy | the `Database` class (session rows, answer logs, users) with its invariant, plus `markAsCompleted` and `markAsExpired` |
| `QuizController` | quiz_controller.dfy | the difficulty and subject tallies, `expires_at`, `start` |
| `QuizSessionController` | quiz_session_controller.dfy | `show`, `submitAnswer`, `submit`, `results` |

Rows are values in maps that the methods of `Database` and the
controllers reassign, as the source's updates and increments rewrite table
rows. `show` and `results` only read, so they are functions of the store.
Clocks are parameters: `now` in seconds and `today` as a day number, so
"yesterday" is `today - 1`. The store invariant `Database.Valid` says:

- every session agrees with its answer log: the answers are to questions of
  its quiz, none is answered twice, `correct_answers` counts the correct
  ones, `score == 10 * correct_answers`, and an in-progress session has not
  yet reached its question count (or, with a question count of 0, holds no
  answers yet);
- at most one session per user and quiz is `in_progress`;
- every stored level keeps up with its experience.

`start`, `submitAnswer` and `submit` are proved to keep the invariant, and
so are `markAsCompleted` and `markAsExpired` on a store that satisfied it.
The write steps these are built from state their exact new state, and a
lemma beside each wrapper shows the invariant survives it.

Behaviours of the code worth knowing:

- The perfect-score bonus of 100 has no `total_questions > 0` guard
  (QuizSessionController.php:199, 271). A session of 0 questions that is
  submitted earns it.
- Completion through the last answer sets `completed_at` but never
  `time_taken`; only `submit` sets `time_taken` (QuizSessionController.php:192-193, 261).
- `submit` awards experience and level but never touches the daily streak
  (QuizSessionController.php:259-282).
- A question that is not attached to the quiz gets its own 400 refusal
  (`NotInQuiz`), which is distinct from the 422 validation failure
  (QuizSessionController.php:126-131).
- The `in:A,B,C,D` rule compares strictly, so a lower-case letter is refused
  before `isCorrectAnswer` could fold its case (QuizSessionController.php:110).
- A `time_limit` of 0 is false in PHP, so such a quiz has no `expires_at`
  and no `time_remaining` (QuizController.php:208, QuizSessionController.php:60).
- `new_level` in the submit response is `calculateLevel` of the new
  experience, even where the stored level is higher (QuizSessionController.php:279, 300).
- The current question of `show`, and the next question of `submitAnswer`,
  is the one at position "number of answers" in `order_number` order
  (QuizSessionController.php:39-42, 172-175). Answers may come in any order,
  so that question can be one already answered.

## Model

| member | source | states |
|---|---|---|
| QuestionModel.IsCorrectAnswer | backend/app/Models/Question.php:112-115 | an answer judged correct has the key's length (see `CorrectIffCaseVariant` for the full characterisation) |
| QuestionModel.ToUpper | backend/app/Models/Question.php:114 | `strtoupper` keeps the length and upper-cases each ASCII letter, leaving every other character alone |
| QuestionModel.CorrectIffCaseVariant | backend/app/Models/Question.php:112-115 | an answer is judged correct exactly when it is a case variant of the key; every other string is judged incorrect |
| QuestionModel.UpperIdempotent | backend/app/Models/Question.php:114 | upper-casing twice is upper-casing once |
| QuestionModel.VerdictIgnoresCase | backend/app/Models/Question.php:114 | `isCorrectAnswer(x) == isCorrectAnswer(strtoupper(x))`; 'a' and 'A' get the same verdict |
| QuestionModel.AcceptedAnswers | backend/app/Models/Question.php:112-115 | with a key in A-D, the strings judged correct are exactly the key and its lower-case letter |
| QuestionModel.ExactlyOneLetterCorrect | backend/app/Models/Question.php:112-115 | with a key in A-D, of the four letters exactly the key is judged correct |
| QuestionModel.LettersAreUpper | backend/app/Http/Controllers/API/QuizSessionController.php:153 | `strtoupper` leaves a letter A-D as it is, so the stored answer is the one sent |
| QuizCatalog.QuestionAt | backend/app/Http/Controllers/API/QuizSessionController.php:38-56 | the question at 0-based position k exists iff k is below the number attached; it is the k-th link in `order_number` order, numbered k + 1, and no link before it has a higher order number or after it a lower one |
| QuizCatalog.FirstQuestionHasLowestOrder | backend/app/Http/Controllers/API/QuizController.php:178-194 | the first question exists iff the quiz has questions; it is numbered 1 and has the lowest `order_number` |
| QuizSessionModel.IsCompleted | backend/app/Models/QuizSession.php:94-97 | a completed session is neither in progress nor expired |
| QuizSessionModel.IsInProgress | backend/app/Models/QuizSession.php:102-105 | an in-progress session is neither completed nor expired |
| QuizSessionModel.IsExpired | backend/app/Models/QuizSession.php:110-113 | an expired session is neither completed nor in progress |
| QuizSessionModel.ExactlyOneStatus | backend/app/Models/QuizSession.php:94-113 | for any status, exactly one of `isCompleted`, `isInProgress` and `isExpired` holds |
| QuizSessionModel.FullMarksRound | backend/app/Models/QuizSession.php:118-124 | with at least one question, all answered correctly gives exactly 100.00 |
| QuizSessionModel.Percentage | backend/app/Models/QuizSession.php:118-124 | 0 for a session of 0 questions; at most 100.00 when the correct answers do not exceed the questions; exactly 100.00 when every question was answered correctly |
| QuizSessionModel.HasPassed | backend/app/Models/QuizSession.php:129-132 | a session of 0 questions passes iff the passing score is 0; no session passes a passing score above 100 |
| QuizSessionModel.RoundedPercent | backend/app/Models/QuizSession.php:118-124 | 0 when the total is 0; otherwise the result is `part/whole * 100` rounded half up to the given unit, and at most 100 when `part <= whole` |
| QuizSessionModel.PerfectIffFullMarks | backend/app/Models/QuizSession.php:118-124 | for fewer than 20000 questions, the percentage is exactly 100.00 iff every question was answered correctly |
| QuizSessionModel.PerfectRoundingLimit | backend/app/Models/QuizSession.php:123 | at 20000 questions, 19999 correct answers already round to 100.00 |
| QuizSessionModel.PassedIff | backend/app/Models/QuizSession.php:129-132 | `hasPassed` iff the exact share plus half a rounding unit reaches the passing score; reaching the score without rounding always passes |
| QuizSessionModel.CorrectCount | backend/app/Http/Controllers/API/QuizSessionController.php:161-163 | the correct answers of a log never outnumber its answers |
| QuizSessionModel.CorrectCountAppend | backend/app/Http/Controllers/API/QuizSessionController.php:150-163 | appending an answer adds one correct answer exactly when it is correct |
| Progression.CalculateLevel | backend/app/Http/Controllers/API/QuizSessionController.php:378-392 | the level lies in [1, 50] |
| Progression.LevelFloors | backend/app/Http/Controllers/API/QuizSessionController.php:381-391 | a level at least L is reached exactly when the experience reaches L's floor (0, 101, 251, 501, 1001, 1751, 2751, 4001, 5501, 7501 up to level 10, then 7500 + 2000 per level above 10: 9500, 11500, …) |
| Progression.LevelIsHighestReached | backend/app/Http/Controllers/API/QuizSessionController.php:378-392 | the level is the highest whose floor the experience reaches |
| Progression.LevelMonotone | backend/app/Http/Controllers/API/QuizSessionController.php:378-392 | more experience never gives a lower level |
| Progression.LevelSamples | backend/app/Http/Controllers/API/QuizSessionController.php:381-391 | 100→1, 101→2, 500→3, 7500→9, 7501→10, 9500→11, 1000000→50 |
| Progression.ExperienceGained | backend/app/Http/Controllers/API/QuizSessionController.php:197-201 | the gain lies between 50 + 10 per correct answer and 100 more, and exceeds the first bound iff every question was answered correctly |
| Progression.PerfectSessionXp | backend/app/Http/Controllers/API/QuizSessionController.php:197-201 | the gain is 50 + 10 per correct answer, plus 100 exactly when every question was answered correctly |
| Progression.Award | backend/app/Http/Controllers/API/QuizSessionController.php:201-208 | experience rises by exactly the gain; the level never falls, keeps up with the new experience, and changes only to the computed level; streak and date stay |
| Progression.LevelUp | backend/app/Http/Controllers/API/QuizSessionController.php:301 | `level_up` never holds for a user already at level 50 |
| Progression.LevelUpIffLevelRises | backend/app/Http/Controllers/API/QuizSessionController.php:276-282 | `level_up` (computed level above the old one) holds iff the award raises the stored level |
| Progression.UpdateStreak | backend/app/Http/Controllers/API/QuizSessionController.php:210-218 | last quiz today: nothing changes; yesterday: streak + 1; otherwise: streak 1; in the last two cases the date becomes today; level and experience stay |
| Progression.StreakOncePerDay | backend/app/Http/Controllers/API/QuizSessionController.php:211 | a second completion the same day changes the streak no further |
| Progression.ConsecutiveDays | backend/app/Http/Controllers/API/QuizSessionController.php:211-217 | completing on n consecutive days after the last quiz raises the streak by n |
| Progression.HistoryMonotone | backend/app/Http/Controllers/API/QuizSessionController.php:192-218 | over any run of completions, experience rises by at least 50 each, the level never falls, and a level that kept up still does |
| Grouping.InsertSpec | backend/app/Http/Controllers/API/QuizSessionController.php:349-354 | adding an entry keeps the keys distinct and the groups well counted; it adds one entry (and one hit when it is one) to its key's group only, and to the totals |
| Grouping.GroupBySpec | backend/app/Http/Controllers/API/QuizSessionController.php:349-354 | the groups have distinct keys; each key's group counts exactly its entries and hits; the totals are the number of entries and of hits |
| Grouping.GroupCounts | backend/app/Http/Controllers/API/QuizSessionController.php:352-354 | each group counts exactly the entries and hits of its own key |
| Grouping.GroupByCovers | backend/app/Http/Controllers/API/QuizController.php:121 | every entry's key has a group |
| Store.Database.MarkAsCompleted | backend/app/Models/QuizSession.php:137-143 | the status becomes completed and `completed_at` now; every other column and row stays; a valid store stays valid |
| Store.Database.MarkAsExpired | backend/app/Models/QuizSession.php:148-153 | only the status changes, to expired; `completed_at` stays; a valid store stays valid |
| Store.LeaveInProgressKeepsOk | backend/app/Models/QuizSession.php:137-153 | leaving `in_progress` without touching counts or answers keeps the store invariant |
| Store.LeaveInProgressKeepsValid | backend/app/Models/QuizSession.php:137-153 | the same step applied to any store: if the store was valid before, it is valid after |
| Store.ScoreMatchesAnswers | backend/app/Http/Controllers/API/QuizSessionController.php:147-163 | in a valid store `score == 10 * correct_answers`, `correct_answers` is bounded by the answers, and by the question count when that count is above 0; with a count of 0 and a question attached, one correct answer completes the session with `correct_answers` 1 |
| QuizController.CountDifficulty | backend/app/Http/Controllers/API/QuizController.php:113-118 | a difficulty's count is at most the number of questions, and 0 iff no question has it |
| QuizController.DifficultiesPartition | backend/app/Http/Controllers/API/QuizController.php:113-118 | the basic, intermediate and advanced counts sum to the number of attached questions |
| QuizController.Distribution | backend/app/Http/Controllers/API/QuizController.php:113-118 | `difficulty_distribution` holds the three counts, which sum to the number of questions |
| QuizController.SubjectCounts | backend/app/Http/Controllers/API/QuizController.php:121-128 | one entry per group, carrying its key and count; the counts sum to the groups' total |
| QuizController.SubjectTallySpec | backend/app/Http/Controllers/API/QuizController.php:121-128 | each subject appears once with at least one question and exactly its own count; every question's subject is listed; the counts sum to the number of questions |
| QuizController.Details | backend/app/Http/Controllers/API/QuizController.php:106-128 | over the quiz's attached questions, the difficulty counts and the subject counts each sum to the number attached, and every attached question's subject is listed |
| QuizController.ExpiresAt | backend/app/Http/Controllers/API/QuizController.php:208-209 | set iff the quiz has a non-zero time limit, and then the start plus 60 seconds per minute |
| QuizController.OpenSessionKeepsOk | backend/app/Http/Controllers/API/QuizController.php:169-175 | a new in-progress session with no answers, under a fresh id, keeps the invariant when its user has no active session of the quiz |
| QuizController.OpenSession | backend/app/Http/Controllers/API/QuizController.php:169-175 | creates the row in progress, score 0, the quiz's question count, started now, under a new id with an empty log; keeps the invariant |
| QuizController.Start | backend/app/Http/Controllers/API/QuizController.php:150-213 | refuses with a conflict, changing nothing, iff the user has an in-progress session of the quiz; otherwise opens one and returns its id, the title, `started_at`, `expires_at` and the first question; keeps the invariant |
| QuizController.StartTwice | backend/app/Http/Controllers/API/QuizController.php:155-166 | a second start of the same quiz is always refused with a conflict |
| QuizSessionController.TimeRemaining | backend/app/Http/Controllers/API/QuizSessionController.php:58-63 | set iff the session expires; 0 exactly once the expiry is reached; never above the full limit once started |
| QuizSessionController.TimeRunsDown | backend/app/Http/Controllers/API/QuizSessionController.php:58-63 | it starts at the whole limit and falls one second per second until it stays at 0 |
| QuizSessionController.AnsweredIds | backend/app/Http/Controllers/API/QuizSessionController.php:66 | the question of every answer, in answer order |
| QuizSessionController.BookmarkedIds | backend/app/Http/Controllers/API/QuizSessionController.php:67 | exactly the questions of the bookmarked answers |
| QuizSessionController.ViewOf | backend/app/Http/Controllers/API/QuizSessionController.php:33-80 | a current question iff the answers are below both the question count and the attached questions, numbered as the current question number; one answered id per answer |
| QuizSessionController.ViewSpec | backend/app/Http/Controllers/API/QuizSessionController.php:33-80 | current number = answers + 1; a current question iff answers remain below both the question count and the attached questions, and then the next link in order; the score is 10 per correct answer; the answered ids are distinct and in the quiz; the bookmarked ids are among them |
| QuizSessionController.Show | backend/app/Http/Controllers/API/QuizSessionController.php:18-83 | forbidden iff the user is not the owner; otherwise the view of a consistent session |
| QuizSessionController.AppendAnswerOk | backend/app/Http/Controllers/API/QuizSessionController.php:145-167 | a first, valid answer to a question of the quiz, with the row updated as an answer updates it, keeps the session in agreement with its log |
| QuizSessionController.AwardExperience | backend/app/Http/Controllers/API/QuizSessionController.php:195-208 | the user row becomes the award; the returned new level is computed from the new experience, and it exceeds the old level iff `level_up` |
| QuizSessionController.UpdateDailyStreak | backend/app/Http/Controllers/API/QuizSessionController.php:210-218 | the user row becomes its streak update; nothing else changes |
| QuizSessionController.NewAnswer | backend/app/Http/Controllers/API/QuizSessionController.php:146-157 | the stored answer carries the question, the verdict of the answer check (which its stored upper-cased letter gets too), the letter sent, the time taken or 0, and the bookmark or false |
| QuizSessionController.AfterAnswer | backend/app/Http/Controllers/API/QuizSessionController.php:159-167 | score + 10 and `correct_answers` + 1 when correct, + 0 otherwise; completed, with `completed_at` now, iff the answers reach the question count; otherwise `completed_at` stays |
| QuizSessionController.AcceptedAnswerKeepsOk | backend/app/Http/Controllers/API/QuizSessionController.php:145-218 | the answer and row writes, and on completion the award and streak, keep the store invariant |
| QuizSessionController.RecordAnswer | backend/app/Http/Controllers/API/QuizSessionController.php:150-193 | appends exactly one answer and rewrites the row as `AfterAnswer` says; users stay |
| QuizSessionController.AwardCompletion | backend/app/Http/Controllers/API/QuizSessionController.php:195-218 | the user row becomes the streak update of the award |
| QuizSessionController.ApplyAnswer | backend/app/Http/Controllers/API/QuizSessionController.php:145-233 | all writes of an accepted answer and the response: verdict, key, explanation, points, fresh score, next question or none, completion flag |
| QuizSessionController.AcceptAnswer | backend/app/Http/Controllers/API/QuizSessionController.php:145-233 | the same writes and response as `ApplyAnswer`, keeping the invariant |
| QuizSessionController.SubmitAnswer | backend/app/Http/Controllers/API/QuizSessionController.php:88-234 | refuses, in order, a non-owner, a session not in progress, invalid input, a question outside the quiz and a repeated question, changing nothing; accepted iff all five checks pass, and then one answer is appended, the row is updated, the session completes iff the answers reach the count (then award and streak), and the next question is position "answers" in order |
| QuizSessionController.NextQuestionIsShown | backend/app/Http/Controllers/API/QuizSessionController.php:169-189 | while the session goes on, the next question `submitAnswer` returns is the one `show` then presents, numbered answers + 1 |
| QuizSessionController.AnswerTwice | backend/app/Http/Controllers/API/QuizSessionController.php:134-143 | after an accepted answer, a second answer to the same question is refused: as already answered, or as not active if the first completed the session |
| QuizSessionController.ElapsedSeconds | backend/app/Http/Controllers/API/QuizSessionController.php:261 | the absolute distance in seconds between start and now |
| QuizSessionController.CompleteSession | backend/app/Http/Controllers/API/QuizSessionController.php:259-261 | completed now, with its elapsed time; every other row and column stays |
| QuizSessionController.Submit | backend/app/Http/Controllers/API/QuizSessionController.php:239-306 | refuses a non-owner and a session not in progress, changing nothing; otherwise completes it with its time, awards experience and level but not the streak, and returns score (10 per correct), percentage, pass, gain, new level and `level_up`; keeps the invariant |
| QuizSessionController.SubmitAfterLastAnswer | backend/app/Http/Controllers/API/QuizSessionController.php:251-257 | once the last answer completed a session, submitting it is refused, so experience is awarded once |
| QuizSessionController.Analysis | backend/app/Http/Controllers/API/QuizSessionController.php:335-346 | one entry per answer, in log order, pairing the answer with its question's text, key and explanation |
| QuizSessionController.Performances | backend/app/Http/Controllers/API/QuizSessionController.php:351-363 | one entry per group, with attempts, correct answers and accuracy rounded to tenths; the sums are the groups' totals |
| QuizSessionController.SubjectRollupSpec | backend/app/Http/Controllers/API/QuizSessionController.php:348-363 | each subject once, with at least one attempt, no more correct answers than attempts and an accuracy of at most 100.0; exact per-subject counts; attempts sum to the answers and correct answers to the log's correct count |
| QuizSessionController.ReportOf | backend/app/Http/Controllers/API/QuizSessionController.php:323-373 | one analysis entry per answer, carrying the stored verdict; a percentage of at most 100.00 when the correct answers do not exceed the questions |
| QuizSessionController.ReportSpec | backend/app/Http/Controllers/API/QuizSessionController.php:323-363 | for a consistent session, the rollup sums to the answers and correct answers, the final score is 10 per correct answer in the rollup, and each analysed answer is correct iff it equals the key |
| QuizSessionController.Results | backend/app/Http/Controllers/API/QuizSessionController.php:311-373 | forbidden iff the user is not the owner; otherwise the report of a consistent session |

## Left out

- HTTP and JSON shaping, status codes, `Validator` messages and route-model binding: errors are the `Error` datatype.
- Floating point: `percentage` is an integer of hundredths and subject accuracy of tenths of a percent. Both are rounded exactly, half up.
- QuizSessionModel.Percentage: models exact rounding of the rational share, not PHP's binary doubles. Near a half unit (19999/20000 gives 99.995) PHP's `round` may fall on the other side.
- Concurrency: the check-then-create of `start` and the separate `increment` calls are modelled as one sequential step each.
- Wall clock and dates (`now()`, `isToday`, `isYesterday`, `toDateString`, ISO strings) are integer parameters.
- QuizSessionController.ElapsedSeconds: `diffInSeconds` is taken as the absolute difference, its default. A start in the future gives a positive time.
- Achievements (always empty), `rank` (always null) and the `detailed_results` route string are stubs in the source and are left out.
- Subject names in the tallies and the rollup are lookups into the `subjects` table, which is not part of this model. So is the 'Unknown' fallback of `index`.
- Questions' `option_a`..`option_d` are a sequence of strings. Question `explanation` is optional.
- The pagination and filtering of `QuizController::index` are database queries. Its tallies are the same computation as `show`'s (QuizController.php:59-74) and are modelled once.
- Store.Database.MarkAsExpired: nothing in the engine calls it. It is modelled, with the invariant it keeps, but expiry has no producer.
- Time limits per question (always 60) are a constant in every rendered question. They are not enforced.
- The authenticated user is assumed to exist (`user in db.users`) for `start`, `submitAnswer` and `submit`.
- Seeders, migrations (except for enum and default facts), SubjectController and the relationship-only models (User, Quiz, Subject, Topic, UserAnswer) are not part of this model.
