/** The progression a completed session awards its user: experience
    points, the level derived from them by a fixed table, and the daily
    streak. Dates are day numbers, so "yesterday" is `today - 1`. */
module Progression {
  import opened Common

  /** The progression columns of `users`. */
  datatype UserProgress = UserProgress(
    level: nat,
    experiencePoints: nat,
    dailyStreak: nat,
    lastQuizDate: Option<int>)

  /** `calculateLevel`: levels 1 to 9 by the table of upper bounds
      100, 250, 500, 1000, 1750, 2750, 4000, 5500, 7500; above that one
      level per 2000 points counted from 7500, capped at 50. */
  function CalculateLevel(xp: nat): (level: nat)
    ensures 1 <= level <= 50
  {
    if xp <= 100 then 1
    else if xp <= 250 then 2
    else if xp <= 500 then 3
    else if xp <= 1000 then 4
    else if xp <= 1750 then 5
    else if xp <= 2750 then 6
    else if xp <= 4000 then 7
    else if xp <= 5500 then 8
    else if xp <= 7500 then 9
    else Min(10 + (xp - 7500) / 2000, 50)
  }

  /** The least experience at which each level 1..10 is reached. */
  const TableFloors: seq<nat> := [0, 101, 251, 501, 1001, 1751, 2751, 4001, 5501, 7501]

  /** The least experience at which `level` is reached. */
  function MinXpFor(level: nat): nat
    requires 1 <= level <= 50
  {
    if level <= 10 then TableFloors[level - 1] else 7500 + 2000 * (level - 10)
  }

  /** A user has reached a level exactly when their experience is at least
      that level's floor. */
  lemma LevelFloors(xp: nat, level: nat)
    requires 1 <= level <= 50
    ensures CalculateLevel(xp) >= level <==> xp >= MinXpFor(level)
  {
  }

  /** The level is the highest one whose floor the experience reaches. */
  lemma LevelIsHighestReached(xp: nat)
    ensures xp >= MinXpFor(CalculateLevel(xp))
    ensures CalculateLevel(xp) < 50 ==> xp < MinXpFor(CalculateLevel(xp) + 1)
  {
    LevelFloors(xp, CalculateLevel(xp));
    if CalculateLevel(xp) < 50 {
      LevelFloors(xp, CalculateLevel(xp) + 1);
    }
  }

  /** More experience never means a lower level. */
  lemma LevelMonotone(x: nat, y: nat)
    requires x <= y
    ensures CalculateLevel(x) <= CalculateLevel(y)
  {
    LevelFloors(x, CalculateLevel(x));
    LevelFloors(y, CalculateLevel(x));
  }

  lemma LevelSamples()
    ensures CalculateLevel(100) == 1 && CalculateLevel(101) == 2
    ensures CalculateLevel(500) == 3 && CalculateLevel(7500) == 9
    ensures CalculateLevel(7501) == 10 && CalculateLevel(9500) == 11
    ensures CalculateLevel(1000000) == 50
  {
  }

  const BaseXp: nat := 50
  const XpPerCorrect: nat := 10
  const PerfectBonusXp: nat := 100

  /** Experience for completing a session: a base, a share per correct
      answer, and a bonus when every question counted was answered
      correctly. There is no guard on an empty quiz. */
  function ExperienceGained(correct: nat, total: nat): (xp: nat)
    ensures 50 + 10 * correct <= xp <= 150 + 10 * correct
    ensures xp > 50 + 10 * correct <==> correct == total
  {
    BaseXp + XpPerCorrect * correct + (if correct == total then PerfectBonusXp else 0)
  }

  lemma PerfectSessionXp(correct: nat, total: nat)
    ensures correct == total ==> ExperienceGained(correct, total) == 50 + 10 * total + 100
    ensures correct != total ==> ExperienceGained(correct, total) == 50 + 10 * correct
  {
  }

  /** The stored level never lags behind the level the experience earns. */
  ghost predicate LevelKeepsUp(p: UserProgress) {
    p.level >= CalculateLevel(p.experiencePoints)
  }

  /** The award at completion: experience_points increases by the gain and
      the stored level is replaced by the computed one only when that is
      greater. Streak and date are not touched here. */
  function Award(p: UserProgress, correct: nat, total: nat): (q: UserProgress)
    ensures q.experiencePoints == p.experiencePoints + ExperienceGained(correct, total)
    ensures q.level >= p.level && LevelKeepsUp(q)
    ensures q.level == p.level || q.level == CalculateLevel(q.experiencePoints)
    ensures q.dailyStreak == p.dailyStreak && q.lastQuizDate == p.lastQuizDate
  {
    var xp := p.experiencePoints + ExperienceGained(correct, total);
    var newLevel := CalculateLevel(xp);
    if newLevel > p.level then p.(experiencePoints := xp, level := newLevel)
    else p.(experiencePoints := xp)
  }

  /** `level_up` of the submit response: the computed level exceeds the
      level held before the award. */
  predicate LevelUp(p: UserProgress, correct: nat, total: nat)
    ensures LevelUp(p, correct, total) ==> p.level < 50
  {
    CalculateLevel(p.experiencePoints + ExperienceGained(correct, total)) > p.level
  }

  lemma LevelUpIffLevelRises(p: UserProgress, correct: nat, total: nat)
    ensures LevelUp(p, correct, total) <==> Award(p, correct, total).level > p.level
  {
  }

  /** The streak rule run when a session completes through its last
      answer: nothing changes on a second quiz the same day; a quiz the day
      after the last one extends the streak; otherwise (no earlier quiz, a
      gap, or a date ahead of today) the streak restarts at 1. */
  function UpdateStreak(p: UserProgress, today: int): (q: UserProgress)
    ensures p.lastQuizDate == Some(today) ==> q == p
    ensures p.lastQuizDate == Some(today - 1) ==>
              q.dailyStreak == p.dailyStreak + 1 && q.lastQuizDate == Some(today)
    ensures p.lastQuizDate != Some(today) && p.lastQuizDate != Some(today - 1) ==>
              q.dailyStreak == 1 && q.lastQuizDate == Some(today)
    ensures q.level == p.level && q.experiencePoints == p.experiencePoints
  {
    if p.lastQuizDate.None? || p.lastQuizDate.value != today then
      var streak := if p.lastQuizDate.Some? && p.lastQuizDate.value == today - 1
                    then p.dailyStreak + 1 else 1;
      p.(dailyStreak := streak, lastQuizDate := Some(today))
    else
      p
  }

  /** The streak is counted once per day: a second completion the same day
      changes nothing more. */
  lemma StreakOncePerDay(p: UserProgress, today: int)
    ensures UpdateStreak(UpdateStreak(p, today), today) == UpdateStreak(p, today)
  {
  }

  /** One completion on each of `days` consecutive days, starting the day
      after the last recorded quiz. */
  function DailyRun(p: UserProgress, first: int, days: nat): UserProgress
    decreases days
  {
    if days == 0 then p else DailyRun(UpdateStreak(p, first), first + 1, days - 1)
  }

  /** Quizzing on consecutive days extends the streak by one per day. */
  lemma {:induction false} ConsecutiveDays(p: UserProgress, first: int, days: nat)
    requires p.lastQuizDate == Some(first - 1)
    ensures DailyRun(p, first, days).dailyStreak == p.dailyStreak + days
    ensures days > 0 ==> DailyRun(p, first, days).lastQuizDate == Some(first + days - 1)
    decreases days
  {
    if days > 0 {
      ConsecutiveDays(UpdateStreak(p, first), first + 1, days - 1);
    }
  }

  /** A completed session as the progression engine sees it. */
  datatype Completion = Completion(correct: nat, total: nat, day: int)

  /** The progression after a history of completions through the last
      answer (award, then streak). */
  function AfterHistory(p: UserProgress, history: seq<Completion>): UserProgress
  {
    if history == [] then p
    else
      var c := history[|history| - 1];
      UpdateStreak(Award(AfterHistory(p, history[..|history| - 1]), c.correct, c.total), c.day)
  }

  /** Over any history, experience and level only go up, experience grows
      by at least the base award per session, and a level that kept up
      with its experience still does. */
  lemma {:induction false} HistoryMonotone(p: UserProgress, history: seq<Completion>)
    ensures AfterHistory(p, history).level >= p.level
    ensures AfterHistory(p, history).experiencePoints >= p.experiencePoints + BaseXp * |history|
    ensures LevelKeepsUp(p) ==> LevelKeepsUp(AfterHistory(p, history))
  {
    if history != [] {
      HistoryMonotone(p, history[..|history| - 1]);
    }
  }
}
