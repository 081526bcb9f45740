/** A question of the catalog and its answer check (the `Question` model).
    The check compares upper-cased strings; `strtoupper` maps only the
    ASCII letters a-z, which is what the model's `UpperChar` does. */
module QuestionModel {
  import opened Common

  datatype Difficulty = Basic | Intermediate | Advanced

  datatype Question = Question(
    subjectId: SubjectId,
    topicId: nat,
    text: string,
    options: seq<string>,     // option_a .. option_d
    correctAnswer: string,    // an enum column: "A", "B", "C" or "D"
    explanation: Option<string>,
    difficulty: Difficulty)

  /** The four answer letters the `selected_answer` rule and the
      `correct_answer` column admit. */
  predicate IsLetter(s: string) {
    s == "A" || s == "B" || s == "C" || s == "D"
  }

  function UpperChar(c: char): char {
    if 'a' <= c <= 'z' then (c as int - 32) as char else c
  }

  function LowerChar(c: char): char {
    if 'A' <= c <= 'Z' then (c as int + 32) as char else c
  }

  /** strtoupper */
  function ToUpper(s: string): (r: string)
    ensures |r| == |s|
    ensures forall i :: 0 <= i < |s| ==> r[i] == UpperChar(s[i])
  {
    seq(|s|, i requires 0 <= i < |s| => UpperChar(s[i]))
  }

  /** `isCorrectAnswer`: the upper-cased answer equals the upper-cased key. */
  predicate IsCorrectAnswer(q: Question, answer: string)
    ensures IsCorrectAnswer(q, answer) ==> |answer| == |q.correctAnswer|
  {
    ToUpper(answer) == ToUpper(q.correctAnswer)
  }

  /** x and y spell the same letters up to ASCII case. */
  ghost predicate CaseVariant(x: string, y: string) {
    |x| == |y| && forall i :: 0 <= i < |x| ==> UpperChar(x[i]) == UpperChar(y[i])
  }

  /** An answer is judged correct exactly when it is a case variant of the
      key; any other string is judged incorrect. */
  lemma CorrectIffCaseVariant(q: Question, answer: string)
    ensures IsCorrectAnswer(q, answer) <==> CaseVariant(answer, q.correctAnswer)
  {
    var a, k := ToUpper(answer), ToUpper(q.correctAnswer);
    if CaseVariant(answer, q.correctAnswer) {
      assert forall i :: 0 <= i < |a| ==> a[i] == k[i];
    }
  }

  lemma UpperIdempotent(s: string)
    ensures ToUpper(ToUpper(s)) == ToUpper(s)
  {
  }

  /** The verdict does not change when the answer is upper-cased first:
      'a' and 'A' are judged alike. */
  lemma VerdictIgnoresCase(q: Question, answer: string)
    ensures IsCorrectAnswer(q, answer) == IsCorrectAnswer(q, ToUpper(answer))
    ensures IsCorrectAnswer(q, "a") == IsCorrectAnswer(q, "A")
  {
    UpperIdempotent(answer);
    assert ToUpper("a") == ToUpper("A");
  }

  /** With a key in A-D, the strings judged correct are exactly the key
      and its lower-case letter. */
  lemma AcceptedAnswers(q: Question, answer: string)
    requires IsLetter(q.correctAnswer)
    ensures IsCorrectAnswer(q, answer) <==>
              answer == q.correctAnswer || answer == [LowerChar(q.correctAnswer[0])]
  {
    var key := q.correctAnswer;
    assert |key| == 1 && ToUpper(key) == key;
    if IsCorrectAnswer(q, answer) {
      assert |answer| == 1 && UpperChar(answer[0]) == key[0];
      assert answer == [answer[0]];
    }
  }

  /** With a key in A-D, exactly one of the four letters is judged correct:
      the key itself. */
  lemma ExactlyOneLetterCorrect(q: Question, letter: string)
    requires IsLetter(q.correctAnswer)
    requires IsLetter(letter)
    ensures IsCorrectAnswer(q, letter) <==> letter == q.correctAnswer
  {
    AcceptedAnswers(q, letter);
  }

  /** The four letters are already upper case: strtoupper leaves a valid
      answer as it is. */
  lemma LettersAreUpper(s: string)
    ensures IsLetter(s) ==> ToUpper(s) == s
  {
    if IsLetter(s) {
      assert |ToUpper(s)| == 1 && ToUpper(s)[0] == s[0];
    }
  }
}
