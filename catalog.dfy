/** The read-only catalog the session engine consults: quizzes with their
    attached questions (the `quiz_questions` pivot, kept in `order_number`
    order as the `Quiz::questions` relation returns it) and questions by id. */
module QuizCatalog {
  import opened Common
  import opened QuestionModel

  /** A row of `quiz_questions`. */
  datatype QuizLink = QuizLink(questionId: QuestionId, orderNumber: nat)

  datatype Quiz = Quiz(
    title: string,
    timeLimit: Option<nat>,   // minutes; the column is nullable
    totalQuestions: nat,
    passingScore: nat,        // a percentage, default 50
    links: seq<QuizLink>)     // ordered by order_number

  datatype Catalog = Catalog(quizzes: map<QuizId, Quiz>, questions: map<QuestionId, Question>)

  /** Every question id of a quiz names a catalog question, appears once
      (the pivot's unique (quiz_id, question_id) key), and the links are in
      order_number order. */
  ghost predicate QuizOk(c: Catalog, quiz: Quiz) {
    && (forall i :: 0 <= i < |quiz.links| ==> quiz.links[i].questionId in c.questions)
    && (forall i, j :: 0 <= i < j < |quiz.links| ==> quiz.links[i].questionId != quiz.links[j].questionId)
    && (forall i, j :: 0 <= i < j < |quiz.links| ==> quiz.links[i].orderNumber <= quiz.links[j].orderNumber)
  }

  /** Every quiz is well formed, and every answer key is one of the letters
      A-D (the column is an enum of those four). */
  ghost predicate CatalogOk(c: Catalog) {
    && (forall id :: id in c.quizzes ==> QuizOk(c, c.quizzes[id]))
    && (forall id :: id in c.questions ==> IsLetter(c.questions[id].correctAnswer))
  }

  /** `$quiz->questions->contains($id)` */
  predicate HasQuestion(quiz: Quiz, id: QuestionId) {
    exists i :: 0 <= i < |quiz.links| && quiz.links[i].questionId == id
  }

  /** A question as the client sees it: no answer key, no explanation. */
  datatype QuestionView = QuestionView(
    id: QuestionId, number: nat, text: string, options: seq<string>, timeLimit: nat)

  /** Seconds offered per question in every rendered question. */
  const PerQuestionSeconds: nat := 60

  /** `questions()->orderBy('order_number')->skip(k)->first()`, rendered as
      question number k + 1; none when fewer than k + 1 questions are
      attached. */
  function QuestionAt(c: Catalog, quiz: Quiz, k: nat): (r: Option<QuestionView>)
    requires QuizOk(c, quiz)
    ensures r.Some? <==> k < |quiz.links|
    ensures r.Some? ==> r.value.id == quiz.links[k].questionId && r.value.number == k + 1
    ensures r.Some? ==> r.value.text == c.questions[r.value.id].text
    ensures r.Some? ==> r.value.options == c.questions[r.value.id].options && r.value.timeLimit == PerQuestionSeconds
    ensures r.Some? ==> forall j :: 0 <= j < |quiz.links| ==>
              (j < k ==> quiz.links[j].orderNumber <= quiz.links[k].orderNumber) &&
              (k < j ==> quiz.links[k].orderNumber <= quiz.links[j].orderNumber)
  {
    if k < |quiz.links| then
      var id := quiz.links[k].questionId;
      var q := c.questions[id];
      Some(QuestionView(id, k + 1, q.text, q.options, PerQuestionSeconds))
    else
      None
  }

  /** The first question served is one with the lowest order_number. */
  lemma FirstQuestionHasLowestOrder(c: Catalog, quiz: Quiz)
    requires QuizOk(c, quiz)
    ensures QuestionAt(c, quiz, 0).Some? <==> |quiz.links| > 0
    ensures QuestionAt(c, quiz, 0).Some? ==>
              QuestionAt(c, quiz, 0).value.number == 1 &&
              forall l :: l in quiz.links ==> quiz.links[0].orderNumber <= l.orderNumber
  {
  }
}
