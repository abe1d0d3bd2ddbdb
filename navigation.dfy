/** The three navigation queries of the question repository. The repository
    declares them without implementing them; here they are defined on the
    question table: the first question is the one with the least order, and
    the question after an anchor is the one with the least order strictly
    greater than the anchor's. Ties go to the earlier row in store order. */
module Navigation {
  import opened Wrappers
  import opened Store
  import Linq

  /** GetFirstQuestionAsync. */
  function First(questions: seq<Question>, surveyId: Id): (r: Option<Question>)
    ensures r.Some? ==> r.value in questions && r.value.surveyId == surveyId
    ensures r.Some? ==> forall i :: 0 <= i < |questions| && questions[i].surveyId == surveyId ==> r.value.order <= questions[i].order
    ensures r.None? ==> forall i :: 0 <= i < |questions| ==> questions[i].surveyId != surveyId
  {
    Linq.Best(questions, QuestionOrder, QuestionInSurvey(surveyId))
  }

  /** The anchor of a "next" query: the survey's question with that id. */
  function Anchor(questions: seq<Question>, surveyId: Id, questionId: Id): (r: Option<Question>)
    ensures r.Some? ==> r.value in questions && r.value.surveyId == surveyId && r.value.questionId == questionId
    ensures r.None? ==> forall i :: 0 <= i < |questions| ==> questions[i].surveyId != surveyId || questions[i].questionId != questionId
  {
    Linq.FirstWhere(questions, (q: Question) => q.surveyId == surveyId && q.questionId == questionId)
  }

  /** The survey's questions placed after order `order`. */
  function LaterThan(surveyId: Id, order: int): Question -> bool {
    (q: Question) => q.surveyId == surveyId && q.order > order
  }

  /** GetNextQuestionInOrderAsync and GetNextQuestionAfterAsync, which the
      interface gives the same meaning: the question that follows the anchor
      in display order; none when the anchor is not in the survey or is
      last. */
  function After(questions: seq<Question>, surveyId: Id, anchorId: Id): (r: Option<Question>)
    ensures r.Some? ==> Anchor(questions, surveyId, anchorId).Some?
    ensures r.Some? ==> r.value in questions && r.value.surveyId == surveyId
    ensures r.Some? ==> r.value.order > Anchor(questions, surveyId, anchorId).value.order
    ensures r.Some? ==> forall i :: 0 <= i < |questions| && questions[i].surveyId == surveyId
                                  && questions[i].order > Anchor(questions, surveyId, anchorId).value.order
                                  ==> r.value.order <= questions[i].order
    ensures r.None? && Anchor(questions, surveyId, anchorId).Some? ==>
              forall i :: 0 <= i < |questions| && questions[i].surveyId == surveyId
                          ==> questions[i].order <= Anchor(questions, surveyId, anchorId).value.order
  {
    match Anchor(questions, surveyId, anchorId)
    case None => None
    case Some(a) => Linq.Best(questions, QuestionOrder, LaterThan(surveyId, a.order))
  }

  /** No two questions of a survey share an id (the primary key). */
  ghost predicate UniqueQuestionIds(questions: seq<Question>) {
    forall i, j :: 0 <= i < j < |questions| ==> questions[i].questionId != questions[j].questionId
  }

  /** The question after an anchor is never the anchor itself. */
  lemma AfterIsNotAnchor(questions: seq<Question>, surveyId: Id, anchorId: Id)
    requires UniqueQuestionIds(questions)
    ensures After(questions, surveyId, anchorId).Some? ==> After(questions, surveyId, anchorId).value.questionId != anchorId
  {
    var r := After(questions, surveyId, anchorId);
    if r.Some? {
      var a := Anchor(questions, surveyId, anchorId).value;
      var i :| 0 <= i < |questions| && questions[i] == r.value;
      var j :| 0 <= j < |questions| && questions[j] == a;
      assert i != j;
    }
  }
}
