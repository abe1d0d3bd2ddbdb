/** The respondent side (SurveyTakerService): opening a response, saving an
    answer, completing the response, and checking a respondent's token. */
module SurveyTaker {
  import opened Wrappers
  import opened Store
  import Guids
  import Linq

  // ---- Opening a response ----

  /** The checks CreateNewResponseAsync makes before it admits a new
      response, in source order: the first failure's message, or none. */
  function AdmissionFailure(surveys: seq<Survey>, responses: seq<SurveyResponse>, surveyId: Id, now: Instant)
    : Option<string>
  {
    match SurveyById(surveys, surveyId)
    case None => Some("Survey not found")
    case Some(survey) =>
      if survey.status != "Published" then Some("This survey is not currently accepting responses")
      else if survey.openAt.Some? && now < survey.openAt.value then Some("This survey has not opened yet")
      else if survey.closeAt.Some? && now > survey.closeAt.value then Some("This survey has closed")
      else if survey.responseQuota.Some? && ResponseCount(responses, surveyId) >= survey.responseQuota.value then
        Some("This survey has reached its response limit")
      else None
  }

  /** A survey takes a new response when it is published, inside its
      opening window (both ends inclusive) and below its quota. */
  ghost predicate Accepting(survey: Survey, responses: seq<SurveyResponse>, now: Instant) {
    && survey.status == "Published"
    && (survey.openAt.Some? ==> survey.openAt.value <= now)
    && (survey.closeAt.Some? ==> now <= survey.closeAt.value)
    && (survey.responseQuota.Some? ==> ResponseCount(responses, survey.surveyId) < survey.responseQuota.value)
  }

  /** A response is admitted exactly when the survey exists and is
      accepting. */
  lemma AdmittedIffAccepting(surveys: seq<Survey>, responses: seq<SurveyResponse>, surveyId: Id, now: Instant)
    ensures AdmissionFailure(surveys, responses, surveyId, now).None?
        <==> SurveyById(surveys, surveyId).Some? && Accepting(SurveyById(surveys, surveyId).value, responses, now)
  {
  }

  /** The response CreateNewResponseAsync stores; the security token is the
      lower-case text of a fresh Guid. */
  function NewResponse(surveyId: Id, channelId: Option<Id>, respondentIp: Option<string>,
                       responseId: Id, token: Id, now: Instant): SurveyResponse {
    SurveyResponse(responseId, surveyId, channelId, None, now, "InProgress",
                   Some(Guids.Format(token)), respondentIp, false)
  }

  /** CreateNewResponseAsync. The two fresh Guids and the clock are
      parameters. On success the new response's id is returned. */
  method CreateNewResponse(db: Database, surveyId: Id, channelId: Option<Id>, respondentIp: Option<string>,
                           responseId: Id, token: Id, now: Instant)
    returns (out: Outcome, created: Option<Id>)
    modifies db`responses
    ensures match AdmissionFailure(db.surveys, old(db.responses), surveyId, now)
            case Some(message) =>
              out == Failed(message) && created == None && db.responses == old(db.responses)
            case None =>
              && out == Succeeded("Response created successfully")
              && created == Some(responseId)
              && db.responses == old(db.responses) + [NewResponse(surveyId, channelId, respondentIp, responseId, token, now)]
  {
    match AdmissionFailure(db.surveys, db.responses, surveyId, now) {
      case Some(message) =>
        out := Failed(message);
        created := None;
      case None =>
        db.responses := db.responses + [NewResponse(surveyId, channelId, respondentIp, responseId, token, now)];
        out := Succeeded("Response created successfully");
        created := Some(responseId);
    }
  }

  /** Admitting a response counts it against the quota: with a quota of q,
      after an admission the survey has one more response, at most q. */
  lemma AdmissionCountsTowardQuota(surveys: seq<Survey>, responses: seq<SurveyResponse>, surveyId: Id,
                                   channelId: Option<Id>, respondentIp: Option<string>, responseId: Id, token: Id, now: Instant)
    requires AdmissionFailure(surveys, responses, surveyId, now).None?
    ensures var after := responses + [NewResponse(surveyId, channelId, respondentIp, responseId, token, now)];
            && ResponseCount(after, surveyId) == ResponseCount(responses, surveyId) + 1
            && (SurveyById(surveys, surveyId).value.responseQuota.Some? ==>
                  ResponseCount(after, surveyId) <= SurveyById(surveys, surveyId).value.responseQuota.value)
  {
    var added := NewResponse(surveyId, channelId, respondentIp, responseId, token, now);
    Linq.FilterAppend(responses, [added], ResponseToSurvey(surveyId));
  }

  // ---- Checking a respondent's token ----

  /** ValidateResponseAccessAsync: the response exists and carries this
      token. */
  predicate HasAccess(responses: seq<SurveyResponse>, responseId: Id, token: string) {
    match FindIndex(responses, ResponseIs(responseId))
    case Some(i) => responses[i].anonToken == Some(token)
    case None => false
  }

  /** A respondent holding the token handed out with a new response can
      reach it, and nobody holding another token can, provided the new id
      was not in use. */
  lemma CreatedResponseAccess(responses: seq<SurveyResponse>, surveyId: Id, channelId: Option<Id>,
                              respondentIp: Option<string>, responseId: Id, token: Id, now: Instant, other: string)
    requires forall i :: 0 <= i < |responses| ==> responses[i].responseId != responseId
    ensures var after := responses + [NewResponse(surveyId, channelId, respondentIp, responseId, token, now)];
            && HasAccess(after, responseId, Guids.Format(token))
            && (other != Guids.Format(token) ==> !HasAccess(after, responseId, other))
  {
    var after := responses + [NewResponse(surveyId, channelId, respondentIp, responseId, token, now)];
    FindIndexFirst(after, ResponseIs(responseId), |responses|);
  }

  // ---- Saving an answer ----

  /** The answer form (SubmitAnswerViewModel). */
  datatype AnswerForm = AnswerForm(
    responseId: Id,
    questionId: Id,
    answerText: Option<string>,
    numericValue: Option<real>,
    dateValue: Option<Instant>,
    selectedOptionId: Option<Id>,
    selectedOptionIds: seq<Id>,
    additionalText: Option<string>)

  /** The form carries a free-form value: non-empty text, a number or a
      date. */
  predicate HasValue(form: AnswerForm) {
    (form.answerText.Some? && form.answerText.value != "") || form.numericValue.Some? || form.dateValue.Some?
  }

  /** The options the form selects: the single choice when there is one,
      otherwise the list of choices. */
  function Chosen(form: AnswerForm): seq<Id> {
    if form.selectedOptionId.Some? then [form.selectedOptionId.value] else form.selectedOptionIds
  }

  /** The selection rows for a list of chosen options, in order. */
  function Picks(form: AnswerForm, ids: seq<Id>): (r: seq<Selection>)
    ensures |r| == |ids|
    ensures forall i :: 0 <= i < |ids| ==>
              r[i] == Selection(form.responseId, form.questionId, ids[i], None, form.additionalText)
  {
    seq(|ids|, i requires 0 <= i < |ids| => Selection(form.responseId, form.questionId, ids[i], None, form.additionalText))
  }

  /** Every selection except those of one (response, question) pair. */
  function OtherPairs(responseId: Id, questionId: Id): Selection -> bool {
    (a: Selection) => !(a.responseId == responseId && a.questionId == questionId)
  }

  /** The selections after saving `form`: the pair's old rows removed, its
      new rows appended. */
  function SavedSelections(selections: seq<Selection>, form: AnswerForm): seq<Selection> {
    Linq.Filter(selections, OtherPairs(form.responseId, form.questionId)) + Picks(form, Chosen(form))
  }

  /** The answer row the form writes. */
  function AnswerRow(form: AnswerForm, now: Instant): ResponseAnswer {
    ResponseAnswer(form.responseId, form.questionId, form.answerText, form.numericValue, form.dateValue, now)
  }

  /** ResponseAnswerRepository.AddOrUpdateAnswerAsync: overwrite the pair's
      row if there is one, else append one. */
  function Upsert(answers: seq<ResponseAnswer>, row: ResponseAnswer): (r: seq<ResponseAnswer>)
    ensures |r| == |answers| || r == answers + [row]
  {
    match FindIndex(answers, AnswerOf(row.responseId, row.questionId))
    case Some(i) => answers[i := row]
    case None => answers + [row]
  }

  /** The answers after saving `form`: only a form with a value writes. */
  function SavedAnswers(answers: seq<ResponseAnswer>, form: AnswerForm, now: Instant): seq<ResponseAnswer> {
    if HasValue(form) then Upsert(answers, AnswerRow(form, now)) else answers
  }

  /** Stamps a response as updated now, if it exists. */
  function Touch(responses: seq<SurveyResponse>, responseId: Id, now: Instant): seq<SurveyResponse> {
    match FindIndex(responses, ResponseIs(responseId))
    case Some(i) => responses[i := responses[i].(lastUpdatedAt := now)]
    case None => responses
  }

  /** SaveAnswerAsync: clear the pair's selections, write the free-form
      value, add the chosen options one by one and stamp the response. */
  method SaveAnswer(db: Database, form: AnswerForm, now: Instant) returns (out: Outcome)
    modifies db`selections, db`answers, db`responses
    ensures out == Succeeded("Answer saved successfully")
    ensures db.selections == SavedSelections(old(db.selections), form)
    ensures db.answers == SavedAnswers(old(db.answers), form, now)
    ensures db.responses == Touch(old(db.responses), form.responseId, now)
  {
    var kept := Linq.Filter(db.selections, OtherPairs(form.responseId, form.questionId));
    db.selections := kept;
    if HasValue(form) {
      db.answers := Upsert(db.answers, AnswerRow(form, now));
    }
    if form.selectedOptionId.Some? {
      assert Picks(form, Chosen(form))
          == [Selection(form.responseId, form.questionId, form.selectedOptionId.value, None, form.additionalText)];
      db.selections := db.selections
        + [Selection(form.responseId, form.questionId, form.selectedOptionId.value, None, form.additionalText)];
    } else {
      var ids := form.selectedOptionIds;
      var k := 0;
      while k < |ids|
        invariant 0 <= k <= |ids|
        invariant db.selections == kept + Picks(form, ids[..k])
        invariant db.answers == SavedAnswers(old(db.answers), form, now)
        invariant db.responses == old(db.responses)
      {
        PicksGrow(form, ids, k);
        db.selections := db.selections + [Selection(form.responseId, form.questionId, ids[k], None, form.additionalText)];
        k := k + 1;
      }
      assert ids[..k] == ids;
    }
    match FindIndex(db.responses, ResponseIs(form.responseId)) {
      case Some(i) =>
        db.responses := db.responses[i := db.responses[i].(lastUpdatedAt := now)];
      case None =>
    }
    out := Succeeded("Answer saved successfully");
  }

  /** One more chosen option adds its row at the end. */
  lemma PicksGrow(form: AnswerForm, ids: seq<Id>, k: nat)
    requires k < |ids|
    ensures Picks(form, ids[..k + 1])
         == Picks(form, ids[..k]) + [Selection(form.responseId, form.questionId, ids[k], None, form.additionalText)]
  {
  }

  /** After saving, the pair's selections are exactly the chosen options,
      and every other pair's selections are as they were. */
  lemma SavedSelectionsReplacePair(selections: seq<Selection>, form: AnswerForm, responseId: Id, questionId: Id)
    ensures Linq.Filter(SavedSelections(selections, form), SelectionOf(responseId, questionId))
         == if responseId == form.responseId && questionId == form.questionId then Picks(form, Chosen(form))
            else Linq.Filter(selections, SelectionOf(responseId, questionId))
  {
    var kept := Linq.Filter(selections, OtherPairs(form.responseId, form.questionId));
    var picks := Picks(form, Chosen(form));
    var p := SelectionOf(responseId, questionId);
    Linq.FilterAppend(kept, picks, p);
    if responseId == form.responseId && questionId == form.questionId {
      Linq.FilterAll(picks, p);
      Linq.FilterNone(kept, p);
    } else {
      Linq.FilterFilter(selections, OtherPairs(form.responseId, form.questionId), p);
      Linq.FilterNone(picks, p);
    }
  }

  /** Saving the same form twice leaves the same selections as saving it
      once. */
  lemma SaveSelectionsIdempotent(selections: seq<Selection>, form: AnswerForm)
    ensures SavedSelections(SavedSelections(selections, form), form) == SavedSelections(selections, form)
  {
    var o := OtherPairs(form.responseId, form.questionId);
    var kept := Linq.Filter(selections, o);
    var picks := Picks(form, Chosen(form));
    assert SavedSelections(selections, form) == kept + picks;
    Linq.FilterAppend(kept, picks, o);
    Linq.FilterFilter(selections, o, o);
    assert forall i :: 0 <= i < |picks| ==> !o(picks[i]);
    Linq.FilterNone(picks, o);
    assert Linq.Filter(kept + picks, o) == kept;
  }

  /** Last write wins: after an upsert the pair's row, found the way the
      repository finds it, is the row just written, and no other row
      changes. */
  lemma UpsertWritesRow(answers: seq<ResponseAnswer>, row: ResponseAnswer)
    ensures var r := Upsert(answers, row);
            FindIndex(r, AnswerOf(row.responseId, row.questionId)).Some?
            && r[FindIndex(r, AnswerOf(row.responseId, row.questionId)).value] == row
    ensures var r := Upsert(answers, row);
            forall i :: 0 <= i < |answers| && !AnswerOf(row.responseId, row.questionId)(answers[i]) ==> r[i] == answers[i]
  {
    var p := AnswerOf(row.responseId, row.questionId);
    var r := Upsert(answers, row);
    match FindIndex(answers, p)
    case Some(i) =>
      assert forall j :: 0 <= j < i ==> r[j] == answers[j];
      assert FindIndex(r, p) == Some(i) by {
        FindIndexFirst(r, p, i);
      }
    case None =>
      FindIndexFirst(r, p, |answers|);
  }

  /** Writing the same row twice is writing it once. */
  lemma UpsertIdempotent(answers: seq<ResponseAnswer>, row: ResponseAnswer)
    ensures Upsert(Upsert(answers, row), row) == Upsert(answers, row)
  {
    var r := Upsert(answers, row);
    UpsertWritesRow(answers, row);
    var k := FindIndex(r, AnswerOf(row.responseId, row.questionId)).value;
    assert r[k := row] == r;
  }

  // ---- Completing a response ----

  /** The responses after CompleteResponseAsync marks one as submitted. */
  function Completed(responses: seq<SurveyResponse>, i: nat, now: Instant): seq<SurveyResponse>
    requires i < |responses|
  {
    responses[i := responses[i].(status := "Submitted", submittedAt := Some(now), lastUpdatedAt := now)]
  }

  /** CompleteResponseAsync. */
  method CompleteResponse(db: Database, responseId: Id, now: Instant) returns (out: Outcome)
    modifies db`responses
    ensures match FindIndex(old(db.responses), ResponseIs(responseId))
            case None => out == Failed("Response not found") && db.responses == old(db.responses)
            case Some(i) => out == Succeeded("Survey completed successfully") && db.responses == Completed(old(db.responses), i, now)
  {
    match FindIndex(db.responses, ResponseIs(responseId)) {
      case None =>
        out := Failed("Response not found");
      case Some(i) =>
        db.responses := Completed(db.responses, i, now);
        out := Succeeded("Survey completed successfully");
    }
  }

  /** A completed response is submitted at `now`, keeps its token (so the
      respondent keeps access), and no other response changes. */
  lemma CompletionSubmits(responses: seq<SurveyResponse>, i: nat, now: Instant, token: string)
    requires i < |responses|
    ensures var r := Completed(responses, i, now);
            && |r| == |responses|
            && r[i].status == "Submitted" && r[i].submittedAt == Some(now)
            && r[i].responseId == responses[i].responseId && r[i].surveyId == responses[i].surveyId
            && (forall j :: 0 <= j < |r| && j != i ==> r[j] == responses[j])
            && (HasAccess(r, responses[i].responseId, token) <==> HasAccess(responses, responses[i].responseId, token))
  {
    var r := Completed(responses, i, now);
    var p := ResponseIs(responses[i].responseId);
    var k := FindIndex(responses, p).value;
    assert forall j :: 0 <= j < |r| ==> (p(r[j]) <==> p(responses[j]));
    FindIndexFirst(r, p, k);
  }
}
