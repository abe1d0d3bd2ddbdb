/** Surveys themselves (SurveyService): creating one, the "my surveys" list
    with its filter and counts, owner-only edits and deletion, and the
    settings page with its validation. */
module SurveyService {
  import opened Wrappers
  import opened Store
  import Linq

  const Draft: string := "Draft"
  const Published: string := "Published"

  /** The basic survey form (CreateSurveyDto). */
  datatype SurveyForm = SurveyForm(title: string, description: Option<string>, isAnonymous: bool,
                                   defaultLanguage: Option<string>)

  // ---- Creating ----

  /** The survey CreateSurveyAsync stores: a draft, in English unless the
      form names a language. */
  function NewSurvey(form: SurveyForm, ownerId: Id, surveyId: Id, now: Instant): Survey {
    Survey(surveyId, ownerId, form.title, form.description, Some(form.defaultLanguage.GetOr("en")),
           form.isAnonymous, Draft, None, None, None, None, now, now)
  }

  /** The collaboration that makes the creator the survey's Owner, granted
      by themselves. */
  function OwnerCollaboration(surveyId: Id, ownerId: Id, now: Instant): Collaborator {
    Collaborator(surveyId, ownerId, "Owner", now, Some(ownerId))
  }

  /** CreateSurveyAsync. The new id and the clock are parameters. */
  method CreateSurvey(db: Database, form: SurveyForm, ownerId: Id, surveyId: Id, now: Instant) returns (out: Outcome)
    modifies db`surveys, db`collaborators
    ensures out == Succeeded("Survey created successfully")
    ensures db.surveys == old(db.surveys) + [NewSurvey(form, ownerId, surveyId, now)]
    ensures db.collaborators == old(db.collaborators) + [OwnerCollaboration(surveyId, ownerId, now)]
  {
    db.surveys := db.surveys + [NewSurvey(form, ownerId, surveyId, now)];
    db.collaborators := db.collaborators + [OwnerCollaboration(surveyId, ownerId, now)];
    out := Succeeded("Survey created successfully");
  }

  /** After creating a survey under an unused id, its creator owns it in
      both senses the services check: as the survey's owner, and through an
      Owner collaboration, which also lets them edit its questions and
      rules. */
  lemma CreatorOwnsNewSurvey(surveys: seq<Survey>, collaborators: seq<Collaborator>, form: SurveyForm,
                             ownerId: Id, surveyId: Id, now: Instant)
    requires forall i :: 0 <= i < |collaborators| ==> collaborators[i].surveyId != surveyId
    ensures OwnsSurvey(surveys + [NewSurvey(form, ownerId, surveyId, now)], surveyId, ownerId)
    ensures RoleOf(collaborators + [OwnerCollaboration(surveyId, ownerId, now)], surveyId, ownerId) == Some("Owner")
    ensures CanEdit(collaborators + [OwnerCollaboration(surveyId, ownerId, now)], surveyId, ownerId)
  {
    var s := surveys + [NewSurvey(form, ownerId, surveyId, now)];
    assert s[|surveys|].surveyId == surveyId && s[|surveys|].ownerId == ownerId;
    FindIndexFirst(collaborators + [OwnerCollaboration(surveyId, ownerId, now)], CollaboratorIs(surveyId, ownerId), |collaborators|);
  }

  // ---- The "my surveys" list ----

  /** One row of the list (SurveyListItemViewModel): the survey, the user's
      role on it and its two counts. */
  datatype ListItem = ListItem(survey: Survey, myRole: string, questionCount: nat, responseCount: nat)

  /** The list page (MySurveysViewModel); the counts cover all of the
      user's surveys, whatever the filter. */
  datatype MySurveysView = MySurveysView(
    currentFilter: string,
    surveys: seq<ListItem>,
    total: nat,
    owned: nat,
    shared: nat,
    drafts: nat,
    published: nat)

  function CollaborationsOf(userId: Id): Collaborator -> bool { (c: Collaborator) => c.userId == userId }
  function LatestGrantFirst(c: Collaborator): int { -c.grantedAt }
  function NewestFirst(s: Survey): int { -s.updatedAt }

  function OnSurvey(surveyId: Id): Collaborator -> bool { (c: Collaborator) => c.surveyId == surveyId }
  function OwnedBy(userId: Id): Survey -> bool { (s: Survey) => s.ownerId == userId }
  function SharedWith(userId: Id): Survey -> bool { (s: Survey) => s.ownerId != userId }
  function WithStatus(status: string): Survey -> bool { (s: Survey) => s.status == status }

  /** SurveyCollaboratorRepository.GetByUserIdAsync: the user's
      collaborations, most recently granted first. */
  function UserCollaborations(collaborators: seq<Collaborator>, userId: Id): seq<Collaborator> {
    Linq.SortBy(Linq.Filter(collaborators, CollaborationsOf(userId)), LatestGrantFirst)
  }

  /** The surveys the collaborations name, in collaboration order, skipping
      ids no survey has. */
  function SurveysOf(surveys: seq<Survey>, collaborations: seq<Collaborator>): seq<Survey> {
    if |collaborations| == 0 then []
    else
      SurveysOf(surveys, collaborations[..|collaborations| - 1])
      + (match SurveyById(surveys, collaborations[|collaborations| - 1].surveyId)
         case Some(s) => [s]
         case None => [])
  }

  /** The filter switch: owned, shared, draft, published, and anything else
      keeps every survey. */
  function Filtered(surveys: seq<Survey>, userId: Id, filter: string): seq<Survey> {
    match filter
    case "owned" => Linq.Filter(surveys, OwnedBy(userId))
    case "shared" => Linq.Filter(surveys, SharedWith(userId))
    case "draft" => Linq.Filter(surveys, WithStatus(Draft))
    case "published" => Linq.Filter(surveys, WithStatus(Published))
    case _ => surveys
  }

  /** The role shown on a row: that of the first collaboration on the
      survey. */
  function RoleIn(collaborations: seq<Collaborator>, surveyId: Id): string {
    match FindIndex(collaborations, OnSurvey(surveyId))
    case Some(j) => collaborations[j].role
    case None => ""
  }

  function Item(survey: Survey, collaborations: seq<Collaborator>, questions: seq<Question>,
                responses: seq<SurveyResponse>): ListItem {
    ListItem(survey, RoleIn(collaborations, survey.surveyId),
             Linq.Count(questions, QuestionInSurvey(survey.surveyId)), ResponseCount(responses, survey.surveyId))
  }

  /** One row per survey, in the given order. */
  function Rows(ordered: seq<Survey>, collaborations: seq<Collaborator>, questions: seq<Question>,
                responses: seq<SurveyResponse>): (r: seq<ListItem>)
    ensures |r| == |ordered|
    ensures forall k :: 0 <= k < |r| ==> r[k].survey == ordered[k]
  {
    seq(|ordered|, k requires 0 <= k < |ordered| => Item(ordered[k], collaborations, questions, responses))
  }

  /** The page around the rows, counting over all of the user's surveys. */
  function Page(filter: string, userId: Id, mine: seq<Survey>, rows: seq<ListItem>): MySurveysView {
    MySurveysView(filter, rows, |mine|,
                  Linq.Count(mine, OwnedBy(userId)), Linq.Count(mine, SharedWith(userId)),
                  Linq.Count(mine, WithStatus(Draft)), Linq.Count(mine, WithStatus(Published)))
  }

  /** What GetMySurveysAsync returns, as a function of the tables. */
  function MySurveys(surveys: seq<Survey>, questions: seq<Question>, responses: seq<SurveyResponse>,
                     collaborators: seq<Collaborator>, userId: Id, filter: string): MySurveysView
  {
    var collaborations := UserCollaborations(collaborators, userId);
    var mine := SurveysOf(surveys, collaborations);
    Page(filter, userId, mine, Rows(Linq.SortBy(Filtered(mine, userId, filter), NewestFirst), collaborations, questions, responses))
  }

  /** GetMySurveysAsync: look up the survey of each collaboration, filter,
      order newest first and build one row per survey. */
  method GetMySurveys(db: Database, userId: Id, filter: string) returns (view: MySurveysView)
    ensures view == MySurveys(db.surveys, db.questions, db.responses, db.collaborators, userId, filter)
  {
    var collaborations := UserCollaborations(db.collaborators, userId);
    var mine: seq<Survey> := [];
    for i := 0 to |collaborations|
      invariant mine == SurveysOf(db.surveys, collaborations[..i])
    {
      assert collaborations[..i + 1][..i] == collaborations[..i];
      var found := SurveyById(db.surveys, collaborations[i].surveyId);
      if found.Some? {
        mine := mine + [found.value];
      }
    }
    assert collaborations[..|collaborations|] == collaborations;
    var ordered := Linq.SortBy(Filtered(mine, userId, filter), NewestFirst);
    var items := BuildRows(ordered, collaborations, db.questions, db.responses);
    view := Page(filter, userId, mine, items);
  }

  /** The loop that builds the rows of the list. */
  method BuildRows(ordered: seq<Survey>, collaborations: seq<Collaborator>, questions: seq<Question>,
                   responses: seq<SurveyResponse>) returns (items: seq<ListItem>)
    ensures items == Rows(ordered, collaborations, questions, responses)
  {
    items := [];
    for i := 0 to |ordered|
      invariant |items| == i
      invariant forall k :: 0 <= k < i ==> items[k] == Item(ordered[k], collaborations, questions, responses)
    {
      items := items + [Item(ordered[i], collaborations, questions, responses)];
    }
  }

  /** Every survey is either owned by the user or shared with them, so the
      two counts add up to the total. */
  lemma OwnedPlusSharedIsTotal(surveys: seq<Survey>, questions: seq<Question>, responses: seq<SurveyResponse>,
                               collaborators: seq<Collaborator>, userId: Id, filter: string)
    ensures var v := MySurveys(surveys, questions, responses, collaborators, userId, filter);
            v.owned + v.shared == v.total
  {
    var mine := SurveysOf(surveys, UserCollaborations(collaborators, userId));
    Linq.CountSplit(mine, OwnedBy(userId), SharedWith(userId));
  }

  /** The rows are ordered by last update, newest first, and each row's
      survey passes the filter. */
  lemma ListNewestFirstAndFiltered(surveys: seq<Survey>, questions: seq<Question>, responses: seq<SurveyResponse>,
                                   collaborators: seq<Collaborator>, userId: Id, filter: string)
    ensures var v := MySurveys(surveys, questions, responses, collaborators, userId, filter);
            forall i, j :: 0 <= i < j < |v.surveys| ==> v.surveys[i].survey.updatedAt >= v.surveys[j].survey.updatedAt
    ensures var v := MySurveys(surveys, questions, responses, collaborators, userId, filter);
            forall i :: 0 <= i < |v.surveys| ==> Passes(v.surveys[i].survey, userId, filter)
  {
    var v := MySurveys(surveys, questions, responses, collaborators, userId, filter);
    var mine := SurveysOf(surveys, UserCollaborations(collaborators, userId));
    var filtered := Filtered(mine, userId, filter);
    var ordered := Linq.SortBy(filtered, NewestFirst);
    forall i, j | 0 <= i < j < |v.surveys|
      ensures v.surveys[i].survey.updatedAt >= v.surveys[j].survey.updatedAt
    {
      assert NewestFirst(ordered[i]) <= NewestFirst(ordered[j]);
    }
    forall i | 0 <= i < |v.surveys|
      ensures Passes(v.surveys[i].survey, userId, filter)
    {
      assert ordered[i] in multiset(ordered);
      assert ordered[i] in filtered;
      FilteredPass(mine, userId, filter, ordered[i]);
    }
  }

  /** The filter as a condition on one survey. */
  predicate Passes(s: Survey, userId: Id, filter: string) {
    match filter
    case "owned" => s.ownerId == userId
    case "shared" => s.ownerId != userId
    case "draft" => s.status == Draft
    case "published" => s.status == Published
    case _ => true
  }

  /** The filter keeps exactly the surveys that pass it. */
  lemma FilteredPass(mine: seq<Survey>, userId: Id, filter: string, s: Survey)
    ensures s in Filtered(mine, userId, filter) <==> s in mine && Passes(s, userId, filter)
  {
    if s in mine {
      var i :| 0 <= i < |mine| && mine[i] == s;
    }
  }

  /** Every listed survey came from one of the user's collaborations, so
      its row always shows a role. */
  lemma {:induction false} SurveysOfCollaborations(surveys: seq<Survey>, collaborations: seq<Collaborator>, k: nat)
    requires k < |SurveysOf(surveys, collaborations)|
    ensures exists j :: 0 <= j < |collaborations| && collaborations[j].surveyId == SurveysOf(surveys, collaborations)[k].surveyId
  {
    var n := |collaborations|;
    var init := collaborations[..n - 1];
    var prev := SurveysOf(surveys, init);
    if k < |prev| {
      SurveysOfCollaborations(surveys, init, k);
      var j :| 0 <= j < |init| && init[j].surveyId == prev[k].surveyId;
      assert collaborations[j] == init[j];
    } else {
      assert collaborations[n - 1].surveyId == SurveysOf(surveys, collaborations)[k].surveyId;
    }
  }

  /** The row's role is that of one of the user's own collaborations on the
      row's survey. */
  predicate ShowsOwnRole(collaborators: seq<Collaborator>, userId: Id, row: ListItem) {
    exists c :: c in collaborators && c.userId == userId && c.surveyId == row.survey.surveyId && c.role == row.myRole
  }

  /** The role on each row is that of one of the user's own collaborations
      on the row's survey: no row is shown without one. */
  lemma ListedRowsShowRole(surveys: seq<Survey>, questions: seq<Question>, responses: seq<SurveyResponse>,
                           collaborators: seq<Collaborator>, userId: Id, filter: string)
    ensures var v := MySurveys(surveys, questions, responses, collaborators, userId, filter);
            forall i :: 0 <= i < |v.surveys| ==> ShowsOwnRole(collaborators, userId, v.surveys[i])
  {
    var v := MySurveys(surveys, questions, responses, collaborators, userId, filter);
    forall i | 0 <= i < |v.surveys|
      ensures ShowsOwnRole(collaborators, userId, v.surveys[i])
    {
      RowShowsRole(surveys, questions, responses, collaborators, userId, filter, i);
    }
  }

  /** ListedRowsShowRole for the row at position `i`. */
  lemma RowShowsRole(surveys: seq<Survey>, questions: seq<Question>, responses: seq<SurveyResponse>,
                     collaborators: seq<Collaborator>, userId: Id, filter: string, i: nat)
    requires i < |MySurveys(surveys, questions, responses, collaborators, userId, filter).surveys|
    ensures ShowsOwnRole(collaborators, userId, MySurveys(surveys, questions, responses, collaborators, userId, filter).surveys[i])
  {
    var collaborations := UserCollaborations(collaborators, userId);
    var filtered := Filtered(SurveysOf(surveys, collaborations), userId, filter);
    var ordered := Linq.SortBy(filtered, NewestFirst);
    var rows := Rows(ordered, collaborations, questions, responses);
    assert MySurveys(surveys, questions, responses, collaborators, userId, filter).surveys == rows;
    var s := ordered[i];
    assert s in multiset(ordered);
    assert s in filtered;
    SurveyShowsRole(surveys, collaborators, userId, filter, s);
    assert rows[i] == Item(s, collaborations, questions, responses);
  }

  /** A listed survey shows the role of one of the user's collaborations on it. */
  lemma SurveyShowsRole(surveys: seq<Survey>, collaborators: seq<Collaborator>, userId: Id, filter: string, s: Survey)
    requires s in Filtered(SurveysOf(surveys, UserCollaborations(collaborators, userId)), userId, filter)
    ensures exists c :: c in collaborators && c.userId == userId && c.surveyId == s.surveyId
                        && c.role == RoleIn(UserCollaborations(collaborators, userId), s.surveyId)
  {
    FilteredComesFromCollaboration(surveys, UserCollaborations(collaborators, userId), userId, filter, s);
    RoleFromCollaboration(collaborators, userId, s.surveyId);
  }

  /** A survey that survives the filter was named by a collaboration. */
  lemma FilteredComesFromCollaboration(surveys: seq<Survey>, collaborations: seq<Collaborator>, userId: Id,
                                       filter: string, s: Survey)
    requires s in Filtered(SurveysOf(surveys, collaborations), userId, filter)
    ensures exists j :: 0 <= j < |collaborations| && collaborations[j].surveyId == s.surveyId
  {
    var mine := SurveysOf(surveys, collaborations);
    FilteredPass(mine, userId, filter, s);
    var k :| 0 <= k < |mine| && mine[k] == s;
    SurveysOfCollaborations(surveys, collaborations, k);
  }

  /** A survey named by one of the user's collaborations shows the role of
      such a collaboration. */
  lemma RoleFromCollaboration(collaborators: seq<Collaborator>, userId: Id, surveyId: Id)
    requires var cs := UserCollaborations(collaborators, userId);
             exists j :: 0 <= j < |cs| && cs[j].surveyId == surveyId
    ensures exists c :: c in collaborators && c.userId == userId && c.surveyId == surveyId
                        && c.role == RoleIn(UserCollaborations(collaborators, userId), surveyId)
  {
    var collaborations := UserCollaborations(collaborators, userId);
    var j :| 0 <= j < |collaborations| && collaborations[j].surveyId == surveyId;
    assert OnSurvey(surveyId)(collaborations[j]);
    var f := FindIndex(collaborations, OnSurvey(surveyId)).value;
    var c := collaborations[f];
    assert c in multiset(collaborations);
    assert c in Linq.Filter(collaborators, CollaborationsOf(userId));
  }

  // ---- Owner-only edits and deletion ----

  /** UpdateSurveyAsync: owner check first, then the lookup. */
  method UpdateSurvey(db: Database, surveyId: Id, form: SurveyForm, userId: Id, now: Instant) returns (out: Outcome)
    modifies db`surveys
    ensures !OwnsSurvey(old(db.surveys), surveyId, userId) ==>
              out == Failed("Only the survey owner can update survey settings") && db.surveys == old(db.surveys)
    ensures OwnsSurvey(old(db.surveys), surveyId, userId) ==>
              var i := FindIndex(old(db.surveys), SurveyIs(surveyId)).value;
              && out == Succeeded("Survey updated successfully")
              && db.surveys == old(db.surveys)[i := old(db.surveys)[i].(title := form.title, description := form.description,
                                                 isAnonymous := form.isAnonymous,
                                                 defaultLanguage := Some(form.defaultLanguage.GetOr("en")), updatedAt := now)]
  {
    if !OwnsSurvey(db.surveys, surveyId, userId) {
      out := Failed("Only the survey owner can update survey settings");
      return;
    }
    var found := FindIndex(db.surveys, SurveyIs(surveyId));
    var i := found.value;
    db.surveys := db.surveys[i := db.surveys[i].(title := form.title, description := form.description,
                                                 isAnonymous := form.isAnonymous,
                                                 defaultLanguage := Some(form.defaultLanguage.GetOr("en")), updatedAt := now)];
    out := Succeeded("Survey updated successfully");
  }

  /** DeleteSurveyAsync. */
  method DeleteSurvey(db: Database, surveyId: Id, userId: Id) returns (out: Outcome)
    modifies db`surveys
    ensures !OwnsSurvey(old(db.surveys), surveyId, userId) ==>
              out == Failed("Only the survey owner can delete the survey") && db.surveys == old(db.surveys)
    ensures OwnsSurvey(old(db.surveys), surveyId, userId) ==>
              && out == Succeeded("Survey deleted successfully")
              && db.surveys == RemoveAt(old(db.surveys), FindIndex(old(db.surveys), SurveyIs(surveyId)).value)
  {
    if !OwnsSurvey(db.surveys, surveyId, userId) {
      out := Failed("Only the survey owner can delete the survey");
      return;
    }
    var i := FindIndex(db.surveys, SurveyIs(surveyId)).value;
    db.surveys := RemoveAt(db.surveys, i);
    out := Succeeded("Survey deleted successfully");
  }

  /** The survey a user owns is the one an owner-only edit or deletion
      finds: the owner check guarantees that the lookup by id succeeds, so
      "Survey not found" is never reported to an owner. */
  lemma OwnerFindsSurvey(surveys: seq<Survey>, surveyId: Id, userId: Id)
    requires OwnsSurvey(surveys, surveyId, userId)
    ensures FindIndex(surveys, SurveyIs(surveyId)).Some?
    ensures SurveyById(surveys, surveyId).Some?
  {
    var i :| 0 <= i < |surveys| && surveys[i].surveyId == surveyId && surveys[i].ownerId == userId;
    assert SurveyIs(surveyId)(surveys[i]);
  }

  // ---- Settings ----

  /** Who may see and change the settings: the survey's owner, or a user
      whose collaboration has the Owner role. */
  predicate SettingsAccess(survey: Survey, collaborators: seq<Collaborator>, userId: Id) {
    survey.ownerId == userId || RoleOf(collaborators, survey.surveyId, userId) == Some("Owner")
  }

  /** The settings page (SurveySettingsViewModel). */
  datatype SettingsView = SettingsView(survey: Survey, questionCount: nat, responseCount: nat)

  /** GetSurveySettingsAsync. */
  function SurveySettings(surveys: seq<Survey>, questions: seq<Question>, responses: seq<SurveyResponse>,
                          collaborators: seq<Collaborator>, surveyId: Id, userId: Id): (r: Option<SettingsView>)
    ensures r.Some? <==> SurveyById(surveys, surveyId).Some? && SettingsAccess(SurveyById(surveys, surveyId).value, collaborators, userId)
    ensures r.Some? ==> r.value.survey.surveyId == surveyId && r.value.responseCount == ResponseCount(responses, surveyId)
  {
    match SurveyById(surveys, surveyId)
    case None => None
    case Some(survey) =>
      if !SettingsAccess(survey, collaborators, userId) then None
      else Some(SettingsView(survey, Linq.Count(questions, QuestionInSurvey(surveyId)), ResponseCount(responses, surveyId)))
  }

  /** The settings form. */
  datatype SettingsForm = SettingsForm(
    surveyId: Id,
    title: string,
    description: Option<string>,
    defaultLanguage: Option<string>,
    status: string,
    isAnonymous: bool,
    openAt: Option<Instant>,
    closeAt: Option<Instant>,
    responseQuota: Option<int>,
    quotaBehavior: Option<string>)

  /** The checks of UpdateSurveySettingsAsync, in source order: the index of
      the survey to change, or the first failure's message. */
  function CheckSettings(surveys: seq<Survey>, responses: seq<SurveyResponse>, collaborators: seq<Collaborator>,
                         form: SettingsForm, userId: Id): (r: Result<nat, string>)
    ensures r.Ok? ==> r.value < |surveys| && surveys[r.value].surveyId == form.surveyId
  {
    match FindIndex(surveys, SurveyIs(form.surveyId))
    case None => Err("Survey not found")
    case Some(i) =>
      assert SurveyIs(form.surveyId)(surveys[i]);
      match SettingsRefusal(surveys[i], responses, collaborators, form, userId)
      case Some(message) => Err(message)
      case None => Ok(i)
  }

  /** The checks made once the survey is found: the first one that fails. */
  function SettingsRefusal(survey: Survey, responses: seq<SurveyResponse>, collaborators: seq<Collaborator>,
                           form: SettingsForm, userId: Id): Option<string>
  {
    if !SettingsAccess(survey, collaborators, userId) then Some("Only survey owners can update settings")
    else if form.closeAt.Some? && form.openAt.Some? && form.closeAt.value <= form.openAt.value then
      Some("Closing date must be after opening date")
    else if survey.status != Draft && form.status == Draft && ResponseCount(responses, form.surveyId) > 0 then
      Some("Cannot change status to Draft for a survey that already has responses")
    else None
  }

  /** The survey after its settings are saved. */
  function WithSettings(survey: Survey, form: SettingsForm, now: Instant): Survey {
    survey.(title := form.title, description := form.description, defaultLanguage := form.defaultLanguage,
            status := form.status, isAnonymous := form.isAnonymous, openAt := form.openAt, closeAt := form.closeAt,
            responseQuota := form.responseQuota, quotaBehavior := form.quotaBehavior, updatedAt := now)
  }

  /** UpdateSurveySettingsAsync. */
  method UpdateSurveySettings(db: Database, form: SettingsForm, userId: Id, now: Instant) returns (out: Outcome)
    modifies db`surveys
    ensures match CheckSettings(old(db.surveys), db.responses, db.collaborators, form, userId)
            case Err(message) => out == Failed(message) && db.surveys == old(db.surveys)
            case Ok(i) =>
              && out == Succeeded("Survey settings updated successfully")
              && db.surveys == old(db.surveys)[i := WithSettings(old(db.surveys)[i], form, now)]
  {
    match CheckSettings(db.surveys, db.responses, db.collaborators, form, userId) {
      case Err(message) =>
        out := Failed(message);
      case Ok(i) =>
        db.surveys := db.surveys[i := WithSettings(db.surveys[i], form, now)];
        out := Succeeded("Survey settings updated successfully");
    }
  }

  /** Saved settings come from someone allowed to see them, leave the
      opening window non-empty when both ends are set, and never take a
      survey that has responses back to Draft. */
  lemma SettingsAccepted(surveys: seq<Survey>, responses: seq<SurveyResponse>, collaborators: seq<Collaborator>,
                         form: SettingsForm, userId: Id, questions: seq<Question>, now: Instant)
    requires CheckSettings(surveys, responses, collaborators, form, userId).Ok?
    ensures SurveySettings(surveys, questions, responses, collaborators, form.surveyId, userId).Some?
    ensures var i := CheckSettings(surveys, responses, collaborators, form, userId).value;
            var after := WithSettings(surveys[i], form, now);
            && (after.openAt.Some? && after.closeAt.Some? ==> after.openAt.value < after.closeAt.value)
            && (after.status == Draft && ResponseCount(responses, form.surveyId) > 0 ==> surveys[i].status == Draft)
  {
    var i := CheckSettings(surveys, responses, collaborators, form, userId).value;
    assert SurveyById(surveys, form.surveyId) == Some(surveys[i]);
  }
}
