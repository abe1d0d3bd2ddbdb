/** The records the services read and write, the one database object that
    holds every table, and the repository queries the services rely on. */
module Store {
  import opened Wrappers
  import Guids
  import Linq

  /** Every key in the schema is a Guid. */
  type Id = Guids.Guid

  /** A UTC instant as .NET ticks (100 ns units). */
  type Instant = int

  /** One tick is 100 ns, so a minute has 600 million of them. */
  const TicksPerMinute: int := 600_000_000

  datatype Survey = Survey(
    surveyId: Id,
    ownerId: Id,
    title: string,
    description: Option<string>,
    defaultLanguage: Option<string>,
    isAnonymous: bool,
    status: string,
    openAt: Option<Instant>,
    closeAt: Option<Instant>,
    responseQuota: Option<int>,
    quotaBehavior: Option<string>,
    createdAt: Instant,
    updatedAt: Instant)

  datatype Question = Question(
    questionId: Id,
    surveyId: Id,
    order: int,
    text: string,
    questionType: string,
    isRequired: bool,
    validationRule: Option<string>,
    helpText: Option<string>,
    defaultValue: Option<string>,
    createdAt: Instant,
    updatedAt: Instant)

  datatype QuestionOption = QuestionOption(
    optionId: Id,
    questionId: Id,
    order: int,
    text: string,
    value: Option<string>,
    isActive: bool)

  /** A branch rule (table BranchLogic). */
  datatype BranchRule = BranchRule(
    logicId: Id,
    surveyId: Id,
    sourceQuestionId: Id,
    conditionExpr: string,
    targetAction: string,
    targetQuestionId: Option<Id>,
    priority: int,
    createdAt: Instant)

  datatype SurveyResponse = SurveyResponse(
    responseId: Id,
    surveyId: Id,
    channelId: Option<Id>,
    submittedAt: Option<Instant>,
    lastUpdatedAt: Instant,
    status: string,
    anonToken: Option<string>,
    respondentIp: Option<string>,
    isLocked: bool)

  /** The free-form part of an answer; the decimal value is a real. */
  datatype ResponseAnswer = ResponseAnswer(
    responseId: Id,
    questionId: Id,
    answerText: Option<string>,
    numericValue: Option<real>,
    dateValue: Option<Instant>,
    updatedAt: Instant)

  /** One selected option of an answer (table ResponseAnswerOption). */
  datatype Selection = Selection(
    responseId: Id,
    questionId: Id,
    optionId: Id,
    rankOrder: Option<int>,
    additionalText: Option<string>)

  datatype Collaborator = Collaborator(
    surveyId: Id,
    userId: Id,
    role: string,
    grantedAt: Instant,
    grantedBy: Option<Id>)

  type Byte = bv8

  datatype User = User(
    userId: Id,
    email: string,
    passwordHash: seq<Byte>,
    fullName: Option<string>,
    isActive: bool,
    failedLoginCount: int,
    lockedUntil: Option<Instant>,
    createdAt: Instant,
    updatedAt: Instant)

  /** The outcome of a service call (ServiceResult): success or failure,
      each with its message. */
  datatype Outcome = Succeeded(message: string) | Failed(message: string)

  /** The database context: each table is a sequence in store order. */
  class Database {
    var surveys: seq<Survey>
    var questions: seq<Question>
    var options: seq<QuestionOption>
    var rules: seq<BranchRule>
    var responses: seq<SurveyResponse>
    var answers: seq<ResponseAnswer>
    var selections: seq<Selection>
    var collaborators: seq<Collaborator>
    var users: seq<User>

    /** An empty database. */
    constructor ()
      ensures surveys == [] && questions == [] && options == [] && rules == []
      ensures responses == [] && answers == [] && selections == []
      ensures collaborators == [] && users == []
    {
      surveys := [];
      questions := [];
      options := [];
      rules := [];
      responses := [];
      answers := [];
      selections := [];
      collaborators := [];
      users := [];
    }
  }

  // ---- Selectors used as LINQ predicates and keys ----

  function SurveyIs(id: Id): Survey -> bool { (s: Survey) => s.surveyId == id }
  function QuestionIs(id: Id): Question -> bool { (q: Question) => q.questionId == id }
  function QuestionInSurvey(surveyId: Id): Question -> bool { (q: Question) => q.surveyId == surveyId }
  function OptionOfQuestion(questionId: Id): QuestionOption -> bool { (o: QuestionOption) => o.questionId == questionId }
  function RuleIs(id: Id): BranchRule -> bool { (r: BranchRule) => r.logicId == id }
  function RuleInSurvey(surveyId: Id): BranchRule -> bool { (r: BranchRule) => r.surveyId == surveyId }
  function RuleFromSource(questionId: Id): BranchRule -> bool { (r: BranchRule) => r.sourceQuestionId == questionId }
  function ResponseIs(id: Id): SurveyResponse -> bool { (r: SurveyResponse) => r.responseId == id }
  function ResponseToSurvey(surveyId: Id): SurveyResponse -> bool { (r: SurveyResponse) => r.surveyId == surveyId }
  function CollaboratorIs(surveyId: Id, userId: Id): Collaborator -> bool {
    (c: Collaborator) => c.surveyId == surveyId && c.userId == userId
  }
  function SelectionOf(responseId: Id, questionId: Id): Selection -> bool {
    (a: Selection) => a.responseId == responseId && a.questionId == questionId
  }
  function AnswerOf(responseId: Id, questionId: Id): ResponseAnswer -> bool {
    (a: ResponseAnswer) => a.responseId == responseId && a.questionId == questionId
  }
  function UserWithEmail(email: string): User -> bool { (u: User) => u.email == email }

  function QuestionOrder(q: Question): int { q.order }
  function OptionOrder(o: QuestionOption): int { o.order }
  function Priority(r: BranchRule): int { r.priority }

  // ---- Repository queries ----

  /** The first index in `s` satisfying `p` (FirstOrDefault by key; keys
      are unique in every table, so "first" is "the"). */
  function FindIndex<T>(s: seq<T>, p: T -> bool): (r: Option<nat>)
    ensures r.Some? ==> r.value < |s| && p(s[r.value])
    ensures r.Some? ==> forall j :: 0 <= j < r.value ==> !p(s[j])
    ensures r.None? ==> forall j :: 0 <= j < |s| ==> !p(s[j])
  {
    if |s| == 0 then None
    else if p(s[0]) then Some(0)
    else match FindIndex(s[1..], p)
      case Some(j) => Some(j + 1)
      case None => None
  }

  /** An index whose element satisfies `p`, with none before it, is the
      one FindIndex returns. */
  lemma {:induction false} FindIndexFirst<T>(s: seq<T>, p: T -> bool, i: nat)
    requires i < |s| && p(s[i])
    requires forall j :: 0 <= j < i ==> !p(s[j])
    ensures FindIndex(s, p) == Some(i)
  {
    if i > 0 {
      FindIndexFirst(s[1..], p, i - 1);
    }
  }

  /** An account with the email exists exactly when the lookup by email
      finds one. */
  lemma EmailFound(users: seq<User>, email: string)
    ensures FindIndex(users, UserWithEmail(email)).Some? <==> exists i :: 0 <= i < |users| && users[i].email == email
  {
    if exists i :: 0 <= i < |users| && users[i].email == email {
      var i :| 0 <= i < |users| && users[i].email == email;
      assert UserWithEmail(email)(users[i]);
    }
  }

  /** QuestionRepository.GetByIdAsync. */
  function QuestionById(questions: seq<Question>, id: Id): (r: Option<Question>)
    ensures r.Some? ==> r.value in questions && r.value.questionId == id
    ensures r.None? ==> forall i :: 0 <= i < |questions| ==> questions[i].questionId != id
  {
    match FindIndex(questions, QuestionIs(id))
    case Some(i) => Some(questions[i])
    case None => None
  }

  /** SurveyRepository.GetByIdAsync. */
  function SurveyById(surveys: seq<Survey>, id: Id): (r: Option<Survey>)
    ensures r.Some? ==> r.value in surveys && r.value.surveyId == id
    ensures r.None? ==> forall i :: 0 <= i < |surveys| ==> surveys[i].surveyId != id
  {
    match FindIndex(surveys, SurveyIs(id))
    case Some(i) => Some(surveys[i])
    case None => None
  }

  /** SurveyCollaboratorRepository.GetRoleAsync: the role of the user's
      collaboration on the survey, if there is one. */
  function RoleOf(collaborators: seq<Collaborator>, surveyId: Id, userId: Id): (r: Option<string>)
    ensures r.Some? <==> exists i :: 0 <= i < |collaborators| && collaborators[i].surveyId == surveyId && collaborators[i].userId == userId
  {
    match FindIndex(collaborators, CollaboratorIs(surveyId, userId))
    case Some(i) => Some(collaborators[i].role)
    case None => None
  }

  /** The permission the designer and the rule editor demand: a
      collaboration whose role is Owner or Editor. */
  predicate CanEdit(collaborators: seq<Collaborator>, surveyId: Id, userId: Id) {
    RoleOf(collaborators, surveyId, userId) == Some("Owner")
    || RoleOf(collaborators, surveyId, userId) == Some("Editor")
  }

  /** SurveyRepository.IsOwnerAsync: some survey with this id has this owner. */
  predicate OwnsSurvey(surveys: seq<Survey>, surveyId: Id, userId: Id) {
    exists i :: 0 <= i < |surveys| && surveys[i].surveyId == surveyId && surveys[i].ownerId == userId
  }

  /** SurveyRepository.GetResponseCountAsync. */
  function ResponseCount(responses: seq<SurveyResponse>, surveyId: Id): nat {
    Linq.Count(responses, ResponseToSurvey(surveyId))
  }

  /** Removes the element at index `i`. */
  function RemoveAt<T>(s: seq<T>, i: nat): (r: seq<T>)
    requires i < |s|
    ensures |r| == |s| - 1
    ensures forall j :: 0 <= j < i ==> r[j] == s[j]
    ensures forall j :: i <= j < |r| ==> r[j] == s[j + 1]
  {
    s[..i] + s[i + 1..]
  }
}
