/** The rule editor (BranchLogicService): adding a branch rule through a fixed
    sequence of checks, deleting one, changing its priority, and the text
    that describes a rule on the logic page. */
module BranchLogic {
  import opened Wrappers
  import opened Store
  import Guids
  import Text
  import Linq
  import Conditions
  import LogicEngine

  /** The rule form (AddRuleViewModel). */
  datatype AddRuleRequest = AddRuleRequest(
    surveyId: Id,
    sourceQuestionId: Id,
    sourceOptionId: Id,
    targetAction: string,
    targetQuestionId: Option<Id>)

  const NoPermission: string := "You don't have permission to manage logic for this survey"
  const DuplicateRule: string :=
    "A logic rule already exists for this question and answer combination. "
    + "Please delete the existing rule first or select a different answer."
  const EndOnLastQuestion: string :=
    "Cannot add 'End Survey' logic to the last question. "
    + "The survey will automatically end after the last question."
  /** `allQuestions.Max` on an empty list throws; the catch turns the
      exception into this failure. */
  const NoQuestions: string := "Error adding logic rule: Sequence contains no elements"

  /** The source question has an option with this id. */
  predicate OptionOf(options: seq<QuestionOption>, questionId: Id, optionId: Id) {
    exists i :: 0 <= i < |options| && options[i].questionId == questionId && options[i].optionId == optionId
  }

  /** A rule of the survey already reacts to this (question, option) pair. */
  predicate HasRuleFor(rules: seq<BranchRule>, surveyId: Id, questionId: Id, optionId: Id) {
    exists i :: 0 <= i < |rules| && rules[i].surveyId == surveyId && rules[i].sourceQuestionId == questionId
                && Conditions.ExtractOptionId(rules[i].conditionExpr) == optionId
  }

  /** The largest question order of the survey (0 when it has none). */
  function LastOrder(questions: seq<Question>, surveyId: Id): int {
    Linq.MaxOrZero(questions, QuestionOrder, QuestionInSurvey(surveyId))
  }

  /** The checks of AddRuleAsync, in source order, stopping at the first that
      fails: the failure message, or the target the new rule will have
      (cleared for EndSurvey). */
  function CheckNewRule(questions: seq<Question>, options: seq<QuestionOption>, rules: seq<BranchRule>,
                        collaborators: seq<Collaborator>, req: AddRuleRequest, userId: Id)
    : Result<Option<Id>, string>
  {
    if !CanEdit(collaborators, req.surveyId, userId) then Err(NoPermission)
    else match QuestionById(questions, req.sourceQuestionId)
    case None => Err("Source question not found")
    case Some(source) =>
      if !OptionOf(options, source.questionId, req.sourceOptionId) then
        Err("Selected option not found or doesn't belong to the selected question")
      else if HasRuleFor(rules, req.surveyId, req.sourceQuestionId, req.sourceOptionId) then Err(DuplicateRule)
      else if Linq.Count(questions, QuestionInSurvey(req.surveyId)) == 0 then Err(NoQuestions)
      else if source.order == LastOrder(questions, req.surveyId) && req.targetAction == LogicEngine.EndSurvey then
        Err(EndOnLastQuestion)
      else CheckTarget(questions, req)
  }

  /** The action checks that close AddRuleAsync's sequence: the rule's
      target question, none for EndSurvey, or the first failure's message. */
  function CheckTarget(questions: seq<Question>, req: AddRuleRequest): Result<Option<Id>, string> {
    if req.targetAction == "" then Err("Please select an action")
    else if req.targetAction == LogicEngine.ShowQuestion || req.targetAction == LogicEngine.SkipQuestion then
      match req.targetQuestionId
      case None =>
        Err("Target question is required for '"
            + (if req.targetAction == LogicEngine.ShowQuestion then "Show Question" else "Skip Question")
            + "' action")
      case Some(t) =>
        match QuestionById(questions, t)
        case None => Err("Target question not found")
        case Some(target) =>
          if target.surveyId != req.surveyId then Err("Target question must belong to the same survey")
          else if req.sourceQuestionId == t then Err("Source and target questions cannot be the same")
          else Ok(Some(t))
    else if req.targetAction == LogicEngine.EndSurvey then Ok(None)
    else Err("Invalid action selected")
  }

  /** The action checks accept a Show or Skip rule with a distinct target
      of the same survey, and an EndSurvey rule. */
  lemma TargetAccepts(questions: seq<Question>, req: AddRuleRequest)
    ensures CheckTarget(questions, req).Ok? <==> TargetAdmissible(questions, req)
    ensures CheckTarget(questions, req).Ok? ==>
              CheckTarget(questions, req).value == (if req.targetAction == LogicEngine.EndSurvey then None else req.targetQuestionId)
  {
    assert LogicEngine.EndSurvey != LogicEngine.ShowQuestion && LogicEngine.EndSurvey != LogicEngine.SkipQuestion;
    assert LogicEngine.EndSurvey != "" && LogicEngine.ShowQuestion != "" && LogicEngine.SkipQuestion != "";
  }

  /** What an accepted rule satisfies, stated as one conjunction rather
      than as a sequence of checks. */
  ghost predicate Admissible(questions: seq<Question>, options: seq<QuestionOption>, rules: seq<BranchRule>,
                             collaborators: seq<Collaborator>, req: AddRuleRequest, userId: Id) {
    && CanEdit(collaborators, req.surveyId, userId)
    && QuestionById(questions, req.sourceQuestionId).Some?
    && OptionOf(options, req.sourceQuestionId, req.sourceOptionId)
    && !HasRuleFor(rules, req.surveyId, req.sourceQuestionId, req.sourceOptionId)
    && (exists i :: 0 <= i < |questions| && questions[i].surveyId == req.surveyId)
    && (req.targetAction == LogicEngine.EndSurvey ==>
          QuestionById(questions, req.sourceQuestionId).value.order != LastOrder(questions, req.surveyId))
    && TargetAdmissible(questions, req)
  }

  /** The action part of Admissible. */
  predicate TargetAdmissible(questions: seq<Question>, req: AddRuleRequest) {
    && (req.targetAction == LogicEngine.ShowQuestion || req.targetAction == LogicEngine.SkipQuestion
        || req.targetAction == LogicEngine.EndSurvey)
    && (req.targetAction != LogicEngine.EndSurvey ==>
          && req.targetQuestionId.Some?
          && QuestionById(questions, req.targetQuestionId.value).Some?
          && QuestionById(questions, req.targetQuestionId.value).value.surveyId == req.surveyId
          && req.targetQuestionId.value != req.sourceQuestionId)
  }

  /** The checks accept exactly the admissible rules, and the accepted
      target is the requested one, or none for EndSurvey. */
  lemma CheckNewRuleAccepts(questions: seq<Question>, options: seq<QuestionOption>, rules: seq<BranchRule>,
                            collaborators: seq<Collaborator>, req: AddRuleRequest, userId: Id)
    ensures CheckNewRule(questions, options, rules, collaborators, req, userId).Ok?
        <==> Admissible(questions, options, rules, collaborators, req, userId)
    ensures CheckNewRule(questions, options, rules, collaborators, req, userId).Ok? ==>
              CheckNewRule(questions, options, rules, collaborators, req, userId).value
                == (if req.targetAction == LogicEngine.EndSurvey then None else req.targetQuestionId)
  {
    if CheckNewRule(questions, options, rules, collaborators, req, userId).Ok? {
      AcceptedIsAdmissible(questions, options, rules, collaborators, req, userId);
    } else if Admissible(questions, options, rules, collaborators, req, userId) {
      AdmissibleIsAccepted(questions, options, rules, collaborators, req, userId);
    }
  }

  lemma AcceptedIsAdmissible(questions: seq<Question>, options: seq<QuestionOption>, rules: seq<BranchRule>,
                             collaborators: seq<Collaborator>, req: AddRuleRequest, userId: Id)
    requires CheckNewRule(questions, options, rules, collaborators, req, userId).Ok?
    ensures Admissible(questions, options, rules, collaborators, req, userId)
    ensures CheckNewRule(questions, options, rules, collaborators, req, userId).value
              == (if req.targetAction == LogicEngine.EndSurvey then None else req.targetQuestionId)
  {
    SurveyHasQuestions(questions, req.surveyId);
    TargetAccepts(questions, req);
  }

  lemma AdmissibleIsAccepted(questions: seq<Question>, options: seq<QuestionOption>, rules: seq<BranchRule>,
                             collaborators: seq<Collaborator>, req: AddRuleRequest, userId: Id)
    requires Admissible(questions, options, rules, collaborators, req, userId)
    ensures CheckNewRule(questions, options, rules, collaborators, req, userId).Ok?
  {
    SurveyHasQuestions(questions, req.surveyId);
    TargetAccepts(questions, req);
  }

  /** The survey has questions exactly when counting them does not give 0. */
  lemma SurveyHasQuestions(questions: seq<Question>, surveyId: Id)
    ensures Linq.Count(questions, QuestionInSurvey(surveyId)) != 0
        <==> exists i :: 0 <= i < |questions| && questions[i].surveyId == surveyId
  {
    var filtered := Linq.Filter(questions, QuestionInSurvey(surveyId));
    if |filtered| != 0 {
      assert filtered[0] in questions;
    }
    if exists i :: 0 <= i < |questions| && questions[i].surveyId == surveyId {
      var i :| 0 <= i < |questions| && questions[i].surveyId == surveyId;
      assert QuestionInSurvey(surveyId)(questions[i]);
    }
  }

  /** The rule AddRuleAsync stores once every check has passed. */
  function NewRule(rules: seq<BranchRule>, req: AddRuleRequest, target: Option<Id>, logicId: Id, now: Instant): BranchRule {
    BranchRule(logicId, req.surveyId, req.sourceQuestionId, Conditions.BuildCondition(req.sourceOptionId),
               req.targetAction, target, Linq.MaxOrZero(rules, Priority, RuleInSurvey(req.surveyId)) + 1, now)
  }

  /** AddRuleAsync: the single insert happens only when every check
      passes; any failure leaves the rule table as it was. */
  method AddRule(db: Database, req: AddRuleRequest, userId: Id, logicId: Id, now: Instant) returns (out: Outcome)
    modifies db`rules
    ensures var check := CheckNewRule(db.questions, db.options, old(db.rules), db.collaborators, req, userId);
            match check
            case Err(message) => out == Failed(message) && db.rules == old(db.rules)
            case Ok(target) =>
              out == Succeeded("Logic rule added successfully")
              && db.rules == old(db.rules) + [NewRule(old(db.rules), req, target, logicId, now)]
  {
    var check := CheckNewRule(db.questions, db.options, db.rules, db.collaborators, req, userId);
    match check {
      case Err(message) =>
        out := Failed(message);
      case Ok(target) =>
        db.rules := db.rules + [NewRule(db.rules, req, target, logicId, now)];
        out := Succeeded("Logic rule added successfully");
    }
  }

  /** A new rule's priority is above that of every rule already in its
      survey, so it is tried after all of them. */
  lemma NewRuleComesLast(rules: seq<BranchRule>, req: AddRuleRequest, target: Option<Id>, logicId: Id, now: Instant)
    ensures forall i :: 0 <= i < |rules| && rules[i].surveyId == req.surveyId
              ==> rules[i].priority < NewRule(rules, req, target, logicId, now).priority
    ensures (forall i :: 0 <= i < |rules| ==> rules[i].surveyId != req.surveyId)
              ==> NewRule(rules, req, target, logicId, now).priority == 1
  {
    var p := RuleInSurvey(req.surveyId);
    assert forall i :: 0 <= i < |rules| && rules[i].surveyId == req.surveyId ==> p(rules[i]);
  }

  /** Within a survey, no two rules react to the same (question, option)
      pair. */
  ghost predicate UniquePairs(rules: seq<BranchRule>) {
    forall i, j :: 0 <= i < j < |rules| && rules[i].surveyId == rules[j].surveyId
                   && rules[i].sourceQuestionId == rules[j].sourceQuestionId
                   ==> Conditions.ExtractOptionId(rules[i].conditionExpr) != Conditions.ExtractOptionId(rules[j].conditionExpr)
  }

  /** Adding a rule keeps the (question, option) pairs unique: the stored
      condition reads back as the option the duplicate check compared. */
  lemma AddKeepsPairsUnique(questions: seq<Question>, options: seq<QuestionOption>, rules: seq<BranchRule>,
                            collaborators: seq<Collaborator>, req: AddRuleRequest, userId: Id, logicId: Id, now: Instant)
    requires UniquePairs(rules)
    requires CheckNewRule(questions, options, rules, collaborators, req, userId).Ok?
    ensures var target := CheckNewRule(questions, options, rules, collaborators, req, userId).value;
            UniquePairs(rules + [NewRule(rules, req, target, logicId, now)])
  {
    var target := CheckNewRule(questions, options, rules, collaborators, req, userId).value;
    CheckNewRuleAccepts(questions, options, rules, collaborators, req, userId);
    Conditions.ExtractBuilt(req.sourceOptionId);
    AppendKeepsPairsUnique(rules, NewRule(rules, req, target, logicId, now));
  }

  /** Appending a rule for a pair no rule of its survey has yet keeps the
      pairs unique. */
  lemma AppendKeepsPairsUnique(rules: seq<BranchRule>, added: BranchRule)
    requires UniquePairs(rules)
    requires !HasRuleFor(rules, added.surveyId, added.sourceQuestionId, Conditions.ExtractOptionId(added.conditionExpr))
    ensures UniquePairs(rules + [added])
  {
    var s := rules + [added];
    forall i, j | 0 <= i < j < |s| && s[i].surveyId == s[j].surveyId && s[i].sourceQuestionId == s[j].sourceQuestionId
      ensures Conditions.ExtractOptionId(s[i].conditionExpr) != Conditions.ExtractOptionId(s[j].conditionExpr)
    {
      if j == |rules| {
        assert s[i] == rules[i] && s[j] == added;
      } else {
        assert s[i] == rules[i] && s[j] == rules[j];
      }
    }
  }

  /** The rule the editor created takes effect at run time: it fires for a
      respondent exactly when they selected its option. */
  lemma CreatedRuleFiresOnItsOption(rules: seq<BranchRule>, req: AddRuleRequest, target: Option<Id>, logicId: Id,
                                    now: Instant, selected: seq<Selection>)
    requires req.sourceOptionId != Guids.Empty()
    ensures LogicEngine.ConditionMet(NewRule(rules, req, target, logicId, now), selected)
        <==> exists i :: 0 <= i < |selected| && selected[i].optionId == req.sourceOptionId
  {
    LogicEngine.BuiltConditionHolds(NewRule(rules, req, target, logicId, now), req.sourceOptionId, selected);
  }

  const RuleNotFound: string := "Logic rule not found"

  /** `i` is the first row with the id. */
  predicate FirstWithId(rules: seq<BranchRule>, logicId: Id, i: int) {
    0 <= i < |rules| && rules[i].logicId == logicId && forall j :: 0 <= j < i ==> rules[j].logicId != logicId
  }

  /** The lookup and permission check shared by DeleteRuleAsync and
      UpdateRulePriorityAsync: the index of the first rule with the id, or
      the failure message. */
  function LocateRule(rules: seq<BranchRule>, collaborators: seq<Collaborator>, logicId: Id, userId: Id)
    : (r: Result<nat, string>)
    ensures r.Ok? ==> FirstWithId(rules, logicId, r.value) && CanEdit(collaborators, rules[r.value].surveyId, userId)
    ensures r.Err? ==> r.error == RuleNotFound || r.error == NoPermission
    ensures r == Err(RuleNotFound) <==> forall i :: 0 <= i < |rules| ==> rules[i].logicId != logicId
    ensures r == Err(NoPermission) ==>
              exists i :: FirstWithId(rules, logicId, i) && !CanEdit(collaborators, rules[i].surveyId, userId)
  {
    assert |RuleNotFound| < |NoPermission|;
    match FindIndex(rules, RuleIs(logicId))
    case None => Err(RuleNotFound)
    case Some(i) =>
      assert !RuleIs(logicId)(rules[i]) ==> false;
      if !CanEdit(collaborators, rules[i].surveyId, userId) then Err(NoPermission) else Ok(i)
  }

  /** A rule is located exactly when the caller may edit the survey of the
      first rule with the id. */
  lemma LocateRuleAccepts(rules: seq<BranchRule>, collaborators: seq<Collaborator>, logicId: Id, userId: Id)
    ensures LocateRule(rules, collaborators, logicId, userId).Ok?
        <==> exists i :: FirstWithId(rules, logicId, i) && CanEdit(collaborators, rules[i].surveyId, userId)
  {
    var r := LocateRule(rules, collaborators, logicId, userId);
    if r == Err(NoPermission) {
      var k :| FirstWithId(rules, logicId, k) && !CanEdit(collaborators, rules[k].surveyId, userId);
      assert forall i :: FirstWithId(rules, logicId, i) ==> i == k;
    }
  }

  /** DeleteRuleAsync. */
  method DeleteRule(db: Database, logicId: Id, userId: Id) returns (out: Outcome)
    modifies db`rules
    ensures match LocateRule(old(db.rules), db.collaborators, logicId, userId)
            case Err(message) => out == Failed(message) && db.rules == old(db.rules)
            case Ok(i) => out == Succeeded("Logic rule deleted successfully") && db.rules == RemoveAt(old(db.rules), i)
  {
    match LocateRule(db.rules, db.collaborators, logicId, userId) {
      case Err(message) =>
        out := Failed(message);
      case Ok(i) =>
        db.rules := RemoveAt(db.rules, i);
        out := Succeeded("Logic rule deleted successfully");
    }
  }

  /** UpdateRulePriorityAsync. */
  method UpdateRulePriority(db: Database, logicId: Id, newPriority: int, userId: Id) returns (out: Outcome)
    modifies db`rules
    ensures match LocateRule(old(db.rules), db.collaborators, logicId, userId)
            case Err(message) => out == Failed(message) && db.rules == old(db.rules)
            case Ok(i) =>
              out == Succeeded("Priority updated successfully")
              && db.rules == old(db.rules)[i := old(db.rules)[i].(priority := newPriority)]
  {
    match LocateRule(db.rules, db.collaborators, logicId, userId) {
      case Err(message) =>
        out := Failed(message);
      case Ok(i) =>
        db.rules := db.rules[i := db.rules[i].(priority := newPriority)];
        out := Succeeded("Priority updated successfully");
    }
  }

  /** Deleting a rule or changing its priority keeps the (question, option)
      pairs unique. */
  lemma DeleteAndReprioritiseKeepPairsUnique(rules: seq<BranchRule>, i: nat, newPriority: int)
    requires i < |rules| && UniquePairs(rules)
    ensures UniquePairs(RemoveAt(rules, i))
    ensures UniquePairs(rules[i := rules[i].(priority := newPriority)])
  {
    var d := RemoveAt(rules, i);
    forall a, b | 0 <= a < b < |d| && d[a].surveyId == d[b].surveyId && d[a].sourceQuestionId == d[b].sourceQuestionId
      ensures Conditions.ExtractOptionId(d[a].conditionExpr) != Conditions.ExtractOptionId(d[b].conditionExpr)
    {
      var a' := if a < i then a else a + 1;
      var b' := if b < i then b else b + 1;
      assert d[a] == rules[a'] && d[b] == rules[b'];
    }
  }

  /** The text shown for one rule (BranchLogicRuleViewModel). */
  datatype RuleView = RuleView(
    logicId: Id,
    sourceQuestionId: Id,
    sourceQuestionText: string,
    conditionDescription: string,
    targetAction: string,
    targetQuestionId: Option<Id>,
    targetQuestionText: Option<string>,
    ruleDescription: string,
    priority: int)

  /** The option of the source question the condition names. */
  function NamedOption(options: seq<QuestionOption>, questionId: Id, optionId: Id): Option<QuestionOption> {
    match FindIndex(options, (o: QuestionOption) => o.questionId == questionId && o.optionId == optionId)
    case Some(i) => Some(options[i])
    case None => None
  }

  /** The action part of the description. */
  function ActionText(action: string, target: Option<Question>): string {
    if action == LogicEngine.ShowQuestion then
      (if target.Some? then "Jump to Q" + Text.IntString(target.value.order) + ": " + target.value.text
       else "Jump to unknown question")
    else if action == LogicEngine.SkipQuestion then
      (if target.Some? then "Skip to Q" + Text.IntString(target.value.order) + ": " + target.value.text
       else "Skip to unknown question")
    else if action == LogicEngine.EndSurvey then "End survey"
    else "Unknown action"
  }

  /** MapToBranchLogicRuleViewModel over the survey's questions and their
      options. A missing source question renders its order as nothing and
      its text as "Unknown". */
  function Describe(rule: BranchRule, questions: seq<Question>, options: seq<QuestionOption>): RuleView {
    var source := QuestionById(questions, rule.sourceQuestionId);
    var target := if rule.targetQuestionId.Some? then QuestionById(questions, rule.targetQuestionId.value) else None;
    var option :=
      if source.Some? then NamedOption(options, source.value.questionId, Conditions.ExtractOptionId(rule.conditionExpr))
      else None;
    var condition := if option.Some? then "Answer is '" + option.value.text + "'" else "Unknown condition";
    var sourceText := if source.Some? then source.value.text else "Unknown";
    var sourceOrder := if source.Some? then Text.IntString(source.value.order) else "";
    RuleView(rule.logicId, rule.sourceQuestionId, sourceText, condition, rule.targetAction, rule.targetQuestionId,
             if target.Some? then Some(target.value.text) else None,
             "IF Q" + sourceOrder + ": '" + sourceText + "' \U{2192} " + condition + " THEN " + ActionText(rule.targetAction, target),
             rule.priority)
  }

  /** A rule created by the editor is described by the text of the option it
      reacts to. */
  lemma DescribesCreatedCondition(rules: seq<BranchRule>, req: AddRuleRequest, target: Option<Id>, logicId: Id, now: Instant,
                                  questions: seq<Question>, options: seq<QuestionOption>, option: QuestionOption)
    requires QuestionById(questions, req.sourceQuestionId).Some?
    requires option == NamedOption(options, req.sourceQuestionId, req.sourceOptionId).GetOr(option)
    requires NamedOption(options, req.sourceQuestionId, req.sourceOptionId).Some?
    ensures Describe(NewRule(rules, req, target, logicId, now), questions, options).conditionDescription
         == "Answer is '" + option.text + "'"
  {
    Conditions.ExtractBuilt(req.sourceOptionId);
  }

  /** Describing never needs the rule to be consistent: a rule whose source
      question is gone is shown as an unknown question with an unknown
      condition. */
  lemma DescribesMissingSource(rule: BranchRule, questions: seq<Question>, options: seq<QuestionOption>)
    requires forall i :: 0 <= i < |questions| ==> questions[i].questionId != rule.sourceQuestionId
    ensures Describe(rule, questions, options).sourceQuestionText == "Unknown"
    ensures Describe(rule, questions, options).conditionDescription == "Unknown condition"
  {
    assert QuestionById(questions, rule.sourceQuestionId).None?;
  }
}
