/** The runtime navigator (LogicEngineService): which question a respondent
    sees next, given the question just answered, the branch rules attached to
    it and the options the respondent selected. */
module LogicEngine {
  import opened Wrappers
  import opened Store
  import Guids
  import Linq
  import Conditions
  import Navigation

  const EndSurvey: string := "EndSurvey"
  const ShowQuestion: string := "ShowQuestion"
  const SkipQuestion: string := "SkipQuestion"

  /** EvaluateConditionAsync: the option named by the condition was
      selected. A condition that does not parse names Guid.Empty and never
      holds. */
  predicate ConditionMet(rule: BranchRule, selected: seq<Selection>) {
    var optionId := Conditions.ExtractOptionId(rule.conditionExpr);
    optionId != Guids.Empty() && exists i :: 0 <= i < |selected| && selected[i].optionId == optionId
  }

  /** The rule's action is one the switch acts on: EndSurvey, or a jump
      that names a target. */
  predicate Acts(rule: BranchRule) {
    rule.targetAction == EndSurvey
    || ((rule.targetAction == ShowQuestion || rule.targetAction == SkipQuestion) && rule.targetQuestionId.Some?)
  }

  /** The switch on the rule's action: Some(next) when the action decides the
      next question (None inside meaning the survey ends), None when the
      switch falls through and the search goes on. */
  function Apply(rule: BranchRule, questions: seq<Question>, surveyId: Id): (r: Option<Option<Question>>)
    ensures r.Some? <==> Acts(rule)
    ensures rule.targetAction == EndSurvey ==> r == Some(None)
  {
    if rule.targetAction == EndSurvey then Some(None)
    else if rule.targetAction == ShowQuestion && rule.targetQuestionId.Some? then
      Some(QuestionById(questions, rule.targetQuestionId.value))
    else if rule.targetAction == SkipQuestion && rule.targetQuestionId.Some? then
      Some(Navigation.After(questions, surveyId, rule.targetQuestionId.value))
    else None
  }

  /** A rule that both fires and acts. */
  function Decisive(selected: seq<Selection>): BranchRule -> bool {
    (r: BranchRule) => ConditionMet(r, selected) && Acts(r)
  }

  /** The foreach over the ordered rules: the first rule that fires and
      acts decides; None when none does. */
  function ApplyRules(rules: seq<BranchRule>, questions: seq<Question>, surveyId: Id, selected: seq<Selection>)
    : (r: Option<Option<Question>>)
    ensures r.Some? <==> exists i :: 0 <= i < |rules| && Decisive(selected)(rules[i])
  {
    if |rules| == 0 then None
    else if Decisive(selected)(rules[0]) then
      Apply(rules[0], questions, surveyId)
    else
      var rest := ApplyRules(rules[1..], questions, surveyId, selected);
      assert forall i :: 1 <= i < |rules| ==> rules[i] == rules[1..][i - 1];
      rest
  }

  /** BranchLogicRepository.GetBySourceQuestionIdAsync: the rules whose
      source is the question, ordered by priority. */
  function RulesBySource(rules: seq<BranchRule>, questionId: Id): seq<BranchRule> {
    Linq.SortBy(Linq.Filter(rules, RuleFromSource(questionId)), Priority)
  }

  /** ResponseAnswerRepository.GetAnswerOptionsAsync. */
  function SelectionsFor(selections: seq<Selection>, responseId: Id, questionId: Id): seq<Selection> {
    Linq.Filter(selections, SelectionOf(responseId, questionId))
  }

  /** GetNextQuestionAsync. `None` as the result is "no next question":
      the survey is over. */
  function NextQuestion(questions: seq<Question>, rules: seq<BranchRule>, selections: seq<Selection>,
                        surveyId: Id, responseId: Id, lastAnswered: Option<Id>): Option<Question>
  {
    match lastAnswered
    case None => Navigation.First(questions, surveyId)
    case Some(last) =>
      var candidates := RulesBySource(rules, last);
      if |candidates| > 0 then
        var selected := SelectionsFor(selections, responseId, last);
        match ApplyRules(Linq.SortBy(candidates, Priority), questions, surveyId, selected)
        case Some(next) => next
        case None => Navigation.After(questions, surveyId, last)
      else Navigation.After(questions, surveyId, last)
  }

  /** The question a decisive rule leads to. */
  function Perform(rule: BranchRule, questions: seq<Question>, surveyId: Id): Option<Question>
    requires Acts(rule)
  {
    Apply(rule, questions, surveyId).value
  }

  /** The rule that decides, when the question just answered is `last`:
      among the rules from `last` that fire and act, the one with the least
      priority, the earliest in the rule table among equal priorities (the
      table stands for the order in which the repository returns them). */
  function DecidingRule(rules: seq<BranchRule>, selections: seq<Selection>, responseId: Id, last: Id)
    : (r: Option<BranchRule>)
    ensures r.Some? ==> r.value in rules && r.value.sourceQuestionId == last && Acts(r.value)
    ensures r.Some? ==> ConditionMet(r.value, SelectionsFor(selections, responseId, last))
  {
    Linq.Best(Linq.Filter(rules, RuleFromSource(last)), Priority, Decisive(SelectionsFor(selections, responseId, last)))
  }

  /** The ordered search finds the first decisive rule. */
  lemma {:induction false} ApplyRulesFirst(rules: seq<BranchRule>, questions: seq<Question>, surveyId: Id, selected: seq<Selection>)
    ensures ApplyRules(rules, questions, surveyId, selected)
         == match Linq.FirstWhere(rules, Decisive(selected))
            case Some(r) => Apply(r, questions, surveyId)
            case None => None
  {
    if |rules| > 0 {
      ApplyRulesFirst(rules[1..], questions, surveyId, selected);
    }
  }

  /** No rule or answer is consulted at the start: the first question of
      the survey is shown. */
  lemma StartsAtFirst(questions: seq<Question>, rules: seq<BranchRule>, selections: seq<Selection>,
                      surveyId: Id, responseId: Id)
    ensures NextQuestion(questions, rules, selections, surveyId, responseId, None)
         == NextQuestion(questions, [], [], surveyId, responseId, None)
    ensures var r := NextQuestion(questions, rules, selections, surveyId, responseId, None);
            (r.Some? ==> r.value in questions && r.value.surveyId == surveyId
                         && forall i :: 0 <= i < |questions| && questions[i].surveyId == surveyId ==> r.value.order <= questions[i].order)
            && (r.None? ==> forall i :: 0 <= i < |questions| ==> questions[i].surveyId != surveyId)
  {
  }

  /** The main property of the navigator: after an answer to `last`, the
      next question is what the deciding rule leads to, or the question
      after `last` in display order when no rule decides. Rules are tried in
      ascending priority and, because the ordering is stable, in the order
      the repository returned them among equal priorities; a rule that fires but whose action the
      switch does not act on is passed over. */
  lemma {:induction false} NextFollowsDecidingRule(questions: seq<Question>, rules: seq<BranchRule>, selections: seq<Selection>,
                                surveyId: Id, responseId: Id, last: Id)
    ensures NextQuestion(questions, rules, selections, surveyId, responseId, Some(last))
         == match DecidingRule(rules, selections, responseId, last)
            case Some(r) => Perform(r, questions, surveyId)
            case None => Navigation.After(questions, surveyId, last)
  {
    var own := Linq.Filter(rules, RuleFromSource(last));
    var selected := SelectionsFor(selections, responseId, last);
    var candidates := RulesBySource(rules, last);
    if |candidates| > 0 {
      Linq.SortTwice(own, Priority);
      ApplyRulesFirst(candidates, questions, surveyId, selected);
      Linq.FirstOfSorted(own, Priority, Decisive(selected));
    } else {
      assert multiset(candidates) == multiset(own);
      assert |own| == 0;
    }
  }

  /** A deciding EndSurvey rule ends the survey, however many questions
      remain. */
  lemma EndSurveyEnds(questions: seq<Question>, rules: seq<BranchRule>, selections: seq<Selection>,
                      surveyId: Id, responseId: Id, last: Id)
    requires DecidingRule(rules, selections, responseId, last).Some?
    requires DecidingRule(rules, selections, responseId, last).value.targetAction == EndSurvey
    ensures NextQuestion(questions, rules, selections, surveyId, responseId, Some(last)) == None
  {
    NextFollowsDecidingRule(questions, rules, selections, surveyId, responseId, last);
  }

  /** A deciding ShowQuestion rule shows its target, looked up by id in the
      whole question table; a target that no longer exists yields "no next
      question", which ends the survey. */
  lemma ShowJumpsToTarget(questions: seq<Question>, rules: seq<BranchRule>, selections: seq<Selection>,
                          surveyId: Id, responseId: Id, last: Id)
    requires DecidingRule(rules, selections, responseId, last).Some?
    requires DecidingRule(rules, selections, responseId, last).value.targetAction == ShowQuestion
    ensures var target := DecidingRule(rules, selections, responseId, last).value.targetQuestionId.value;
            NextQuestion(questions, rules, selections, surveyId, responseId, Some(last))
              == QuestionById(questions, target)
  {
    NextFollowsDecidingRule(questions, rules, selections, surveyId, responseId, last);
  }

  /** A deciding SkipQuestion rule goes to the question after its target,
      never to the target itself. */
  lemma SkipPassesTarget(questions: seq<Question>, rules: seq<BranchRule>, selections: seq<Selection>,
                         surveyId: Id, responseId: Id, last: Id)
    requires Navigation.UniqueQuestionIds(questions)
    requires DecidingRule(rules, selections, responseId, last).Some?
    requires DecidingRule(rules, selections, responseId, last).value.targetAction == SkipQuestion
    ensures var target := DecidingRule(rules, selections, responseId, last).value.targetQuestionId.value;
            var next := NextQuestion(questions, rules, selections, surveyId, responseId, Some(last));
            next == Navigation.After(questions, surveyId, target)
            && (next.Some? ==> next.value.questionId != target
                               && next.value.order > Navigation.Anchor(questions, surveyId, target).value.order)
  {
    var target := DecidingRule(rules, selections, responseId, last).value.targetQuestionId.value;
    NextFollowsDecidingRule(questions, rules, selections, surveyId, responseId, last);
    Navigation.AfterIsNotAnchor(questions, surveyId, target);
  }

  /** When no rule decides, the respondent moves on in display order. */
  lemma NoDecisionFallsThrough(questions: seq<Question>, rules: seq<BranchRule>, selections: seq<Selection>,
                               surveyId: Id, responseId: Id, last: Id)
    requires forall i :: 0 <= i < |rules| && rules[i].sourceQuestionId == last
               ==> !ConditionMet(rules[i], SelectionsFor(selections, responseId, last)) || !Acts(rules[i])
    ensures NextQuestion(questions, rules, selections, surveyId, responseId, Some(last))
         == Navigation.After(questions, surveyId, last)
  {
    NextFollowsDecidingRule(questions, rules, selections, surveyId, responseId, last);
  }

  /** Rules attached to other questions never matter. */
  lemma OtherSourcesIgnored(questions: seq<Question>, rules: seq<BranchRule>, extra: BranchRule, selections: seq<Selection>,
                            surveyId: Id, responseId: Id, last: Id)
    requires extra.sourceQuestionId != last
    ensures NextQuestion(questions, rules + [extra], selections, surveyId, responseId, Some(last))
         == NextQuestion(questions, rules, selections, surveyId, responseId, Some(last))
  {
    Linq.FilterAppend(rules, [extra], RuleFromSource(last));
    assert Linq.Filter([extra], RuleFromSource(last)) == [];
    assert Linq.Filter(rules + [extra], RuleFromSource(last)) == Linq.Filter(rules, RuleFromSource(last));
  }

  /** A rule that does not fire, or fires with an action the switch passes
      over (a jump without a target, an unknown action), can be removed from
      anywhere in the table without changing where the respondent goes:
      the `break` leaves only the switch, and the search goes on. */
  lemma {:induction false} IdleRuleIgnored(questions: seq<Question>, before: seq<BranchRule>, idle: BranchRule, after: seq<BranchRule>,
                          selections: seq<Selection>, surveyId: Id, responseId: Id, last: Id)
    requires !ConditionMet(idle, SelectionsFor(selections, responseId, last)) || !Acts(idle)
    ensures NextQuestion(questions, before + [idle] + after, selections, surveyId, responseId, Some(last))
         == NextQuestion(questions, before + after, selections, surveyId, responseId, Some(last))
  {
    var p := RuleFromSource(last);
    var selected := SelectionsFor(selections, responseId, last);
    Linq.FilterAppend(before + [idle], after, p);
    Linq.FilterAppend(before, [idle], p);
    Linq.FilterAppend(before, after, p);
    NextFollowsDecidingRule(questions, before + [idle] + after, selections, surveyId, responseId, last);
    NextFollowsDecidingRule(questions, before + after, selections, surveyId, responseId, last);
    if idle.sourceQuestionId == last {
      assert Linq.Filter([idle], p) == [idle];
      Linq.BestSkips(Linq.Filter(before, p), idle, Linq.Filter(after, p), Priority, Decisive(selected));
    } else {
      assert Linq.Filter([idle], p) == [];
      assert Linq.Filter(before, p) + [] == Linq.Filter(before, p);
    }
  }

  /** A condition written by the rule editor for option `o` holds exactly
      when the respondent selected `o`. */
  lemma BuiltConditionHolds(rule: BranchRule, optionId: Id, selected: seq<Selection>)
    requires rule.conditionExpr == Conditions.BuildCondition(optionId)
    requires optionId != Guids.Empty()
    ensures ConditionMet(rule, selected) <==> exists i :: 0 <= i < |selected| && selected[i].optionId == optionId
  {
    Conditions.ExtractBuilt(optionId);
  }

  /** A condition without an "==" never holds, whatever was selected. */
  lemma MalformedConditionNeverHolds(rule: BranchRule, selected: seq<Selection>)
    requires '=' !in rule.conditionExpr
    ensures !ConditionMet(rule, selected)
  {
    Conditions.NoSeparatorNoOption(rule.conditionExpr);
  }
}
