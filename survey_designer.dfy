/** The question editor (SurveyDesignerService): adding, updating, deleting
    and reordering questions, and bringing a question's options in line
    with the edited list. */
module SurveyDesigner {
  import opened Wrappers
  import opened Store
  import Guids
  import Linq
  import Navigation

  const NoPermission: string := "You don't have permission to edit this survey"

  // ---- Question types ----

  /** The question types the designer offers. */
  function KnownTypes(): set<string> {
    {"ShortText", "LongText", "MultipleChoice", "Checkboxes", "Dropdown",
     "RatingScale", "Date", "Time", "Email", "Number"}
  }

  /** The types whose answers are picked from a list of options. */
  function ChoiceTypes(): set<string> {
    {"MultipleChoice", "Checkboxes", "Dropdown", "RatingScale"}
  }

  /** GetDefaultQuestionText: the placeholder text of a new question. */
  function DefaultQuestionText(questionType: string): string {
    match questionType
    case "ShortText" => "Short answer question"
    case "LongText" => "Long answer question"
    case "MultipleChoice" => "Multiple choice question"
    case "Checkboxes" => "Checkbox question"
    case "Dropdown" => "Dropdown question"
    case "RatingScale" => "Rating scale question"
    case "Date" => "Date question"
    case "Time" => "Time question"
    case "Email" => "Email question"
    case "Number" => "Number question"
    case _ => "New question"
  }

  /** RequiresOptions. */
  predicate RequiresOptions(questionType: string) {
    match questionType
    case "MultipleChoice" => true
    case "Checkboxes" => true
    case "Dropdown" => true
    case "RatingScale" => true
    case _ => false
  }

  /** The generic placeholder is used exactly for unknown types, each known
      type has its own placeholder, and the option-bearing types are the
      four choice types, all of them known. */
  lemma QuestionTypeTables(t: string, u: string)
    ensures DefaultQuestionText(t) == "New question" <==> t !in KnownTypes()
    ensures t in KnownTypes() && u in KnownTypes() && t != u ==> DefaultQuestionText(t) != DefaultQuestionText(u)
    ensures RequiresOptions(t) <==> t in ChoiceTypes()
    ensures ChoiceTypes() <= KnownTypes()
  {
  }

  // ---- Adding a question ----

  /** The question AddQuestionAsync creates: last in the survey, with the
      placeholder text, optional. */
  function NewQuestion(questions: seq<Question>, surveyId: Id, questionType: string, questionId: Id, now: Instant)
    : Question
  {
    Question(questionId, surveyId, Linq.MaxOrZero(questions, QuestionOrder, QuestionInSurvey(surveyId)) + 1,
             DefaultQuestionText(questionType), questionType, false, None, None, None, now, now)
  }

  /** The two placeholder options of a new choice question; none for other
      types. */
  function DefaultOptions(questionType: string, questionId: Id, first: Id, second: Id): seq<QuestionOption> {
    if RequiresOptions(questionType) then
      [QuestionOption(first, questionId, 1, "Option 1", None, true),
       QuestionOption(second, questionId, 2, "Option 2", None, true)]
    else []
  }

  /** AddQuestionAsync. The new ids and the clock are parameters. */
  method AddQuestion(db: Database, surveyId: Id, questionType: string, userId: Id,
                     questionId: Id, firstOptionId: Id, secondOptionId: Id, now: Instant)
    returns (out: Outcome)
    modifies db`questions, db`options
    ensures !CanEdit(db.collaborators, surveyId, userId) ==>
              out == Failed(NoPermission) && db.questions == old(db.questions) && db.options == old(db.options)
    ensures CanEdit(db.collaborators, surveyId, userId) ==>
              && out == Succeeded("Question added successfully")
              && db.questions == old(db.questions) + [NewQuestion(old(db.questions), surveyId, questionType, questionId, now)]
              && db.options == old(db.options) + DefaultOptions(questionType, questionId, firstOptionId, secondOptionId)
  {
    if !CanEdit(db.collaborators, surveyId, userId) {
      out := Failed(NoPermission);
      return;
    }
    db.questions := db.questions + [NewQuestion(db.questions, surveyId, questionType, questionId, now)];
    if RequiresOptions(questionType) {
      db.options := db.options + DefaultOptions(questionType, questionId, firstOptionId, secondOptionId);
    }
    out := Succeeded("Question added successfully");
  }

  /** A new question is ordered after every question already in its
      survey, so it is the last one a respondent reaches: nothing of the
      survey comes after it. */
  lemma NewQuestionComesLast(questions: seq<Question>, surveyId: Id, questionType: string, questionId: Id, now: Instant)
    requires forall i :: 0 <= i < |questions| ==> questions[i].questionId != questionId
    ensures var q := NewQuestion(questions, surveyId, questionType, questionId, now);
            && (forall i :: 0 <= i < |questions| && questions[i].surveyId == surveyId ==> questions[i].order < q.order)
            && Navigation.After(questions + [q], surveyId, questionId) == None
  {
    var q := NewQuestion(questions, surveyId, questionType, questionId, now);
    var all := questions + [q];
    assert QuestionInSurvey(surveyId)(q);
    assert forall i :: 0 <= i < |questions| && questions[i].surveyId == surveyId ==> QuestionInSurvey(surveyId)(questions[i]);
    assert Navigation.Anchor(all, surveyId, questionId) == Some(q) by {
      assert all[|questions|] == q;
    }
  }

  // ---- Updating a question and its options ----

  /** One row of the option list on the edit form (QuestionOptionViewModel);
      a new row carries Guid.Empty as its id. */
  datatype OptionForm = OptionForm(optionId: Id, text: string, value: Option<string>, isActive: bool)

  /** The question edit form (QuestionViewModel). */
  datatype QuestionForm = QuestionForm(
    questionId: Id,
    surveyId: Id,
    text: string,
    questionType: string,
    isRequired: bool,
    validationRule: Option<string>,
    helpText: Option<string>,
    defaultValue: Option<string>,
    options: seq<OptionForm>)

  /** The ids the form keeps: those of its rows that are not new. */
  function KeptIds(forms: seq<OptionForm>): set<Id> {
    set i | 0 <= i < |forms| && forms[i].optionId != Guids.Empty() :: forms[i].optionId
  }

  /** The question had an option with this id before the sync began. */
  predicate HadOption(options: seq<QuestionOption>, questionId: Id, optionId: Id) {
    exists i :: 0 <= i < |options| && options[i].questionId == questionId && options[i].optionId == optionId
  }

  /** A form row becomes a new option: it is new, or names an option the
      question did not have. */
  predicate IsAddition(original: seq<QuestionOption>, questionId: Id, form: OptionForm) {
    form.optionId == Guids.Empty() || !HadOption(original, questionId, form.optionId)
  }

  /** The option rows that survive the deletion step: every option of other
      questions, and the question's options the form still lists. */
  function Survives(questionId: Id, keep: set<Id>): QuestionOption -> bool {
    (o: QuestionOption) => o.questionId != questionId || o.optionId in keep
  }

  function OptionIs(questionId: Id, optionId: Id): QuestionOption -> bool {
    (o: QuestionOption) => o.questionId == questionId && o.optionId == optionId
  }

  /** The row a new form row becomes, at position `i` of the list. */
  function AddedOption(questionId: Id, form: OptionForm, i: nat, newId: Id): QuestionOption {
    QuestionOption(newId, questionId, i + 1, form.text, form.value, form.isActive)
  }

  /** One iteration of the add-or-update loop of SyncOptionsAsync: an
      addition is appended, an update rewrites the question's row with that
      id in place. */
  function SyncStep(options: seq<QuestionOption>, original: seq<QuestionOption>, questionId: Id,
                    form: OptionForm, i: nat, newId: Id): seq<QuestionOption>
  {
    if IsAddition(original, questionId, form) then options + [AddedOption(questionId, form, i, newId)]
    else match FindIndex(options, OptionIs(questionId, form.optionId))
      case Some(k) =>
        options[k := options[k].(text := form.text, value := form.value, order := i + 1, isActive := form.isActive)]
      case None => options
  }

  /** What one step does: an addition is appended; otherwise the length
      stays, and only the question's first row with the form's id can
      change; ids and owning questions never do. */
  lemma SyncStepShape(options: seq<QuestionOption>, original: seq<QuestionOption>, questionId: Id,
                      form: OptionForm, i: nat, newId: Id)
    ensures var r := SyncStep(options, original, questionId, form, i, newId);
            && (IsAddition(original, questionId, form) ==> r == options + [AddedOption(questionId, form, i, newId)])
            && (!IsAddition(original, questionId, form) ==> |r| == |options|)
            && (forall k :: 0 <= k < |options| ==> r[k].optionId == options[k].optionId && r[k].questionId == options[k].questionId)
            && (forall k :: 0 <= k < |options| && r[k] != options[k] ==>
                  !IsAddition(original, questionId, form) && FindIndex(options, OptionIs(questionId, form.optionId)) == Some(k))
  {
  }

  /** The options after the first `n` iterations of the loop. */
  function SyncPrefix(kept: seq<QuestionOption>, original: seq<QuestionOption>, questionId: Id,
                      forms: seq<OptionForm>, newIds: seq<Id>, n: nat): seq<QuestionOption>
    requires n <= |forms| && |newIds| == |forms|
  {
    if n == 0 then kept
    else SyncStep(SyncPrefix(kept, original, questionId, forms, newIds, n - 1), original, questionId,
                  forms[n - 1], n - 1, newIds[n - 1])
  }

  /** SyncOptionsAsync: delete the question's options the form dropped,
      then walk the form's rows, numbering them from 1, adding the new ones
      under new ids and updating the others in place. */
  method SyncOptions(db: Database, questionId: Id, forms: seq<OptionForm>, newIds: seq<Id>)
    requires |newIds| == |forms|
    modifies db`options
    ensures var kept := Linq.Filter(old(db.options), Survives(questionId, KeptIds(forms)));
            db.options == SyncPrefix(kept, old(db.options), questionId, forms, newIds, |forms|)
  {
    var original := db.options;
    var kept := Linq.Filter(db.options, Survives(questionId, KeptIds(forms)));
    db.options := kept;
    for i := 0 to |forms|
      invariant db.options == SyncPrefix(kept, original, questionId, forms, newIds, i)
    {
      SyncOne(db, original, questionId, forms[i], i, newIds[i]);
    }
  }

  /** The body of the add-or-update loop, for the form row at position `i`. */
  method SyncOne(db: Database, original: seq<QuestionOption>, questionId: Id, form: OptionForm, i: nat, newId: Id)
    modifies db`options
    ensures db.options == SyncStep(old(db.options), original, questionId, form, i, newId)
  {
    if form.optionId == Guids.Empty() || !HadOption(original, questionId, form.optionId) {
      db.options := db.options + [AddedOption(questionId, form, i, newId)];
    } else {
      var found := FindIndex(db.options, OptionIs(questionId, form.optionId));
      if found.Some? {
        var k := found.value;
        db.options := db.options[k := db.options[k].(text := form.text, value := form.value,
                                                      order := i + 1, isActive := form.isActive)];
      }
    }
  }

  /** The rows a form list adds, in order. */
  function Additions(original: seq<QuestionOption>, questionId: Id, forms: seq<OptionForm>, newIds: seq<Id>, n: nat)
    : seq<QuestionOption>
    requires n <= |forms| && |newIds| == |forms|
  {
    if n == 0 then []
    else Additions(original, questionId, forms, newIds, n - 1)
         + (if IsAddition(original, questionId, forms[n - 1]) then [AddedOption(questionId, forms[n - 1], n - 1, newIds[n - 1])]
            else [])
  }

  /** The first rows of `options` keep the ids and questions of `kept`. */
  predicate KeepsIds(kept: seq<QuestionOption>, options: seq<QuestionOption>) {
    |kept| <= |options|
    && forall k :: 0 <= k < |kept| ==> options[k].optionId == kept[k].optionId && options[k].questionId == kept[k].questionId
  }

  /** `options` is `kept`, possibly updated in place but with the same ids
      and questions, followed by the rows `added`. */
  predicate Shaped(kept: seq<QuestionOption>, options: seq<QuestionOption>, added: seq<QuestionOption>) {
    |options| == |kept| + |added| && options[|kept|..] == added && KeepsIds(kept, options)
  }

  /** Every option id the form keeps for the question is among `kept`. */
  predicate ListsKept(kept: seq<QuestionOption>, original: seq<QuestionOption>, questionId: Id, forms: seq<OptionForm>) {
    forall i :: 0 <= i < |forms| && !IsAddition(original, questionId, forms[i]) ==>
      exists m :: 0 <= m < |kept| && kept[m].questionId == questionId && kept[m].optionId == forms[i].optionId
  }

  /** The deletion step keeps every option the form still lists. */
  lemma FilterListsKept(original: seq<QuestionOption>, questionId: Id, forms: seq<OptionForm>)
    ensures ListsKept(Linq.Filter(original, Survives(questionId, KeptIds(forms))), original, questionId, forms)
  {
    var kept := Linq.Filter(original, Survives(questionId, KeptIds(forms)));
    forall i | 0 <= i < |forms| && !IsAddition(original, questionId, forms[i])
      ensures exists m :: 0 <= m < |kept| && kept[m].questionId == questionId && kept[m].optionId == forms[i].optionId
    {
      var id := forms[i].optionId;
      var j :| 0 <= j < |original| && original[j].questionId == questionId && original[j].optionId == id;
      assert id in KeptIds(forms);
      assert Survives(questionId, KeptIds(forms))(original[j]);
      assert original[j] in kept;
    }
  }

  /** The shape of a sync: the surviving rows stay where they were, keeping
      their ids and questions (an update changes only text, value, order and
      whether it is active), and the added rows follow them in form order. */
  lemma SyncShape(original: seq<QuestionOption>, questionId: Id, forms: seq<OptionForm>, newIds: seq<Id>, n: nat)
    requires n <= |forms| && |newIds| == |forms|
    ensures var kept := Linq.Filter(original, Survives(questionId, KeptIds(forms)));
            var r := SyncPrefix(kept, original, questionId, forms, newIds, n);
            && |r| == |kept| + |Additions(original, questionId, forms, newIds, n)|
            && r[|kept|..] == Additions(original, questionId, forms, newIds, n)
            && KeepsIds(kept, r)
  {
    FilterListsKept(original, questionId, forms);
    SyncShapeFrom(Linq.Filter(original, Survives(questionId, KeptIds(forms))), original, questionId, forms, newIds, n);
  }

  /** SyncShape for any starting rows that still list the form's kept ids. */
  lemma {:induction false} SyncShapeFrom(kept: seq<QuestionOption>, original: seq<QuestionOption>, questionId: Id,
                                         forms: seq<OptionForm>, newIds: seq<Id>, n: nat)
    requires n <= |forms| && |newIds| == |forms| && ListsKept(kept, original, questionId, forms)
    ensures Shaped(kept, SyncPrefix(kept, original, questionId, forms, newIds, n), Additions(original, questionId, forms, newIds, n))
  {
    if n > 0 {
      SyncShapeFrom(kept, original, questionId, forms, newIds, n - 1);
      SyncShapeStep(kept, original, questionId, forms, newIds, n,
                    SyncPrefix(kept, original, questionId, forms, newIds, n - 1),
                    Additions(original, questionId, forms, newIds, n - 1));
    }
  }

  /** One step of SyncShapeFrom's induction, over plain values. */
  lemma SyncShapeStep(kept: seq<QuestionOption>, original: seq<QuestionOption>, questionId: Id, forms: seq<OptionForm>,
                      newIds: seq<Id>, n: nat, prev: seq<QuestionOption>, added: seq<QuestionOption>)
    requires 0 < n <= |forms| && |newIds| == |forms| && ListsKept(kept, original, questionId, forms)
    requires Shaped(kept, prev, added)
    ensures var a := AddedOption(questionId, forms[n - 1], n - 1, newIds[n - 1]);
            Shaped(kept, SyncStep(prev, original, questionId, forms[n - 1], n - 1, newIds[n - 1]),
                   added + (if IsAddition(original, questionId, forms[n - 1]) then [a] else []))
  {
    var form := forms[n - 1];
    var r := SyncStep(prev, original, questionId, form, n - 1, newIds[n - 1]);
    var a := AddedOption(questionId, form, n - 1, newIds[n - 1]);
    if IsAddition(original, questionId, form) {
      assert r == prev + [a];
      assert r[|kept|..] == prev[|kept|..] + [a];
    } else {
      UpdateStaysInKept(kept, original, questionId, forms, n - 1, prev);
      var j := FindIndex(prev, OptionIs(questionId, form.optionId)).value;
      assert r == prev[j := prev[j].(text := form.text, value := form.value, order := n, isActive := form.isActive)];
      assert r[|kept|..] == prev[|kept|..];
      assert added + [] == added;
    }
  }

  /** A row the form keeps is found among the surviving rows, so its update
      happens in the part of the table the deletion step left. */
  lemma UpdateStaysInKept(kept: seq<QuestionOption>, original: seq<QuestionOption>, questionId: Id, forms: seq<OptionForm>,
                          i: nat, options: seq<QuestionOption>)
    requires i < |forms| && !IsAddition(original, questionId, forms[i])
    requires ListsKept(kept, original, questionId, forms) && KeepsIds(kept, options)
    ensures var found := FindIndex(options, OptionIs(questionId, forms[i].optionId));
            found.Some? && found.value < |kept|
  {
    var id := forms[i].optionId;
    var m :| 0 <= m < |kept| && kept[m].questionId == questionId && kept[m].optionId == id;
    assert OptionIs(questionId, id)(options[m]);
  }

  /** Row `m` is the first row of `s` for question `questionId` with id `id`. */
  predicate FirstIn(s: seq<QuestionOption>, questionId: Id, id: Id, m: nat) {
    && m < |s| && s[m].questionId == questionId && s[m].optionId == id
    && forall t :: 0 <= t < m ==> s[t].questionId != questionId || s[t].optionId != id
  }

  /** Row `m` of `r` is the question's first row with the id of form row
      `i`, and holds exactly what that form row wrote. */
  predicate WrittenAt(r: seq<QuestionOption>, questionId: Id, form: OptionForm, i: nat, m: nat) {
    FirstIn(r, questionId, form.optionId, m)
    && r[m] == QuestionOption(form.optionId, questionId, i + 1, form.text, form.value, form.isActive)
  }

  /** No form row after `i` and before `n` names the id of row `i`. */
  predicate LaterDiffer(forms: seq<OptionForm>, i: nat, n: nat)
    requires i < |forms| && n <= |forms|
  {
    forall j :: i < j < n ==> forms[j].optionId != forms[i].optionId
  }

  /** The lookup by id finds exactly the first row with the id. */
  lemma FirstInFound(s: seq<QuestionOption>, questionId: Id, id: Id, m: nat)
    requires FirstIn(s, questionId, id, m)
    ensures FindIndex(s, OptionIs(questionId, id)) == Some(m)
  {
    forall t | 0 <= t < m ensures !OptionIs(questionId, id)(s[t]) {
    }
    FindIndexFirst(s, OptionIs(questionId, id), m);
  }

  /** A form row naming an option the question already had updates that
      option in place: after the sync, the question's row with that id is
      where the deletion step left it, and carries the form row's text,
      value and active flag with its list position + 1 as its order,
      unless a later form row names the same id. */
  lemma UpdatedRowsWritten(original: seq<QuestionOption>, questionId: Id, forms: seq<OptionForm>, newIds: seq<Id>, i: nat)
    requires |newIds| == |forms| && i < |forms| && !IsAddition(original, questionId, forms[i])
    requires forall j :: i < j < |forms| ==> forms[j].optionId != forms[i].optionId
    ensures var kept := Linq.Filter(original, Survives(questionId, KeptIds(forms)));
            var r := SyncPrefix(kept, original, questionId, forms, newIds, |forms|);
            var m := FindIndex(kept, OptionIs(questionId, forms[i].optionId));
            && m.Some?
            && FindIndex(r, OptionIs(questionId, forms[i].optionId)) == m
            && r[m.value] == QuestionOption(forms[i].optionId, questionId, i + 1, forms[i].text, forms[i].value, forms[i].isActive)
  {
    var kept := Linq.Filter(original, Survives(questionId, KeptIds(forms)));
    var id := forms[i].optionId;
    FilterListsKept(original, questionId, forms);
    var m := KeptRowOf(kept, original, questionId, forms, i);
    assert LaterDiffer(forms, i, |forms|);
    SyncShapeFrom(kept, original, questionId, forms, newIds, i);
    UpdateWrites(kept, SyncPrefix(kept, original, questionId, forms, newIds, i), original, questionId, forms[i], i, newIds[i], m);
    UpdateWrittenFrom(kept, original, questionId, forms, newIds, i, |forms|, m);
    FirstInFound(SyncPrefix(kept, original, questionId, forms, newIds, |forms|), questionId, id, m);
  }

  /** The surviving row a kept form row names: the first one with its id. */
  lemma KeptRowOf(kept: seq<QuestionOption>, original: seq<QuestionOption>, questionId: Id, forms: seq<OptionForm>, i: nat)
    returns (m: nat)
    requires i < |forms| && !IsAddition(original, questionId, forms[i]) && ListsKept(kept, original, questionId, forms)
    ensures FindIndex(kept, OptionIs(questionId, forms[i].optionId)) == Some(m)
    ensures FirstIn(kept, questionId, forms[i].optionId, m)
  {
    var p := OptionIs(questionId, forms[i].optionId);
    var w :| 0 <= w < |kept| && kept[w].questionId == questionId && kept[w].optionId == forms[i].optionId;
    assert p(kept[w]);
    m := FindIndex(kept, p).value;
    forall t | 0 <= t < m ensures kept[t].questionId != questionId || kept[t].optionId != forms[i].optionId {
      assert !p(kept[t]);
    }
  }

  /** Once iteration `i` has written its row, each later iteration, for
      another id, leaves it as it was. */
  lemma UpdateWrittenFrom(kept: seq<QuestionOption>, original: seq<QuestionOption>, questionId: Id,
                          forms: seq<OptionForm>, newIds: seq<Id>, i: nat, n: nat, m: nat)
    requires |newIds| == |forms| && i < n <= |forms| && LaterDiffer(forms, i, n)
    requires WrittenAt(SyncPrefix(kept, original, questionId, forms, newIds, i + 1), questionId, forms[i], i, m)
    ensures WrittenAt(SyncPrefix(kept, original, questionId, forms, newIds, n), questionId, forms[i], i, m)
  {
    for k := i + 1 to n
      invariant WrittenAt(SyncPrefix(kept, original, questionId, forms, newIds, k), questionId, forms[i], i, m)
    {
      assert forms[k].optionId != forms[i].optionId;
      LaterStepKeepsWritten(SyncPrefix(kept, original, questionId, forms, newIds, k), original, questionId,
                            forms[k], k, newIds[k], forms[i], i, m);
    }
  }

  /** The iteration for form row `i` writes it into the question's first
      row with its id, which lies among the surviving rows. */
  lemma UpdateWrites(kept: seq<QuestionOption>, prev: seq<QuestionOption>, original: seq<QuestionOption>, questionId: Id,
                     form: OptionForm, i: nat, newId: Id, m: nat)
    requires !IsAddition(original, questionId, form)
    requires KeepsIds(kept, prev) && FirstIn(kept, questionId, form.optionId, m)
    ensures WrittenAt(SyncStep(prev, original, questionId, form, i, newId), questionId, form, i, m)
  {
    assert FirstIn(prev, questionId, form.optionId, m);
    FirstInFound(prev, questionId, form.optionId, m);
    var r := SyncStep(prev, original, questionId, form, i, newId);
    assert r == prev[m := prev[m].(text := form.text, value := form.value, order := i + 1, isActive := form.isActive)];
  }

  /** A later iteration for another id leaves a written row as it was. */
  lemma LaterStepKeepsWritten(prev: seq<QuestionOption>, original: seq<QuestionOption>, questionId: Id, form: OptionForm,
                              n: nat, newId: Id, written: OptionForm, i: nat, m: nat)
    requires WrittenAt(prev, questionId, written, i, m) && form.optionId != written.optionId
    ensures WrittenAt(SyncStep(prev, original, questionId, form, n, newId), questionId, written, i, m)
  {
    SyncStepShape(prev, original, questionId, form, n, newId);
  }

  /** Every row the form adds is stored under its new id, for this
      question, at its position in the list. */
  lemma {:induction false} AdditionsNumbered(original: seq<QuestionOption>, questionId: Id, forms: seq<OptionForm>,
                                             newIds: seq<Id>, n: nat, i: nat)
    requires n <= |forms| && |newIds| == |forms| && i < n
    requires IsAddition(original, questionId, forms[i])
    ensures AddedOption(questionId, forms[i], i, newIds[i]) in Additions(original, questionId, forms, newIds, n)
  {
    if i < n - 1 {
      AdditionsNumbered(original, questionId, forms, newIds, n - 1, i);
    }
  }

  /** A sync touches no option of another question. */
  lemma SyncKeepsOtherQuestions(original: seq<QuestionOption>, questionId: Id, forms: seq<OptionForm>,
                                newIds: seq<Id>, other: Id)
    requires |newIds| == |forms| && other != questionId
    ensures var kept := Linq.Filter(original, Survives(questionId, KeptIds(forms)));
            Linq.Filter(SyncPrefix(kept, original, questionId, forms, newIds, |forms|), OptionOfQuestion(other))
              == Linq.Filter(original, OptionOfQuestion(other))
  {
    var kept := Linq.Filter(original, Survives(questionId, KeptIds(forms)));
    DeletionKeepsOtherQuestions(original, questionId, KeptIds(forms), other);
    LoopKeepsOtherQuestions(kept, original, questionId, forms, newIds, |forms|, other);
  }

  /** `a` and `b` hold the same options of question `other`, in the same order. */
  ghost predicate SameOthers(a: seq<QuestionOption>, b: seq<QuestionOption>, other: Id) {
    Linq.Filter(a, OptionOfQuestion(other)) == Linq.Filter(b, OptionOfQuestion(other))
  }

  /** The add-or-update loop touches no option of another question. */
  lemma {:induction false} LoopKeepsOtherQuestions(kept: seq<QuestionOption>, original: seq<QuestionOption>, questionId: Id,
                                                   forms: seq<OptionForm>, newIds: seq<Id>, n: nat, other: Id)
    requires n <= |forms| && |newIds| == |forms| && other != questionId
    ensures SameOthers(SyncPrefix(kept, original, questionId, forms, newIds, n), kept, other)
  {
    if n > 0 {
      LoopKeepsOtherQuestions(kept, original, questionId, forms, newIds, n - 1, other);
      PrefixStepKeepsOtherQuestions(kept, original, questionId, forms, newIds, n, other);
      SameOthersChain(SyncPrefix(kept, original, questionId, forms, newIds, n),
                      SyncPrefix(kept, original, questionId, forms, newIds, n - 1), kept, other);
    }
  }

  lemma SameOthersChain(a: seq<QuestionOption>, b: seq<QuestionOption>, c: seq<QuestionOption>, other: Id)
    requires SameOthers(a, b, other) && SameOthers(b, c, other)
    ensures SameOthers(a, c, other)
  {
  }

  /** The n-th iteration of the loop touches no option of another question. */
  lemma PrefixStepKeepsOtherQuestions(kept: seq<QuestionOption>, original: seq<QuestionOption>, questionId: Id,
                                      forms: seq<OptionForm>, newIds: seq<Id>, n: nat, other: Id)
    requires 0 < n <= |forms| && |newIds| == |forms| && other != questionId
    ensures SameOthers(SyncPrefix(kept, original, questionId, forms, newIds, n),
                       SyncPrefix(kept, original, questionId, forms, newIds, n - 1), other)
  {
    SyncStepKeepsOtherQuestions(SyncPrefix(kept, original, questionId, forms, newIds, n - 1), original, questionId,
                                forms[n - 1], n - 1, newIds[n - 1], other);
  }

  /** The deletion step touches no option of another question. */
  lemma DeletionKeepsOtherQuestions(original: seq<QuestionOption>, questionId: Id, keep: set<Id>, other: Id)
    requires other != questionId
    ensures Linq.Filter(Linq.Filter(original, Survives(questionId, keep)), OptionOfQuestion(other))
              == Linq.Filter(original, OptionOfQuestion(other))
  {
    Linq.FilterFilter(original, Survives(questionId, keep), OptionOfQuestion(other));
  }

  /** One step of the sync touches no option of another question. */
  lemma SyncStepKeepsOtherQuestions(options: seq<QuestionOption>, original: seq<QuestionOption>, questionId: Id,
                                    form: OptionForm, i: nat, newId: Id, other: Id)
    requires other != questionId
    ensures Linq.Filter(SyncStep(options, original, questionId, form, i, newId), OptionOfQuestion(other))
              == Linq.Filter(options, OptionOfQuestion(other))
  {
    var p := OptionOfQuestion(other);
    var r := SyncStep(options, original, questionId, form, i, newId);
    SyncStepShape(options, original, questionId, form, i, newId);
    if IsAddition(original, questionId, form) {
      Linq.FilterAppend(options, [AddedOption(questionId, form, i, newId)], p);
    } else {
      match FindIndex(options, OptionIs(questionId, form.optionId))
      case Some(k) =>
        Linq.FilterUpdate(options, k, r[k], p);
      case None =>
    }
  }

  /** The question row after UpdateQuestionAsync. */
  function EditedQuestion(q: Question, form: QuestionForm, now: Instant): Question {
    q.(text := form.text, questionType := form.questionType, isRequired := form.isRequired,
       validationRule := form.validationRule, helpText := form.helpText, defaultValue := form.defaultValue,
       updatedAt := now)
  }

  /** The option rows of every other question. */
  function NotOfQuestion(questionId: Id): QuestionOption -> bool {
    (o: QuestionOption) => o.questionId != questionId
  }

  /** UpdateQuestionAsync. Permission is checked on the form's survey, the
      question is then looked up by id alone. */
  method UpdateQuestion(db: Database, form: QuestionForm, userId: Id, newIds: seq<Id>, now: Instant)
    returns (out: Outcome)
    requires |newIds| == |form.options|
    modifies db`questions, db`options
    ensures !CanEdit(db.collaborators, form.surveyId, userId) ==>
              out == Failed(NoPermission) && db.questions == old(db.questions) && db.options == old(db.options)
    ensures CanEdit(db.collaborators, form.surveyId, userId) && FindIndex(old(db.questions), QuestionIs(form.questionId)).None? ==>
              out == Failed("Question not found") && db.questions == old(db.questions) && db.options == old(db.options)
    ensures CanEdit(db.collaborators, form.surveyId, userId) && FindIndex(old(db.questions), QuestionIs(form.questionId)).Some? ==>
              var i := FindIndex(old(db.questions), QuestionIs(form.questionId)).value;
              && out == Succeeded("Question updated successfully")
              && db.questions == old(db.questions)[i := EditedQuestion(old(db.questions)[i], form, now)]
              && (RequiresOptions(form.questionType) ==>
                    db.options == SyncPrefix(Linq.Filter(old(db.options), Survives(form.questionId, KeptIds(form.options))),
                                             old(db.options), form.questionId, form.options, newIds, |form.options|))
              && (!RequiresOptions(form.questionType) ==>
                    db.options == Linq.Filter(old(db.options), NotOfQuestion(form.questionId)))
  {
    if !CanEdit(db.collaborators, form.surveyId, userId) {
      out := Failed(NoPermission);
      return;
    }
    var found := FindIndex(db.questions, QuestionIs(form.questionId));
    if found.None? {
      out := Failed("Question not found");
      return;
    }
    var i := found.value;
    db.questions := db.questions[i := EditedQuestion(db.questions[i], form, now)];
    if RequiresOptions(form.questionType) {
      SyncOptions(db, form.questionId, form.options, newIds);
    } else {
      db.options := Linq.Filter(db.options, NotOfQuestion(form.questionId));
    }
    out := Succeeded("Question updated successfully");
  }

  /** A question edited into a type without options has none left. */
  lemma NoOptionsLeft(options: seq<QuestionOption>, questionId: Id)
    ensures Linq.Count(Linq.Filter(options, NotOfQuestion(questionId)), OptionOfQuestion(questionId)) == 0
  {
    Linq.FilterNone(Linq.Filter(options, NotOfQuestion(questionId)), OptionOfQuestion(questionId));
  }

  // ---- Deleting a question ----

  /** DeleteQuestionAsync: the question is found by id, permission is
      checked on its own survey, and its options go with it. */
  method DeleteQuestion(db: Database, questionId: Id, userId: Id) returns (out: Outcome)
    modifies db`questions, db`options
    ensures FindIndex(old(db.questions), QuestionIs(questionId)).None? ==>
              out == Failed("Question not found") && db.questions == old(db.questions) && db.options == old(db.options)
    ensures FindIndex(old(db.questions), QuestionIs(questionId)).Some? ==>
              var i := FindIndex(old(db.questions), QuestionIs(questionId)).value;
              if !CanEdit(db.collaborators, old(db.questions)[i].surveyId, userId) then
                out == Failed(NoPermission) && db.questions == old(db.questions) && db.options == old(db.options)
              else
                && out == Succeeded("Question deleted successfully")
                && db.questions == RemoveAt(old(db.questions), i)
                && db.options == Linq.Filter(old(db.options), NotOfQuestion(questionId))
  {
    var found := FindIndex(db.questions, QuestionIs(questionId));
    if found.None? {
      out := Failed("Question not found");
      return;
    }
    var i := found.value;
    if !CanEdit(db.collaborators, db.questions[i].surveyId, userId) {
      out := Failed(NoPermission);
      return;
    }
    db.questions := RemoveAt(db.questions, i);
    db.options := Linq.Filter(db.options, NotOfQuestion(questionId));
    out := Succeeded("Question deleted successfully");
  }

  /** With unique question ids, a deleted question is gone for good, and
      every other question is still there. */
  lemma DeletedQuestionGone(questions: seq<Question>, i: nat)
    requires i < |questions| && Navigation.UniqueQuestionIds(questions)
    ensures forall j :: 0 <= j < |RemoveAt(questions, i)| ==> RemoveAt(questions, i)[j].questionId != questions[i].questionId
    ensures forall j :: 0 <= j < |questions| && j != i ==> questions[j] in RemoveAt(questions, i)
  {
    var r := RemoveAt(questions, i);
    forall j | 0 <= j < |questions| && j != i
      ensures questions[j] in r
    {
      if j < i { assert r[j] == questions[j]; } else { assert r[j - 1] == questions[j]; }
    }
  }

  // ---- Reordering ----

  /** The question of a survey with a given id. */
  function QuestionOfSurvey(surveyId: Id, questionId: Id): Question -> bool {
    (q: Question) => q.surveyId == surveyId && q.questionId == questionId
  }

  /** The question of the survey with this id, renumbered to `order`, if
      the survey has one; ids and surveys never change. */
  function ReorderStep(questions: seq<Question>, surveyId: Id, questionId: Id, order: int, now: Instant)
    : (r: seq<Question>)
    ensures |r| == |questions|
    ensures forall k :: 0 <= k < |r| ==> r[k].questionId == questions[k].questionId && r[k].surveyId == questions[k].surveyId
    ensures forall k :: 0 <= k < |r| && FindIndex(questions, QuestionOfSurvey(surveyId, questionId)) != Some(k) ==>
              r[k] == questions[k]
  {
    match FindIndex(questions, QuestionOfSurvey(surveyId, questionId))
    case Some(k) => questions[k := questions[k].(order := order, updatedAt := now)]
    case None => questions
  }

  /** The questions after the first `n` iterations of the reorder loop. */
  function ReorderPrefix(questions: seq<Question>, surveyId: Id, ids: seq<Id>, n: nat, now: Instant): (r: seq<Question>)
    requires n <= |ids|
    ensures |r| == |questions|
    ensures forall k :: 0 <= k < |r| ==> r[k].questionId == questions[k].questionId && r[k].surveyId == questions[k].surveyId
  {
    if n == 0 then questions
    else ReorderStep(ReorderPrefix(questions, surveyId, ids, n - 1, now), surveyId, ids[n - 1], n, now)
  }

  /** ReorderQuestionsAsync: the question listed at position i (counting
      from 0) gets order i + 1; ids the survey does not have are skipped. */
  method ReorderQuestions(db: Database, surveyId: Id, ids: seq<Id>, userId: Id, now: Instant) returns (out: Outcome)
    modifies db`questions
    ensures !CanEdit(db.collaborators, surveyId, userId) ==> out == Failed(NoPermission) && db.questions == old(db.questions)
    ensures CanEdit(db.collaborators, surveyId, userId) ==>
              out == Succeeded("Questions reordered successfully")
              && db.questions == ReorderPrefix(old(db.questions), surveyId, ids, |ids|, now)
  {
    if !CanEdit(db.collaborators, surveyId, userId) {
      out := Failed(NoPermission);
      return;
    }
    for i := 0 to |ids|
      invariant db.questions == ReorderPrefix(old(db.questions), surveyId, ids, i, now)
    {
      var found := FindIndex(db.questions, QuestionOfSurvey(surveyId, ids[i]));
      if found.Some? {
        var k := found.value;
        db.questions := db.questions[k := db.questions[k].(order := i + 1, updatedAt := now)];
      }
    }
    out := Succeeded("Questions reordered successfully");
  }

  /** The last position of `x` in `s`. */
  function LastIndex(s: seq<Id>, x: Id): (r: nat)
    requires x in s
    ensures r < |s| && s[r] == x
    ensures forall j :: r < j < |s| ==> s[j] != x
  {
    if s[|s| - 1] == x then |s| - 1 else LastIndex(s[..|s| - 1], x)
  }

  /** Where one question ends up after a reorder: a listed question of the
      survey takes the position it is listed at last, any other is left
      alone. */
  function Reordered(q: Question, surveyId: Id, ids: seq<Id>, now: Instant): Question {
    if q.surveyId == surveyId && q.questionId in ids then q.(order := LastIndex(ids, q.questionId) + 1, updatedAt := now)
    else q
  }

  /** With unique question ids the loop's result is the question-by-question
      description: listed questions numbered by their (last) position, and
      nothing else changed. */
  lemma {:induction false} ReorderPlacesEachQuestion(questions: seq<Question>, surveyId: Id, ids: seq<Id>, n: nat, now: Instant)
    requires n <= |ids| && Navigation.UniqueQuestionIds(questions)
    ensures var r := ReorderPrefix(questions, surveyId, ids, n, now);
            forall k :: 0 <= k < |r| ==> r[k] == Reordered(questions[k], surveyId, ids[..n], now)
  {
    if n > 0 {
      ReorderPlacesEachQuestion(questions, surveyId, ids, n - 1, now);
      var prev := ReorderPrefix(questions, surveyId, ids, n - 1, now);
      forall k | 0 <= k < |questions|
        ensures ReorderStep(prev, surveyId, ids[n - 1], n, now)[k] == Reordered(questions[k], surveyId, ids[..n], now)
      {
        ReorderStepAt(questions, prev, surveyId, ids, n, now, k);
      }
    }
  }

  /** One step of the reorder, seen from one question. */
  lemma ReorderStepAt(questions: seq<Question>, prev: seq<Question>, surveyId: Id, ids: seq<Id>, n: nat, now: Instant, k: nat)
    requires 0 < n <= |ids| && Navigation.UniqueQuestionIds(questions)
    requires |prev| == |questions| && k < |questions|
    requires forall j :: 0 <= j < |prev| ==> prev[j].questionId == questions[j].questionId && prev[j].surveyId == questions[j].surveyId
    requires prev[k] == Reordered(questions[k], surveyId, ids[..n - 1], now)
    ensures ReorderStep(prev, surveyId, ids[n - 1], n, now)[k] == Reordered(questions[k], surveyId, ids[..n], now)
  {
    var x := ids[n - 1];
    var q := questions[k];
    var found := FindIndex(prev, QuestionOfSurvey(surveyId, x));
    assert ids[..n][..n - 1] == ids[..n - 1];
    if q.surveyId == surveyId && q.questionId == x {
      assert QuestionOfSurvey(surveyId, x)(prev[k]);
      assert found == Some(k) by {
        var m := found.value;
        assert questions[m].questionId == questions[k].questionId;
      }
      assert LastIndex(ids[..n], x) == n - 1;
    } else {
      assert !QuestionOfSurvey(surveyId, x)(prev[k]);
      if q.surveyId == surveyId && q.questionId in ids[..n] {
        assert q.questionId in ids[..n - 1] by {
          var j :| 0 <= j < n && ids[..n][j] == q.questionId;
          assert j < n - 1 && ids[..n - 1][j] == q.questionId;
        }
      }
    }
  }

  /** A reorder listing every question of the survey once numbers them 1 to
      n in the listed order. */
  lemma ReorderNumbersListedQuestions(questions: seq<Question>, surveyId: Id, ids: seq<Id>, now: Instant, k: nat, i: nat)
    requires Navigation.UniqueQuestionIds(questions)
    requires forall a, b :: 0 <= a < b < |ids| ==> ids[a] != ids[b]
    requires k < |questions| && questions[k].surveyId == surveyId
    requires i < |ids| && ids[i] == questions[k].questionId
    ensures ReorderPrefix(questions, surveyId, ids, |ids|, now)[k].order == i + 1
  {
    ReorderPlacesEachQuestion(questions, surveyId, ids, |ids|, now);
    assert ids[..|ids|] == ids;
  }
}
