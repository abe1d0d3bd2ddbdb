# Survey flow engine — a Dafny model

This project models the core of a survey web application: the services that
design a survey, attach branching rules to its questions, steer a respondent
through it at run time, record their answers, share it with collaborators, and
register and log in its users. The database is one `Store.Database` object.
Each table is a `seq` field of it, and each service operation is a method that
changes only the tables the original writes. Every check a service makes is
also written as a pure function, and the lemmas are stated about those
functions.

Modules, following the services of the application:

- `LogicEngine`: the run-time navigator. It picks the respondent's next
  question from the branch rules of the question just answered, evaluated in
  priority order.
- `Navigation`: the question repository's three ordering queries: the first
  question, and the question that follows a given one.
- `BranchLogic`: the rule editor. It covers adding a rule through its fixed
  sequence of checks, deleting a rule, changing a rule's priority, and the text
  that describes a rule.
- `SurveyDesigner`: the question editor. It covers adding, editing and deleting
  questions, synchronising their options, and reordering.
- `SurveyTaker`: the respondent's side. It covers admission to a survey,
  saving answers and completing a response.
- `SurveyCollaborator`: sharing a survey and managing its collaborators' roles.
- `SurveyService`: creating surveys, the "my surveys" list, owner-only edits
  and deletion, and the settings page with its validation.
- `UserService`: registration, and login with its failed-attempt counter,
  temporary lockout and the byte-by-byte hash comparison.
- Support modules:
  - `Store`: the entities and the `FindIndex` lookup every "first or
    default" query uses.
  - `Linq`: a stable `OrderBy`, `Where`, `Count` and `Max`.
  - `Text`: `Trim` and `Split`.
  - `Guids`: the 36-character Guid text form and `Guid.TryParse`.
  - `Conditions`: the condition string `OptionId == '<guid>'`.
  - `Wrappers`: `Option` and `Result`.

Side conditions the model turns into parameters:

- Fresh Guids, the clock, the password hash and the format of the lock's end
  date are all parameters. `now` stands for every `DateTime.UtcNow` read within
  one call.

Behaviour of the code worth noting:

- `BranchLogic.CheckNewRule`: adding a rule never checks that the source
  question belongs to the survey named in the form. Only the target question
  is checked.
  - `BranchLogicService.cs:107-110` looks the source question up globally.
- `LogicEngine.NextQuestion`: a deciding ShowQuestion rule whose target no
  longer exists ends the survey. It does not fall through to the next question
  in order.
  - `GetByIdWithOptionsAsync` returns null and that null is returned
    (`LogicEngineService.cs:75`).
- `BranchLogic.CheckNewRule`: adding a rule to a survey without questions fails
  with "Error adding logic rule: Sequence contains no elements".
  - That is the message of the exception `Max` throws on an empty list, which
    the catch turns into a failure (`BranchLogicService.cs:139`,
    `BranchLogicService.cs:223`).
- `SurveyDesigner.UpdateQuestion`: the permission check uses the survey id in
  the form, but the question is looked up by its id alone. An editor of one
  survey can therefore edit a question of another.
- `SurveyDesigner.ReorderQuestions`:
  - When an id is listed twice, its last position wins.
  - Questions whose ids are not listed keep their order.
  - Ids of other surveys are ignored.
- `SurveyService.GetMySurveys`: the role on each row comes from the first of the
  user's collaborations on that survey, taking the most recently granted first.
  The `First` call that looks it up can never fail (`ListedRowsShowRole`), so
  the catch that would return an empty page is never reached from it.

## Model

| member | source | states |
|---|---|---|
| LogicEngine.Apply | Survey/Services/LogicEngineService.cs:64-87 | the action switch decides exactly for EndSurvey, and for ShowQuestion/SkipQuestion with a target; EndSurvey decides "no next question" |
| LogicEngine.ApplyRules | Survey/Services/LogicEngineService.cs:54-89 | the ordered loop decides iff some rule both fires and acts |
| LogicEngine.DecidingRule | Survey/Services/LogicEngineService.cs:41-58 | the deciding rule comes from the answered question's rules, acts, and its option was selected in this response for that question |
| LogicEngine.ApplyRulesFirst | Survey/Services/LogicEngineService.cs:54-89 | the ordered evaluation equals applying the first decisive rule of the stably sorted list |
| LogicEngine.StartsAtFirst | Survey/Services/LogicEngineService.cs:34-38 | with no previous question the result is the survey's question of least order, whatever the rules and answers |
| LogicEngine.NextFollowsDecidingRule | Survey/Services/LogicEngineService.cs:41-101 | after an answer, the next question is the deciding rule's action if one decides, else the next question in order |
| LogicEngine.EndSurveyEnds | Survey/Services/LogicEngineService.cs:66-68 | a deciding EndSurvey rule ends the survey |
| LogicEngine.ShowJumpsToTarget | Survey/Services/LogicEngineService.cs:70-77 | a deciding ShowQuestion rule yields its target looked up by id (none if the target is gone) |
| LogicEngine.SkipPassesTarget | Survey/Services/LogicEngineService.cs:79-86 | a deciding SkipQuestion rule yields the question after its target, never the target itself |
| LogicEngine.NoDecisionFallsThrough | Survey/Services/LogicEngineService.cs:92-101 | when no rule of the answered question decides, the next question is the next one in order |
| LogicEngine.OtherSourcesIgnored | Survey/Repositories/BranchLogicRepository.cs:35-42 | adding a rule attached to another question never changes the next question |
| LogicEngine.IdleRuleIgnored | Survey/Services/LogicEngineService.cs:56-88 | a rule that does not fire, or fires with an action the switch passes over, can be removed without changing the next question |
| LogicEngine.BuiltConditionHolds | Survey/Services/LogicEngineService.cs:104-129 | a condition written by the rule editor for option o holds iff o is among the selected options |
| LogicEngine.MalformedConditionNeverHolds | Survey/Services/LogicEngineService.cs:109-114 | a condition with no "==" never holds |
| Navigation.First | Survey/Repositories/IQuestionRepository.cs:17 | the first question belongs to the survey and has the least order; none when the survey has no questions |
| Navigation.Anchor | Survey/Repositories/IQuestionRepository.cs:18-19 | the anchor is the survey's question with that id; none when there is no such question |
| Navigation.After | Survey/Repositories/IQuestionRepository.cs:18-19 | the next question belongs to the survey, is ordered strictly after the anchor and before every other later question; none when no later question exists |
| Navigation.AfterIsNotAnchor | Survey/Repositories/IQuestionRepository.cs:18-19 | the question after an anchor is never the anchor |
| Conditions.ExtractOptionId | Survey/Services/LogicEngineService.cs:131-151 | a condition that does not split into exactly two parts around "==" yields the empty Guid |
| Conditions.ExtractBuilt | Survey/Services/BranchLogicService.cs:194 | reading back a condition written for option o gives o |
| Conditions.BuiltSplits | Survey/Services/LogicEngineService.cs:136-137 | a written condition splits into exactly the name and the quoted Guid |
| Conditions.QuotedTrims | Survey/Services/LogicEngineService.cs:139 | the two trims strip the blank and the quotes and leave the Guid text |
| Conditions.NoSeparatorNoOption | Survey/Services/BranchLogicService.cs:344-364 | a condition without "=" names no option |
| Guids.HexValue | Survey/Services/LogicEngineService.cs:140 | a hex digit is never "=" or white space |
| Guids.Hex | Survey/Services/BranchLogicService.cs:194 | the hex text has one digit per nibble, in order |
| Guids.ParseHex | Survey/Services/LogicEngineService.cs:140 | a parsed digit run has one nibble per character |
| Guids.Format | Survey/Services/BranchLogicService.cs:194 | a Guid is written in 36 characters |
| Guids.ParseHexOfHex | Survey/Services/LogicEngineService.cs:140 | parsing hex text gives back its nibbles |
| Guids.HexAlphabet | Survey/Services/BranchLogicService.cs:194 | hex text contains only hex digits |
| Guids.FormatChars | Survey/Services/BranchLogicService.cs:194 | the written Guid contains only hex digits and hyphens |
| Guids.FormatEnds | Survey/Services/BranchLogicService.cs:194 | the written Guid starts and ends with hex digits, so trimming leaves it intact |
| Guids.HexCharValue | Survey/Services/LogicEngineService.cs:140 | reading the digit written for a nibble gives the nibble, and no digit is white space |
| Guids.HexConcat | Survey/Services/BranchLogicService.cs:194 | the hex text of two nibble runs side by side is the two texts side by side |
| Guids.Unhyphenate | Survey/Services/LogicEngineService.cs:140 | the five groups of the hyphenated layout are found again at their offsets |
| Guids.HexGroups | Survey/Services/BranchLogicService.cs:194 | the digits of the five groups, joined, are the digits of the whole Guid |
| Guids.FormatDigits | Survey/Services/LogicEngineService.cs:140 | dropping the four hyphens from the written Guid leaves the hex text of all its nibbles |
| Guids.ParseFormat | Survey/Services/LogicEngineService.cs:140 | parsing the written form of a Guid gives that Guid |
| Guids.FormatInjective | Survey/Services/SurveyTakerService.cs:74 | distinct Guids have distinct texts, so distinct tokens never collide |
| Text.TrimStart | Survey/Services/LogicEngineService.cs:139 | the result is a suffix, starts outside the set, and everything cut is in the set |
| Text.TrimEnd | Survey/Services/LogicEngineService.cs:139 | the result is a prefix, ends outside the set, and everything cut is in the set |
| Text.TrimUntouched | Survey/Services/LogicEngineService.cs:139 | a string whose ends are outside the set is unchanged by trimming |
| Text.TrimWrapped | Survey/Services/LogicEngineService.cs:139 | trimming removes exactly the padding made of set characters |
| Text.TrimStartPrefix | Survey/Services/LogicEngineService.cs:139 | the leading trim removes exactly a prefix of set characters |
| Text.TrimEndSuffix | Survey/Services/LogicEngineService.cs:139 | the trailing trim removes exactly a suffix of set characters |
| Text.IndexOf | Survey/Services/LogicEngineService.cs:136 | the first occurrence of the separator at or after a position, or none |
| Text.Split | Survey/Services/LogicEngineService.cs:136 | splitting always gives at least one part |
| Text.SplitOnce | Survey/Services/LogicEngineService.cs:136-137 | a separator occurring exactly once splits into the two sides |
| Text.SplitWithout | Survey/Services/LogicEngineService.cs:136 | without the separator the string is one part |
| Text.NatString | Survey/Services/BranchLogicService.cs:328 | a number is written with at least one digit and digits only |
| Text.NatStringValue | Survey/Services/BranchLogicService.cs:328 | the written digits denote the number |
| Linq.Insert | Survey/Services/LogicEngineService.cs:54 | inserting adds exactly the one element, and the result starts with it or with the old head |
| Linq.InsertSorted | Survey/Services/LogicEngineService.cs:54 | inserting into a list ordered by the key keeps it ordered |
| Linq.SortBy | Survey/Services/LogicEngineService.cs:54 | OrderBy yields a permutation ordered by the key |
| Linq.FirstWhere | Survey/Repositories/QuestionRepository.cs:18 | the first element satisfying the condition, or none when there is none |
| Linq.BestIndex | Survey/Repositories/IQuestionRepository.cs:17 | the index of a least-key element satisfying the condition, the earliest among ties |
| Linq.Best | Survey/Repositories/IQuestionRepository.cs:17 | a least-key element satisfying the condition, or none |
| Linq.BestCons | Survey/Repositories/IQuestionRepository.cs:17 | the least-key element of a longer list, from its head and the rest |
| Linq.BestSkips | Survey/Repositories/IQuestionRepository.cs:17 | an element failing the condition does not affect the least-key element |
| Linq.FirstWhereInsert | Survey/Services/LogicEngineService.cs:54 | the first match after inserting is the inserted element or the old first match, by key |
| Linq.FirstOfSorted | Survey/Services/LogicEngineService.cs:54-58 | the first match in the stably sorted list is the least-key match, earliest among ties |
| Linq.SortSorted | Survey/Services/LogicEngineService.cs:54 | sorting an already sorted list changes nothing (stability) |
| Linq.SortTwice | Survey/Services/LogicEngineService.cs:54 | sorting is idempotent |
| Linq.Filter | Survey/Repositories/BranchLogicRepository.cs:40 | Where keeps exactly the elements satisfying the condition |
| Linq.FilterAppend | Survey/Repositories/BranchLogicRepository.cs:40 | Where distributes over concatenation |
| Linq.FilterFilter | Survey/Repositories/ResponseAnswerRepository.cs:26 | a stricter Where after a weaker one is the stricter one |
| Linq.FilterAll | Survey/Repositories/ResponseAnswerRepository.cs:26 | Where keeps a list whose elements all satisfy it |
| Linq.FilterNone | Survey/Repositories/ResponseAnswerRepository.cs:26 | Where empties a list none of whose elements satisfy it |
| Linq.FilterUpdate | Survey/Repositories/SurveyCollaboratorRepository.cs:61-65 | replacing an element that fails the condition by another that fails it does not change the Where |
| Linq.FilterRemove | Survey/Repositories/SurveyCollaboratorRepository.cs:67-75 | removing an element that fails the condition does not change the Where |
| Linq.Count | Survey/Repositories/SurveyRepository.cs:79-89 | Count is the size of the Where |
| Linq.CountSplit | Survey/Services/SurveyService.cs:145-146 | counts of a condition and its negation add up to the total |
| Linq.MaxOrZero | Survey/Repositories/QuestionRepository.cs:67-73 | the maximum key among matches, attained by a match; 0 when nothing matches |
| Store.FindIndex | Survey/Repositories/SurveyRepository.cs:16-21 | FirstOrDefault: the first index whose element matches, or none when nothing matches |
| Store.FindIndexFirst | Survey/Repositories/SurveyResponseRepository.cs:15-21 | a matching index with no match before it is what the lookup finds |
| Store.QuestionById | Survey/Repositories/QuestionRepository.cs:15-19 | the question with that id, or none when no question has it |
| Store.SurveyById | Survey/Repositories/SurveyRepository.cs:16-21 | the survey with that id, or none when no survey has it |
| Store.EmailFound | Survey/Repositories/UserRepository.cs:15-19 | the lookup by email finds an account iff some account has the email |
| Store.RoleOf | Survey/Repositories/SurveyCollaboratorRepository.cs:48-53 | a role is found iff the user collaborates on the survey |
| Store.RemoveAt | Survey/Repositories/BranchLogicRepository.cs:57-65 | removal keeps every other row in order |
| BranchLogic.CheckNewRuleAccepts | Survey/Services/BranchLogicService.cs:99-191 | the checks accept a rule iff the user may edit, the source question and its option exist, the pair has no rule, the survey has questions, EndSurvey is not on the last question, and the action is valid with a target of the same survey other than the source; the target stored is none for EndSurvey |
| BranchLogic.TargetAccepts | Survey/Services/BranchLogicService.cs:148-191 | the action checks accept exactly a Show or Skip rule whose target is another question of the survey, and an EndSurvey rule; the stored target is none for EndSurvey |
| BranchLogic.AcceptedIsAdmissible | Survey/Services/BranchLogicService.cs:99-191 | an accepted rule meets every condition of the check sequence, and its stored target is none for EndSurvey |
| BranchLogic.AdmissibleIsAccepted | Survey/Services/BranchLogicService.cs:99-191 | a rule that meets every condition is accepted |
| BranchLogic.SurveyHasQuestions | Survey/Services/BranchLogicService.cs:138-139 | the question count of a survey is non-zero iff it has a question |
| BranchLogic.AddRule | Survey/Services/BranchLogicService.cs:91-225 | a rejected rule leaves the rules unchanged with the first failing check's message; an accepted one is appended with the built condition and priority one above the survey's largest |
| BranchLogic.NewRuleComesLast | Survey/Services/BranchLogicService.cs:196-208 | a new rule's priority is above every rule of its survey, and 1 in a survey without rules |
| BranchLogic.AddKeepsPairsUnique | Survey/Services/BranchLogicService.cs:120-135 | adding keeps every (question, option) pair of a survey to at most one rule |
| BranchLogic.AppendKeepsPairsUnique | Survey/Services/BranchLogicService.cs:120-135 | appending a rule for a pair that has none keeps every pair to at most one rule |
| BranchLogic.CreatedRuleFiresOnItsOption | Survey/Services/BranchLogicService.cs:194 | a created rule fires at run time exactly when its option is selected |
| BranchLogic.LocateRule | Survey/Services/BranchLogicService.cs:233-244 | the index of the first rule with the id, when the caller may edit its survey; "Logic rule not found" iff no rule has the id; otherwise the permission refusal, and then the caller may not edit that first rule's survey |
| BranchLogic.LocateRuleAccepts | Survey/Services/BranchLogicService.cs:260-274 | a rule is located iff the caller may edit the survey of the first rule with the id |
| BranchLogic.DeleteRule | Survey/Services/BranchLogicService.cs:227-256 | a located rule is removed and nothing else changes; otherwise the rules are unchanged |
| BranchLogic.UpdateRulePriority | Survey/Services/BranchLogicService.cs:258-287 | a located rule gets the new priority and nothing else changes; otherwise the rules are unchanged |
| BranchLogic.DeleteAndReprioritiseKeepPairsUnique | Survey/Services/BranchLogicService.cs:246-278 | deleting or reprioritising keeps the pairs unique |
| BranchLogic.DescribesCreatedCondition | Survey/Services/BranchLogicService.cs:299-304 | a created rule is described by the text of the option it reacts to |
| BranchLogic.DescribesMissingSource | Survey/Services/BranchLogicService.cs:293-334 | a rule whose source question is gone is described as "Unknown" with "Unknown condition" |
| SurveyDesigner.QuestionTypeTables | Survey/Services/SurveyDesignerService.cs:326-354 | the default text is "New question" iff the type is unknown, known types have distinct texts, options are required exactly for the choice types, and those are known |
| SurveyDesigner.AddQuestion | Survey/Services/SurveyDesignerService.cs:60-127 | without edit rights nothing changes; otherwise the question is appended after the survey's last with its default text, and choice types get "Option 1" and "Option 2" |
| SurveyDesigner.NewQuestionComesLast | Survey/Services/SurveyDesignerService.cs:73-75 | a new question is ordered above all of its survey's questions, so nothing follows it |
| SurveyDesigner.SyncStepShape | Survey/Services/SurveyDesignerService.cs:269-297 | an option without a known id is appended; a known one is updated in place at its first position; ids and owning questions never change |
| SurveyDesigner.SyncOne | Survey/Services/SurveyDesignerService.cs:271-297 | one iteration of the loop changes the options as one step of the specification does |
| SurveyDesigner.SyncOptions | Survey/Services/SurveyDesignerService.cs:255-299 | the options become the kept ones updated in form order followed by the added ones |
| SurveyDesigner.SyncShapeFrom | Survey/Services/SurveyDesignerService.cs:269-298 | from any rows that still list the kept ids, the loop keeps those rows with their ids and appends exactly the additions |
| SurveyDesigner.SyncShape | Survey/Services/SurveyDesignerService.cs:255-299 | after the sync: the kept options with their ids, then exactly the additions |
| SurveyDesigner.UpdateStaysInKept | Survey/Services/SurveyDesignerService.cs:288-297 | an option being updated survived the deletion step |
| SurveyDesigner.UpdatedRowsWritten | Survey/Services/SurveyDesignerService.cs:269-297 | a form row naming an option the question already had updates that option where the deletion left it: it carries the row's text, value and active flag and the row's position + 1 as its order, unless a later form row names the same id |
| SurveyDesigner.FirstInFound | Survey/Services/SurveyDesignerService.cs:291 | the lookup by id returns the question's first row with that id |
| SurveyDesigner.KeptRowOf | Survey/Services/SurveyDesignerService.cs:288-291 | a kept form row finds its option among the rows that survived the deletion |
| SurveyDesigner.UpdateWrites | Survey/Services/SurveyDesignerService.cs:288-297 | the iteration for an existing id writes the form row's fields and order into the question's first row with that id |
| SurveyDesigner.UpdateWrittenFrom | Survey/Services/SurveyDesignerService.cs:269-298 | once written, a row keeps those values through every later iteration for another id |
| SurveyDesigner.LaterStepKeepsWritten | Survey/Services/SurveyDesignerService.cs:271-297 | one iteration for another id leaves a written row as it was |
| SurveyDesigner.AdditionsNumbered | Survey/Services/SurveyDesignerService.cs:272-286 | each addition carries its position in the form as its order |
| SurveyDesigner.SyncKeepsOtherQuestions | Survey/Services/SurveyDesignerService.cs:255-299 | syncing a question's options leaves every other question's options as they were |
| SurveyDesigner.LoopKeepsOtherQuestions | Survey/Services/SurveyDesignerService.cs:269-298 | the add-or-update loop leaves other questions' options as they were |
| SurveyDesigner.DeletionKeepsOtherQuestions | Survey/Services/SurveyDesignerService.cs:261-266 | the deletion step leaves other questions' options as they were |
| SurveyDesigner.SyncStepKeepsOtherQuestions | Survey/Services/SurveyDesignerService.cs:271-297 | one step leaves other questions' options as they were |
| SurveyDesigner.UpdateQuestion | Survey/Services/SurveyDesignerService.cs:129-185 | without edit rights, or for an unknown id, nothing changes; otherwise the fields are edited, and the options are synced or deleted by type |
| SurveyDesigner.NoOptionsLeft | Survey/Services/SurveyDesignerService.cs:164-172 | after the deletion a question has no options |
| SurveyDesigner.DeleteQuestion | Survey/Services/SurveyDesignerService.cs:187-216 | an unknown id or missing edit rights change nothing; otherwise the question and its options are removed |
| SurveyDesigner.DeletedQuestionGone | Survey/Repositories/QuestionRepository.cs:57-65 | the deleted question's id is gone and every other question remains |
| SurveyDesigner.ReorderStep | Survey/Services/SurveyDesignerService.cs:235-241 | only the survey's first question with the id changes; ids and surveys are kept |
| SurveyDesigner.ReorderPrefix | Survey/Services/SurveyDesignerService.cs:233-242 | the loop keeps the table's length, ids and surveys |
| SurveyDesigner.ReorderQuestions | Survey/Services/SurveyDesignerService.cs:218-251 | without edit rights nothing changes; otherwise the questions are those of the full loop |
| SurveyDesigner.LastIndex | Survey/Services/SurveyDesignerService.cs:233-242 | the last position of an id in the list |
| SurveyDesigner.ReorderPlacesEachQuestion | Survey/Services/SurveyDesignerService.cs:233-242 | after the loop each question has the order of its last listed position, or is unchanged when unlisted or of another survey |
| SurveyDesigner.ReorderStepAt | Survey/Services/SurveyDesignerService.cs:235-241 | one step moves each question from its n-1 prefix state to its n prefix state |
| SurveyDesigner.ReorderNumbersListedQuestions | Survey/Services/SurveyDesignerService.cs:233-242 | with distinct ids, the question at position i gets order i + 1 |
| SurveyTaker.AdmittedIffAccepting | Survey/Services/SurveyTakerService.cs:33-64 | a response is admitted iff the survey exists, is Published, is inside its open/close window and is below its quota |
| SurveyTaker.CreateNewResponse | Survey/Services/SurveyTakerService.cs:26-89 | a refusal changes nothing and names the first failed check; an admission appends an InProgress, unlocked response with the channel, IP and token |
| SurveyTaker.AdmissionCountsTowardQuota | Survey/Services/SurveyTakerService.cs:56-64 | an admitted response raises the survey's count by exactly one |
| SurveyTaker.CreatedResponseAccess | Survey/Services/SurveyTakerService.cs:193-197 | the new response is reachable with its token and with no other token |
| SurveyTaker.Picks | Survey/Services/SurveyTakerService.cs:117-145 | one selection per chosen option, with the form's response, question and additional text |
| SurveyTaker.PicksGrow | Survey/Services/SurveyTakerService.cs:130-143 | one more chosen option adds exactly its selection at the end |
| SurveyTaker.Upsert | Survey/Repositories/ResponseAnswerRepository.cs:30-47 | AddOrUpdate either keeps the length or appends the row |
| SurveyTaker.SaveAnswer | Survey/Services/SurveyTakerService.cs:91-163 | the pair's selections are replaced by the chosen ones, the answer is upserted when it has a value, and the response's time is touched |
| SurveyTaker.SavedSelectionsReplacePair | Survey/Services/SurveyTakerService.cs:98-145 | after saving, the selections of the pair are exactly the chosen ones and every other pair's are untouched |
| SurveyTaker.SaveSelectionsIdempotent | Survey/Services/SurveyTakerService.cs:98-145 | saving the same answer twice is saving it once |
| SurveyTaker.UpsertWritesRow | Survey/Repositories/ResponseAnswerRepository.cs:30-47 | after AddOrUpdate the pair's first row carries the new values, and other pairs' rows are unchanged |
| SurveyTaker.UpsertIdempotent | Survey/Repositories/ResponseAnswerRepository.cs:30-47 | AddOrUpdate twice is AddOrUpdate once |
| SurveyTaker.CompleteResponse | Survey/Services/SurveyTakerService.cs:165-191 | an unknown response changes nothing; otherwise it is marked Submitted at now |
| SurveyTaker.CompletionSubmits | Survey/Services/SurveyTakerService.cs:177-179 | completion submits only that response and keeps its token and access |
| SurveyCollaborator.AddTargetAccepts | Survey/Services/SurveyCollaboratorService.cs:115-130 | the user checks accept exactly a registered email whose first account is not yet on the survey, and return that account |
| SurveyCollaborator.AddableRoles | Survey/Services/SurveyCollaboratorService.cs:96-107 | a role passes both role checks iff it is Editor or Viewer |
| SurveyCollaborator.CheckAddAccepts | Survey/Services/SurveyCollaboratorService.cs:96-131 | adding is accepted iff the role is Editor or Viewer, the caller owns the survey, a user has the email and is not yet a collaborator; the result is that user |
| SurveyCollaborator.AddCollaborator | Survey/Services/SurveyCollaboratorService.cs:91-148 | a rejection changes nothing; an acceptance appends the row granted by the caller with "<name or email> has been added as <role>" |
| SurveyCollaborator.CheckRemove | Survey/Services/SurveyCollaboratorService.cs:155-180 | an accepted removal names a row of the table |
| SurveyCollaborator.CheckRemoveAccepts | Survey/Services/SurveyCollaboratorService.cs:155-180 | removal is accepted iff the caller owns the survey, the user collaborates on it with a role other than Owner and is not the caller |
| SurveyCollaborator.RemoveCollaborator | Survey/Services/SurveyCollaboratorService.cs:150-187 | a rejection changes nothing; an acceptance removes exactly that row |
| SurveyCollaborator.CheckUpdateRole | Survey/Services/SurveyCollaboratorService.cs:194-225 | an accepted change names a row of the table |
| SurveyCollaborator.CheckUpdateRoleAccepts | Survey/Services/SurveyCollaboratorService.cs:194-225 | a role change is accepted iff the new role is Editor or Viewer, the caller owns the survey, and the user collaborates with a role other than Owner |
| SurveyCollaborator.UpdateRole | Survey/Services/SurveyCollaboratorService.cs:189-235 | a rejection changes nothing; an acceptance changes only that row's role |
| SurveyCollaborator.OwnerRowsPreserved | Survey/Services/SurveyCollaboratorService.cs:102-106 | no accepted add, remove or role change creates, removes or alters an Owner row |
| SurveyCollaborator.AppendKeepsOwnerRows | Survey/Services/SurveyCollaboratorService.cs:102-106 | appending a row whose role is not Owner leaves the Owner rows as they were |
| SurveyCollaborator.AppendKeepsUnique | Survey/Services/SurveyCollaboratorService.cs:123-141 | appending a row for a user not yet on the survey keeps collaborations unique |
| SurveyCollaborator.RemoveKeepsUnique | Survey/Services/SurveyCollaboratorService.cs:182-183 | removing a row keeps collaborations unique |
| SurveyCollaborator.UpdateKeepsUnique | Survey/Services/SurveyCollaboratorService.cs:227-229 | changing a row's role keeps collaborations unique |
| SurveyCollaborator.CollaborationsStayUnique | Survey/Services/SurveyCollaboratorService.cs:124-131 | a user collaborates on a survey at most once, and every accepted operation keeps it so |
| SurveyService.CreateSurvey | Survey/Services/SurveyService.cs:24-74 | a Draft survey in the form's language or "en" is appended, with an Owner collaboration granted by the creator |
| SurveyService.CreatorOwnsNewSurvey | Survey/Services/SurveyService.cs:51-62 | the creator owns the new survey, holds the Owner role on it and may edit it |
| SurveyService.Rows | Survey/Services/SurveyService.cs:120-141 | one row per listed survey, in list order |
| SurveyService.GetMySurveys | Survey/Services/SurveyService.cs:76-157 | the page is the user's surveys filtered, newest first, with the counts over all of them |
| SurveyService.BuildRows | Survey/Services/SurveyService.cs:120-141 | the loop builds exactly the rows |
| SurveyService.OwnedPlusSharedIsTotal | Survey/Services/SurveyService.cs:144-146 | owned plus shared equals the total |
| SurveyService.ListNewestFirstAndFiltered | Survey/Services/SurveyService.cs:109-120 | rows are ordered by last update, newest first, and every row passes the filter |
| SurveyService.FilteredPass | Survey/Services/SurveyService.cs:109-116 | the filter keeps a survey iff it passes the filter |
| SurveyService.SurveysOfCollaborations | Survey/Services/SurveyService.cs:96-104 | every listed survey is named by one of the collaborations |
| SurveyService.ListedRowsShowRole | Survey/Services/SurveyService.cs:122 | every row's role is that of one of the user's own collaborations on the survey |
| SurveyService.RowShowsRole | Survey/Services/SurveyService.cs:120-122 | the row at any position shows the role of one of the user's own collaborations on its survey |
| SurveyService.SurveyShowsRole | Survey/Services/SurveyService.cs:96-122 | a survey that passes the filter shows the role of one of the user's own collaborations on it |
| SurveyService.FilteredComesFromCollaboration | Survey/Services/SurveyService.cs:96-116 | a survey that passes the filter was named by a collaboration |
| SurveyService.RoleFromCollaboration | Survey/Services/SurveyService.cs:122 | a survey named by a collaboration shows the role of the user's collaboration on it |
| SurveyService.UpdateSurvey | Survey/Services/SurveyService.cs:164-198 | a non-owner changes nothing; the owner's survey gets the form's fields, the language or "en", and now |
| SurveyService.DeleteSurvey | Survey/Services/SurveyService.cs:200-222 | a non-owner changes nothing; the owner's survey is removed |
| SurveyService.OwnerFindsSurvey | Survey/Repositories/SurveyRepository.cs:51-55 | the owner check guarantees the lookup by id succeeds |
| SurveyService.SurveySettings | Survey/Services/SurveyService.cs:230-285 | settings are shown iff the survey exists and the user is its owner or has the Owner role; they show its response count |
| SurveyService.CheckSettings | Survey/Services/SurveyService.cs:288-325 | an accepted change names the survey to update |
| SurveyService.UpdateSurveySettings | Survey/Services/SurveyService.cs:288-350 | a rejection names the first failed check and changes nothing; an acceptance writes the form's settings and now |
| SurveyService.SettingsAccepted | Survey/Services/SurveyService.cs:293-326 | accepted settings come from someone who may see them, keep the open/close window non-empty and never return a survey with responses to Draft |
| UserService.RegisterUser | Survey/Services/UserService.cs:18-53 | a taken email changes nothing; otherwise an active account with no failures and no lock is appended |
| UserService.RegistrationKeepsEmailsUnique | Survey/Services/UserService.cs:21-25 | registration keeps emails unique |
| UserService.Classify | Survey/Services/UserService.cs:58-90 | an attempt concerns no account iff the email is unknown; it is accepted iff the first account with the email is active, unlocked and has the hash |
| UserService.Reply | Survey/Services/UserService.cs:59-100 | only an accepted attempt succeeds |
| UserService.VerifyPassword | Survey/Services/UserService.cs:116-128 | the hashes compare equal iff they have the same length and the same bytes |
| UserService.ToArray | Survey/Services/UserService.cs:109-113 | the hash bytes in an array |
| UserService.Authenticate | Survey/Services/UserService.cs:55-101 | the reply follows the classification; a wrong password records a failure, a success resets it, and every other case changes nothing |
| UserService.UnknownAndWrongLookAlike | Survey/Services/UserService.cs:59-62 | an unknown email and a wrong password get the same reply |
| UserService.FailuresLock | Survey/Services/UserService.cs:80-86 | k failures raise the counter by k, change nothing else, and from the fifth the account is locked for fifteen minutes |
| UserService.LoginKeepsEmails | Survey/Services/UserService.cs:80-97 | failures and successes keep emails unique |
| UserService.SuccessResets | Survey/Services/UserService.cs:93-98 | a success after failures leaves no failures and no lock; otherwise the account is unchanged |
| UserService.RegisteredUserCanLogIn | Survey/Services/UserService.cs:28-41 | a freshly registered account accepts its own password |

Definitions without contracts of their own. They model the cited code, and
the contracts in the table are stated over them:

- `LogicEngine.NextQuestion` models GetNextQuestionAsync,
  `LogicEngineService.cs:28-101`.
- `LogicEngine.ConditionMet` models EvaluateConditionAsync,
  `LogicEngineService.cs:104-129`.
- `LogicEngine.RulesBySource` models the by-source query and its ordering,
  `LogicEngineService.cs:41-54` with `BranchLogicRepository.cs:35-42`.
- `Guids.Parse`, `Guids.ParseTrimmed` and `Guids.ParseD` model the
  `Guid.TryParse` call at `LogicEngineService.cs:140`.
- `Conditions.BuildCondition` models the condition text written at
  `BranchLogicService.cs:194`.
- BranchLogic:
  - `CheckNewRule` models the check sequence, `BranchLogicService.cs:99-191`.
  - `CheckTarget` models its action checks, `BranchLogicService.cs:148-191`.
  - `NewRule` models the row that is stored, `BranchLogicService.cs:193-208`.
  - `Describe` models MapToBranchLogicRuleViewModel,
    `BranchLogicService.cs:293-334`.
- SurveyTaker:
  - `AdmissionFailure` models the admission checks,
    `SurveyTakerService.cs:33-64`.
  - `HasAccess` models ValidateResponseAccessAsync,
    `SurveyTakerService.cs:193-197`.
  - `SavedSelections` models the replacement of a pair's selections,
    `SurveyTakerService.cs:98-145`.
  - `SavedAnswers` models the conditional upsert,
    `SurveyTakerService.cs:101-114`.
  - `Touch` models the timestamp update, `SurveyTakerService.cs:147-153`.
  - `Completed` models the submission, `SurveyTakerService.cs:177-179`.
- SurveyDesigner:
  - `DefaultQuestionText` models `SurveyDesignerService.cs:326-342`.
  - `RequiresOptions` models `SurveyDesignerService.cs:344-354`.
  - `NewQuestion` models the question AddQuestionAsync builds,
    `SurveyDesignerService.cs:77-88`.
  - `DefaultOptions` models its two default options,
    `SurveyDesignerService.cs:92-114`.
  - `EditedQuestion` models the field edits of UpdateQuestionAsync,
    `SurveyDesignerService.cs:147-155`.
  - `SyncPrefix` models the first iterations of the add-or-update loop,
    `SurveyDesignerService.cs:269-298`.
  - `Reordered` models one question's state after the reorder loop,
    `SurveyDesignerService.cs:233-242`.
- SurveyCollaborator:
  - `CheckAdd` models the checks of AddCollaboratorAsync,
    `SurveyCollaboratorService.cs:96-130`.
  - `AddTarget` models the last two of them,
    `SurveyCollaboratorService.cs:115-130`.
  - `NewCollaborator` models the stored row,
    `SurveyCollaboratorService.cs:133-141`.
  - `AddedMessage` models the success message,
    `SurveyCollaboratorService.cs:147`.
- SurveyService:
  - `MySurveys` models the page GetMySurveysAsync builds,
    `SurveyService.cs:76-157`.
  - `NewSurvey` models the survey CreateSurveyAsync builds,
    `SurveyService.cs:31-43`.
  - `SettingsRefusal` models the access, dates and draft checks,
    `SurveyService.cs:300-326`.
  - `WithSettings` models the settings written, `SurveyService.cs:328-338`.
- UserService:
  - `NewUser` models the account RegisterUserAsync builds,
    `UserService.cs:28-41`.
  - `LockedAt` models the lock test, `UserService.cs:70`.
  - `AfterFailure` models a failed password, `UserService.cs:80-86`.
  - `AfterSuccess` models a successful login, `UserService.cs:93-98`.

- `SurveyCollaborator.IsOwner` and `SurveyCollaborator.HasAccess` model
  `SurveyCollaboratorService.cs:237-252`.
- `SurveyCollaborator.HasAccess` also stands for `SurveyService.cs:224-227`.
- `Store.OwnsSurvey` models `SurveyRepository.cs:51-55`.
- `Store.CanEdit` models the Owner-or-Editor permission check the editing
  services repeat.

## Left out

- Integer widths:
  - Orders, priorities and the failed-login counter are unbounded integers.
  - The 32-bit wrap-around that `maxOrder + 1` and `FailedLoginCount++` would
    need after 2³¹ steps is not modelled.
- Exceptions:
  - The catch blocks that turn database exceptions into "Error …: <message>"
    failures are not modelled. The one exception the code itself provokes is
    modelled: `Max` on an empty list in AddRuleAsync.
  - Primary-key violations are left out. The model assumes fresh ids.
- Referential actions of the database are left out, apart from one: options
  go with their deleted question. Deleting a survey leaves its questions,
  rules, responses and collaborations in their tables in the model.
- Database primitives:
  - `SurveyRepository.DeleteAsync` is modelled as removing the first survey
    with the id.
  - Lazy and eager loading (`Include`) is not modelled.
- Side conditions:
  - Logging, async/await and the one-request-at-a-time assumption are not
    modelled. Concurrency in general is left out.
- Views:
  - `GetCollaboratorsForSurveyAsync` is a view whose loop only attaches the
    granters' names. It is not modelled.
  - `GetSurveyForDesignerAsync`, `GetLogicForSurveyAsync` and
    `MapToQuestionViewModel` are not modelled. They copy fields into views.
  - `Describe` models the rule description, but only its option text, source
    text and "Unknown" cases are proved.
- Formats:
  - The SHA-256 password hash is a function parameter.
  - The date format of the lock message is a function parameter.
  - Guid parsing covers the plain hex-digit N, D, B and P forms. The X form
    (`{0x…,{…}}`) is not modelled.
- Fresh values:
  - Each `Guid.NewGuid` and `DateTime.UtcNow` inside one call is one
    parameter. The real calls can return different instants within one
    operation.
  - `SyncOptions` and `UpdateQuestion` require one fresh id per option form.
    The code draws new ids only for additions; the rest of the list is
    unused.
- `Store.UserWithEmail`, `Store.EmailFound`, `UserService.RegisterUser`,
  `UserService.Classify`, `SurveyCollaborator.AddTarget`: the model compares
  emails by exact equality. The application compares them in the database
  under its collation, which with SQL Server's default ignores case and
  trailing blanks. A registration with `Ann@x.org` next to a stored
  `ann@x.org` is accepted by the model but rejected by the application. The
  same holds for login lookups and for adding a collaborator.
  `UserService.RegistrationKeepsEmailsUnique` states uniqueness under exact
  equality only.
- `BranchLogic.DescribesMissingSource`: states the source text and the
  condition text of a rule whose source question is gone, but not the full
  rule sentence built from them.
- `Guids.Parse`: accepts only hex digits inside each group. The .NET
  parser's compatibility path also accepts a group that starts with "0x",
  "0X" or "+" within the group's fixed width, as in
  `+2345678-1234-1234-1234-123456789abc`. For such a hand-edited condition,
  `Conditions.ExtractOptionId` yields the empty Guid, so the rule never
  fires, where the application would read an option id. Conditions written
  by the rule editor never take that form (`Conditions.ExtractBuilt`).
- `LogicEngine.DecidingRule`: the by-source query orders by priority only,
  so rules with equal priority arrive in whatever order the database
  returns them. The model takes them in the order of its rule table.
