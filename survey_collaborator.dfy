/** Sharing a survey (SurveyCollaboratorService): the owner adds, removes and
    re-roles collaborators; the owner's own row is never touched here. */
module SurveyCollaborator {
  import opened Wrappers
  import opened Store
  import Linq

  const Owner: string := "Owner"
  const Editor: string := "Editor"
  const Viewer: string := "Viewer"

  /** ValidRoles, in the order the error message lists them. */
  function ValidRoles(): seq<string> { [Owner, Editor, Viewer] }

  const InvalidRole: string := "Invalid role. Valid roles are: Owner, Editor, Viewer"

  /** The index of the collaboration of `userId` on `surveyId`, if any
      (SurveyCollaboratorRepository.GetAsync). */
  function CollaborationIndex(collaborators: seq<Collaborator>, surveyId: Id, userId: Id): Option<nat> {
    FindIndex(collaborators, CollaboratorIs(surveyId, userId))
  }

  // ---- Adding ----

  /** The checks of AddCollaboratorAsync, in source order: the user to add,
      or the first failure's message. */
  function CheckAdd(surveys: seq<Survey>, users: seq<User>, collaborators: seq<Collaborator>,
                    surveyId: Id, email: string, role: string, addedBy: Id): Result<User, string>
  {
    if role !in ValidRoles() then Err(InvalidRole)
    else if role == Owner then Err("Cannot add another owner. Transfer ownership instead.")
    else if !OwnsSurvey(surveys, surveyId, addedBy) then Err("Only the survey owner can add collaborators")
    else AddTarget(users, collaborators, surveyId, email)
  }

  /** The last two checks of AddCollaboratorAsync: the user is registered
      and is not yet on the survey. */
  function AddTarget(users: seq<User>, collaborators: seq<Collaborator>, surveyId: Id, email: string): Result<User, string>
  {
    match FindIndex(users, UserWithEmail(email))
    case None => Err("No user found with email: " + email)
    case Some(u) =>
      if CollaborationIndex(collaborators, surveyId, users[u].userId).Some? then
        Err("This user is already a collaborator on this survey")
      else Ok(users[u])
  }

  /** AddTarget accepts exactly a registered email whose (first) account has
      no role on the survey yet, and returns that account. */
  lemma AddTargetAccepts(users: seq<User>, collaborators: seq<Collaborator>, surveyId: Id, email: string)
    ensures var r := AddTarget(users, collaborators, surveyId, email);
            r.Ok? <==>
              && (exists i :: 0 <= i < |users| && users[i].email == email)
              && RoleOf(collaborators, surveyId, users[FindIndex(users, UserWithEmail(email)).value].userId) == None
    ensures var r := AddTarget(users, collaborators, surveyId, email);
            r.Ok? ==> r.value in users && r.value.email == email
  {
    EmailFound(users, email);
    match FindIndex(users, UserWithEmail(email))
    case Some(u) =>
      assert RoleOf(collaborators, surveyId, users[u].userId).None?
             <==> CollaborationIndex(collaborators, surveyId, users[u].userId).None?;
    case None =>
  }

  /** What an accepted addition satisfies: an Editor or Viewer role, granted
      by the survey's owner, to a registered user who is not yet on the
      survey. */
  lemma CheckAddAccepts(surveys: seq<Survey>, users: seq<User>, collaborators: seq<Collaborator>,
                        surveyId: Id, email: string, role: string, addedBy: Id)
    ensures var r := CheckAdd(surveys, users, collaborators, surveyId, email, role, addedBy);
            r.Ok? <==>
              && (role == Editor || role == Viewer)
              && OwnsSurvey(surveys, surveyId, addedBy)
              && (exists i :: 0 <= i < |users| && users[i].email == email)
              && RoleOf(collaborators, surveyId, users[FindIndex(users, UserWithEmail(email)).value].userId) == None
    ensures var r := CheckAdd(surveys, users, collaborators, surveyId, email, role, addedBy);
            r.Ok? ==> r.value in users && r.value.email == email
  {
    AddTargetAccepts(users, collaborators, surveyId, email);
    AddableRoles(role);
  }

  /** The roles that can be granted by adding: those that are valid and not
      Owner. */
  lemma AddableRoles(role: string)
    ensures (role in ValidRoles() && role != Owner) <==> (role == Editor || role == Viewer)
  {
  }

  /** The row AddCollaboratorAsync stores. */
  function NewCollaborator(surveyId: Id, user: User, role: string, addedBy: Id, now: Instant): Collaborator {
    Collaborator(surveyId, user.userId, role, now, Some(addedBy))
  }

  /** The success message: the user's full name, or the email they were
      found by. */
  function AddedMessage(user: User, email: string, role: string): string {
    user.fullName.GetOr(email) + " has been added as " + role
  }

  /** AddCollaboratorAsync. */
  method AddCollaborator(db: Database, surveyId: Id, email: string, role: string, addedBy: Id, now: Instant)
    returns (out: Outcome)
    modifies db`collaborators
    ensures match CheckAdd(db.surveys, db.users, old(db.collaborators), surveyId, email, role, addedBy)
            case Err(message) => out == Failed(message) && db.collaborators == old(db.collaborators)
            case Ok(user) =>
              && out == Succeeded(AddedMessage(user, email, role))
              && db.collaborators == old(db.collaborators) + [NewCollaborator(surveyId, user, role, addedBy, now)]
  {
    match CheckAdd(db.surveys, db.users, db.collaborators, surveyId, email, role, addedBy) {
      case Err(message) =>
        out := Failed(message);
      case Ok(user) =>
        db.collaborators := db.collaborators + [NewCollaborator(surveyId, user, role, addedBy, now)];
        out := Succeeded(AddedMessage(user, email, role));
    }
  }

  // ---- Removing ----

  /** The checks of RemoveCollaboratorAsync, in source order: the index of
      the row to delete, or the first failure's message. */
  function CheckRemove(surveys: seq<Survey>, collaborators: seq<Collaborator>,
                       surveyId: Id, userId: Id, removedBy: Id): (r: Result<nat, string>)
    ensures r.Ok? ==> r.value < |collaborators| && collaborators[r.value].role != Owner
  {
    if !OwnsSurvey(surveys, surveyId, removedBy) then Err("Only the survey owner can remove collaborators")
    else match CollaborationIndex(collaborators, surveyId, userId)
      case None => Err("Collaborator not found")
      case Some(i) =>
        if collaborators[i].role == Owner then Err("Cannot remove the survey owner")
        else if userId == removedBy then Err("You cannot remove yourself as owner. Transfer ownership first.")
        else Ok(i)
  }

  /** An accepted removal deletes the row of that user on that survey, asked
      for by the survey's owner, and that row is not an Owner row. */
  lemma CheckRemoveAccepts(surveys: seq<Survey>, collaborators: seq<Collaborator>, surveyId: Id, userId: Id, removedBy: Id)
    ensures var r := CheckRemove(surveys, collaborators, surveyId, userId, removedBy);
            r.Ok? <==>
              && OwnsSurvey(surveys, surveyId, removedBy)
              && RoleOf(collaborators, surveyId, userId).Some?
              && RoleOf(collaborators, surveyId, userId) != Some(Owner)
              && userId != removedBy
    ensures var r := CheckRemove(surveys, collaborators, surveyId, userId, removedBy);
            r.Ok? ==> collaborators[r.value].surveyId == surveyId && collaborators[r.value].userId == userId
  {
  }

  /** RemoveCollaboratorAsync. */
  method RemoveCollaborator(db: Database, surveyId: Id, userId: Id, removedBy: Id) returns (out: Outcome)
    modifies db`collaborators
    ensures match CheckRemove(db.surveys, old(db.collaborators), surveyId, userId, removedBy)
            case Err(message) => out == Failed(message) && db.collaborators == old(db.collaborators)
            case Ok(i) => out == Succeeded("Collaborator removed successfully") && db.collaborators == RemoveAt(old(db.collaborators), i)
  {
    match CheckRemove(db.surveys, db.collaborators, surveyId, userId, removedBy) {
      case Err(message) =>
        out := Failed(message);
      case Ok(i) =>
        db.collaborators := RemoveAt(db.collaborators, i);
        out := Succeeded("Collaborator removed successfully");
    }
  }

  // ---- Changing a role ----

  /** The checks of UpdateRoleAsync, in source order: the index of the row
      to change, or the first failure's message. */
  function CheckUpdateRole(surveys: seq<Survey>, collaborators: seq<Collaborator>,
                           surveyId: Id, userId: Id, newRole: string, updatedBy: Id): (r: Result<nat, string>)
    ensures r.Ok? ==> r.value < |collaborators| && collaborators[r.value].role != Owner && newRole != Owner
  {
    if newRole !in ValidRoles() then Err(InvalidRole)
    else if newRole == Owner then Err("Use transfer ownership feature instead")
    else if !OwnsSurvey(surveys, surveyId, updatedBy) then Err("Only the survey owner can update roles")
    else match CollaborationIndex(collaborators, surveyId, userId)
      case None => Err("Collaborator not found")
      case Some(i) =>
        if collaborators[i].role == Owner then Err("Cannot change the owner's role. Transfer ownership instead.")
        else Ok(i)
  }

  /** An accepted role change moves a non-owner collaborator of the owner's
      survey to Editor or Viewer. */
  lemma CheckUpdateRoleAccepts(surveys: seq<Survey>, collaborators: seq<Collaborator>,
                               surveyId: Id, userId: Id, newRole: string, updatedBy: Id)
    ensures var r := CheckUpdateRole(surveys, collaborators, surveyId, userId, newRole, updatedBy);
            r.Ok? <==>
              && (newRole == Editor || newRole == Viewer)
              && OwnsSurvey(surveys, surveyId, updatedBy)
              && RoleOf(collaborators, surveyId, userId).Some?
              && RoleOf(collaborators, surveyId, userId) != Some(Owner)
    ensures var r := CheckUpdateRole(surveys, collaborators, surveyId, userId, newRole, updatedBy);
            r.Ok? ==> collaborators[r.value].surveyId == surveyId && collaborators[r.value].userId == userId
  {
  }

  /** UpdateRoleAsync. */
  method UpdateRole(db: Database, surveyId: Id, userId: Id, newRole: string, updatedBy: Id) returns (out: Outcome)
    modifies db`collaborators
    ensures match CheckUpdateRole(db.surveys, old(db.collaborators), surveyId, userId, newRole, updatedBy)
            case Err(message) => out == Failed(message) && db.collaborators == old(db.collaborators)
            case Ok(i) =>
              && out == Succeeded("Role updated to " + newRole + " successfully")
              && db.collaborators == old(db.collaborators)[i := old(db.collaborators)[i].(role := newRole)]
  {
    match CheckUpdateRole(db.surveys, db.collaborators, surveyId, userId, newRole, updatedBy) {
      case Err(message) =>
        out := Failed(message);
      case Ok(i) =>
        db.collaborators := db.collaborators[i := db.collaborators[i].(role := newRole)];
        out := Succeeded("Role updated to " + newRole + " successfully");
    }
  }

  // ---- Queries ----

  /** IsOwnerAsync: the user's collaboration on the survey has the Owner
      role. */
  predicate IsOwner(collaborators: seq<Collaborator>, surveyId: Id, userId: Id) {
    RoleOf(collaborators, surveyId, userId) == Some(Owner)
  }

  /** HasAccessAsync: the user collaborates on the survey in any role. */
  predicate HasAccess(collaborators: seq<Collaborator>, surveyId: Id, userId: Id) {
    RoleOf(collaborators, surveyId, userId).Some?
  }

  // ---- What the three operations preserve ----

  function IsOwnerRow(c: Collaborator): bool { c.role == Owner }

  /** The Owner rows of the table, in order. */
  function OwnerRows(collaborators: seq<Collaborator>): seq<Collaborator> {
    Linq.Filter(collaborators, IsOwnerRow)
  }

  /** No operation of this service creates, deletes or changes an Owner row:
      ownership moves only by transfer, which is not part of this service. */
  lemma OwnerRowsPreserved(surveys: seq<Survey>, users: seq<User>, collaborators: seq<Collaborator>,
                           surveyId: Id, email: string, userId: Id, role: string, actor: Id, now: Instant)
    ensures var r := CheckAdd(surveys, users, collaborators, surveyId, email, role, actor);
            r.Ok? ==> OwnerRows(collaborators + [NewCollaborator(surveyId, r.value, role, actor, now)]) == OwnerRows(collaborators)
    ensures var r := CheckRemove(surveys, collaborators, surveyId, userId, actor);
            r.Ok? ==> OwnerRows(RemoveAt(collaborators, r.value)) == OwnerRows(collaborators)
    ensures var r := CheckUpdateRole(surveys, collaborators, surveyId, userId, role, actor);
            r.Ok? ==> OwnerRows(collaborators[r.value := collaborators[r.value].(role := role)]) == OwnerRows(collaborators)
  {
    var a := CheckAdd(surveys, users, collaborators, surveyId, email, role, actor);
    if a.Ok? {
      AppendKeepsOwnerRows(collaborators, NewCollaborator(surveyId, a.value, role, actor, now));
    }
    var d := CheckRemove(surveys, collaborators, surveyId, userId, actor);
    if d.Ok? {
      Linq.FilterRemove(collaborators, d.value, IsOwnerRow);
    }
    var u := CheckUpdateRole(surveys, collaborators, surveyId, userId, role, actor);
    if u.Ok? {
      Linq.FilterUpdate(collaborators, u.value, collaborators[u.value].(role := role), IsOwnerRow);
    }
  }

  /** Appending a row that is not an Owner row leaves the Owner rows. */
  lemma AppendKeepsOwnerRows(collaborators: seq<Collaborator>, c: Collaborator)
    requires c.role != Owner
    ensures OwnerRows(collaborators + [c]) == OwnerRows(collaborators)
  {
    Linq.FilterAppend(collaborators, [c], IsOwnerRow);
    assert Linq.Filter([c], IsOwnerRow) == [];
  }

  /** The table's key: one row per (survey, user). */
  ghost predicate UniqueCollaborations(collaborators: seq<Collaborator>) {
    forall i, j :: 0 <= i < j < |collaborators| ==>
      collaborators[i].surveyId != collaborators[j].surveyId || collaborators[i].userId != collaborators[j].userId
  }

  /** The three operations keep one row per (survey, user). */
  lemma CollaborationsStayUnique(surveys: seq<Survey>, users: seq<User>, collaborators: seq<Collaborator>,
                                 surveyId: Id, email: string, userId: Id, role: string, actor: Id, now: Instant)
    requires UniqueCollaborations(collaborators)
    ensures var r := CheckAdd(surveys, users, collaborators, surveyId, email, role, actor);
            r.Ok? ==> UniqueCollaborations(collaborators + [NewCollaborator(surveyId, r.value, role, actor, now)])
    ensures var r := CheckRemove(surveys, collaborators, surveyId, userId, actor);
            r.Ok? ==> UniqueCollaborations(RemoveAt(collaborators, r.value))
    ensures var r := CheckUpdateRole(surveys, collaborators, surveyId, userId, role, actor);
            r.Ok? ==> UniqueCollaborations(collaborators[r.value := collaborators[r.value].(role := role)])
  {
    var a := CheckAdd(surveys, users, collaborators, surveyId, email, role, actor);
    if a.Ok? {
      AppendKeepsUnique(collaborators, NewCollaborator(surveyId, a.value, role, actor, now));
    }
    var d := CheckRemove(surveys, collaborators, surveyId, userId, actor);
    if d.Ok? {
      RemoveKeepsUnique(collaborators, d.value);
    }
    var u := CheckUpdateRole(surveys, collaborators, surveyId, userId, role, actor);
    if u.Ok? {
      UpdateKeepsUnique(collaborators, u.value, role);
    }
  }

  /** Appending the row of a pair not yet in the table keeps the key. */
  lemma AppendKeepsUnique(collaborators: seq<Collaborator>, c: Collaborator)
    requires UniqueCollaborations(collaborators)
    requires CollaborationIndex(collaborators, c.surveyId, c.userId).None?
    ensures UniqueCollaborations(collaborators + [c])
  {
    var s := collaborators + [c];
    forall i, j | 0 <= i < j < |s|
      ensures s[i].surveyId != s[j].surveyId || s[i].userId != s[j].userId
    {
      if j == |collaborators| {
        assert !CollaboratorIs(c.surveyId, c.userId)(collaborators[i]);
      }
    }
  }

  /** Removing a row keeps the key. */
  lemma RemoveKeepsUnique(collaborators: seq<Collaborator>, k: nat)
    requires k < |collaborators| && UniqueCollaborations(collaborators)
    ensures UniqueCollaborations(RemoveAt(collaborators, k))
  {
    var s := RemoveAt(collaborators, k);
    forall i, j | 0 <= i < j < |s|
      ensures s[i].surveyId != s[j].surveyId || s[i].userId != s[j].userId
    {
      var i' := if i < k then i else i + 1;
      var j' := if j < k then j else j + 1;
      assert s[i] == collaborators[i'] && s[j] == collaborators[j'];
    }
  }

  /** Changing a row's role keeps the key. */
  lemma UpdateKeepsUnique(collaborators: seq<Collaborator>, k: nat, role: string)
    requires k < |collaborators| && UniqueCollaborations(collaborators)
    ensures UniqueCollaborations(collaborators[k := collaborators[k].(role := role)])
  {
    var s := collaborators[k := collaborators[k].(role := role)];
    assert forall i :: 0 <= i < |s| ==> s[i].surveyId == collaborators[i].surveyId && s[i].userId == collaborators[i].userId;
  }
}
