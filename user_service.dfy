/** Accounts (UserService): registration, and login with its failed-attempt
    counter and temporary lockout. The password hash is a parameter: the
    model only needs it to be a function of the password. */
module UserService {
  import opened Wrappers
  import opened Store

  const EmailExists: string := "Email already exists"
  const InvalidCredentials: string := "Invalid email or password"
  const Inactive: string := "Account is inactive"
  const LockedPrefix: string := "Account is locked until "

  /** Failed attempts after which the account is locked. */
  const MaxFailures: int := 5
  /** How long a lock lasts. */
  const LockMinutes: int := 15

  /** The registration form (RegisterDto). */
  datatype RegisterForm = RegisterForm(email: string, password: string, fullName: Option<string>)

  /** Every account has its own email. */
  ghost predicate UniqueEmails(users: seq<User>) {
    forall i, j :: 0 <= i < j < |users| ==> users[i].email != users[j].email
  }

  predicate EmailTaken(users: seq<User>, email: string) {
    exists i :: 0 <= i < |users| && users[i].email == email
  }

  // ---- Registration ----

  /** The account RegisterUserAsync creates: active, with no failed
      attempts and no lock. */
  function NewUser(form: RegisterForm, hash: string -> seq<Byte>, userId: Id, now: Instant): User {
    User(userId, form.email, hash(form.password), form.fullName, true, 0, None, now, now)
  }

  /** RegisterUserAsync. The new id, the hash and the clock are parameters. */
  method RegisterUser(db: Database, form: RegisterForm, hash: string -> seq<Byte>, userId: Id, now: Instant)
    returns (out: Outcome, user: Option<User>)
    modifies db`users
    ensures EmailTaken(old(db.users), form.email) ==>
              out == Failed(EmailExists) && user == None && db.users == old(db.users)
    ensures !EmailTaken(old(db.users), form.email) ==>
              && out == Succeeded("User registered successfully")
              && user == Some(NewUser(form, hash, userId, now))
              && db.users == old(db.users) + [NewUser(form, hash, userId, now)]
  {
    var existing := FindIndex(db.users, UserWithEmail(form.email));
    if existing.Some? {
      out, user := Failed(EmailExists), None;
      return;
    }
    assert !EmailTaken(db.users, form.email) by {
      forall i | 0 <= i < |db.users| ensures db.users[i].email != form.email {
        assert !UserWithEmail(form.email)(db.users[i]);
      }
    }
    var created := NewUser(form, hash, userId, now);
    db.users := db.users + [created];
    out, user := Succeeded("User registered successfully"), Some(created);
  }

  /** Registration never creates a second account with the same email. */
  lemma RegistrationKeepsEmailsUnique(users: seq<User>, form: RegisterForm, hash: string -> seq<Byte>,
                                      userId: Id, now: Instant)
    requires UniqueEmails(users) && !EmailTaken(users, form.email)
    ensures UniqueEmails(users + [NewUser(form, hash, userId, now)])
  {
    var after := users + [NewUser(form, hash, userId, now)];
    forall i, j | 0 <= i < j < |after| ensures after[i].email != after[j].email {
      if j == |users| {
        assert after[i] == users[i];
      }
    }
  }

  // ---- Login ----

  /** How AuthenticateAsync classifies an attempt, with the index of the
      account it concerns. */
  datatype Attempt =
    | NoSuchUser
    | Deactivated(i: nat)
    | LockedOut(i: nat, until: Instant)
    | WrongPassword(i: nat)
    | Accepted(i: nat)

  /** A lock is in force while its end is still in the future. */
  predicate LockedAt(u: User, now: Instant) {
    u.lockedUntil.Some? && u.lockedUntil.value > now
  }

  /** The checks in source order: the account by email (the first with it),
      then active, then not locked, then the password. */
  function Classify(users: seq<User>, email: string, provided: seq<Byte>, now: Instant): (r: Attempt)
    ensures r.NoSuchUser? <==> !EmailTaken(users, email)
    ensures !r.NoSuchUser? ==> r.i < |users| && users[r.i].email == email
    ensures r.Accepted? <==>
              exists i :: 0 <= i < |users| && users[i].email == email && FindIndex(users, UserWithEmail(email)) == Some(i)
                          && users[i].isActive && !LockedAt(users[i], now) && users[i].passwordHash == provided
  {
    match FindIndex(users, UserWithEmail(email))
    case None => NoSuchUser
    case Some(i) =>
      var u := users[i];
      if !u.isActive then Deactivated(i)
      else if LockedAt(u, now) then LockedOut(i, u.lockedUntil.value)
      else if u.passwordHash != provided then WrongPassword(i)
      else Accepted(i)
  }

  /** The reply to an attempt; the lock's end date is rendered by the
      `formatDate` parameter. */
  function Reply(a: Attempt, formatDate: Instant -> string): (r: Outcome)
    ensures r.Succeeded? <==> a.Accepted?
  {
    match a
    case NoSuchUser => Failed(InvalidCredentials)
    case Deactivated(_) => Failed(Inactive)
    case LockedOut(_, until) => Failed(LockedPrefix + formatDate(until))
    case WrongPassword(_) => Failed(InvalidCredentials)
    case Accepted(_) => Succeeded("Login successful")
  }

  /** A failed password: one more failure, and a lock of fifteen minutes
      from now once there have been five or more. */
  function AfterFailure(u: User, now: Instant): User {
    var count := u.failedLoginCount + 1;
    u.(failedLoginCount := count,
       lockedUntil := if count >= MaxFailures then Some(now + LockMinutes * TicksPerMinute) else u.lockedUntil)
  }

  /** A successful login clears the counter and the lock when there were
      failures, and leaves the account as it was otherwise. */
  function AfterSuccess(u: User): User {
    if u.failedLoginCount > 0 then u.(failedLoginCount := 0, lockedUntil := None) else u
  }

  /** VerifyPassword: the two hashes are equal in length and byte by byte. */
  method VerifyPassword(stored: array<Byte>, provided: array<Byte>) returns (equal: bool)
    ensures equal <==> stored[..] == provided[..]
  {
    if stored.Length != provided.Length {
      return false;
    }
    for i := 0 to stored.Length
      invariant stored[..i] == provided[..i]
    {
      if stored[i] != provided[i] {
        assert stored[..][i] != provided[..][i];
        return false;
      }
      assert stored[..i + 1] == stored[..i] + [stored[i]];
      assert provided[..i + 1] == provided[..i] + [provided[i]];
    }
    assert stored[..] == stored[..stored.Length];
    assert provided[..] == provided[..provided.Length];
    return true;
  }

  /** The bytes of a hash, in a fresh array. */
  method ToArray(bytes: seq<Byte>) returns (a: array<Byte>)
    ensures fresh(a) && a[..] == bytes
  {
    a := new Byte[|bytes|](k requires 0 <= k < |bytes| => bytes[k]);
  }

  /** AuthenticateAsync. The hash, the clock and the date format are
      parameters. */
  method Authenticate(db: Database, email: string, password: string, hash: string -> seq<Byte>, now: Instant,
                      formatDate: Instant -> string)
    returns (out: Outcome, user: Option<User>)
    modifies db`users
    ensures var a := Classify(old(db.users), email, hash(password), now);
            && out == Reply(a, formatDate)
            && match a
               case WrongPassword(i) =>
                 user == None && db.users == old(db.users)[i := AfterFailure(old(db.users)[i], now)]
               case Accepted(i) =>
                 user == Some(AfterSuccess(old(db.users)[i])) && db.users == old(db.users)[i := AfterSuccess(old(db.users)[i])]
               case _ =>
                 user == None && db.users == old(db.users)
  {
    var found := FindIndex(db.users, UserWithEmail(email));
    if found.None? {
      out, user := Failed(InvalidCredentials), None;
      return;
    }
    var i := found.value;
    var u := db.users[i];
    if !u.isActive {
      out, user := Failed(Inactive), None;
      return;
    }
    if u.lockedUntil.Some? && u.lockedUntil.value > now {
      out, user := Failed(LockedPrefix + formatDate(u.lockedUntil.value)), None;
      return;
    }
    var stored := ToArray(u.passwordHash);
    var provided := ToArray(hash(password));
    var equal := VerifyPassword(stored, provided);
    assert equal <==> u.passwordHash == hash(password);
    if !equal {
      var failed := u.(failedLoginCount := u.failedLoginCount + 1);
      if failed.failedLoginCount >= MaxFailures {
        failed := failed.(lockedUntil := Some(now + LockMinutes * TicksPerMinute));
      }
      assert failed == AfterFailure(u, now);
      db.users := db.users[i := failed];
      out, user := Failed(InvalidCredentials), None;
      return;
    }
    if u.failedLoginCount > 0 {
      u := u.(failedLoginCount := 0, lockedUntil := None);
      db.users := db.users[i := u];
    }
    out, user := Succeeded("Login successful"), Some(u);
  }

  /** An unknown email and a wrong password get the same reply, so the
      reply does not reveal which accounts exist. */
  lemma UnknownAndWrongLookAlike(users: seq<User>, email: string, other: string, provided: seq<Byte>,
                                 now: Instant, formatDate: Instant -> string)
    requires !EmailTaken(users, email)
    requires Classify(users, other, provided, now).WrongPassword?
    ensures Reply(Classify(users, email, provided, now), formatDate) == Reply(Classify(users, other, provided, now), formatDate)
  {
  }

  /** Repeated wrong passwords on an account that is neither inactive nor
      locked: `k` of them. */
  function Failures(u: User, k: nat, now: Instant): User
    decreases k
  {
    if k == 0 then u else AfterFailure(Failures(u, k - 1, now), now)
  }

  /** After `k` failures the counter has grown by `k`, nothing but the
      counter and the lock has changed, and once the counter reaches five
      the account is locked for fifteen minutes from the last failure, so
      the next attempt at the same instant is turned away before its
      password is looked at. */
  lemma {:induction false} FailuresLock(u: User, k: nat, now: Instant)
    ensures Failures(u, k, now).failedLoginCount == u.failedLoginCount + k
    ensures Failures(u, k, now).(failedLoginCount := u.failedLoginCount, lockedUntil := u.lockedUntil) == u
    ensures k > 0 && u.failedLoginCount + k >= MaxFailures ==>
              Failures(u, k, now).lockedUntil == Some(now + LockMinutes * TicksPerMinute)
              && LockedAt(Failures(u, k, now), now)
    ensures u.failedLoginCount + k < MaxFailures ==> Failures(u, k, now).lockedUntil == u.lockedUntil
  {
    if k > 0 {
      FailuresLock(u, k - 1, now);
    }
  }

  /** A failure or a success changes only the counter and the lock, so the
      account keeps its email and emails stay unique. */
  lemma LoginKeepsEmails(users: seq<User>, i: nat, now: Instant)
    requires i < |users| && UniqueEmails(users)
    ensures UniqueEmails(users[i := AfterFailure(users[i], now)])
    ensures UniqueEmails(users[i := AfterSuccess(users[i])])
  {
    assert forall j :: 0 <= j < |users| ==> users[i := AfterFailure(users[i], now)][j].email == users[j].email;
    assert forall j :: 0 <= j < |users| ==> users[i := AfterSuccess(users[i])][j].email == users[j].email;
  }

  /** A successful login leaves the account unlocked with no failures. */
  lemma SuccessResets(u: User, now: Instant)
    ensures u.failedLoginCount > 0 ==> AfterSuccess(u).failedLoginCount == 0 && !LockedAt(AfterSuccess(u), now)
    ensures u.failedLoginCount <= 0 ==> AfterSuccess(u) == u
  {
  }

  /** A freshly registered account accepts its own password at once. */
  lemma RegisteredUserCanLogIn(users: seq<User>, form: RegisterForm, hash: string -> seq<Byte>, userId: Id, now: Instant)
    requires !EmailTaken(users, form.email)
    ensures Classify(users + [NewUser(form, hash, userId, now)], form.email, hash(form.password), now)
            == Accepted(|users|)
  {
    var after := users + [NewUser(form, hash, userId, now)];
    FindIndexFirst(after, UserWithEmail(form.email), |users|);
  }
}
