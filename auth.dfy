/**
 * Accounts: the password policy shared by registration, password change and the administrator's
 * password reset, registration by invitation code, and password change.  A missing request field
 * is the empty string; the stored password stands for its hash.
 */
module Auth {
  import opened Wrappers
  import opened Entities
  import opened Store
  import opened Text

  // ---------------------------------------------------------------------------------------------
  // Password policy

  /** Why a password is refused, in the order the checks run. */
  datatype PasswordError = TooShort | MissingLetterOrDigit | NonAscii | ContainsWhitespace

  /** `/[a-zA-Z]/.test(p)`. */
  predicate HasLetter(p: string) {
    exists i :: 0 <= i < |p| && IsAsciiLetter(p[i])
  }

  /** `/\d/.test(p)`. */
  predicate HasDigit(p: string) {
    exists i :: 0 <= i < |p| && IsAsciiDigit(p[i])
  }

  /** `!/[^\x00-\x7F]/.test(p)`. */
  predicate AllAscii(p: string) {
    forall i :: 0 <= i < |p| ==> IsAscii(p[i])
  }

  /** `/\s/.test(p)`. */
  predicate HasWhitespace(p: string) {
    exists i :: 0 <= i < |p| && IsJsWhitespace(p[i])
  }

  /** The policy: at least 8 UTF-16 units, an ASCII letter and a digit, ASCII only, no whitespace. */
  predicate StrongPassword(p: string) {
    Utf16Length(p) >= 8 && HasLetter(p) && HasDigit(p) && AllAscii(p) && !HasWhitespace(p)
  }

  /** The first check a password fails, if any: it fails one exactly when it breaks the policy. */
  function PasswordProblem(p: string): (e: Option<PasswordError>)
    ensures e.None? <==> StrongPassword(p)
    ensures e == Some(TooShort) <==> Utf16Length(p) < 8
    ensures e == Some(NonAscii) ==> HasLetter(p) && HasDigit(p) && !AllAscii(p)
  {
    if Utf16Length(p) < 8 then Some(TooShort)
    else if !HasLetter(p) || !HasDigit(p) then Some(MissingLetterOrDigit)
    else if !AllAscii(p) then Some(NonAscii)
    else if HasWhitespace(p) then Some(ContainsWhitespace)
    else None
  }

  /** An ASCII string has one UTF-16 unit per character. */
  lemma {:induction false} AsciiUtf16Length(p: string)
    requires AllAscii(p)
    ensures Utf16Length(p) == |p|
  {
    if p != [] {
      assert AllAscii(p[1..]) by {
        assert forall i :: 0 <= i < |p[1..]| ==> p[1..][i] == p[i + 1];
      }
      AsciiUtf16Length(p[1..]);
    }
  }

  /** A password the policy accepts has at least 8 characters, none of them a space or a tab. */
  lemma StrongPasswordShape(p: string)
    requires PasswordProblem(p).None?
    ensures |p| >= 8
    ensures forall i :: 0 <= i < |p| ==> p[i] != ' ' && p[i] != '\t' && IsAscii(p[i])
  {
    AsciiUtf16Length(p);
    assert forall i :: 0 <= i < |p| ==> !IsJsWhitespace(p[i]);
  }

  // ---------------------------------------------------------------------------------------------
  // Registration

  /** Why a registration is refused, in the order the checks run; every refusal answers 400. */
  datatype RegisterError =
    | MissingField
    | WeakPassword(problem: PasswordError)
    | UnknownCode
    | CodeNotPending
    | CodeExpired
    | UsernameTaken
    | DisplayNameTaken

  /** A pending invitation whose expiry has passed. */
  predicate Overdue(inv: Invitation, now: int) {
    inv.status == Pending && inv.expiresAt.Some? && inv.expiresAt.value < now
  }

  /** Some user, soft-deleted or not, has this username. */
  predicate UsernameInUse(users: map<UserId, User>, name: string) {
    exists u :: u in users && users[u].username == name
  }

  predicate DisplayNameInUse(users: map<UserId, User>, name: string) {
    exists u :: u in users && users[u].displayName == name
  }

  /** The checks of `POST /api/auth/register`, in order. */
  function RegisterCheck(users: map<UserId, User>, invitations: map<string, Invitation>,
                         username: string, displayName: string, password: string, code: string, now: int)
    : Option<RegisterError>
  {
    if username == [] || displayName == [] || password == [] || code == [] then Some(MissingField)
    else if PasswordProblem(password).Some? then Some(WeakPassword(PasswordProblem(password).value))
    else if code !in invitations then Some(UnknownCode)
    else if invitations[code].status != Pending then Some(CodeNotPending)
    else if Overdue(invitations[code], now) then Some(CodeExpired)
    else if UsernameInUse(users, username) then Some(UsernameTaken)
    else if DisplayNameInUse(users, displayName) then Some(DisplayNameTaken)
    else None
  }

  /** No two users share a username or a display name. */
  predicate UniqueNames(users: map<UserId, User>) {
    forall u, v :: u in users && v in users && u != v ==>
      users[u].username != users[v].username && users[u].displayName != users[v].displayName
  }

  /**
   * `POST /api/auth/register`: refused as `RegisterCheck` says, marking an overdue invitation
   * expired on the way; otherwise a new user with 100 RP, and the invitation used by that user.
   */
  method Register(db: Database, username: string, displayName: string, password: string, code: string, now: int)
    returns (err: Option<RegisterError>, id: Option<UserId>)
    requires db.Valid()
    modifies db
    ensures db.Valid()
    ensures err == RegisterCheck(old(db.users), old(db.invitations), username, displayName, password, code, now)
    ensures err.Some? ==>
      && id == None && db.users == old(db.users) && db.nextId == old(db.nextId)
      && db.invitations == (if err == Some(CodeExpired)
                            then old(db.invitations)[code := old(db.invitations)[code].(status := Expired)]
                            else old(db.invitations))
    ensures err.None? ==>
      && id == Some(old(db.nextId)) && id.value !in old(db.users)
      && db.users == old(db.users)[id.value := User(username, displayName, password, InitialRp, false, None)]
      && code in old(db.invitations)
      && db.invitations == old(db.invitations)[code :=
           old(db.invitations)[code].(status := Used, usedBy := id, usedAt := Some(now))]
      && db.nextId == old(db.nextId) + 1
    ensures UniqueNames(old(db.users)) ==> UniqueNames(db.users)
    ensures db.sessions == old(db.sessions) && db.ledger == old(db.ledger)
    ensures db.badges == old(db.badges) && db.userBadges == old(db.userBadges)
  {
    id := None;
    if username == [] || displayName == [] || password == [] || code == [] {
      return Some(MissingField), None;
    }
    var problem := PasswordProblem(password);
    if problem.Some? {
      return Some(WeakPassword(problem.value)), None;
    }
    if code !in db.invitations {
      return Some(UnknownCode), None;
    }
    var invitation := db.invitations[code];
    if invitation.status != Pending {
      return Some(CodeNotPending), None;
    }
    if invitation.expiresAt.Some? && invitation.expiresAt.value < now {
      db.invitations := db.invitations[code := invitation.(status := Expired)];
      return Some(CodeExpired), None;
    }
    if UsernameInUse(db.users, username) {
      return Some(UsernameTaken), None;
    }
    if DisplayNameInUse(db.users, displayName) {
      return Some(DisplayNameTaken), None;
    }
    var user := User(username, displayName, password, InitialRp, false, None);
    var u := db.AddUser(user);
    db.invitations := db.invitations[code := invitation.(status := Used, usedBy := Some(u), usedAt := Some(now))];
    err, id := None, Some(u);
  }

  /**
   * An invitation is consumed at most once: once used, every later registration with its code is
   * refused, whatever the other fields.
   */
  lemma UsedCodeRefused(users: map<UserId, User>, invitations: map<string, Invitation>, code: string,
                        u: UserId, at: int, username: string, displayName: string, password: string, now: int)
    requires code in invitations
    ensures var used := invitations[code := invitations[code].(status := Used, usedBy := Some(u), usedAt := Some(at))];
      RegisterCheck(users, used, username, displayName, password, code, now).Some?
  {
  }

  /** A registration that passes its checks uses a pending, unexpired invitation and fresh names. */
  lemma RegisterAccepts(users: map<UserId, User>, invitations: map<string, Invitation>,
                        username: string, displayName: string, password: string, code: string, now: int)
    requires RegisterCheck(users, invitations, username, displayName, password, code, now).None?
    ensures StrongPassword(password) && |password| >= 8
    ensures code in invitations && invitations[code].status == Pending
    ensures invitations[code].expiresAt.Some? ==> invitations[code].expiresAt.value >= now
    ensures forall u :: u in users ==> users[u].username != username && users[u].displayName != displayName
  {
    StrongPasswordShape(password);
  }

  // ---------------------------------------------------------------------------------------------
  // Password change

  /** The checks of `POST /api/auth/change-password`, in order. */
  function ChangePasswordCheck(users: map<UserId, User>, u: UserId, oldPassword: string, newPassword: string): Reply {
    if oldPassword == [] || newPassword == [] then BadRequest
    else if PasswordProblem(newPassword).Some? then BadRequest
    else if oldPassword == newPassword then BadRequest
    else if u !in users then NotFound
    else if users[u].password != oldPassword then BadRequest
    else Ok
  }

  /** `POST /api/auth/change-password` for the signed-in user `u`. */
  method ChangePassword(db: Database, u: UserId, oldPassword: string, newPassword: string) returns (r: Reply)
    requires db.Valid()
    modifies db
    ensures db.Valid()
    ensures r == ChangePasswordCheck(old(db.users), u, oldPassword, newPassword)
    ensures r == Ok ==> db.users == old(db.users)[u := old(db.users)[u].(password := newPassword)]
    ensures r != Ok ==> db.users == old(db.users)
    ensures db.sessions == old(db.sessions) && db.ledger == old(db.ledger) && db.nextId == old(db.nextId)
    ensures db.invitations == old(db.invitations) && db.badges == old(db.badges) && db.userBadges == old(db.userBadges)
  {
    if oldPassword == [] || newPassword == [] {
      return BadRequest;
    }
    if PasswordProblem(newPassword).Some? {
      return BadRequest;
    }
    if oldPassword == newPassword {
      return BadRequest;
    }
    if u !in db.users {
      return NotFound;
    }
    if db.users[u].password != oldPassword {
      return BadRequest;
    }
    db.PutUser(u, db.users[u].(password := newPassword));
    r := Ok;
  }

  /**
   * A password change that succeeds replaces the stored password with a different one that meets
   * the policy, and knowing the old password was required.
   */
  lemma ChangedPasswordIsNewAndStrong(users: map<UserId, User>, u: UserId, oldPassword: string, newPassword: string)
    requires ChangePasswordCheck(users, u, oldPassword, newPassword) == Ok
    ensures u in users && users[u].password == oldPassword
    ensures newPassword != users[u].password && StrongPassword(newPassword) && |newPassword| >= 8
  {
    StrongPasswordShape(newPassword);
  }
}
