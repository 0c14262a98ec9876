/**
 * The administrator's routes: invitation codes (expiry on listing, generation, deletion), score
 * adjustments and the soft delete of ledger rows, the soft delete of users and the password reset.
 * The audit-log rows these routes write are not part of this model.
 */
module Admin {
  import opened Wrappers
  import opened Entities
  import opened Store
  import opened Text
  import opened Auth

  // ---------------------------------------------------------------------------------------------
  // Invitations

  /** `updateMany` of the invitation listing: every overdue pending invitation becomes expired. */
  function Expire(invitations: map<string, Invitation>, now: int): (r: map<string, Invitation>)
    ensures r.Keys == invitations.Keys
    ensures forall c :: c in r ==> !Overdue(r[c], now)
  {
    map c | c in invitations :: if Overdue(invitations[c], now) then invitations[c].(status := Expired) else invitations[c]
  }

  /** `GET /api/admin/invites`, before it lists the invitations. */
  method ExpireInvites(db: Database, now: int)
    modifies db
    ensures db.invitations == Expire(old(db.invitations), now)
    ensures db.users == old(db.users) && db.sessions == old(db.sessions) && db.ledger == old(db.ledger)
    ensures db.nextId == old(db.nextId) && db.badges == old(db.badges) && db.userBadges == old(db.userBadges)
  {
    db.invitations := Expire(db.invitations, now);
  }

  /**
   * Expiry changes exactly the overdue invitations, and only their status; running it again
   * changes nothing.
   */
  lemma ExpireChangesOnlyOverdue(invitations: map<string, Invitation>, now: int, c: string)
    requires c in invitations
    ensures Overdue(invitations[c], now) ==> Expire(invitations, now)[c] == invitations[c].(status := Expired)
    ensures !Overdue(invitations[c], now) ==> Expire(invitations, now)[c] == invitations[c]
    ensures Expire(Expire(invitations, now), now) == Expire(invitations, now)
  {
  }

  /** Milliseconds in a day; `setDate(getDate() + n)` is taken as adding `n` whole days. */
  const DayMs: int := 24 * 60 * 60 * 1000

  /** The expiry of a generated batch: 30 seconds for 0 days, otherwise that many days. */
  function InviteExpiry(expiresIn: int, now: int): (t: int)
    requires 0 <= expiresIn <= 365
    ensures expiresIn == 0 ==> t == now + 30 * 1000
    ensures expiresIn > 0 ==> now + DayMs <= t <= now + 365 * DayMs
  {
    if expiresIn == 0 then now + 30 * 1000 else now + expiresIn * DayMs
  }

  /** The invitation table after the first `n` codes were issued as `inv`. */
  function Issued(invitations: map<string, Invitation>, codes: seq<string>, n: nat, inv: Invitation)
    : map<string, Invitation>
    requires n <= |codes|
  {
    if n == 0 then invitations else Issued(invitations, codes, n - 1, inv)[codes[n - 1] := inv]
  }

  /** The first `n` codes are pairwise different and none is in use. */
  predicate FreshCodes(invitations: map<string, Invitation>, codes: seq<string>, n: nat)
    requires n <= |codes|
  {
    (forall i, j :: 0 <= i < j < n ==> codes[i] != codes[j]) && forall i :: 0 <= i < n ==> codes[i] !in invitations
  }

  /**
   * `POST /api/admin/invites`: an absent `count` means 1 and an absent `expiresIn` means 30 days;
   * refused unless 1 <= count <= 100 and 0 <= expiresIn <= 365; otherwise one pending invitation
   * per drawn code, all with the same expiry.  A drawn code that is already taken makes the insert
   * fail, which ends the request with 500 and keeps the invitations created before it.  `codes` are
   * the random codes the generator draws, in order.
   */
  method GenerateInvites(db: Database, admin: UserId, countField: Option<int>, expiresInField: Option<int>,
                         now: int, codes: seq<string>)
    returns (r: Reply, created: seq<string>)
    requires 1 <= countField.GetOr(1) <= 100 ==> countField.GetOr(1) <= |codes|
    modifies db
    ensures var count, expiresIn := countField.GetOr(1), expiresInField.GetOr(30);
      !(1 <= count <= 100 && 0 <= expiresIn <= 365) ==> r == BadRequest && created == [] && unchanged(db)
    ensures var count, expiresIn := countField.GetOr(1), expiresInField.GetOr(30);
      1 <= count <= 100 && 0 <= expiresIn <= 365 ==>
      var inv := Invitation(Pending, admin, Some(InviteExpiry(expiresIn, now)), None, None);
      && |created| <= count && created == codes[..|created|]
      && FreshCodes(old(db.invitations), codes, |created|)
      && db.invitations == Issued(old(db.invitations), codes, |created|, inv)
      && (r == Ok || r == ServerError)
      && (r == Ok <==> |created| == count)
      && (r == ServerError ==> codes[|created|] in db.invitations)
    ensures db.users == old(db.users) && db.sessions == old(db.sessions) && db.ledger == old(db.ledger)
    ensures db.nextId == old(db.nextId) && db.badges == old(db.badges) && db.userBadges == old(db.userBadges)
  {
    created := [];
    var count := countField.GetOr(1);
    var expiresIn := expiresInField.GetOr(30);
    if count < 1 || count > 100 {
      return BadRequest, [];
    }
    if expiresIn < 0 || expiresIn > 365 {
      return BadRequest, [];
    }
    var inv := Invitation(Pending, admin, Some(InviteExpiry(expiresIn, now)), None, None);
    var invitations := db.invitations;
    var i := 0;
    while i < count
      invariant 0 <= i <= count
      invariant created == codes[..i]
      invariant FreshCodes(old(db.invitations), codes, i)
      invariant invitations == Issued(old(db.invitations), codes, i, inv)
      invariant forall j :: 0 <= j < i ==> codes[j] in invitations
    {
      if codes[i] in invitations {
        db.invitations := invitations;
        return ServerError, created;
      }
      assert forall j :: 0 <= j < i ==> codes[j] != codes[i];
      assert codes[i] !in old(db.invitations) by {
        IssuedContents(old(db.invitations), codes, i, inv);
      }
      invitations := invitations[codes[i] := inv];
      created := created + [codes[i]];
      i := i + 1;
    }
    db.invitations := invitations;
    r := Ok;
  }

  /** The keys after issuing: the old ones and the issued codes. */
  lemma {:induction false} IssuedKeys(invitations: map<string, Invitation>, codes: seq<string>, n: nat, inv: Invitation)
    requires n <= |codes|
    ensures Issued(invitations, codes, n, inv).Keys == invitations.Keys + set i | 0 <= i < n :: codes[i]
  {
    if n > 0 {
      IssuedKeys(invitations, codes, n - 1, inv);
      assert (set i | 0 <= i < n :: codes[i]) == (set i | 0 <= i < n - 1 :: codes[i]) + {codes[n - 1]};
    }
  }

  /** A code that is neither in use nor among the first `n` is not in the table after issuing them. */
  lemma {:induction false} NotIssued(invitations: map<string, Invitation>, codes: seq<string>, n: nat, inv: Invitation,
                                     c: string)
    requires n <= |codes| && c !in invitations && forall i :: 0 <= i < n ==> codes[i] != c
    ensures c !in Issued(invitations, codes, n, inv)
  {
    if n > 0 {
      NotIssued(invitations, codes, n - 1, inv, c);
    }
  }

  /** A batch of fresh codes adds exactly `n` invitations. */
  lemma {:induction false} IssuedCount(invitations: map<string, Invitation>, codes: seq<string>, n: nat, inv: Invitation)
    requires n <= |codes| && FreshCodes(invitations, codes, n)
    ensures |Issued(invitations, codes, n, inv).Keys| == |invitations.Keys| + n
  {
    if n > 0 {
      assert FreshCodes(invitations, codes, n - 1);
      IssuedCount(invitations, codes, n - 1, inv);
      NotIssued(invitations, codes, n - 1, inv, codes[n - 1]);
      var prev := Issued(invitations, codes, n - 1, inv).Keys;
      assert Issued(invitations, codes, n, inv).Keys == prev + {codes[n - 1]};
    }
  }

  /**
   * Each issued code holds the batch's invitation, pending with the batch's expiry and no user,
   * and the existing invitations stay as they were.
   */
  lemma {:induction false} IssuedContents(invitations: map<string, Invitation>, codes: seq<string>, n: nat, inv: Invitation)
    requires n <= |codes| && FreshCodes(invitations, codes, n)
    ensures var r := Issued(invitations, codes, n, inv);
      && (forall i :: 0 <= i < n ==> codes[i] in r && r[codes[i]] == inv)
      && (forall c :: c in invitations ==> c in r && r[c] == invitations[c])
  {
    if n > 0 {
      assert FreshCodes(invitations, codes, n - 1);
      IssuedContents(invitations, codes, n - 1, inv);
    }
  }

  /** The check of `DELETE /api/admin/invites/:id`: a used invitation cannot be deleted. */
  function DeleteInviteCheck(invitations: map<string, Invitation>, code: string): Reply {
    if code !in invitations then NotFound
    else if invitations[code].status == Used then BadRequest
    else Ok
  }

  /** `DELETE /api/admin/invites/:id`: the invitation is marked deleted. */
  method DeleteInvite(db: Database, code: string) returns (r: Reply)
    modifies db
    ensures r == DeleteInviteCheck(old(db.invitations), code)
    ensures r == Ok ==> db.invitations == old(db.invitations)[code := old(db.invitations)[code].(status := Deleted)]
    ensures r != Ok ==> db.invitations == old(db.invitations)
    ensures db.users == old(db.users) && db.sessions == old(db.sessions) && db.ledger == old(db.ledger)
    ensures db.nextId == old(db.nextId) && db.badges == old(db.badges) && db.userBadges == old(db.userBadges)
  {
    if code !in db.invitations {
      return NotFound;
    }
    if db.invitations[code].status == Used {
      return BadRequest;
    }
    db.invitations := db.invitations[code := db.invitations[code].(status := Deleted)];
    r := Ok;
  }

  /** A deleted invitation can no longer be used to register. */
  lemma DeletedInviteRefused(users: map<UserId, User>, invitations: map<string, Invitation>, code: string,
                             username: string, displayName: string, password: string, now: int)
    requires DeleteInviteCheck(invitations, code) == Ok
    ensures var after := invitations[code := invitations[code].(status := Deleted)];
      RegisterCheck(users, after, username, displayName, password, code, now).Some?
  {
  }

  // ---------------------------------------------------------------------------------------------
  // Score adjustments

  /**
   * The checks of `POST /api/admin/users/:id/score`: a missing or zero change, a blank reason or
   * an unknown user is refused.
   */
  function AdjustCheck(users: map<UserId, User>, u: UserId, scoreChange: Option<int>, reason: string): Reply {
    if scoreChange.None? || scoreChange.value == 0 then BadRequest
    else if IsBlank(reason) then BadRequest
    else if u !in users then NotFound
    else Ok
  }

  /** `POST /api/admin/users/:id/score`: one `admin_adjust` row, and the same change to the user's RP. */
  method AdjustScore(db: Database, u: UserId, scoreChange: Option<int>, reason: string) returns (r: Reply)
    requires db.Valid()
    modifies db
    ensures db.Valid()
    ensures r == AdjustCheck(old(db.users), u, scoreChange, reason)
    ensures r == Ok ==>
      && db.ledger == old(db.ledger) + [NewRow(old(db.nextId), u, None, scoreChange.value, AdminAdjust)]
      && u in db.users && db.users[u].rp == old(db.users[u].rp) + scoreChange.value
      && db.users == Credit(old(db.users), u, scoreChange.value)
      && db.nextId == old(db.nextId) + 1
    ensures r != Ok ==> db.ledger == old(db.ledger) && db.users == old(db.users) && db.nextId == old(db.nextId)
    ensures db.sessions == old(db.sessions)
    ensures db.invitations == old(db.invitations) && db.badges == old(db.badges) && db.userBadges == old(db.userBadges)
  {
    if scoreChange.None? || scoreChange.value == 0 {
      return BadRequest;
    }
    if IsBlank(reason) {
      return BadRequest;
    }
    if u !in db.users {
      return NotFound;
    }
    db.AppendRow(NewRow(db.nextId, u, None, scoreChange.value, AdminAdjust));
    r := Ok;
  }

  /** The position of the ledger row with id `id`, searching from position `i`. */
  function RowFrom(ledger: seq<ScoreRow>, id: RowId, i: nat): (r: Option<nat>)
    requires i <= |ledger|
    ensures r.Some? ==> i <= r.value < |ledger| && ledger[r.value].id == id
    decreases |ledger| - i
  {
    if i == |ledger| then None
    else if ledger[i].id == id then Some(i)
    else RowFrom(ledger, id, i + 1)
  }

  /** `findUnique({ where: { id } })` on the ledger. */
  function RowIndex(ledger: seq<ScoreRow>, id: RowId): (r: Option<nat>)
    ensures r.Some? ==> r.value < |ledger| && ledger[r.value].id == id
  {
    RowFrom(ledger, id, 0)
  }

  /** The search finds nothing exactly when no row from `i` on has the id. */
  lemma {:induction false} RowFromNone(ledger: seq<ScoreRow>, id: RowId, i: nat)
    requires i <= |ledger|
    ensures RowFrom(ledger, id, i).None? <==> forall k :: i <= k < |ledger| ==> ledger[k].id != id
    decreases |ledger| - i
  {
    if i < |ledger| {
      RowFromNone(ledger, id, i + 1);
    }
  }

  /** The search only looks at ids: two ledgers with the same ids give the same answer. */
  lemma {:induction false} RowFromSameIds(a: seq<ScoreRow>, b: seq<ScoreRow>, id: RowId, i: nat)
    requires |a| == |b| && i <= |a|
    requires forall k :: 0 <= k < |a| ==> a[k].id == b[k].id
    ensures RowFrom(a, id, i) == RowFrom(b, id, i)
    decreases |a| - i
  {
    if i < |a| {
      RowFromSameIds(a, b, id, i + 1);
    }
  }

  /** The checks of `DELETE /api/admin/score-history/:id`: a missing or already deleted row is refused. */
  function SoftDeleteCheck(ledger: seq<ScoreRow>, id: RowId): Reply {
    match RowIndex(ledger, id)
    case None => NotFound
    case Some(i) => if ledger[i].deleted then BadRequest else Ok
  }

  /**
   * `DELETE /api/admin/score-history/:id`: the row is marked deleted by `admin` at `now`; only an
   * `admin_adjust` row also takes its change back from the user's RP.
   */
  method SoftDeleteScore(db: Database, admin: UserId, id: RowId, now: int) returns (r: Reply)
    requires db.Valid()
    modifies db
    ensures db.Valid()
    ensures r == SoftDeleteCheck(old(db.ledger), id)
    ensures r == Ok ==>
      var i := RowIndex(old(db.ledger), id).value;
      var row := old(db.ledger)[i];
      && db.ledger == old(db.ledger)[i := row.(deleted := true, deletedBy := Some(admin), deletedAt := Some(now))]
      && db.users == (if row.reason == AdminAdjust then Credit(old(db.users), row.userId, -row.delta) else old(db.users))
    ensures r != Ok ==> db.ledger == old(db.ledger) && db.users == old(db.users)
    ensures db.nextId == old(db.nextId) && db.sessions == old(db.sessions)
    ensures db.invitations == old(db.invitations) && db.badges == old(db.badges) && db.userBadges == old(db.userBadges)
  {
    var found := RowIndex(db.ledger, id);
    if found.None? {
      return NotFound;
    }
    var i := found.value;
    if db.ledger[i].deleted {
      return BadRequest;
    }
    db.SoftDeleteRow(i, admin, now);
    r := Ok;
  }

  /** A second soft delete of the same row is always refused. */
  lemma SecondSoftDeleteRefused(ledger: seq<ScoreRow>, id: RowId, admin: UserId, now: int)
    requires SoftDeleteCheck(ledger, id) == Ok
    ensures var i := RowIndex(ledger, id).value;
      SoftDeleteCheck(ledger[i := ledger[i].(deleted := true, deletedBy := Some(admin), deletedAt := Some(now))], id)
        == BadRequest
  {
    var i := RowIndex(ledger, id).value;
    var after := ledger[i := ledger[i].(deleted := true, deletedBy := Some(admin), deletedAt := Some(now))];
    RowFromSameIds(ledger, after, id, 0);
  }

  /**
   * Soft-deleting an adjustment right after making it gives every user back the ledger
   * contribution they had before the adjustment.
   */
  lemma AdjustUndoneBySoftDelete(ledger: seq<ScoreRow>, row: ScoreRow, admin: UserId, now: int, v: UserId)
    requires row.reason == AdminAdjust && !row.deleted
    ensures var after := (ledger + [row])[|ledger| := row.(deleted := true, deletedBy := Some(admin), deletedAt := Some(now))];
      Contribution(after, v) == Contribution(ledger, v)
  {
    var deletedRow := row.(deleted := true, deletedBy := Some(admin), deletedAt := Some(now));
    ContributionAppend(ledger, row, v);
    ReplaceRowContribution(ledger + [row], |ledger|, deletedRow, v);
  }

  /** Soft-deleting any other row leaves every contribution, hence every RP, as it was. */
  lemma SoftDeleteKeepsOtherContributions(ledger: seq<ScoreRow>, i: nat, admin: UserId, now: int, v: UserId)
    requires i < |ledger| && ledger[i].reason != AdminAdjust
    ensures Contribution(ledger[i := ledger[i].(deleted := true, deletedBy := Some(admin), deletedAt := Some(now))], v)
      == Contribution(ledger, v)
  {
    ReplaceRowContribution(ledger, i, ledger[i].(deleted := true, deletedBy := Some(admin), deletedAt := Some(now)), v);
  }

  // ---------------------------------------------------------------------------------------------
  // Users

  /** `DELETE /api/admin/users/:id`: an administrator cannot delete their own account. */
  function DeleteUserCheck(users: map<UserId, User>, admin: UserId, u: UserId): Reply {
    if u == admin then BadRequest
    else if u !in users then NotFound
    else Ok
  }

  /** `DELETE /api/admin/users/:id`: only the deletion time is set; the account and its RP stay. */
  method DeleteUser(db: Database, admin: UserId, u: UserId, now: int) returns (r: Reply)
    requires db.Valid()
    modifies db
    ensures db.Valid()
    ensures r == DeleteUserCheck(old(db.users), admin, u)
    ensures r == Ok ==> db.users == old(db.users)[u := old(db.users)[u].(deletedAt := Some(now))]
    ensures r != Ok ==> db.users == old(db.users)
    ensures db.ledger == old(db.ledger) && db.nextId == old(db.nextId) && db.sessions == old(db.sessions)
    ensures db.invitations == old(db.invitations) && db.badges == old(db.badges) && db.userBadges == old(db.userBadges)
  {
    if u == admin {
      return BadRequest;
    }
    if u !in db.users {
      return NotFound;
    }
    db.PutUser(u, db.users[u].(deletedAt := Some(now)));
    r := Ok;
  }

  /** No request deletes the requesting administrator, and a deletion keeps every account and RP. */
  lemma DeleteUserNeverSelf(users: map<UserId, User>, admin: UserId, u: UserId, now: int)
    ensures DeleteUserCheck(users, admin, admin) == BadRequest
    ensures DeleteUserCheck(users, admin, u) == Ok ==>
      var after := users[u := users[u].(deletedAt := Some(now))];
      u != admin && after.Keys == users.Keys && forall v :: v in users ==> after[v].rp == users[v].rp
  {
  }

  /** The checks of `POST /api/admin/users/:id/reset-password`: the policy first, then the user. */
  function ResetPasswordCheck(users: map<UserId, User>, u: UserId, newPassword: string): Reply {
    if PasswordProblem(newPassword).Some? then BadRequest
    else if u !in users then NotFound
    else Ok
  }

  /** `POST /api/admin/users/:id/reset-password`: the stored password is replaced. */
  method ResetPassword(db: Database, u: UserId, newPassword: string) returns (r: Reply)
    requires db.Valid()
    modifies db
    ensures db.Valid()
    ensures r == ResetPasswordCheck(old(db.users), u, newPassword)
    ensures r == Ok ==> db.users == old(db.users)[u := old(db.users)[u].(password := newPassword)]
    ensures r != Ok ==> db.users == old(db.users)
    ensures db.ledger == old(db.ledger) && db.nextId == old(db.nextId) && db.sessions == old(db.sessions)
    ensures db.invitations == old(db.invitations) && db.badges == old(db.badges) && db.userBadges == old(db.userBadges)
  {
    if PasswordProblem(newPassword).Some? {
      return BadRequest;
    }
    if u !in db.users {
      return NotFound;
    }
    db.PutUser(u, db.users[u].(password := newPassword));
    r := Ok;
  }

  /** A reset password meets the same policy as a registration password. */
  lemma ResetPasswordIsStrong(users: map<UserId, User>, u: UserId, newPassword: string)
    requires ResetPasswordCheck(users, u, newPassword) == Ok
    ensures StrongPassword(newPassword) && |newPassword| >= 8 && u in users
  {
    StrongPasswordShape(newPassword);
  }
}
