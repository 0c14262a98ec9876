/**
 * The database as abstract state, and the ledger invariant that ties every user's RP to the
 * score ledger: RP is the initial 100 plus the effect of that user's ledger rows, where every row
 * counts except an administrator adjustment that was soft-deleted (soft-deleting it reverts its RP).
 */
module Store {
  import opened Wrappers
  import opened Entities

  /** What a ledger row contributes to its user's RP. */
  function Effect(row: ScoreRow): int {
    if row.deleted && row.reason == AdminAdjust then 0 else row.delta
  }

  /** The total effect of `u`'s rows in `ledger`. */
  function Contribution(ledger: seq<ScoreRow>, u: UserId): int {
    if ledger == [] then 0
    else
      var last := ledger[|ledger| - 1];
      Contribution(ledger[..|ledger| - 1], u) + (if last.userId == u then Effect(last) else 0)
  }

  /** Every user's RP is explained by the ledger. */
  predicate Reconciled(users: map<UserId, User>, ledger: seq<ScoreRow>) {
    forall u {:trigger Contribution(ledger, u)} :: u in users ==> users[u].rp == InitialRp + Contribution(ledger, u)
  }

  /** `rp: { increment: d }` on user `u`. */
  function Credit(users: map<UserId, User>, u: UserId, d: int): (r: map<UserId, User>)
    requires u in users
    ensures r.Keys == users.Keys
  {
    users[u := users[u].(rp := users[u].rp + d)]
  }

  /** The RP increments of a run of freshly appended rows, applied in order. */
  function CreditRows(users: map<UserId, User>, rows: seq<ScoreRow>): (r: map<UserId, User>)
    requires forall i :: 0 <= i < |rows| ==> rows[i].userId in users
    ensures r.Keys == users.Keys
  {
    if rows == [] then users
    else
      var last := rows[|rows| - 1];
      Credit(CreditRows(users, rows[..|rows| - 1]), last.userId, last.delta)
  }

  /** The ledger rows that belong to session `s`. */
  predicate OfSession(row: ScoreRow, s: SessionId) {
    row.sessionId == Some(s)
  }

  /** `deleteMany({ where: { sessionId } })` on the ledger. */
  function Purged(ledger: seq<ScoreRow>, s: SessionId): (r: seq<ScoreRow>)
    ensures |r| <= |ledger|
    ensures forall i :: 0 <= i < |r| ==> !OfSession(r[i], s)
  {
    if ledger == [] then []
    else
      var last := ledger[|ledger| - 1];
      Purged(ledger[..|ledger| - 1], s) + (if OfSession(last, s) then [] else [last])
  }

  /** The effect of session `s`'s rows on `u`'s RP. */
  function SessionContribution(ledger: seq<ScoreRow>, s: SessionId, u: UserId): int {
    if ledger == [] then 0
    else
      var last := ledger[|ledger| - 1];
      SessionContribution(ledger[..|ledger| - 1], s, u)
      + (if last.userId == u && OfSession(last, s) then Effect(last) else 0)
  }

  lemma ContributionAppend(ledger: seq<ScoreRow>, row: ScoreRow, u: UserId)
    ensures Contribution(ledger + [row], u) == Contribution(ledger, u) + (if row.userId == u then Effect(row) else 0)
  {
    assert (ledger + [row])[..|ledger|] == ledger;
  }

  /** Appending a row and applying its effect to its user keeps RP and ledger in step. */
  lemma AppendKeepsReconciled(users: map<UserId, User>, ledger: seq<ScoreRow>, row: ScoreRow)
    requires Reconciled(users, ledger) && row.userId in users
    ensures Reconciled(Credit(users, row.userId, Effect(row)), ledger + [row])
  {
    forall u | u in users
      ensures Credit(users, row.userId, Effect(row))[u].rp == InitialRp + Contribution(ledger + [row], u)
    {
      ContributionAppend(ledger, row, u);
    }
  }

  lemma {:induction false} ContributionConcat(a: seq<ScoreRow>, b: seq<ScoreRow>, u: UserId)
    ensures Contribution(a + b, u) == Contribution(a, u) + Contribution(b, u)
    decreases |b|
  {
    if b == [] {
      assert a + b == a;
    } else {
      var n := |b| - 1;
      assert (a + b)[..|a + b| - 1] == a + b[..n];
      ContributionConcat(a, b[..n], u);
    }
  }

  /** Crediting a run of live rows raises each user's RP by that user's contribution in the run. */
  lemma {:induction false} CreditRowsRp(users: map<UserId, User>, rows: seq<ScoreRow>, u: UserId)
    requires forall i :: 0 <= i < |rows| ==> rows[i].userId in users && !rows[i].deleted
    requires u in users
    ensures CreditRows(users, rows)[u].rp == users[u].rp + Contribution(rows, u)
    ensures CreditRows(users, rows)[u].(rp := users[u].rp) == users[u]
    decreases |rows|
  {
    if rows != [] {
      CreditRowsRp(users, rows[..|rows| - 1], u);
    }
  }

  /** Appending a run of live rows while crediting each keeps RP and ledger in step. */
  lemma AppendRowsKeepsReconciled(users: map<UserId, User>, ledger: seq<ScoreRow>, rows: seq<ScoreRow>)
    requires Reconciled(users, ledger)
    requires forall i :: 0 <= i < |rows| ==> rows[i].userId in users && !rows[i].deleted
    ensures Reconciled(CreditRows(users, rows), ledger + rows)
  {
    forall u | u in users
      ensures CreditRows(users, rows)[u].rp == InitialRp + Contribution(ledger + rows, u)
    {
      CreditRowsRp(users, rows, u);
      ContributionConcat(ledger, rows, u);
    }
  }

  /** A user without ledger rows has contribution 0. */
  lemma {:induction false} NoRowsNoContribution(ledger: seq<ScoreRow>, u: UserId)
    requires forall i :: 0 <= i < |ledger| ==> ledger[i].userId != u
    ensures Contribution(ledger, u) == 0
    decreases |ledger|
  {
    if ledger != [] {
      NoRowsNoContribution(ledger[..|ledger| - 1], u);
    }
  }

  /** Replacing one row changes each user's contribution by the difference of the two rows' effects. */
  lemma {:induction false} ReplaceRowContribution(ledger: seq<ScoreRow>, i: nat, row: ScoreRow, u: UserId)
    requires i < |ledger|
    ensures Contribution(ledger[i := row], u)
      == Contribution(ledger, u)
         - (if ledger[i].userId == u then Effect(ledger[i]) else 0)
         + (if row.userId == u then Effect(row) else 0)
    decreases |ledger|
  {
    var n := |ledger| - 1;
    if i == n {
      assert ledger[i := row][..n] == ledger[..n];
    } else {
      assert ledger[i := row][..n] == ledger[..n][i := row];
      ReplaceRowContribution(ledger[..n], i, row, u);
    }
  }

  /** Purging a session's rows removes exactly their effect from every contribution. */
  lemma {:induction false} PurgedContribution(ledger: seq<ScoreRow>, s: SessionId, u: UserId)
    ensures Contribution(Purged(ledger, s), u) == Contribution(ledger, u) - SessionContribution(ledger, s, u)
    decreases |ledger|
  {
    if ledger != [] {
      var n := |ledger| - 1;
      PurgedContribution(ledger[..n], s, u);
      if OfSession(ledger[n], s) {
        assert Purged(ledger, s) == Purged(ledger[..n], s) + [];
        assert Purged(ledger[..n], s) + [] == Purged(ledger[..n], s);
      } else {
        assert Purged(ledger, s) == Purged(ledger[..n], s) + [ledger[n]];
        ContributionAppend(Purged(ledger[..n], s), ledger[n], u);
      }
    }
  }

  /** The participants of a session are distinct users. */
  predicate DistinctParticipants(ps: seq<Participant>) {
    forall i, j :: 0 <= i < j < |ps| ==> ps[i].userId != ps[j].userId
  }

  predicate SessionWellFormed(users: map<UserId, User>, s: Session) {
    s.initiator in users
    && (forall i :: 0 <= i < |s.participants| ==> s.participants[i].userId in users)
    && DistinctParticipants(s.participants)
  }

  /** Ledger rows are in creation order, with increasing ids below `nextId`, and belong to users. */
  predicate LedgerWellFormed(users: map<UserId, User>, ledger: seq<ScoreRow>, nextId: nat) {
    (forall i :: 0 <= i < |ledger| ==> ledger[i].userId in users && ledger[i].id < nextId)
    && (forall i :: 0 <= i < |ledger| && ledger[i].sessionId.Some? ==> ledger[i].sessionId.value < nextId)
    && (forall i, j :: 0 <= i < j < |ledger| ==> ledger[i].id < ledger[j].id)
  }

  /** The database invariant, without the ledger reconciliation. */
  predicate WellFormed(users: map<UserId, User>, sessions: map<SessionId, Session>, ledger: seq<ScoreRow>, nextId: nat) {
    (forall u :: u in users ==> u < nextId)
    && (forall s :: s in sessions ==> s < nextId && SessionWellFormed(users, sessions[s]))
    && LedgerWellFormed(users, ledger, nextId)
  }

  /** The database invariant. */
  predicate Consistent(users: map<UserId, User>, sessions: map<SessionId, Session>, ledger: seq<ScoreRow>, nextId: nat) {
    WellFormed(users, sessions, ledger, nextId) && Reconciled(users, ledger)
  }

  /** Appending rows with fresh increasing ids to a well-formed ledger keeps it well-formed. */
  lemma AppendKeepsLedgerWellFormed(users: map<UserId, User>, ledger: seq<ScoreRow>, nextId: nat,
                                    rows: seq<ScoreRow>, newNextId: nat)
    requires LedgerWellFormed(users, ledger, nextId)
    requires forall k :: 0 <= k < |rows| ==> rows[k].userId in users && rows[k].id == nextId + k
    requires forall k :: 0 <= k < |rows| && rows[k].sessionId.Some? ==> rows[k].sessionId.value < newNextId
    requires nextId + |rows| <= newNextId
    ensures LedgerWellFormed(users, ledger + rows, newNextId)
  {
    var l := ledger + rows;
    forall i, j | 0 <= i < j < |l|
      ensures l[i].id < l[j].id
    {
      if j >= |ledger| {
        assert l[j] == rows[j - |ledger|];
        if i >= |ledger| {
          assert l[i] == rows[i - |ledger|];
        }
      }
    }
  }

  /** Session well-formedness only depends on which users exist. */
  lemma WellFormedSameUsers(users: map<UserId, User>, users': map<UserId, User>,
                            sessions: map<SessionId, Session>, ledger: seq<ScoreRow>, nextId: nat)
    requires users.Keys == users'.Keys && WellFormed(users, sessions, ledger, nextId)
    ensures WellFormed(users', sessions, ledger, nextId)
  {
    assert forall u :: u in users <==> u in users';
  }

  /** Handing out more ids keeps the database well-formed. */
  lemma RaiseNextId(users: map<UserId, User>, sessions: map<SessionId, Session>, ledger: seq<ScoreRow>,
                    nextId: nat, nextId': nat)
    requires WellFormed(users, sessions, ledger, nextId) && nextId <= nextId'
    ensures WellFormed(users, sessions, ledger, nextId')
  {
  }

  /** Storing a well-formed session under a handed-out id keeps the database well-formed. */
  lemma PutSessionKeepsWellFormed(users: map<UserId, User>, sessions: map<SessionId, Session>, ledger: seq<ScoreRow>,
                                  nextId: nat, s: SessionId, t: Session)
    requires WellFormed(users, sessions, ledger, nextId)
    requires s < nextId && SessionWellFormed(users, t)
    ensures WellFormed(users, sessions[s := t], ledger, nextId)
  {
  }

  /** Appending live rows with fresh ids, each credited to its user, keeps the database consistent. */
  lemma AppendRowsKeepsConsistent(users: map<UserId, User>, sessions: map<SessionId, Session>, ledger: seq<ScoreRow>,
                                  nextId: nat, rows: seq<ScoreRow>)
    requires Consistent(users, sessions, ledger, nextId)
    requires forall k :: 0 <= k < |rows| ==> rows[k].userId in users && rows[k].id == nextId + k && !rows[k].deleted
    requires forall k :: 0 <= k < |rows| && rows[k].sessionId.Some? ==> rows[k].sessionId.value < nextId
    ensures Consistent(CreditRows(users, rows), sessions, ledger + rows, nextId + |rows|)
  {
    var users', ledger', nextId' := CreditRows(users, rows), ledger + rows, nextId + |rows|;
    AppendRowsKeepsReconciled(users, ledger, rows);
    AppendKeepsLedgerWellFormed(users, ledger, nextId, rows, nextId');
    assert WellFormed(users, sessions, ledger', nextId') by {
      RaiseNextId(users, sessions, ledger, nextId, nextId');
    }
    WellFormedSameUsers(users, users', sessions, ledger', nextId');
  }

  /** Adding a user under the next id keeps the database well-formed. */
  lemma AddUserKeepsWellFormed(users: map<UserId, User>, sessions: map<SessionId, Session>, ledger: seq<ScoreRow>,
                               nextId: nat, user: User)
    requires WellFormed(users, sessions, ledger, nextId)
    ensures WellFormed(users[nextId := user], sessions, ledger, nextId + 1)
  {
    var users' := users[nextId := user];
    forall s | s in sessions
      ensures SessionWellFormed(users', sessions[s])
    {
      assert SessionWellFormed(users, sessions[s]);
    }
  }

  /** One appended row is credited exactly as by `Credit`. */
  lemma CreditOneRow(users: map<UserId, User>, row: ScoreRow)
    requires row.userId in users
    ensures CreditRows(users, [row]) == Credit(users, row.userId, row.delta)
  {
    assert [row][..0] == [];
  }

  /** The credit of a run of rows extended by one more row. */
  lemma CreditRowsSnoc(users: map<UserId, User>, rows: seq<ScoreRow>, row: ScoreRow)
    requires forall k :: 0 <= k < |rows| ==> rows[k].userId in users
    requires row.userId in users
    ensures CreditRows(users, rows + [row]) == Credit(CreditRows(users, rows), row.userId, row.delta)
  {
    assert (rows + [row])[..|rows|] == rows;
  }

  /**
   * The database: the tables the handlers read and write.  Invitations are keyed by their unique
   * code and badges by their unique code; a user badge is keyed by user and badge code and records
   * the session that unlocked it.
   */
  class Database {
    var users: map<UserId, User>
    var sessions: map<SessionId, Session>
    var ledger: seq<ScoreRow>
    var invitations: map<string, Invitation>
    var badges: map<string, Badge>
    var userBadges: map<(UserId, string), Option<SessionId>>
    var nextId: nat

    predicate Valid()
      reads this
    {
      Consistent(users, sessions, ledger, nextId)
    }

    constructor()
      ensures Valid()
      ensures users == map[] && sessions == map[] && ledger == [] && invitations == map[]
      ensures badges == map[] && userBadges == map[] && nextId == 0
    {
      users := map[];
      sessions := map[];
      ledger := [];
      invitations := map[];
      badges := map[];
      userBadges := map[];
      nextId := 0;
    }

    /** Hands out the next id. */
    method NewId() returns (id: nat)
      requires Valid()
      modifies this
      ensures Valid()
      ensures id == old(nextId) && nextId == id + 1
      ensures users == old(users) && sessions == old(sessions) && ledger == old(ledger)
      ensures invitations == old(invitations) && badges == old(badges) && userBadges == old(userBadges)
    {
      id := nextId;
      RaiseNextId(users, sessions, ledger, nextId, nextId + 1);
      nextId := nextId + 1;
    }

    /** Writes the row of session `s` (an update, or the insert of a freshly numbered session). */
    method PutSession(s: SessionId, t: Session)
      requires Valid() && s < nextId && SessionWellFormed(users, t)
      modifies this
      ensures Valid()
      ensures sessions == old(sessions)[s := t]
      ensures users == old(users) && ledger == old(ledger) && nextId == old(nextId)
      ensures invitations == old(invitations) && badges == old(badges) && userBadges == old(userBadges)
    {
      PutSessionKeepsWellFormed(users, sessions, ledger, nextId, s, t);
      sessions := sessions[s := t];
    }

    /**
     * Appends a fresh ledger row and credits its delta to its user's RP, in one step, so that
     * the ledger keeps explaining every RP.
     */
    method AppendRow(row: ScoreRow)
      requires Valid() && row.userId in users && row.id == nextId && !row.deleted
      requires row.sessionId.Some? ==> row.sessionId.value < nextId
      modifies this
      ensures Valid()
      ensures ledger == old(ledger) + [row] && users == Credit(old(users), row.userId, row.delta)
      ensures nextId == old(nextId) + 1 && sessions == old(sessions)
      ensures invitations == old(invitations) && badges == old(badges) && userBadges == old(userBadges)
    {
      AppendRowsKeepsConsistent(users, sessions, ledger, nextId, [row]);
      CreditOneRow(users, row);
      users, ledger, nextId := Credit(users, row.userId, row.delta), ledger + [row], nextId + 1;
    }

    /** Inserts a new user under the next id, with the initial RP. */
    method AddUser(user: User) returns (id: UserId)
      requires Valid() && user.rp == InitialRp
      modifies this
      ensures Valid()
      ensures id == old(nextId) && id !in old(users) && users == old(users)[id := user]
      ensures nextId == old(nextId) + 1 && sessions == old(sessions) && ledger == old(ledger)
      ensures invitations == old(invitations) && badges == old(badges) && userBadges == old(userBadges)
    {
      id := nextId;
      NoRowsNoContribution(ledger, id);
      RaiseNextId(users, sessions, ledger, nextId, nextId + 1);
      AddUserKeepsWellFormed(users, sessions, ledger, nextId, user);
      users, nextId := users[id := user], nextId + 1;
    }

    /** Rewrites the fields of user `u` other than RP (password, soft delete). */
    method PutUser(u: UserId, user: User)
      requires Valid() && u in users && user.rp == users[u].rp
      modifies this
      ensures Valid()
      ensures users == old(users)[u := user]
      ensures nextId == old(nextId) && sessions == old(sessions) && ledger == old(ledger)
      ensures invitations == old(invitations) && badges == old(badges) && userBadges == old(userBadges)
    {
      WellFormedSameUsers(users, users[u := user], sessions, ledger, nextId);
      users := users[u := user];
    }

    /**
     * Soft-deletes ledger row `i` and, when it is an administrator adjustment, takes its delta
     * back from its user's RP, so that the ledger keeps explaining every RP.
     */
    method SoftDeleteRow(i: nat, admin: UserId, at: int)
      requires Valid() && i < |ledger| && !ledger[i].deleted
      modifies this
      ensures Valid()
      ensures ledger == old(ledger)[i := old(ledger)[i].(deleted := true, deletedBy := Some(admin), deletedAt := Some(at))]
      ensures users == if old(ledger)[i].reason == AdminAdjust
                       then Credit(old(users), old(ledger)[i].userId, -old(ledger)[i].delta)
                       else old(users)
      ensures nextId == old(nextId) && sessions == old(sessions)
      ensures invitations == old(invitations) && badges == old(badges) && userBadges == old(userBadges)
    {
      var row := ledger[i];
      var deletedRow := row.(deleted := true, deletedBy := Some(admin), deletedAt := Some(at));
      var users' := if row.reason == AdminAdjust then Credit(users, row.userId, -row.delta) else users;
      var ledger' := ledger[i := deletedRow];
      forall v | v in users'
        ensures users'[v].rp == InitialRp + Contribution(ledger', v)
      {
        ReplaceRowContribution(ledger, i, deletedRow, v);
      }
      WellFormedSameUsers(users, users', sessions, ledger, nextId);
      assert LedgerWellFormed(users', ledger', nextId) by {
        assert deletedRow.id == row.id && deletedRow.userId == row.userId && deletedRow.sessionId == row.sessionId;
      }
      users, ledger := users', ledger';
    }
  }
}
