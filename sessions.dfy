/**
 * The session rules: creating, updating and deleting a game session, voting, excusing oneself,
 * and settling or cancelling it with the per-participant scoring table.  Every handler is a method
 * on the database; `caller` is the authenticated user (the authentication middleware has looked the
 * user up, so it exists) and `now` is the clock in milliseconds.
 */
module Sessions {
  import opened Wrappers
  import opened Entities
  import opened Store
  import Voting

  /** The excuse text used when none is given: "something came up". */
  const DefaultExcuse: string := "\U{4E34}\U{65F6}\U{6709}\U{4E8B}"

  const InitiationBonus: int := 2
  const LateExcusePenalty: int := -2
  const AttendedPoints: int := 5
  const NoShowPoints: int := -20

  /** The handlers of this module leave invitations and badges alone. */
  twostate predicate OnlyGameTables(db: Database)
    reads db
  {
    db.invitations == old(db.invitations) && db.badges == old(db.badges) && db.userBadges == old(db.userBadges)
  }

  /** `findFirst` on the ledger: some row, deleted or not, of `reason` for user `u` in session `s`. */
  predicate HasRow(ledger: seq<ScoreRow>, s: SessionId, u: UserId, reason: Reason) {
    exists i :: 0 <= i < |ledger| && ledger[i].sessionId == Some(s) && ledger[i].userId == u && ledger[i].reason == reason
  }

  /** The participation row of `u`, looked up by the unique (session, user) key. */
  function IndexOf(ps: seq<Participant>, u: UserId): (r: Option<nat>)
    ensures r.Some? ==> r.value < |ps| && ps[r.value].userId == u
  {
    IndexFrom(ps, u, 0)
  }

  /** The first row of `u` at or after position `i`. */
  function IndexFrom(ps: seq<Participant>, u: UserId, i: nat): (r: Option<nat>)
    requires i <= |ps|
    ensures r.Some? ==> i <= r.value < |ps| && ps[r.value].userId == u
    decreases |ps| - i
  {
    if i == |ps| then None
    else if ps[i].userId == u then Some(i)
    else IndexFrom(ps, u, i + 1)
  }

  lemma {:induction false} IndexFromNone(ps: seq<Participant>, u: UserId, i: nat)
    requires i <= |ps|
    ensures IndexFrom(ps, u, i).None? <==> forall j :: i <= j < |ps| ==> ps[j].userId != u
    decreases |ps| - i
  {
    if i < |ps| {
      IndexFromNone(ps, u, i + 1);
    }
  }

  /** The lookup finds nothing exactly when no row belongs to `u`. */
  lemma IndexOfNone(ps: seq<Participant>, u: UserId)
    ensures IndexOf(ps, u).None? <==> forall j :: 0 <= j < |ps| ==> ps[j].userId != u
  {
    IndexFromNone(ps, u, 0);
  }

  /** With distinct users, the row found is the only row of `u`. */
  lemma IndexOfUnique(ps: seq<Participant>, u: UserId, j: nat)
    requires DistinctParticipants(ps)
    requires j < |ps| && ps[j].userId == u
    ensures IndexOf(ps, u) == Some(j)
  {
    IndexOfNone(ps, u);
  }

  /** Two participant lists hold the same users in the same places. */
  predicate SameUsers(a: seq<Participant>, b: seq<Participant>) {
    |a| == |b| && forall j :: 0 <= j < |a| ==> a[j].userId == b[j].userId
  }

  lemma SameUsersKeepWellFormed(users: map<UserId, User>, t: Session, ps: seq<Participant>)
    requires SessionWellFormed(users, t) && SameUsers(ps, t.participants)
    ensures SessionWellFormed(users, t.(participants := ps))
  {
  }

  // ---------------------------------------------------------------------------------------------
  // Creation

  /** A time the handlers treat as given: present and not 0, which JavaScript reads as false. */
  predicate Given(t: Option<int>) {
    t.Some? && t.value != 0
  }

  /** The input checks of session creation, in the handler's order; `minPlayers` defaults to 2. */
  function CreateCheck(isAdmin: bool, options: Option<seq<GameOption>>, startTime: Option<int>,
                       endVotingTime: Option<int>, minPlayers: Option<int>, now: int): (r: Reply)
    ensures r == Forbidden <==> isAdmin
    ensures r == Ok <==>
      !isAdmin && options.Some? && |options.value| >= 1 && Given(startTime) && Given(endVotingTime)
      && minPlayers.GetOr(2) >= 2 && now < endVotingTime.value < startTime.value
    ensures r in {Ok, Forbidden, BadRequest}
  {
    if isAdmin then Forbidden
    else if options.None? || |options.value| < 1 then BadRequest
    else if !Given(startTime) then BadRequest
    else if !Given(endVotingTime) then BadRequest
    else if minPlayers.GetOr(2) < 2 then BadRequest
    else if endVotingTime.value >= startTime.value then BadRequest
    else if endVotingTime.value <= now then BadRequest
    else Ok
  }

  /** A session id not handed out yet has no ledger rows: the creation bonus is never a repeat. */
  lemma FreshSessionHasNoRows(users: map<UserId, User>, ledger: seq<ScoreRow>, nextId: nat, u: UserId, reason: Reason)
    requires LedgerWellFormed(users, ledger, nextId)
    ensures !HasRow(ledger, nextId, u, reason)
  {
  }

  /**
   * `POST /api/sessions`: the session, the initiator's participation and the +2 initiation bonus.
   * The session takes id `nextId` and the bonus row the id after it.
   */
  method CreateSession(db: Database, caller: UserId, options: Option<seq<GameOption>>, startTime: Option<int>,
                       endVotingTime: Option<int>, minPlayers: Option<int>, now: int)
    returns (r: Reply)
    requires db.Valid() && caller in db.users
    modifies db
    ensures db.Valid() && OnlyGameTables(db)
    ensures r == CreateCheck(old(db.users[caller].isAdmin), options, startTime, endVotingTime, minPlayers, now)
    ensures r != Ok ==> unchanged(db)
    ensures r == Ok ==>
      var s := old(db.nextId);
      && db.sessions == old(db.sessions)[s := Session(caller, options.value, startTime.value, endVotingTime.value,
                                                     minPlayers.GetOr(2), Voting, None, [Joined(caller)])]
      && db.ledger == old(db.ledger) + [NewRow(s + 1, caller, Some(s), InitiationBonus, Initiated)]
      && db.users == Credit(old(db.users), caller, InitiationBonus)
      && db.nextId == s + 2
  {
    r := CreateCheck(db.users[caller].isAdmin, options, startTime, endVotingTime, minPlayers, now);
    if r != Ok {
      return;
    }
    FreshSessionHasNoRows(db.users, db.ledger, db.nextId, caller, Initiated);
    var s := db.NewId();
    db.PutSession(s, Session(caller, options.value, startTime.value, endVotingTime.value,
                             minPlayers.GetOr(2), Voting, None, [Joined(caller)]));
    if !HasRow(db.ledger, s, caller, Initiated) {
      db.AppendRow(NewRow(db.nextId, caller, Some(s), InitiationBonus, Initiated));
    }
  }

  // ---------------------------------------------------------------------------------------------
  // Update

  /**
   * The fields a `PUT` provides, applied without re-validation.  An absent or empty field is
   * `None`; a time or a `minPlayers` of 0 is falsy in the handler and ignored like an absent one.
   */
  function Updated(t: Session, options: Option<seq<GameOption>>, startTime: Option<int>,
                   endVotingTime: Option<int>, minPlayers: Option<int>): (u: Session)
    ensures u.initiator == t.initiator && u.status == t.status && u.finalGame == t.finalGame
    ensures u.participants == t.participants
    ensures u.options == (if options.Some? then options.value else t.options)
    ensures u.startTime == (if Given(startTime) then startTime.value else t.startTime)
    ensures u.endVotingTime == (if Given(endVotingTime) then endVotingTime.value else t.endVotingTime)
    ensures minPlayers.Some? && minPlayers.value != 0 ==> u.minPlayers == minPlayers.value
    ensures minPlayers.None? || minPlayers == Some(0) ==> u.minPlayers == t.minPlayers
    ensures options.None? && !Given(startTime) && !Given(endVotingTime) && (minPlayers.None? || minPlayers == Some(0)) ==> u == t
  {
    t.(options := if options.Some? then options.value else t.options,
       startTime := if Given(startTime) then startTime.value else t.startTime,
       endVotingTime := if Given(endVotingTime) then endVotingTime.value else t.endVotingTime,
       minPlayers := if minPlayers.Some? && minPlayers.value != 0 then minPlayers.value else t.minPlayers)
  }

  function UpdateCheck(sessions: map<SessionId, Session>, s: SessionId, caller: UserId): (r: Reply)
    ensures r == Ok <==> s in sessions && sessions[s].initiator == caller && sessions[s].status == Voting
    ensures r == NotFound <==> s !in sessions
    ensures r in {Ok, NotFound, Forbidden, BadRequest}
  {
    if s !in sessions then NotFound
    else if sessions[s].initiator != caller then Forbidden
    else if sessions[s].status != Voting then BadRequest
    else Ok
  }

  /** `PUT /api/sessions/:id`: only the initiator, only while voting. */
  method UpdateSession(db: Database, caller: UserId, s: SessionId, options: Option<seq<GameOption>>,
                       startTime: Option<int>, endVotingTime: Option<int>, minPlayers: Option<int>)
    returns (r: Reply)
    requires db.Valid() && caller in db.users
    modifies db
    ensures db.Valid() && OnlyGameTables(db)
    ensures r == UpdateCheck(old(db.sessions), s, caller)
    ensures r != Ok ==> unchanged(db)
    ensures r == Ok ==>
      db.sessions == old(db.sessions)[s := Updated(old(db.sessions[s]), options, startTime, endVotingTime, minPlayers)]
      && db.users == old(db.users) && db.ledger == old(db.ledger) && db.nextId == old(db.nextId)
  {
    r := UpdateCheck(db.sessions, s, caller);
    if r == Ok {
      var t := Updated(db.sessions[s], options, startTime, endVotingTime, minPlayers);
      db.PutSession(s, t);
    }
  }

  /** The update re-checks none of the creation rules: a session can end up with one player and a deadline after its start. */
  lemma UpdateSkipsCreationRules(t: Session)
    requires t.startTime > 0
    ensures var u := Updated(t, None, None, Some(t.startTime), Some(1));
      u.minPlayers == 1 && u.endVotingTime >= u.startTime
  {
  }

  // ---------------------------------------------------------------------------------------------
  // Deletion

  /** As written, the −2 revert of the initiation bonus is due when there is a bonus row and no revert row yet. */
  predicate RevertDue(ledger: seq<ScoreRow>, s: SessionId, initiator: UserId) {
    !HasRow(ledger, s, initiator, InitiatedRevert) && HasRow(ledger, s, initiator, Initiated)
  }

  function DeleteCheck(sessions: map<SessionId, Session>, s: SessionId, caller: UserId, isAdmin: bool): (r: Reply)
    ensures r == Ok <==> s in sessions && (sessions[s].initiator == caller || isAdmin)
    ensures r == NotFound <==> s !in sessions
    ensures r in {Ok, NotFound, Forbidden}
  {
    if s !in sessions then NotFound
    else if sessions[s].initiator != caller && !isAdmin then Forbidden
    else Ok
  }

  /**
   * `DELETE /api/sessions/:id` as written: revert the initiation bonus once, then delete the
   * session's participations, every ledger row of the session and the session.  The notification
   * built afterwards reads the first game option, which throws for an empty option list.  The
   * rows purged include settlement and late-excuse rows whose RP stays, so the ledger invariant
   * is not kept; only well-formedness is.
   */
  method DeleteSessionAsWritten(db: Database, caller: UserId, s: SessionId) returns (r: Reply)
    requires db.Valid() && caller in db.users
    modifies db
    ensures WellFormed(db.users, db.sessions, db.ledger, db.nextId) && OnlyGameTables(db)
    ensures var c := DeleteCheck(old(db.sessions), s, caller, old(db.users[caller].isAdmin));
      && (c != Ok ==> r == c && unchanged(db))
      && (c == Ok ==>
            var t := old(db.sessions[s]);
            var due := RevertDue(old(db.ledger), s, t.initiator);
            && r == (if t.options == [] then ServerError else Ok)
            && db.sessions == old(db.sessions) - {s}
            && db.ledger == Purged(old(db.ledger), s)
            && db.users == (if due then Credit(old(db.users), t.initiator, -InitiationBonus) else old(db.users))
            && db.nextId == old(db.nextId) + (if due then 1 else 0))
  {
    r := DeleteCheck(db.sessions, s, caller, db.users[caller].isAdmin);
    if r != Ok {
      return;
    }
    var t := db.sessions[s];
    ghost var ledger0 := db.ledger;
    RevertInitiation(db, s, t.initiator);
    PurgedSkipsOwnRows(ledger0, db.ledger[|ledger0|..], s);
    assert db.ledger == ledger0 + db.ledger[|ledger0|..];
    RemoveSessionKeepsWellFormed(db.users, db.sessions, db.ledger, db.nextId, s);
    db.sessions, db.ledger := db.sessions - {s}, Purged(db.ledger, s);
    if t.options == [] {
      r := ServerError;
    }
  }

  /** The first step of deletion as written: the −2 revert of the initiation bonus, when it is due. */
  method RevertInitiation(db: Database, s: SessionId, initiator: UserId)
    requires db.Valid() && initiator in db.users && s < db.nextId
    modifies db
    ensures db.Valid() && OnlyGameTables(db) && db.sessions == old(db.sessions)
    ensures var due := RevertDue(old(db.ledger), s, initiator);
      && db.ledger == old(db.ledger) + (if due then [NewRow(old(db.nextId), initiator, Some(s), -InitiationBonus, InitiatedRevert)] else [])
      && db.users == (if due then Credit(old(db.users), initiator, -InitiationBonus) else old(db.users))
      && db.nextId == old(db.nextId) + (if due then 1 else 0)
  {
    if !HasRow(db.ledger, s, initiator, InitiatedRevert) {
      if HasRow(db.ledger, s, initiator, Initiated) {
        db.AppendRow(NewRow(db.nextId, initiator, Some(s), -InitiationBonus, InitiatedRevert));
      }
    }
  }

  /** Purging a session's rows drops any rows of that session appended at the end. */
  lemma {:induction false} PurgedSkipsOwnRows(ledger: seq<ScoreRow>, rows: seq<ScoreRow>, s: SessionId)
    requires forall k :: 0 <= k < |rows| ==> OfSession(rows[k], s)
    ensures Purged(ledger + rows, s) == Purged(ledger, s)
    decreases |rows|
  {
    if rows != [] {
      var n := |rows| - 1;
      var all := ledger + rows;
      assert all[..|all| - 1] == ledger + rows[..n];
      assert all[|all| - 1] == rows[n];
      PurgedSkipsOwnRows(ledger, rows[..n], s);
      assert Purged(all, s) == Purged(ledger + rows[..n], s);
    } else {
      assert ledger + rows == ledger;
    }
  }

  /** Removing a session together with its ledger rows keeps the database well-formed. */
  lemma RemoveSessionKeepsWellFormed(users: map<UserId, User>, sessions: map<SessionId, Session>, ledger: seq<ScoreRow>,
                                     nextId: nat, s: SessionId)
    requires WellFormed(users, sessions, ledger, nextId)
    ensures WellFormed(users, sessions - {s}, Purged(ledger, s), nextId)
  {
    PurgedKeepsLedgerWellFormed(users, ledger, nextId, s);
  }

  lemma {:induction false} PurgedKeepsLedgerWellFormed(users: map<UserId, User>, ledger: seq<ScoreRow>, nextId: nat, s: SessionId)
    requires LedgerWellFormed(users, ledger, nextId)
    ensures LedgerWellFormed(users, Purged(ledger, s), nextId)
    decreases |ledger|
  {
    if ledger != [] {
      var n := |ledger| - 1;
      PurgedKeepsLedgerWellFormed(users, ledger[..n], nextId, s);
      PurgedIdsBelow(ledger[..n], s, ledger[n].id);
      if !OfSession(ledger[n], s) {
        assert Purged(ledger, s) == Purged(ledger[..n], s) + [ledger[n]];
      } else {
        assert Purged(ledger, s) == Purged(ledger[..n], s) + [];
      }
    }
  }

  /** Every row left by a purge comes from the ledger, so in increasing order its ids stay below a later id. */
  lemma {:induction false} PurgedIdsBelow(ledger: seq<ScoreRow>, s: SessionId, bound: nat)
    requires forall i :: 0 <= i < |ledger| ==> ledger[i].id < bound
    ensures forall i :: 0 <= i < |Purged(ledger, s)| ==> Purged(ledger, s)[i].id < bound
    decreases |ledger|
  {
    if ledger != [] {
      var n := |ledger| - 1;
      PurgedIdsBelow(ledger[..n], s, bound);
      if !OfSession(ledger[n], s) {
        assert Purged(ledger, s) == Purged(ledger[..n], s) + [ledger[n]];
      } else {
        assert Purged(ledger, s) == Purged(ledger[..n], s) + [];
      }
    }
  }

  /**
   * A settled session of one player who attended: the deletion reverts the +2 bonus but purges
   * the +5 row too, so the RP keeps 5 points the ledger no longer explains.
   */
  lemma DeleteAsWrittenLosesLedgerRows()
    ensures var users := map[0 := User("ann", "Ann", "pw", InitialRp + 7, false, None)];
      var ledger := [NewRow(2, 0, Some(1), InitiationBonus, Initiated), NewRow(3, 0, Some(1), AttendedPoints, Attended)];
      && Reconciled(users, ledger)
      && RevertDue(ledger, 1, 0)
      && !Reconciled(Credit(users, 0, -InitiationBonus), Purged(ledger, 1))
  {
    var users := map[0 := User("ann", "Ann", "pw", InitialRp + 7, false, None)];
    var ledger := [NewRow(2, 0, Some(1), InitiationBonus, Initiated), NewRow(3, 0, Some(1), AttendedPoints, Attended)];
    assert ledger[..1] == [ledger[0]];
    assert ledger[..1][..0] == [];
    assert Contribution(ledger[..1], 0) == 2;
    assert Contribution(ledger, 0) == 7;
    assert HasRow(ledger, 1, 0, Initiated) by {
      assert ledger[0].reason == Initiated;
    }
    assert Purged(ledger[..1], 1) == Purged([], 1) + [];
    assert Purged(ledger, 1) == [];
    assert Contribution(Purged(ledger, 1), 0) == 0;
    assert Credit(users, 0, -InitiationBonus)[0].rp == InitialRp + 5;
    assert Credit(users, 0, -InitiationBonus)[0].rp != InitialRp + Contribution(Purged(ledger, 1), 0);
  }

  /** The users' accounts once session `s` is gone: every user loses exactly what the session's rows gave. */
  function WithoutSession(users: map<UserId, User>, ledger: seq<ScoreRow>, s: SessionId): (r: map<UserId, User>)
    ensures r.Keys == users.Keys
  {
    map u | u in users :: users[u].(rp := users[u].rp - SessionContribution(ledger, s, u))
  }

  /** Purging a session's rows together with their effect keeps RP and ledger in step. */
  lemma DeleteKeepsReconciled(users: map<UserId, User>, ledger: seq<ScoreRow>, s: SessionId)
    requires Reconciled(users, ledger)
    ensures Reconciled(WithoutSession(users, ledger, s), Purged(ledger, s))
  {
    forall u | u in users
      ensures WithoutSession(users, ledger, s)[u].rp == InitialRp + Contribution(Purged(ledger, s), u)
    {
      PurgedContribution(ledger, s, u);
    }
  }

  /**
   * `DELETE /api/sessions/:id` with the ledger invariant kept: the session's rows are purged and
   * every user's RP loses what those rows gave, which for the initiator includes the +2 bonus.
   */
  method DeleteSession(db: Database, caller: UserId, s: SessionId) returns (r: Reply)
    requires db.Valid() && caller in db.users
    modifies db
    ensures db.Valid() && OnlyGameTables(db)
    ensures var c := DeleteCheck(old(db.sessions), s, caller, old(db.users[caller].isAdmin));
      && (c != Ok ==> r == c && unchanged(db))
      && (c == Ok ==>
            && r == (if old(db.sessions[s].options) == [] then ServerError else Ok)
            && db.sessions == old(db.sessions) - {s}
            && db.ledger == Purged(old(db.ledger), s)
            && db.users == WithoutSession(old(db.users), old(db.ledger), s)
            && db.nextId == old(db.nextId))
  {
    r := DeleteCheck(db.sessions, s, caller, db.users[caller].isAdmin);
    if r != Ok {
      return;
    }
    var t := db.sessions[s];
    var users := WithoutSession(db.users, db.ledger, s);
    DeleteKeepsReconciled(db.users, db.ledger, s);
    RemoveSessionKeepsWellFormed(db.users, db.sessions, db.ledger, db.nextId, s);
    WellFormedSameUsers(db.users, users, db.sessions - {s}, Purged(db.ledger, s), db.nextId);
    db.users, db.sessions, db.ledger := users, db.sessions - {s}, Purged(db.ledger, s);
    if t.options == [] {
      r := ServerError;
    }
  }

  // ---------------------------------------------------------------------------------------------
  // Voting

  /** The participant `u` has a row and is excused. */
  predicate IsExcused(ps: seq<Participant>, u: UserId) {
    IndexOf(ps, u).Some? && ps[IndexOf(ps, u).value].excused
  }

  /** The checks of a vote, in the handler's order. */
  function VoteCheck(isAdmin: bool, sessions: map<SessionId, Session>, s: SessionId, caller: UserId,
                     gameIndex: int, now: int): (r: Reply)
    ensures r == Forbidden <==> isAdmin
    ensures r == NotFound <==> !isAdmin && gameIndex >= 0 && s !in sessions
    ensures r == Ok <==>
      !isAdmin && s in sessions && 0 <= gameIndex < |sessions[s].options| && sessions[s].status == Voting
      && now <= sessions[s].endVotingTime && !IsExcused(sessions[s].participants, caller)
    ensures r in {Ok, Forbidden, NotFound, BadRequest}
  {
    if isAdmin then Forbidden
    else if gameIndex < 0 then BadRequest
    else if s !in sessions then NotFound
    else if gameIndex >= |sessions[s].options| then BadRequest
    else if sessions[s].status != Voting then BadRequest
    else if now > sessions[s].endVotingTime then BadRequest
    else if IsExcused(sessions[s].participants, caller) then BadRequest
    else Ok
  }

  /** The participation rows after `u` votes for `gameIndex`: created if absent, the ranking overwritten. */
  function CastVote(ps: seq<Participant>, u: UserId, gameIndex: int, now: int): (r: seq<Participant>)
    ensures |r| == |ps| + (if IndexOf(ps, u).None? then 1 else 0)
    ensures forall j :: 0 <= j < |ps| && ps[j].userId != u ==> r[j] == ps[j]
    ensures exists j :: 0 <= j < |r| && r[j].userId == u && r[j].vote == Some(gameIndex) && r[j].votedAt == Some(now)
    ensures forall j :: 0 <= j < |r| ==> r[j].userId == u || (j < |ps| && r[j] == ps[j])
  {
    match IndexOf(ps, u)
    case Some(i) =>
      var r := ps[i := ps[i].(vote := Some(gameIndex), votedAt := Some(now))];
      assert r[i].userId == u && r[i].vote == Some(gameIndex) && r[i].votedAt == Some(now);
      r
    case None =>
      var r := ps + [Joined(u).(vote := Some(gameIndex), votedAt := Some(now))];
      assert r[|ps|].userId == u;
      r
  }

  /**
   * On a list with one row per user, a vote keeps one row per user, and the voter's row then holds
   * the vote, with the excuse status it had before.
   */
  lemma CastVoteKeepsDistinct(ps: seq<Participant>, u: UserId, gameIndex: int, now: int)
    requires DistinctParticipants(ps)
    ensures var r := CastVote(ps, u, gameIndex, now);
      DistinctParticipants(r) && IndexOf(r, u).Some?
      && var p := r[IndexOf(r, u).value];
      p.vote == Some(gameIndex) && p.votedAt == Some(now) && p.excused == IsExcused(ps, u)
  {
    var r := CastVote(ps, u, gameIndex, now);
    IndexOfNone(ps, u);
    match IndexOf(ps, u)
    case Some(i) =>
      assert forall j :: 0 <= j < |r| ==> r[j].userId == ps[j].userId;
      IndexOfUnique(r, u, i);
    case None =>
      assert r[|ps|].userId == u;
      IndexOfUnique(r, u, |ps|);
  }

  /** `POST /api/sessions/:id/vote`: a single-choice vote stored as the one-element ranking `[gameIndex]`. */
  method Vote(db: Database, caller: UserId, s: SessionId, gameIndex: int, now: int) returns (r: Reply)
    requires db.Valid() && caller in db.users
    modifies db
    ensures db.Valid() && OnlyGameTables(db)
    ensures r == VoteCheck(old(db.users[caller].isAdmin), old(db.sessions), s, caller, gameIndex, now)
    ensures r != Ok ==> unchanged(db)
    ensures r == Ok ==>
      db.sessions == old(db.sessions)[s := old(db.sessions[s]).(participants := CastVote(old(db.sessions[s].participants), caller, gameIndex, now))]
      && db.users == old(db.users) && db.ledger == old(db.ledger) && db.nextId == old(db.nextId)
  {
    r := VoteCheck(db.users[caller].isAdmin, db.sessions, s, caller, gameIndex, now);
    if r == Ok {
      var t := db.sessions[s];
      var t' := t.(participants := CastVote(t.participants, caller, gameIndex, now));
      CastVoteKeepsDistinct(t.participants, caller, gameIndex, now);
      db.PutSession(s, t');
    }
  }

  /** A later vote replaces an earlier one: the last vote is the one that counts. */
  lemma LastVoteCounts(ps: seq<Participant>, u: UserId, first: int, second: int, t1: int, t2: int)
    requires DistinctParticipants(ps)
    ensures var r := CastVote(CastVote(ps, u, first, t1), u, second, t2);
      IndexOf(r, u).Some? && r[IndexOf(r, u).value].vote == Some(second)
  {
    CastVoteKeepsDistinct(ps, u, first, t1);
    CastVoteKeepsDistinct(CastVote(ps, u, first, t1), u, second, t2);
  }

  // ---------------------------------------------------------------------------------------------
  // Excuses

  /** An excuse is late when the session starts in less than two hours; exactly two hours is on time. */
  predicate IsLate(startTime: int, now: int) {
    startTime - now < TwoHoursMs
  }

  /** The checks of an excuse, in the handler's order. */
  function ExcuseCheck(isAdmin: bool, sessions: map<SessionId, Session>, s: SessionId, caller: UserId, now: int): (r: Reply)
    ensures isAdmin ==> r == Forbidden
    ensures !isAdmin && s !in sessions ==> r == NotFound
    ensures !isAdmin && s in sessions && sessions[s].status != Voting ==> r == BadRequest
    ensures !isAdmin && s in sessions && sessions[s].status == Voting && sessions[s].initiator == caller ==> r == Forbidden
    ensures r == Ok <==>
      !isAdmin && s in sessions && sessions[s].status == Voting && sessions[s].initiator != caller
      && now < sessions[s].startTime
      && IndexOf(sessions[s].participants, caller).Some?
      && var p := sessions[s].participants[IndexOf(sessions[s].participants, caller).value];
      !p.excused && !(p.vote.Some? && IsLate(sessions[s].startTime, now))
  {
    if isAdmin then Forbidden
    else if s !in sessions then NotFound
    else if sessions[s].status != Voting then BadRequest
    else if sessions[s].initiator == caller then Forbidden
    else if sessions[s].startTime - now <= 0 then BadRequest
    else match IndexOf(sessions[s].participants, caller)
      case None => BadRequest
      case Some(i) =>
        var p := sessions[s].participants[i];
        if p.excused then BadRequest
        else if p.vote.Some? && IsLate(sessions[s].startTime, now) then Forbidden
        else Ok
  }

  /** `reason || '临时有事'`. */
  function ExcuseText(reason: Option<string>): (text: string)
    ensures text != []
    ensures reason.Some? && reason.value != [] ==> text == reason.value
  {
    if reason.Some? && reason.value != [] then reason.value else DefaultExcuse
  }

  /**
   * `POST /api/sessions/:id/excuse`.  A late excuse costs 2 points at once, with a `late_excuse`
   * row; an on-time one writes no row.  The notification afterwards reads the first game option,
   * which throws for an empty option list, after the changes are made.
   */
  method Excuse(db: Database, caller: UserId, s: SessionId, reason: Option<string>, now: int) returns (r: Reply)
    requires db.Valid() && caller in db.users
    modifies db
    ensures db.Valid() && OnlyGameTables(db)
    ensures var c := ExcuseCheck(old(db.users[caller].isAdmin), old(db.sessions), s, caller, now);
      && (c != Ok ==> r == c && unchanged(db))
      && (c == Ok ==>
            var t := old(db.sessions[s]);
            var i := IndexOf(t.participants, caller).value;
            var late := IsLate(t.startTime, now);
            && r == (if t.options == [] then ServerError else Ok)
            && db.sessions == old(db.sessions)[s := t.(participants := t.participants[i := t.participants[i].(
                 excused := true, excusedAt := Some(now), excuseReason := Some(ExcuseText(reason)))])]
            && db.ledger == old(db.ledger) + (if late then [NewRow(old(db.nextId), caller, Some(s), LateExcusePenalty, LateExcuse)] else [])
            && db.users == (if late then Credit(old(db.users), caller, LateExcusePenalty) else old(db.users))
            && db.nextId == old(db.nextId) + (if late then 1 else 0))
  {
    r := ExcuseCheck(db.users[caller].isAdmin, db.sessions, s, caller, now);
    if r != Ok {
      return;
    }
    var t := db.sessions[s];
    var i := IndexOf(t.participants, caller).value;
    var ps := t.participants[i := t.participants[i].(excused := true, excusedAt := Some(now), excuseReason := Some(ExcuseText(reason)))];
    SameUsersKeepWellFormed(db.users, t, ps);
    db.PutSession(s, t.(participants := ps));
    if IsLate(t.startTime, now) {
      db.AppendRow(NewRow(db.nextId, caller, Some(s), LateExcusePenalty, LateExcuse));
    } else {
      assert db.ledger + [] == db.ledger;
    }
    if t.options == [] {
      r := ServerError;
    }
  }

  /** Exactly two hours before the start is on time, one millisecond later is late. */
  lemma TwoHourBoundary(startTime: int)
    ensures !IsLate(startTime, startTime - TwoHoursMs)
    ensures IsLate(startTime, startTime - TwoHoursMs + 1)
  {
  }

  // ---------------------------------------------------------------------------------------------
  // Settlement and cancellation

  datatype Attendance = Attendance(userId: UserId, isPresent: bool)

  /** The scoring of one attendance entry: points, ledger reason and the behaviour badge it unlocks. */
  datatype Outcome = Outcome(delta: int, reason: Reason, badge: string)

  /** The points of each settlement reason. */
  function Points(reason: Reason): int {
    match reason
    case Excused => 0
    case Attended => AttendedPoints
    case NoShow => NoShowPoints
    case _ => 0
  }

  /**
   * The scoring table.  An excused participant scores 0, with the `excused` badge when the excuse
   * came at least two hours before the start (a missing excuse time reads as now) and the
   * `late_excuse` badge otherwise; a present one +5; anyone else −20.
   */
  function Scoring(p: Participant, isPresent: bool, startTime: int, now: int): (o: Outcome)
    ensures o.delta == Points(o.reason)
    ensures o.reason == Excused <==> p.excused
    ensures o.reason == Attended <==> !p.excused && isPresent
    ensures o.reason == NoShow <==> !p.excused && !isPresent
    ensures p.excused ==> (o.badge == "excused" <==> !IsLate(startTime, p.excusedAt.GetOr(now)))
    ensures p.excused ==> (o.badge == "late_excuse" <==> IsLate(startTime, p.excusedAt.GetOr(now)))
  {
    if p.excused then
      Outcome(0, Excused, if startTime - p.excusedAt.GetOr(now) >= TwoHoursMs then "excused" else "late_excuse")
    else if isPresent then Outcome(AttendedPoints, Attended, "attended")
    else Outcome(NoShowPoints, NoShow, "no_show")
  }

  /** The number of entries marked present, duplicates and non-participants included. */
  function PresentCount(atts: seq<Attendance>): (n: nat)
    ensures n <= |atts|
  {
    if atts == [] then 0
    else PresentCount(atts[..|atts| - 1]) + (if atts[|atts| - 1].isPresent then 1 else 0)
  }

  /** `PresentCount` is the number of positions whose entry is marked present. */
  lemma {:induction false} PresentCountCounts(atts: seq<Attendance>)
    ensures PresentCount(atts) == |set k | 0 <= k < |atts| && atts[k].isPresent|
  {
    if atts != [] {
      var m := |atts| - 1;
      var init := atts[..m];
      PresentCountCounts(init);
      var before := set k | 0 <= k < m && init[k].isPresent;
      var after := set k | 0 <= k < |atts| && atts[k].isPresent;
      assert before == set k | 0 <= k < m && atts[k].isPresent;
      if atts[m].isPresent {
        assert after == before + {m};
      } else {
        assert after == before;
      }
    }
  }

  /** Every participant has an attendance entry. */
  predicate Covered(ps: seq<Participant>, atts: seq<Attendance>) {
    forall j :: 0 <= j < |ps| ==> exists k :: 0 <= k < |atts| && atts[k].userId == ps[j].userId
  }

  /** The checks of settlement (`settle`) or cancellation, in the handlers' order. */
  function ConcludeCheck(sessions: map<SessionId, Session>, s: SessionId, caller: UserId,
                         attendances: Option<seq<Attendance>>, settle: bool): (r: Reply)
    ensures r == Ok <==>
      attendances.Some? && s in sessions && sessions[s].initiator == caller && sessions[s].options != []
      && sessions[s].status == Voting && Covered(sessions[s].participants, attendances.value)
      && |sessions[s].participants| >= 2
      && (settle ==> PresentCount(attendances.value) >= sessions[s].minPlayers)
    ensures (attendances.Some? && s in sessions && sessions[s].initiator == caller && sessions[s].options != []
             && sessions[s].status != Voting) ==> r == BadRequest
  {
    if attendances.None? then BadRequest
    else if s !in sessions then NotFound
    else if sessions[s].initiator != caller then Forbidden
    else if sessions[s].options == [] then ServerError
    else if sessions[s].status != Voting then BadRequest
    else if !Covered(sessions[s].participants, attendances.value) then BadRequest
    else if |sessions[s].participants| < 2 then BadRequest
    else if settle && PresentCount(attendances.value) < sessions[s].minPlayers then BadRequest
    else Ok
  }

  /** The first attendance entry without a participation row: the update for it throws. */
  function FirstUnknown(ps: seq<Participant>, atts: seq<Attendance>): (r: Option<nat>)
    ensures r.Some? ==> r.value < |atts| && IndexOf(ps, atts[r.value].userId).None?
    ensures r.Some? ==> forall k :: 0 <= k < r.value ==> IndexOf(ps, atts[k].userId).Some?
    ensures r.None? <==> forall k :: 0 <= k < |atts| ==> IndexOf(ps, atts[k].userId).Some?
    decreases |atts|
  {
    if atts == [] then None
    else if IndexOf(ps, atts[0].userId).None? then Some(0)
    else match FirstUnknown(ps, atts[1..])
      case None => None
      case Some(k) => Some(k + 1)
  }

  /** Records one attendance entry on its participant's row. */
  function Mark(ps: seq<Participant>, a: Attendance, settler: UserId, now: int): (r: seq<Participant>)
    requires IndexOf(ps, a.userId).Some?
    ensures SameUsers(r, ps)
    ensures forall j :: 0 <= j < |ps| && j != IndexOf(ps, a.userId).value ==> r[j] == ps[j]
    ensures var i := IndexOf(ps, a.userId).value;
      r[i] == ps[i].(present := Some(a.isPresent), settledBy := Some(settler), settledAt := Some(now))
  {
    var i := IndexOf(ps, a.userId).value;
    ps[i := ps[i].(present := Some(a.isPresent), settledBy := Some(settler), settledAt := Some(now))]
  }

  lemma SameUsersIndexOf(a: seq<Participant>, b: seq<Participant>, u: UserId)
    requires SameUsers(a, b)
    ensures IndexOf(a, u) == IndexOf(b, u)
  {
    SameUsersIndexFrom(a, b, u, 0);
  }

  lemma {:induction false} SameUsersIndexFrom(a: seq<Participant>, b: seq<Participant>, u: UserId, i: nat)
    requires SameUsers(a, b) && i <= |a|
    ensures IndexFrom(a, u, i) == IndexFrom(b, u, i)
    decreases |a| - i
  {
    if i < |a| {
      SameUsersIndexFrom(a, b, u, i + 1);
    }
  }

  /**
   * The first `n` attendance entries recorded in order; with duplicates, the last entry for a
   * user wins.
   */
  function MarkAll(ps: seq<Participant>, atts: seq<Attendance>, n: nat, settler: UserId, now: int): (r: seq<Participant>)
    requires n <= |atts|
    requires forall k :: 0 <= k < n ==> IndexOf(ps, atts[k].userId).Some?
    ensures SameUsers(r, ps)
  {
    if n == 0 then ps
    else
      var prev := MarkAll(ps, atts, n - 1, settler, now);
      SameUsersIndexOf(prev, ps, atts[n - 1].userId);
      Mark(prev, atts[n - 1], settler, now)
  }

  /** The position of the last of the first `n` attendance entries for user `u`, if any. */
  function LastEntry(atts: seq<Attendance>, n: nat, u: UserId): (k: Option<nat>)
    requires n <= |atts|
    ensures k.Some? ==> k.value < n && atts[k.value].userId == u
    ensures k.Some? ==> forall m :: k.value < m < n ==> atts[m].userId != u
    ensures k.None? <==> forall m :: 0 <= m < n ==> atts[m].userId != u
  {
    if n == 0 then None
    else if atts[n - 1].userId == u then Some(n - 1)
    else LastEntry(atts, n - 1, u)
  }

  /**
   * What `MarkAll` records on row `j`: nothing when no entry names its user (or when an earlier row
   * of the same user takes the updates); otherwise the presence of the user's last entry, the
   * settler and the time.
   */
  lemma {:induction false} MarkAllRecords(ps: seq<Participant>, atts: seq<Attendance>, n: nat, settler: UserId,
                                          now: int, j: nat)
    requires n <= |atts|
    requires forall k :: 0 <= k < n ==> IndexOf(ps, atts[k].userId).Some?
    requires j < |ps|
    ensures var r, last := MarkAll(ps, atts, n, settler, now), LastEntry(atts, n, ps[j].userId);
      |r| == |ps|
      && (last.None? || IndexOf(ps, ps[j].userId) != Some(j) ==> r[j] == ps[j])
      && (last.Some? && IndexOf(ps, ps[j].userId) == Some(j) ==>
            r[j] == ps[j].(present := Some(atts[last.value].isPresent), settledBy := Some(settler), settledAt := Some(now)))
  {
    if n > 0 {
      MarkAllRecords(ps, atts, n - 1, settler, now, j);
      var prev := MarkAll(ps, atts, n - 1, settler, now);
      SameUsersIndexOf(prev, ps, atts[n - 1].userId);
    }
  }

  /**
   * The ledger rows of the scoring loop over the first `n` attendance entries, numbered from
   * `firstId`: one per entry whose user has a participation row (read from the rows as they were
   * before marking), in order.
   */
  function SettlementRows(ps: seq<Participant>, atts: seq<Attendance>, n: nat, startTime: int, now: int,
                          s: SessionId, firstId: nat): (rows: seq<ScoreRow>)
    requires n <= |atts|
    ensures |rows| <= n
  {
    if n == 0 then []
    else
      var prev := SettlementRows(ps, atts, n - 1, startTime, now, s, firstId);
      var a := atts[n - 1];
      match IndexOf(ps, a.userId)
      case None => prev
      case Some(i) =>
        var o := Scoring(ps[i], a.isPresent, startTime, now);
        prev + [NewRow(firstId + |prev|, a.userId, Some(s), o.delta, o.reason)]
  }

  /**
   * When every entry has a participation row, the settlement rows are exactly one per entry, in
   * order, numbered from `firstId`, each scored by the table for that entry's participant.
   */
  lemma {:induction false} SettlementRowsPointwise(ps: seq<Participant>, atts: seq<Attendance>, n: nat,
                                                   startTime: int, now: int, s: SessionId, firstId: nat)
    requires n <= |atts|
    requires forall k :: 0 <= k < n ==> IndexOf(ps, atts[k].userId).Some?
    ensures var rows := SettlementRows(ps, atts, n, startTime, now, s, firstId);
      |rows| == n
      && forall k :: 0 <= k < n ==>
        var o := Scoring(ps[IndexOf(ps, atts[k].userId).value], atts[k].isPresent, startTime, now);
        rows[k] == NewRow(firstId + k, atts[k].userId, Some(s), o.delta, o.reason)
  {
    if n != 0 {
      SettlementRowsPointwise(ps, atts, n - 1, startTime, now, s, firstId);
      var prev := SettlementRows(ps, atts, n - 1, startTime, now, s, firstId);
      var rows := SettlementRows(ps, atts, n, startTime, now, s, firstId);
      assert forall k :: 0 <= k < n - 1 ==> rows[k] == prev[k];
    }
  }

  /**
   * What settlement or cancellation of `s`, whose row was `t`, leaves behind once its checks
   * pass.  At the first attendance entry without a participation row the first loop throws: the
   * entries before it stay recorded and nothing else changes.  Otherwise the settlement is
   * `Completed`.
   */
  twostate predicate Concluded(db: Database, s: SessionId, t: Session, atts: seq<Attendance>, settler: UserId,
                               now: int, settle: bool, name: string, r: Reply)
    reads db
  {
    match FirstUnknown(t.participants, atts)
    case Some(k) =>
      && r == ServerError
      && db.sessions == old(db.sessions)[s := t.(participants := MarkAll(t.participants, atts, k, settler, now))]
      && db.users == old(db.users) && db.ledger == old(db.ledger) && db.nextId == old(db.nextId)
    case None =>
      r == Ok && Completed(db, s, t, atts, settler, now, settle, name)
  }

  /**
   * A completed settlement: every entry is recorded, one scored ledger row per entry is appended
   * and credited, and the session becomes settled or cancelled with `name` as its final game.
   */
  twostate predicate Completed(db: Database, s: SessionId, t: Session, atts: seq<Attendance>, settler: UserId,
                               now: int, settle: bool, name: string)
    reads db
  {
    && FirstUnknown(t.participants, atts).None?
    && var rows := SettlementRows(t.participants, atts, |atts|, t.startTime, now, s, old(db.nextId));
      && db.sessions == old(db.sessions)[s := t.(participants := MarkAll(t.participants, atts, |atts|, settler, now),
                                                 status := if settle then Settled else Cancelled,
                                                 finalGame := Some(name))]
      && (forall k :: 0 <= k < |rows| ==> rows[k].userId in old(db.users))
      && db.ledger == old(db.ledger) + rows
      && db.users == CreditRows(old(db.users), rows)
      && db.nextId == old(db.nextId) + |atts|
  }

  /**
   * Settlement (`settle`) and cancellation, which share their code.  The winner is computed
   * before the status check, so a session without options fails with no change.  The first loop
   * records every attendance entry, and throws at an entry that has no participation row, keeping
   * the entries recorded before it.  The second loop appends one scored ledger row per entry and
   * raises the user's RP by the row's delta; duplicates are scored once per entry.  The session then
   * becomes settled or cancelled with the first-best option as its final game.
   */
  method Conclude(db: Database, caller: UserId, s: SessionId, attendances: Option<seq<Attendance>>,
                  settle: bool, now: int) returns (r: Reply)
    requires db.Valid() && caller in db.users
    modifies db
    ensures db.Valid() && OnlyGameTables(db)
    ensures var c := ConcludeCheck(old(db.sessions), s, caller, attendances, settle);
      && (c != Ok ==> r == c && unchanged(db))
      && (c == Ok ==>
            var t := old(db.sessions[s]);
            exists w :: Voting.IsFirstBest(|t.options|, t.participants, t.initiator, w)
              && Concluded(db, s, t, attendances.value, caller, now, settle, GameName(t.options[w]), r))
  {
    if attendances.None? {
      return BadRequest;
    }
    if s !in db.sessions {
      return NotFound;
    }
    var t := db.sessions[s];
    if t.initiator != caller {
      return Forbidden;
    }
    var result := Voting.CalculateVotingResult(t.options, t.participants, t.initiator);
    if result.None? {
      return ServerError;
    }
    r := ConcludeCheck(db.sessions, s, caller, attendances, settle);
    if r != Ok {
      return;
    }
    r := Record(db, s, attendances.value, caller, now, settle, result.value.name);
    assert Voting.IsFirstBest(|t.options|, t.participants, t.initiator, result.value.index);
  }

  /** The two loops of settlement and the final status, once the checks have passed. */
  method Record(db: Database, s: SessionId, atts: seq<Attendance>, settler: UserId, now: int, settle: bool, name: string)
    returns (r: Reply)
    requires db.Valid() && s in db.sessions
    modifies db
    ensures db.Valid() && OnlyGameTables(db)
    ensures Concluded(db, s, old(db.sessions[s]), atts, settler, now, settle, name, r)
  {
    var t := db.sessions[s];
    var marked, unknown := MarkLoop(t.participants, atts, settler, now);
    if unknown.Some? {
      SameUsersKeepWellFormed(db.users, t, marked);
      db.PutSession(s, t.(participants := marked));
      return ServerError;
    }
    Complete(db, s, t, marked, atts, settler, now, settle, name);
    r := Ok;
  }

  /** Settlement once every entry has been recorded in `marked`: the scoring loop, then the final status. */
  method Complete(db: Database, s: SessionId, t: Session, marked: seq<Participant>, atts: seq<Attendance>,
                  settler: UserId, now: int, settle: bool, name: string)
    requires db.Valid() && s in db.sessions && db.sessions[s] == t
    requires FirstUnknown(t.participants, atts).None?
    requires marked == MarkAll(t.participants, atts, |atts|, settler, now)
    modifies db
    ensures db.Valid() && OnlyGameTables(db)
    ensures Completed(db, s, t, atts, settler, now, settle, name)
  {
    ScoreAttendances(db, s, t.participants, atts, t.startTime, now);
    SettlementRowsPointwise(t.participants, atts, |atts|, t.startTime, now, s, old(db.nextId));
    SameUsersKeepWellFormed(db.users, t, marked);
    db.PutSession(s, t.(participants := marked, status := if settle then Settled else Cancelled, finalGame := Some(name)));
  }

  /**
   * The first loop of settlement: records each attendance entry on its participation row, and
   * stops at the first entry without one (the update for it throws), keeping the entries
   * recorded before it.
   */
  method MarkLoop(ps0: seq<Participant>, atts: seq<Attendance>, settler: UserId, now: int)
    returns (ps: seq<Participant>, unknown: Option<nat>)
    ensures unknown == FirstUnknown(ps0, atts)
    ensures var done := if unknown.Some? then unknown.value else |atts|;
      ps == MarkAll(ps0, atts, done, settler, now)
  {
    ps, unknown := ps0, None;
    var i := 0;
    while i < |atts|
      invariant 0 <= i <= |atts|
      invariant forall k :: 0 <= k < i ==> IndexOf(ps0, atts[k].userId).Some?
      invariant ps == MarkAll(ps0, atts, i, settler, now)
    {
      SameUsersIndexOf(ps, ps0, atts[i].userId);
      if IndexOf(ps, atts[i].userId).None? {
        unknown := Some(i);
        assert FirstUnknown(ps0, atts) == Some(i);
        return;
      }
      ps := Mark(ps, atts[i], settler, now);
      i := i + 1;
    }
  }

  /**
   * The second loop of settlement, on values: for each attendance entry whose user has a
   * participation row, one scored ledger row numbered from `firstId`, and that user's RP raised by
   * its delta.
   */
  method ScoreLoop(users: map<UserId, User>, ps: seq<Participant>, atts: seq<Attendance>, startTime: int, now: int,
                   s: SessionId, firstId: nat)
    returns (rows: seq<ScoreRow>, credited: map<UserId, User>)
    requires forall j :: 0 <= j < |ps| ==> ps[j].userId in users
    ensures rows == SettlementRows(ps, atts, |atts|, startTime, now, s, firstId)
    ensures forall k :: 0 <= k < |rows| ==>
      rows[k].userId in users && rows[k].id == firstId + k && !rows[k].deleted && rows[k].sessionId == Some(s)
    ensures credited == CreditRows(users, rows)
  {
    rows := [];
    var i := 0;
    while i < |atts|
      invariant 0 <= i <= |atts|
      invariant rows == SettlementRows(ps, atts, i, startTime, now, s, firstId)
    {
      var a := atts[i];
      match IndexOf(ps, a.userId) {
        case None =>
        case Some(j) =>
          var o := Scoring(ps[j], a.isPresent, startTime, now);
          rows := rows + [NewRow(firstId + |rows|, a.userId, Some(s), o.delta, o.reason)];
      }
      i := i + 1;
    }
    SettlementRowsShape(users, ps, atts, |atts|, startTime, now, s, firstId);
    credited := CreditRows(users, rows);
  }

  /** Rows that belong to users, are live rows of `s`, and are numbered from `firstId`. */
  predicate FreshRowsOf(users: map<UserId, User>, rows: seq<ScoreRow>, s: SessionId, firstId: nat) {
    forall k :: 0 <= k < |rows| ==>
      rows[k].userId in users && rows[k].id == firstId + k && !rows[k].deleted && rows[k].sessionId == Some(s)
  }

  /** Settlement rows belong to participants, are live rows of `s`, and are numbered from `firstId`. */
  lemma {:induction false} SettlementRowsShape(users: map<UserId, User>, ps: seq<Participant>, atts: seq<Attendance>,
                                               n: nat, startTime: int, now: int, s: SessionId, firstId: nat)
    requires n <= |atts|
    requires forall j :: 0 <= j < |ps| ==> ps[j].userId in users
    ensures FreshRowsOf(users, SettlementRows(ps, atts, n, startTime, now, s, firstId), s, firstId)
  {
    if n > 0 {
      SettlementRowsShape(users, ps, atts, n - 1, startTime, now, s, firstId);
      var prev := SettlementRows(ps, atts, n - 1, startTime, now, s, firstId);
      var a := atts[n - 1];
      match IndexOf(ps, a.userId) {
        case None =>
        case Some(i) =>
          var o := Scoring(ps[i], a.isPresent, startTime, now);
          var rows := prev + [NewRow(firstId + |prev|, a.userId, Some(s), o.delta, o.reason)];
          assert forall k :: 0 <= k < |prev| ==> rows[k] == prev[k];
      }
    }
  }

  /** The scoring loop's rows and credits, written to the database in one step. */
  method ScoreAttendances(db: Database, s: SessionId, ps: seq<Participant>, atts: seq<Attendance>, startTime: int, now: int)
    requires db.Valid() && s < db.nextId
    requires forall j :: 0 <= j < |ps| ==> ps[j].userId in db.users
    modifies db
    ensures db.Valid() && OnlyGameTables(db)
    ensures var rows := SettlementRows(ps, atts, |atts|, startTime, now, s, old(db.nextId));
      (forall k :: 0 <= k < |rows| ==> rows[k].userId in old(db.users))
      && db.ledger == old(db.ledger) + rows && db.users == CreditRows(old(db.users), rows)
      && db.nextId == old(db.nextId) + |rows| && db.sessions == old(db.sessions)
  {
    var rows, credited := ScoreLoop(db.users, ps, atts, startTime, now, s, db.nextId);
    AppendRowsKeepsConsistent(db.users, db.sessions, db.ledger, db.nextId, rows);
    db.ledger, db.users, db.nextId := db.ledger + rows, credited, db.nextId + |rows|;
  }

  /** `PUT /api/sessions/:id/settle`. */
  method Settle(db: Database, caller: UserId, s: SessionId, attendances: Option<seq<Attendance>>, now: int)
    returns (r: Reply)
    requires db.Valid() && caller in db.users
    modifies db
    ensures db.Valid() && OnlyGameTables(db)
    ensures r == Ok ==>
      attendances.Some? && s in old(db.sessions) && s in db.sessions
      && old(db.sessions[s].status) == Voting && PresentCount(attendances.value) >= old(db.sessions[s].minPlayers)
      && db.sessions[s].status == Settled
  {
    r := Conclude(db, caller, s, attendances, true, now);
  }

  /** `PUT /api/sessions/:id/cancel`: the same without the attendee minimum. */
  method Cancel(db: Database, caller: UserId, s: SessionId, attendances: Option<seq<Attendance>>, now: int)
    returns (r: Reply)
    requires db.Valid() && caller in db.users
    modifies db
    ensures db.Valid() && OnlyGameTables(db)
    ensures r == Ok ==>
      s in old(db.sessions) && s in db.sessions
      && old(db.sessions[s].status) == Voting && db.sessions[s].status == Cancelled
  {
    r := Conclude(db, caller, s, attendances, false, now);
  }

  /** A settled or cancelled session is final: it can no longer be settled, cancelled, updated, voted on or excused from. */
  lemma ConcludedIsFinal(sessions: map<SessionId, Session>, s: SessionId, caller: UserId, isAdmin: bool,
                         attendances: Option<seq<Attendance>>, settle: bool, gameIndex: int, now: int)
    requires s in sessions && sessions[s].status != Voting
    ensures ConcludeCheck(sessions, s, caller, attendances, settle) != Ok
    ensures UpdateCheck(sessions, s, caller) != Ok
    ensures VoteCheck(isAdmin, sessions, s, caller, gameIndex, now) != Ok
    ensures ExcuseCheck(isAdmin, sessions, s, caller, now) != Ok
  {
  }

  /** An attendance entry listed twice is scored twice: a present participant gains 10 points. */
  lemma DuplicateEntryScoredTwice(ps: seq<Participant>, a: Attendance, startTime: int, now: int, s: SessionId, firstId: nat)
    requires IndexOf(ps, a.userId).Some? && !ps[IndexOf(ps, a.userId).value].excused && a.isPresent
    ensures var rows := SettlementRows(ps, [a, a], 2, startTime, now, s, firstId);
      |rows| == 2 && Contribution(rows, a.userId) == 2 * AttendedPoints
  {
    var o := Scoring(ps[IndexOf(ps, a.userId).value], a.isPresent, startTime, now);
    var r0 := NewRow(firstId, a.userId, Some(s), o.delta, o.reason);
    var r1 := NewRow(firstId + 1, a.userId, Some(s), o.delta, o.reason);
    assert SettlementRows(ps, [a, a], 1, startTime, now, s, firstId) == [r0];
    var rows := SettlementRows(ps, [a, a], 2, startTime, now, s, firstId);
    assert rows == [r0, r1];
    assert o.reason == Attended && o.delta == AttendedPoints;
    assert rows[..1] == [r0];
    assert [r0][..0] == [];
    assert Contribution([r0], a.userId) == AttendedPoints;
  }

  /** Settlement moves each scored user's RP by exactly the deltas of that user's new rows. */
  lemma SettlementMovesRpByRows(users: map<UserId, User>, rows: seq<ScoreRow>, u: UserId)
    requires forall k :: 0 <= k < |rows| ==> rows[k].userId in users && !rows[k].deleted
    requires u in users
    ensures CreditRows(users, rows)[u].rp - users[u].rp == Contribution(rows, u)
  {
    CreditRowsRp(users, rows, u);
  }
}
