/**
 * The records of GamePact's database, as values: users with their reputation points (RP),
 * game sessions with their participants, score-ledger rows, invitations and badges.
 * Ids are natural numbers handed out by the database; times are integer milliseconds.
 */
module Entities {
  import opened Wrappers

  type UserId = nat
  type SessionId = nat
  type RowId = nat

  /** The RP of a newly registered user. */
  const InitialRp: int := 100

  /** Two hours in milliseconds: the excuse window before a session starts. */
  const TwoHoursMs: int := 2 * 60 * 60 * 1000

  /** A game option is stored either as a bare title or as an object with a name and a store link. */
  datatype GameOption = Title(title: string) | Game(name: string, link: Option<string>)

  /** `getGameName`: the string itself, or the object's `name`. */
  function GameName(o: GameOption): (name: string)
    ensures o.Title? ==> name == o.title
    ensures o.Game? ==> name == o.name
  {
    match o
    case Title(t) => t
    case Game(n, _) => n
  }

  /** The status class of a handler's answer: 200/201, 400, 403, 404 and 500. */
  datatype Reply = Ok | BadRequest | Forbidden | NotFound | ServerError

  datatype SessionStatus = Voting | Settled | Cancelled

  /**
   * A participation row.  `vote` is the first entry of the stored ranking, when one is stored
   * (the vote handler always stores a one-element ranking).
   */
  datatype Participant = Participant(
    userId: UserId,
    vote: Option<int>,
    votedAt: Option<int>,
    excused: bool,
    excusedAt: Option<int>,
    excuseReason: Option<string>,
    present: Option<bool>,
    settledBy: Option<UserId>,
    settledAt: Option<int>)

  /** The row created when a user joins a session: no vote, not excused, not yet settled. */
  function Joined(u: UserId): Participant {
    Participant(u, None, None, false, None, None, None, None, None)
  }

  datatype Session = Session(
    initiator: UserId,
    options: seq<GameOption>,
    startTime: int,
    endVotingTime: int,
    minPlayers: int,
    status: SessionStatus,
    finalGame: Option<string>,
    participants: seq<Participant>)

  datatype Reason = Initiated | InitiatedRevert | LateExcuse | Excused | Attended | NoShow | AdminAdjust

  /** A score-ledger row; `deleted` is the administrator's soft delete. */
  datatype ScoreRow = ScoreRow(
    id: RowId,
    userId: UserId,
    sessionId: Option<SessionId>,
    delta: int,
    reason: Reason,
    deleted: bool,
    deletedBy: Option<UserId>,
    deletedAt: Option<int>)

  /** A ledger row as written by a handler: not deleted. */
  function NewRow(id: RowId, u: UserId, s: Option<SessionId>, delta: int, reason: Reason): ScoreRow {
    ScoreRow(id, u, s, delta, reason, false, None, None)
  }

  /** A user; `password` stands for the stored hash (hashing is taken to be injective). */
  datatype User = User(
    username: string,
    displayName: string,
    password: string,
    rp: int,
    isAdmin: bool,
    deletedAt: Option<int>)

  datatype InviteStatus = Pending | Used | Expired | Deleted

  datatype Invitation = Invitation(
    status: InviteStatus,
    createdBy: UserId,
    expiresAt: Option<int>,
    usedBy: Option<UserId>,
    usedAt: Option<int>)

  datatype Category = Rank | Achievement | Behavior

  /** The decoded `unlockCondition` of a badge. */
  datatype Condition =
    | RankRange(minRp: Option<int>, maxRp: Option<int>)
    | ConsecutiveAttended(count: int)
    | AttendedSessions(count: int)
    | InitiatedSessions(count: int)
    | FirstAttended
    | FirstInitiated
    | RpBelow(threshold: int)
    | Comeback(from: int, to: int)
    | CausedCancellation(count: int)
    | OtherCondition

  datatype Badge = Badge(category: Category, condition: Condition)
}
