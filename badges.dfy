/**
 * The badge rules: the rank badge a user's RP selects, the unlock of a behaviour badge, and the
 * achievement check run after a settlement, with its condition switch.  Times of day are integer
 * day numbers.
 */
module Badges {
  import opened Wrappers
  import opened Entities
  import opened Store

  // ---------------------------------------------------------------------------------------------
  // Rank selection

  /** A rank badge as returned by the database: its code and the bounds of its unlock condition. */
  datatype RankBadge = RankBadge(code: string, minRp: Option<int>, maxRp: Option<int>)

  /** The badge matches through its lower bound. */
  predicate MinMatches(b: RankBadge, rp: int) {
    b.minRp.Some? && rp >= b.minRp.value
  }

  /** The badge matches through its upper bound only (its lower bound, if any, is not met). */
  predicate MaxMatches(b: RankBadge, rp: int) {
    !MinMatches(b, rp) && b.maxRp.Some? && rp <= b.maxRp.value
  }

  /**
   * The choice of the selection loop after the first `n` badges: a badge matching through
   * `minRp` replaces the current choice when there is none or when its `minRp` is greater than
   * the current choice's (a choice without `minRp` is never replaced that way, since a comparison
   * with an undefined number is false); a badge matching through `maxRp` always replaces it.
   */
  function RankPick(rp: int, ranks: seq<RankBadge>, n: nat): (r: Option<nat>)
    requires n <= |ranks|
    ensures r.Some? ==> r.value < n
  {
    if n == 0 then None
    else
      var prev := RankPick(rp, ranks, n - 1);
      var b := ranks[n - 1];
      if MinMatches(b, rp) then
        if prev.None? || (ranks[prev.value].minRp.Some? && b.minRp.value > ranks[prev.value].minRp.value)
        then Some(n - 1) else prev
      else if b.maxRp.Some? && rp <= b.maxRp.value then Some(n - 1)
      else prev
  }

  /** The code answered for `rp`: the chosen badge's, or `missing` when nothing matches. */
  function RankCode(rp: int, ranks: seq<RankBadge>): string {
    match RankPick(rp, ranks, |ranks|)
    case Some(i) => ranks[i].code
    case None => "missing"
  }

  /** The selection loop of `GET /api/badges/user/:userId/rank`. */
  method SelectRank(rp: int, ranks: seq<RankBadge>) returns (code: string)
    ensures code == RankCode(rp, ranks)
  {
    var chosen: Option<nat> := None;
    var i := 0;
    while i < |ranks|
      invariant 0 <= i <= |ranks|
      invariant chosen == RankPick(rp, ranks, i)
    {
      var b := ranks[i];
      if b.minRp.Some? && rp >= b.minRp.value {
        if chosen.None? || (ranks[chosen.value].minRp.Some? && b.minRp.value > ranks[chosen.value].minRp.value) {
          chosen := Some(i);
        }
      } else if b.maxRp.Some? && rp <= b.maxRp.value {
        chosen := Some(i);
      }
      i := i + 1;
    }
    code := if chosen.Some? then ranks[chosen.value].code else "missing";
  }

  /** The chosen badge matches `rp`, and nothing is chosen exactly when no badge matches. */
  lemma {:induction false} RankPickMatches(rp: int, ranks: seq<RankBadge>, n: nat)
    requires n <= |ranks|
    ensures RankPick(rp, ranks, n).Some? ==>
      var b := ranks[RankPick(rp, ranks, n).value]; MinMatches(b, rp) || MaxMatches(b, rp)
    ensures RankPick(rp, ranks, n).None? <==>
      forall k :: 0 <= k < n ==> !MinMatches(ranks[k], rp) && !MaxMatches(ranks[k], rp)
  {
    if n > 0 {
      RankPickMatches(rp, ranks, n - 1);
    }
  }

  /**
   * When no badge matches through `maxRp` alone, the choice is the first of the matching badges
   * with the greatest `minRp`.
   */
  lemma {:induction false} RankPickGreatestMinRp(rp: int, ranks: seq<RankBadge>, n: nat)
    requires n <= |ranks|
    requires forall k :: 0 <= k < n ==> !MaxMatches(ranks[k], rp)
    ensures var r := RankPick(rp, ranks, n);
      r.Some? ==>
        && MinMatches(ranks[r.value], rp)
        && (forall k :: 0 <= k < n && MinMatches(ranks[k], rp) ==> ranks[k].minRp.value <= ranks[r.value].minRp.value)
        && (forall k :: 0 <= k < r.value && MinMatches(ranks[k], rp) ==> ranks[k].minRp.value < ranks[r.value].minRp.value)
  {
    if n > 0 {
      RankPickGreatestMinRp(rp, ranks, n - 1);
      RankPickMatches(rp, ranks, n - 1);
    }
  }

  /** The rank table the seed script installs, in its order. */
  function SeedRanks(): seq<RankBadge> {
    [RankBadge("legendary", Some(500), None),
     RankBadge("diamond", Some(350), None),
     RankBadge("gold", Some(250), None),
     RankBadge("silver", Some(180), None),
     RankBadge("bronze", Some(120), None),
     RankBadge("pigeon", Some(80), None),
     RankBadge("old_pigeon", Some(50), None),
     RankBadge("pigeon_king", Some(20), None),
     RankBadge("missing", None, Some(19))]
  }

  /** With the seed table every RP selects the band it falls in; below 20 it is `missing`. */
  lemma SeedRankBands(rp: int)
    ensures RankCode(rp, SeedRanks()) ==
      if rp >= 500 then "legendary"
      else if rp >= 350 then "diamond"
      else if rp >= 250 then "gold"
      else if rp >= 180 then "silver"
      else if rp >= 120 then "bronze"
      else if rp >= 80 then "pigeon"
      else if rp >= 50 then "old_pigeon"
      else if rp >= 20 then "pigeon_king"
      else "missing"
  {
    var ranks := SeedRanks();
    if rp >= 20 {
      assert forall k :: 0 <= k < |ranks| ==> !MaxMatches(ranks[k], rp);
      RankPickGreatestMinRp(rp, ranks, |ranks|);
      RankPickMatches(rp, ranks, |ranks|);
      assert MinMatches(ranks[7], rp);
      var r := RankPick(rp, ranks, |ranks|).value;
      assert r < 8;
      if rp >= 500 { assert MinMatches(ranks[0], rp); }
      else if rp >= 350 { assert MinMatches(ranks[1], rp); }
      else if rp >= 250 { assert MinMatches(ranks[2], rp); }
      else if rp >= 180 { assert MinMatches(ranks[3], rp); }
      else if rp >= 120 { assert MinMatches(ranks[4], rp); }
      else if rp >= 80 { assert MinMatches(ranks[5], rp); }
      else if rp >= 50 { assert MinMatches(ranks[6], rp); }
    } else {
      assert MaxMatches(ranks[8], rp);
    }
  }

  // ---------------------------------------------------------------------------------------------
  // Behaviour badges

  /**
   * `POST /api/badges/unlock-behavior`: unknown code 404, a badge of another category 400, an
   * unlocked badge answered without change, otherwise one user-badge record.
   */
  method UnlockBehavior(db: Database, u: UserId, code: string, session: Option<SessionId>) returns (r: Reply)
    modifies db
    ensures code !in old(db.badges) ==> r == NotFound && unchanged(db)
    ensures code in old(db.badges) && old(db.badges[code].category) != Behavior ==> r == BadRequest && unchanged(db)
    ensures code in old(db.badges) && old(db.badges[code].category) == Behavior ==>
      && r == Ok
      && db.userBadges == (if (u, code) in old(db.userBadges) then old(db.userBadges) else old(db.userBadges)[(u, code) := session])
      && db.users == old(db.users) && db.sessions == old(db.sessions) && db.ledger == old(db.ledger)
      && db.nextId == old(db.nextId) && db.invitations == old(db.invitations) && db.badges == old(db.badges)
  {
    if code !in db.badges {
      return NotFound;
    }
    if db.badges[code].category != Behavior {
      return BadRequest;
    }
    if (u, code) in db.userBadges {
      return Ok;
    }
    db.userBadges := db.userBadges[(u, code) := session];
    r := Ok;
  }

  /** The record table after an unlock request, as `UnlockBehavior` leaves it on success. */
  function AfterUnlock(userBadges: map<(UserId, string), Option<SessionId>>, u: UserId, code: string,
                       session: Option<SessionId>): map<(UserId, string), Option<SessionId>> {
    if (u, code) in userBadges then userBadges else userBadges[(u, code) := session]
  }

  /** Unlocking is idempotent: a repeated request, with any session, adds nothing, and the first record stays. */
  lemma UnlockIdempotent(userBadges: map<(UserId, string), Option<SessionId>>, u: UserId, code: string,
                         first: Option<SessionId>, second: Option<SessionId>)
    ensures var once := AfterUnlock(userBadges, u, code, first);
      AfterUnlock(once, u, code, second) == once && (u, code) in once
      && once.Keys == userBadges.Keys + {(u, code)}
  {
  }

  // ---------------------------------------------------------------------------------------------
  // Achievement conditions

  /** The sum of the first `k` deltas. */
  function PrefixSum(deltas: seq<int>, k: nat): int
    requires k <= |deltas|
  {
    if k == 0 then 0 else PrefixSum(deltas, k - 1) + deltas[k - 1]
  }

  /**
   * The lowest balance reached when replaying the first `n` deltas from `start`, the starting
   * balance included.
   */
  function LowestBalance(start: int, deltas: seq<int>, n: nat): (m: int)
    requires n <= |deltas|
    ensures forall k :: 0 <= k <= n ==> m <= start + PrefixSum(deltas, k)
    ensures exists k :: 0 <= k <= n && m == start + PrefixSum(deltas, k)
  {
    if n == 0 then
      assert start == start + PrefixSum(deltas, 0);
      start
    else
      var prev := LowestBalance(start, deltas, n - 1);
      var balance := start + PrefixSum(deltas, n);
      if balance < prev then balance else prev
  }

  /** The comeback loop: replays the user's score changes in creation order from 100, keeping the minimum. */
  method ComebackLow(deltas: seq<int>) returns (minRp: int)
    ensures minRp == LowestBalance(InitialRp, deltas, |deltas|)
  {
    var currentRp := InitialRp;
    minRp := currentRp;
    var i := 0;
    while i < |deltas|
      invariant 0 <= i <= |deltas|
      invariant currentRp == InitialRp + PrefixSum(deltas, i)
      invariant minRp == LowestBalance(InitialRp, deltas, i)
    {
      currentRp := currentRp + deltas[i];
      if currentRp < minRp {
        minRp := currentRp;
      }
      i := i + 1;
    }
  }

  /**
   * `calculateConsecutiveAttended` over the start days of the user's attended sessions, latest
   * first: 0 for none, otherwise the length of the longest prefix in which each day is at most one
   * day before the previous one.
   */
  method ConsecutiveAttended(days: seq<int>) returns (consecutive: nat)
    ensures days == [] <==> consecutive == 0
    ensures consecutive <= |days|
    ensures forall k :: 0 <= k < consecutive - 1 ==> days[k] - days[k + 1] <= 1
    ensures 0 < consecutive < |days| ==> days[consecutive - 1] - days[consecutive] > 1
  {
    if |days| == 0 {
      return 0;
    }
    consecutive := 0;
    var currentDate: Option<int> := None;
    var i := 0;
    while i < |days|
      invariant 0 <= i <= |days|
      invariant consecutive == i
      invariant currentDate.None? <==> i == 0
      invariant i > 0 ==> currentDate == Some(days[i - 1])
      invariant forall k :: 0 <= k < i - 1 ==> days[k] - days[k + 1] <= 1
    {
      if currentDate.None? {
        currentDate := Some(days[i]);
        consecutive := consecutive + 1;
      } else {
        var diffDays := currentDate.value - days[i];
        if diffDays <= 1 {
          consecutive := consecutive + 1;
          currentDate := Some(days[i]);
        } else {
          break;
        }
      }
      i := i + 1;
    }
  }

  /** The length of the run of days starting at `i` in which no gap exceeds one day. */
  function Streak(days: seq<int>, i: nat): (n: nat)
    requires i <= |days|
    ensures i < |days| ==> 1 <= n <= |days| - i
    ensures i == |days| ==> n == 0
    decreases |days| - i
  {
    if i == |days| then 0
    else if i + 1 < |days| && days[i] - days[i + 1] <= 1 then 1 + Streak(days, i + 1)
    else 1
  }

  /**
   * A run that starts at `i`, ends at `c` and cannot be extended is the streak from `i`: the
   * prefix the loop describes determines its length.
   */
  lemma {:induction false} StreakUnique(days: seq<int>, i: nat, c: nat)
    requires i < c <= |days|
    requires forall k :: i <= k < c - 1 ==> days[k] - days[k + 1] <= 1
    requires c < |days| ==> days[c - 1] - days[c] > 1
    ensures Streak(days, i) == c - i
    decreases c - i
  {
    if c > i + 1 {
      StreakUnique(days, i + 1, c);
    }
  }

  /** The score changes of `u`'s rows in creation order, soft-deleted rows included. */
  function UserDeltas(ledger: seq<ScoreRow>, u: UserId): (d: seq<int>)
    ensures |d| <= |ledger|
  {
    if ledger == [] then []
    else
      var last := ledger[|ledger| - 1];
      UserDeltas(ledger[..|ledger| - 1], u) + (if last.userId == u then [last.delta] else [])
  }

  lemma {:induction false} PrefixSumAppend(d: seq<int>, x: int)
    ensures PrefixSum(d + [x], |d| + 1) == PrefixSum(d, |d|) + x
  {
    PrefixSumOfPrefix(d, [x], |d|);
  }

  lemma {:induction false} PrefixSumOfPrefix(d: seq<int>, e: seq<int>, k: nat)
    requires k <= |d|
    ensures PrefixSum(d + e, k) == PrefixSum(d, k)
  {
    if k > 0 {
      PrefixSumOfPrefix(d, e, k - 1);
    }
  }

  /**
   * Without soft-deleted rows of `u`, the comeback replay ends at the RP the ledger explains:
   * the replay and the reconciliation agree.
   */
  lemma {:induction false} ReplayMatchesContribution(ledger: seq<ScoreRow>, u: UserId)
    requires forall i :: 0 <= i < |ledger| && ledger[i].userId == u ==> !ledger[i].deleted
    ensures var d := UserDeltas(ledger, u); PrefixSum(d, |d|) == Contribution(ledger, u)
  {
    if ledger != [] {
      var init := ledger[..|ledger| - 1];
      var last := ledger[|ledger| - 1];
      ReplayMatchesContribution(init, u);
      if last.userId == u {
        PrefixSumAppend(UserDeltas(init, u), last.delta);
      } else {
        assert UserDeltas(ledger, u) == UserDeltas(init, u);
      }
    }
  }

  /** `u` was marked present in `t` without being excused. */
  predicate AttendedIn(t: Session, u: UserId) {
    exists j :: 0 <= j < |t.participants| && t.participants[j].userId == u
      && t.participants[j].present == Some(true) && !t.participants[j].excused
  }

  /** `u` was marked present in `t`. */
  predicate EverPresent(t: Session, u: UserId) {
    exists j :: 0 <= j < |t.participants| && t.participants[j].userId == u && t.participants[j].present == Some(true)
  }

  /** The number of `u`'s rows in `ps` that are marked absent and not excused. */
  function NoShowRows(ps: seq<Participant>, u: UserId, n: nat): (c: nat)
    requires n <= |ps|
    ensures c <= n
  {
    if n == 0 then 0
    else
      var here := if ps[n - 1].userId == u && ps[n - 1].present == Some(false) && !ps[n - 1].excused then 1 else 0;
      NoShowRows(ps, u, n - 1) + here
  }

  /** A cancelled session this user caused: some absent row, fewer such rows than the minimum. */
  predicate CancelledBy(t: Session, u: UserId) {
    var c := NoShowRows(t.participants, u, |t.participants|);
    t.status == Cancelled && c > 0 && c < t.minPlayers
  }

  /** What the condition switch reads about a user. */
  datatype Facts = Facts(
    rp: int,
    streak: nat,
    attended: nat,
    everPresent: bool,
    initiatedSettled: nat,
    initiatedAny: bool,
    lowest: int,
    causedCancellations: nat)

  /** The facts of user `u`; `days` are the start days of `u`'s attended sessions, latest first. */
  function FactsOf(users: map<UserId, User>, sessions: map<SessionId, Session>, ledger: seq<ScoreRow>,
                   u: UserId, days: seq<int>): Facts
    requires u in users
  {
    var deltas := UserDeltas(ledger, u);
    Facts(
      users[u].rp,
      Streak(days, 0),
      |set s | s in sessions && AttendedIn(sessions[s], u)|,
      exists s :: s in sessions && EverPresent(sessions[s], u),
      |set s | s in sessions && sessions[s].initiator == u && sessions[s].status == Settled|,
      exists s :: s in sessions && sessions[s].initiator == u,
      LowestBalance(InitialRp, deltas, |deltas|),
      |set s | s in sessions && CancelledBy(sessions[s], u)|)
  }

  /** The condition switch: unknown condition types never unlock. */
  predicate ShouldUnlock(c: Condition, f: Facts) {
    match c
    case ConsecutiveAttended(count) => f.streak >= count
    case AttendedSessions(count) => f.attended >= count
    case InitiatedSessions(count) => f.initiatedSettled >= count
    case FirstAttended => f.everPresent
    case FirstInitiated => f.initiatedAny
    case RpBelow(threshold) => f.rp < threshold
    case Comeback(from, to) => f.lowest < from && f.rp >= to
    case CausedCancellation(count) => f.causedCancellations >= count
    case RankRange(_, _) => false
    case OtherCondition => false
  }

  /** The achievement badges the check unlocks for `u`: not unlocked yet, and their condition holds. */
  function Unlockable(badges: map<string, Badge>, userBadges: map<(UserId, string), Option<SessionId>>,
                      u: UserId, f: Facts): set<string> {
    set c | c in badges && badges[c].category == Achievement && (u, c) !in userBadges
      && ShouldUnlock(badges[c].condition, f)
  }

  /**
   * `POST /api/badges/check-achievements`: 404 for an unknown user; otherwise one record, for
   * `session`, per achievement badge not unlocked yet whose condition holds.  `days` are the start
   * days of `u`'s attended sessions, latest first, as the streak query returns them.  The
   * database keeps one participation row per user and session, so counting the sessions `u`
   * attended counts the handler's participation rows.
   */
  method CheckAchievements(db: Database, u: UserId, session: SessionId, days: seq<int>)
    returns (r: Reply, unlocked: set<string>)
    requires db.Valid()
    modifies db
    ensures u !in old(db.users) ==> r == NotFound && unlocked == {} && unchanged(db)
    ensures u in old(db.users) ==>
      && r == Ok
      && Unlocked(old(db.badges), old(db.userBadges), db.userBadges, u, session,
                  FactsOf(old(db.users), old(db.sessions), old(db.ledger), u, days), unlocked)
    ensures db.users == old(db.users) && db.sessions == old(db.sessions) && db.ledger == old(db.ledger)
    ensures db.nextId == old(db.nextId) && db.invitations == old(db.invitations) && db.badges == old(db.badges)
  {
    if u !in db.users {
      return NotFound, {};
    }
    var deltas := UserDeltas(db.ledger, u);
    var lowest := ComebackLow(deltas);
    var streak := ConsecutiveAttended(days);
    if streak > 0 {
      StreakUnique(days, 0, streak);
    }
    var f := FactsOf(db.users, db.sessions, db.ledger, u, days).(streak := streak, lowest := lowest);
    var records;
    records, unlocked := UnlockAchievements(db.badges, db.userBadges, u, session, f);
    db.userBadges := records;
    r := Ok;
  }

  /**
   * The outcome of an achievement check with facts `f`: `unlocked` are the achievement badges not
   * unlocked yet whose condition holds, `after` holds one new record for each of them, tied to
   * `session`, and the earlier records unchanged.
   */
  ghost predicate Unlocked(badges: map<string, Badge>, before: map<(UserId, string), Option<SessionId>>,
                           after: map<(UserId, string), Option<SessionId>>, u: UserId, session: SessionId,
                           f: Facts, unlocked: set<string>) {
    && unlocked == Unlockable(badges, before, u, f)
    && after.Keys == before.Keys + (set c | c in unlocked :: (u, c))
    && (forall k :: k in before ==> after[k] == before[k])
    && (forall c :: c in unlocked ==> after[(u, c)] == Some(session))
  }

  /** The loop over the achievement badges, on the record table as a value. */
  method UnlockAchievements(badges: map<string, Badge>, userBadges: map<(UserId, string), Option<SessionId>>,
                            u: UserId, session: SessionId, f: Facts)
    returns (records: map<(UserId, string), Option<SessionId>>, unlocked: set<string>)
    ensures Unlocked(badges, userBadges, records, u, session, f, unlocked)
  {
    var achievements := set c | c in badges && badges[c].category == Achievement;
    var pending := achievements;
    records := userBadges;
    unlocked := {};
    while pending != {}
      invariant pending <= achievements
      invariant unlocked == Unlockable(badges, userBadges, u, f) - pending
      invariant records.Keys == userBadges.Keys + (set c | c in unlocked :: (u, c))
      invariant forall k :: k in userBadges ==> records[k] == userBadges[k]
      invariant forall c :: c in unlocked ==> records[(u, c)] == Some(session)
      decreases pending
    {
      var c :| c in pending;
      if (u, c) !in userBadges && ShouldUnlock(badges[c].condition, f) {
        records := records[(u, c) := Some(session)];
        unlocked := unlocked + {c};
      }
      pending := pending - {c};
    }
  }

  /** A second check right after the first unlocks nothing: every badge it could unlock is unlocked. */
  lemma CheckAchievementsIdempotent(badges: map<string, Badge>, userBadges: map<(UserId, string), Option<SessionId>>,
                                    after: map<(UserId, string), Option<SessionId>>, u: UserId, f: Facts)
    requires after.Keys == userBadges.Keys + (set c | c in Unlockable(badges, userBadges, u, f) :: (u, c))
    ensures Unlockable(badges, after, u, f) == {}
  {
    var first := Unlockable(badges, userBadges, u, f);
    forall c | c in first
      ensures (u, c) in after
    {
      assert (u, c) in set c' | c' in first :: (u, c');
    }
  }

  /** Unknown condition types and rank conditions never unlock an achievement. */
  lemma UnknownConditionNeverUnlocks(badges: map<string, Badge>, userBadges: map<(UserId, string), Option<SessionId>>,
                                     u: UserId, f: Facts, c: string)
    requires c in badges && (badges[c].condition.OtherCondition? || badges[c].condition.RankRange?)
    ensures c !in Unlockable(badges, userBadges, u, f)
  {
  }

  /** `NoShowRows` is positive exactly when one of the first `n` rows is an unexcused absence of `u`. */
  lemma {:induction false} NoShowRowsPositive(ps: seq<Participant>, u: UserId, n: nat)
    requires n <= |ps|
    ensures NoShowRows(ps, u, n) > 0 <==>
      exists j :: 0 <= j < n && ps[j].userId == u && ps[j].present == Some(false) && !ps[j].excused
  {
    if n > 0 {
      NoShowRowsPositive(ps, u, n - 1);
    }
  }

  /** With one row per user, a session has at most one absent row of `u`. */
  lemma {:induction false} NoShowRowsAtMostOne(ps: seq<Participant>, u: UserId, n: nat)
    requires n <= |ps| && DistinctParticipants(ps)
    ensures NoShowRows(ps, u, n) <= 1
    ensures NoShowRows(ps, u, n) == 1 ==> exists j :: 0 <= j < n && ps[j].userId == u
  {
    if n > 0 {
      NoShowRowsAtMostOne(ps, u, n - 1);
      if ps[n - 1].userId == u {
        NoShowRowsWithoutUser(ps, u, n - 1);
      }
    }
  }

  /** Without a row of `u` among the first `n`, none of them counts as `u`'s absence. */
  lemma {:induction false} NoShowRowsWithoutUser(ps: seq<Participant>, u: UserId, n: nat)
    requires n <= |ps| && forall j :: 0 <= j < n ==> ps[j].userId != u
    ensures NoShowRows(ps, u, n) == 0
  {
    if n > 0 {
      NoShowRowsWithoutUser(ps, u, n - 1);
    }
  }

  /**
   * With one row per user and a minimum of at least two players, the `< minPlayers` test of a
   * caused cancellation always holds: it counts the cancelled sessions with an absent row of `u`.
   */
  lemma CausedCancellationIgnoresMinimum(t: Session, u: UserId)
    requires DistinctParticipants(t.participants) && t.minPlayers >= 2
    ensures CancelledBy(t, u) <==> t.status == Cancelled && NoShowRows(t.participants, u, |t.participants|) > 0
  {
    NoShowRowsAtMostOne(t.participants, u, |t.participants|);
  }
}
