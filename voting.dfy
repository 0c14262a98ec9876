/**
 * The vote tally of a session.  Every participant who is not excused and has a vote counts once
 * for the option of that vote; the initiator's own vote adds half a vote to its option, which only
 * matters between options tied on votes.  Half votes are kept exact by doubling: an option's
 * weighted score is `2 * count + (1 if the initiator voted for it)`.
 */
module Voting {
  import opened Wrappers
  import opened Entities

  datatype Choice = Choice(index: nat, name: string)

  /** The participant's vote is counted. */
  predicate Counts(p: Participant) {
    p.vote.Some? && !p.excused
  }

  /** The number of counted votes for option `k`. */
  function Count(ps: seq<Participant>, k: int): nat {
    if ps == [] then 0
    else
      var p := ps[|ps| - 1];
      Count(ps[..|ps| - 1], k) + (if Counts(p) && p.vote.value == k then 1 else 0)
  }

  /** The initiator cast a counted vote for option `k`. */
  predicate InitiatorVoted(ps: seq<Participant>, initiator: UserId, k: int) {
    exists i :: 0 <= i < |ps| && Counts(ps[i]) && ps[i].userId == initiator && ps[i].vote.value == k
  }

  /** The doubled weighted score of option `k`. */
  function Score(ps: seq<Participant>, initiator: UserId, k: int): int {
    2 * Count(ps, k) + (if InitiatorVoted(ps, initiator, k) then 1 else 0)
  }

  /** Every counted vote names one of the `n` options. */
  predicate VotesInRange(ps: seq<Participant>, n: nat) {
    forall i :: 0 <= i < |ps| && Counts(ps[i]) ==> 0 <= ps[i].vote.value < n
  }

  /** `w` is the first of the `n` options with the greatest weighted score. */
  predicate IsFirstBest(n: nat, ps: seq<Participant>, initiator: UserId, w: int) {
    0 <= w < n
    && (forall k :: 0 <= k < n ==> Score(ps, initiator, k) <= Score(ps, initiator, w))
    && (forall k :: 0 <= k < w ==> Score(ps, initiator, k) < Score(ps, initiator, w))
  }

  lemma CountStep(ps: seq<Participant>, i: nat, k: int)
    requires i < |ps|
    ensures Count(ps[..i + 1], k) == Count(ps[..i], k) + (if Counts(ps[i]) && ps[i].vote.value == k then 1 else 0)
  {
    assert ps[..i + 1][..i] == ps[..i];
  }

  lemma InitiatorVotedStep(ps: seq<Participant>, initiator: UserId, i: nat, k: int)
    requires i < |ps|
    ensures InitiatorVoted(ps[..i + 1], initiator, k)
      <==> InitiatorVoted(ps[..i], initiator, k) || (Counts(ps[i]) && ps[i].userId == initiator && ps[i].vote.value == k)
  {
    var q := ps[..i + 1];
    if InitiatorVoted(q, initiator, k) && !(Counts(ps[i]) && ps[i].userId == initiator && ps[i].vote.value == k) {
      var j :| 0 <= j < |q| && Counts(q[j]) && q[j].userId == initiator && q[j].vote.value == k;
      assert j < i && ps[..i][j] == q[j];
    }
    if InitiatorVoted(ps[..i], initiator, k) {
      var j :| 0 <= j < i && Counts(ps[..i][j]) && ps[..i][j].userId == initiator && ps[..i][j].vote.value == k;
      assert q[j] == ps[..i][j];
    }
    if Counts(ps[i]) && ps[i].userId == initiator && ps[i].vote.value == k {
      assert q[i] == ps[i];
    }
  }

  lemma VotesInRangeStep(ps: seq<Participant>, n: nat, i: nat)
    requires i < |ps|
    ensures VotesInRange(ps[..i + 1], n) <==> VotesInRange(ps[..i], n) && (Counts(ps[i]) ==> 0 <= ps[i].vote.value < n)
  {
    var q := ps[..i + 1];
    assert forall j :: 0 <= j < i ==> q[j] == ps[..i][j];
    assert q[i] == ps[i];
  }

  /** `2 * count + initiator bit` of option `k`, read off the two tallies. */
  function Weighted(counts: seq<nat>, initiatorVotes: seq<bool>, k: nat): int
    requires k < |counts| && k < |initiatorVotes|
  {
    2 * counts[k] + (if initiatorVotes[k] then 1 else 0)
  }

  /** Option `m` has strictly more votes than every other option. */
  predicate SoleMaximum(counts: seq<nat>, m: nat) {
    m < |counts| && forall k :: 0 <= k < |counts| && k != m ==> counts[k] < counts[m]
  }

  /**
   * The counting loop: one slot per option for the votes and one for the initiator's vote, and
   * whether some counted vote fell outside the options (its slot becomes `NaN` in the source).
   */
  method Tally(n: nat, participants: seq<Participant>, initiator: UserId)
    returns (voteCounts: array<nat>, initiatorVotes: array<bool>, polluted: bool)
    ensures fresh(voteCounts) && fresh(initiatorVotes)
    ensures voteCounts.Length == n && initiatorVotes.Length == n
    ensures forall k :: 0 <= k < n ==> voteCounts[k] == Count(participants, k)
    ensures forall k :: 0 <= k < n ==> initiatorVotes[k] == InitiatorVoted(participants, initiator, k)
    ensures polluted <==> !VotesInRange(participants, n)
  {
    voteCounts := new nat[n](_ => 0);
    initiatorVotes := new bool[n](_ => false);
    polluted := false;
    var i := 0;
    while i < |participants|
      invariant 0 <= i <= |participants|
      invariant forall k :: 0 <= k < n ==> voteCounts[k] == Count(participants[..i], k)
      invariant forall k :: 0 <= k < n ==> initiatorVotes[k] == InitiatorVoted(participants[..i], initiator, k)
      invariant polluted <==> !VotesInRange(participants[..i], n)
    {
      var p := participants[i];
      forall k | 0 <= k < n
        ensures Count(participants[..i + 1], k) == Count(participants[..i], k) + (if Counts(p) && p.vote.value == k then 1 else 0)
        ensures InitiatorVoted(participants[..i + 1], initiator, k)
          <==> InitiatorVoted(participants[..i], initiator, k) || (Counts(p) && p.userId == initiator && p.vote.value == k)
      {
        CountStep(participants, i, k);
        InitiatorVotedStep(participants, initiator, i, k);
      }
      VotesInRangeStep(participants, n, i);
      if Counts(p) {
        var v := p.vote.value;
        if 0 <= v < n {
          voteCounts[v] := voteCounts[v] + 1;
          if p.userId == initiator {
            initiatorVotes[v] := true;
          }
        } else {
          polluted := true;
        }
      }
      i := i + 1;
    }
    assert participants[..i] == participants;
  }

  /** The plain pass: the maximum of the counts, and the option reaching it when it is the only one. */
  method PlainWinner(voteCounts: array<nat>) returns (w: Option<nat>)
    ensures w.Some? ==> SoleMaximum(voteCounts[..], w.value)
    ensures w.None? ==> forall m :: 0 <= m < voteCounts.Length ==> !SoleMaximum(voteCounts[..], m)
  {
    var n := voteCounts.Length;
    if n == 0 {
      return None;
    }
    var maxVotes := voteCounts[0];
    var j := 1;
    while j < n
      invariant 1 <= j <= n
      invariant forall k :: 0 <= k < j ==> voteCounts[k] <= maxVotes
      invariant exists k :: 0 <= k < j && voteCounts[k] == maxVotes
    {
      if voteCounts[j] > maxVotes {
        maxVotes := voteCounts[j];
      }
      j := j + 1;
    }
    var winners := 0;
    var first := 0;
    j := 0;
    while j < n
      invariant 0 <= j <= n
      invariant 0 <= first < n
      invariant winners == 0 ==> forall k :: 0 <= k < j ==> voteCounts[k] != maxVotes
      invariant winners >= 1 ==> first < j && voteCounts[first] == maxVotes
      invariant winners == 1 ==> forall k :: 0 <= k < j && k != first ==> voteCounts[k] != maxVotes
      invariant winners >= 2 ==> exists k :: 0 <= k < j && k != first && voteCounts[k] == maxVotes
    {
      if voteCounts[j] == maxVotes {
        if winners == 0 {
          first := j;
        }
        winners := winners + 1;
      }
      j := j + 1;
    }
    if winners == 1 {
      return Some(first);
    }
    var other :| 0 <= other < n && other != first && voteCounts[other] == maxVotes;
    forall m | 0 <= m < n
      ensures !SoleMaximum(voteCounts[..], m)
    {
      if m == first {
        assert voteCounts[..][other] == voteCounts[..][m];
      } else {
        assert voteCounts[..][first] >= voteCounts[..][m];
      }
    }
    return None;
  }

  /** The weighted pass: the maximum of the weighted counts, then the first option reaching it. */
  method WeightedWinner(voteCounts: array<nat>, initiatorVotes: array<bool>) returns (w: nat)
    requires voteCounts.Length == initiatorVotes.Length > 0
    ensures w < voteCounts.Length
    ensures forall k :: 0 <= k < voteCounts.Length ==>
      Weighted(voteCounts[..], initiatorVotes[..], k) <= Weighted(voteCounts[..], initiatorVotes[..], w)
    ensures forall k :: 0 <= k < w ==>
      Weighted(voteCounts[..], initiatorVotes[..], k) < Weighted(voteCounts[..], initiatorVotes[..], w)
  {
    var n := voteCounts.Length;
    var c, b := voteCounts[..], initiatorVotes[..];
    var maxWeighted := 2 * voteCounts[0] + (if initiatorVotes[0] then 1 else 0);
    assert Weighted(c, b, 0) == maxWeighted;
    var j := 1;
    while j < n
      invariant 1 <= j <= n
      invariant forall k :: 0 <= k < j ==> Weighted(c, b, k) <= maxWeighted
      invariant exists k :: 0 <= k < j && Weighted(c, b, k) == maxWeighted
    {
      var weighted := 2 * voteCounts[j] + (if initiatorVotes[j] then 1 else 0);
      assert Weighted(c, b, j) == weighted;
      if weighted > maxWeighted {
        maxWeighted := weighted;
      }
      j := j + 1;
    }
    j := 0;
    while 2 * voteCounts[j] + (if initiatorVotes[j] then 1 else 0) != maxWeighted
      invariant 0 <= j < n
      invariant forall k :: 0 <= k < j ==> Weighted(c, b, k) < maxWeighted
      invariant exists k :: j <= k < n && Weighted(c, b, k) == maxWeighted
      decreases n - j
    {
      j := j + 1;
    }
    return j;
  }

  /**
   * `calculateVotingResult`.  A counted vote outside the options turns the plain maximum into
   * `NaN` (`undefined + 1`), so that no option is a plain winner and the weighted pass decides.
   * Without options the final `getGameName(gameOptions[0])` throws: `None`.
   */
  method CalculateVotingResult(options: seq<GameOption>, participants: seq<Participant>, initiator: UserId)
    returns (r: Option<Choice>)
    ensures options == [] <==> r.None?
    ensures r.Some? ==> IsFirstBest(|options|, participants, initiator, r.value.index)
    ensures r.Some? ==> r.value.index < |options| && r.value.name == GameName(options[r.value.index])
  {
    var n := |options|;
    var voteCounts, initiatorVotes, polluted := Tally(n, participants, initiator);
    if n == 0 {
      return None;
    }
    if !polluted {
      var plain := PlainWinner(voteCounts);
      if plain.Some? {
        var m := plain.value;
        forall k | 0 <= k < n && k != m
          ensures Count(participants, k) < Count(participants, m)
        {
          assert voteCounts[..][k] < voteCounts[..][m];
        }
        UniqueMaximumWins(n, participants, initiator, m);
        return Some(Choice(m, GameName(options[m])));
      }
    }
    var w := WeightedWinner(voteCounts, initiatorVotes);
    forall k | 0 <= k < n
      ensures Weighted(voteCounts[..], initiatorVotes[..], k) == Score(participants, initiator, k)
    {
    }
    return Some(Choice(w, GameName(options[w])));
  }

  /** The winner always has the greatest number of votes. */
  lemma WinnerHasMostVotes(n: nat, ps: seq<Participant>, initiator: UserId, w: int)
    requires IsFirstBest(n, ps, initiator, w)
    ensures forall k :: 0 <= k < n ==> Count(ps, k) <= Count(ps, w)
  {
    forall k | 0 <= k < n
      ensures Count(ps, k) <= Count(ps, w)
    {
      assert Score(ps, initiator, k) <= Score(ps, initiator, w);
    }
  }

  /** An option with strictly more votes than every other wins, whoever the initiator voted for. */
  lemma UniqueMaximumWins(n: nat, ps: seq<Participant>, initiator: UserId, w: int)
    requires 0 <= w < n
    requires forall k :: 0 <= k < n && k != w ==> Count(ps, k) < Count(ps, w)
    ensures IsFirstBest(n, ps, initiator, w)
  {
  }

  /** A user votes at most once, so the initiator's half vote goes to at most one option. */
  lemma InitiatorVotesOnce(ps: seq<Participant>, initiator: UserId, k: int, m: int)
    requires forall i, j :: 0 <= i < j < |ps| ==> ps[i].userId != ps[j].userId
    requires InitiatorVoted(ps, initiator, k) && InitiatorVoted(ps, initiator, m)
    ensures k == m
  {
    var i :| 0 <= i < |ps| && Counts(ps[i]) && ps[i].userId == initiator && ps[i].vote.value == k;
    var j :| 0 <= j < |ps| && Counts(ps[j]) && ps[j].userId == initiator && ps[j].vote.value == m;
    assert i == j;
  }

  /** On a tie for the most votes, the tied option the initiator voted for wins. */
  lemma TieGoesToInitiatorsChoice(n: nat, ps: seq<Participant>, initiator: UserId, w: int)
    requires forall i, j :: 0 <= i < j < |ps| ==> ps[i].userId != ps[j].userId
    requires 0 <= w < n && InitiatorVoted(ps, initiator, w)
    requires forall k :: 0 <= k < n ==> Count(ps, k) <= Count(ps, w)
    ensures IsFirstBest(n, ps, initiator, w)
  {
    forall k | 0 <= k < n && k != w
      ensures Score(ps, initiator, k) < Score(ps, initiator, w)
    {
      if InitiatorVoted(ps, initiator, k) {
        InitiatorVotesOnce(ps, initiator, k, w);
      }
    }
  }

  /** On a tie the initiator did not vote into, the lowest tied option wins. */
  lemma TieWithoutInitiatorGoesToFirst(n: nat, ps: seq<Participant>, initiator: UserId, w: int)
    requires 0 <= w < n
    requires forall k :: 0 <= k < n ==> Count(ps, k) <= Count(ps, w)
    requires forall k :: 0 <= k < w ==> Count(ps, k) < Count(ps, w)
    requires forall k :: 0 <= k < n && Count(ps, k) == Count(ps, w) ==> !InitiatorVoted(ps, initiator, k)
    ensures IsFirstBest(n, ps, initiator, w)
  {
  }

  /** Exactly one option is the first best one: the result is determined. */
  lemma FirstBestUnique(n: nat, ps: seq<Participant>, initiator: UserId, w: int, v: int)
    requires IsFirstBest(n, ps, initiator, w) && IsFirstBest(n, ps, initiator, v)
    ensures w == v
  {
    assert Score(ps, initiator, v) <= Score(ps, initiator, w);
    assert Score(ps, initiator, w) <= Score(ps, initiator, v);
  }

  /** Excused participants do not count: excusing a participant never adds a vote. */
  lemma ExcusedDoNotCount(ps: seq<Participant>, i: nat, k: int)
    requires i < |ps|
    ensures Count(ps[i := ps[i].(excused := true)], k) <= Count(ps, k)
    decreases |ps|
  {
    var n := |ps| - 1;
    if i < n {
      assert ps[i := ps[i].(excused := true)][..n] == ps[..n][i := ps[..n][i].(excused := true)];
      ExcusedDoNotCount(ps[..n], i, k);
    } else {
      assert ps[i := ps[i].(excused := true)][..n] == ps[..n];
    }
  }
}
