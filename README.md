# GamePact rules, modelled in Dafny

GamePact is a small web application in which a group of friends plans game nights.

- An invited user registers and starts with 100 reputation points (RP).
- A user starts a session with a list of game options, and others vote.
- A participant may excuse themselves: late, that is less than two hours before the start, it costs 2 RP.
- The initiator settles the session, or cancels it, by recording who came:
  - +5 for each present participant;
  - −20 for each absent participant who was not excused;
  - 0 for each excused participant.
- Each RP change is a row of a score ledger. The user's RP is kept in step with it: RP = 100 + the sum of the effects of the user's ledger rows.
- Badges reward rank, behaviour and achievements.
- Administrators issue, expire and delete invitation codes. They adjust RP and soft-delete ledger rows. They reset passwords and soft-delete users.
- The front end pulls Steam app ids out of store links to build image URLs, and filters lists with a fuzzy text match.
- The back end caches the Steam store's game details for seven days.

The model treats the database as abstract state: the class `Store.Database`, with maps of users, sessions (each holding its participation rows), invitations, badges and user badges, plus the ledger as a sequence. Each route handler is a method on that state. Its contract gives the reply (through a function listing the handler's checks in order) and the whole new state. The invariant `Database.Valid()` holds before and after every handler. It consists of:

- well-formedness: ids below `nextId`, distinct participants, ledger rows in creation order;
- `Reconciled`: every user's RP equals 100 plus the `Contribution` of the user's ledger rows.

Modules, one per source file or shared concept:

| module | file | models |
|---|---|---|
| Wrappers | wrappers.dfy | optional values |
| Text | text.dfy | JavaScript character classes, `length` in UTF-16 units, substring test |
| Entities | entities.dfy | the database records |
| Store | store.dfy | the database, the ledger sums and the reconciliation invariant |
| Voting | voting.dfy | `calculateVotingResult` |
| Sessions | sessions.dfy | the session handlers |
| Badges | badges.dfy | the badge handlers |
| Admin | admin.dfy | the administrator handlers |
| Auth | auth.dfy | password policy, registration, password change |
| FuzzySearch | fuzzy_search.dfy | `fuzzyMatch` |
| SteamLinks | steam_links.dfy | the front end's Steam helpers |
| SteamCache | steam_cache.dfy | the back end's Steam cache |

Clocks are the parameter `now` (milliseconds). Random invitation codes are the parameter `codes`. Database-generated ids come from a counter `nextId`. The Steam store's answer is the parameter `fetch`.

Three behaviours of the code that the rest of the model depends on:

- A soft delete compensates only `admin_adjust` rows, and it lowers `rp` directly instead of writing a reversing ledger row. `Store.Effect` of such a row is 0, and every other row keeps its delta, so `Reconciled` (RP equals the initial 100 plus the ledger's effects) holds after every soft delete.
- Deleting a session as written breaks `Reconciled` (see Findings).
- Updating a session re-checks neither deadline-before-start nor minPlayers >= 2 (`Sessions.UpdateSkipsCreationRules`).

## Model

| member | source | states |
|---|---|---|
| Text.IsSubstringSound | frontend/src/utils/fuzzySearch.ts:19 | a found substring occurs at some position |
| Text.IsSubstringComplete | frontend/src/utils/fuzzySearch.ts:19 | an occurrence at any position is found |
| Text.IsSubstringIff | frontend/src/utils/fuzzySearch.ts:19 | `includes` holds exactly when the pattern occurs at some position |
| Text.Utf16Length | backend/src/routes/auth.ts:24 | `length` counts UTF-16 units: between 1 and 2 per character |
| Entities.GameName | backend/src/routes/sessions.ts:19-21 | a bare title is its own name; an object option's name is its `name` field, whatever its link |
| Voting.Tally | backend/src/routes/sessions.ts:37-60 | each option's tally is the number of counted votes for it; the initiator's bit is set exactly for the option the initiator voted for; out-of-range votes are reported |
| Voting.PlainWinner | backend/src/routes/sessions.ts:63-76 | returns the option whose count beats every other, or nothing when no option is the sole maximum |
| Voting.WeightedWinner | backend/src/routes/sessions.ts:80-98 | returns the first option with the greatest doubled score 2·count + initiator bit |
| Voting.CalculateVotingResult | backend/src/routes/sessions.ts:28-105 | no result exactly when there are no options; otherwise the first option with the greatest weighted score, with `getGameName` of that option |
| Voting.WinnerHasMostVotes | backend/src/routes/sessions.ts:63-98 | the winner has at least as many votes as every option |
| Voting.UniqueMaximumWins | backend/src/routes/sessions.ts:63-76 | an option with strictly the most votes wins whatever the initiator voted |
| Voting.TieGoesToInitiatorsChoice | backend/src/routes/sessions.ts:80-98 | on a tie, the tied option the initiator voted for wins |
| Voting.TieWithoutInitiatorGoesToFirst | backend/src/routes/sessions.ts:89-91 | on a tie without the initiator's vote, the lowest tied index wins |
| Voting.FirstBestUnique | backend/src/routes/sessions.ts:89-98 | the result is determined: two first-best options are equal |
| Voting.InitiatorVotesOnce | backend/src/routes/sessions.ts:52-54 | with one row per user, the initiator's half vote goes to at most one option |
| Voting.ExcusedDoNotCount | backend/src/routes/sessions.ts:44 | excusing a participant never adds a vote |
| Sessions.IndexOf | backend/src/routes/sessions.ts:600-607 | a found row belongs to the user |
| Sessions.IndexOfNone | backend/src/routes/sessions.ts:600-607 | nothing is found exactly when the user has no row |
| Sessions.IndexOfUnique | backend/src/routes/sessions.ts:600-607 | with distinct users, the row found is the user's only row |
| Sessions.CreateCheck | backend/src/routes/sessions.ts:211-250 | administrators are refused; otherwise accepted exactly when options are present and non-empty, both times are given and not 0 (0 is falsy), the voting deadline lies after now and before the start, and the minimum (default 2) is at least 2 |
| Sessions.FreshSessionHasNoRows | backend/src/routes/sessions.ts:282-290 | a new session has no ledger row, so the creation bonus is never a repeat |
| Sessions.CreateSession | backend/src/routes/sessions.ts:211-309 | the reply is the check's; on success, a voting session with the initiator as participant, one +2 `initiated` row, and RP raised by 2; otherwise nothing changes |
| Sessions.Updated | backend/src/routes/sessions.ts:409-416 | each provided field is written; a time or a minPlayers of 0 is ignored; initiator, status, final game and participants are kept; without fields nothing changes |
| Sessions.UpdateCheck | backend/src/routes/sessions.ts:394-406 | accepted exactly for the initiator of an existing voting session; not found exactly for a missing session |
| Sessions.UpdateSession | backend/src/routes/sessions.ts:383-426 | on success only the session's row changes, to `Updated`; otherwise nothing changes |
| Sessions.UpdateSkipsCreationRules | backend/src/routes/sessions.ts:409-416 | an update can set a minimum of one player and a voting deadline at the start itself |
| Sessions.DeleteCheck | backend/src/routes/sessions.ts:459-466 | accepted exactly for an existing session and its initiator or an administrator |
| Sessions.RevertInitiation | backend/src/routes/sessions.ts:469-510 | appends the −2 revert and lowers RP by 2 exactly when a bonus row and no revert row exist |
| Sessions.PurgedSkipsOwnRows | backend/src/routes/sessions.ts:518-520 | purging a session also removes the revert row just appended for it |
| Sessions.RemoveSessionKeepsWellFormed | backend/src/routes/sessions.ts:513-525 | removing a session and its rows keeps the database well-formed |
| Sessions.DeleteSessionAsWritten | backend/src/routes/sessions.ts:445-543 | as written: the session and all its ledger rows go, and only the initiation bonus is reverted; the result is well-formed but not reconciled |
| Sessions.DeleteAsWrittenLosesLedgerRows | backend/src/routes/sessions.ts:469-520 | a user with a +5 settlement row keeps the +5 after deletion while the row is gone, so RP ≠ 100 + ledger |
| Sessions.DeleteKeepsReconciled | backend/src/routes/sessions.ts:513-520 | removing a session's rows together with their effect on every user keeps RP and ledger reconciled |
| Sessions.DeleteSession | backend/src/routes/sessions.ts:445-525 | the corrected deletion: same checks and rows removed, every user loses exactly what the session's rows gave, and the database stays valid |
| Sessions.VoteCheck | backend/src/routes/sessions.ts:562-622 | administrators are refused; accepted exactly for an existing voting session, an index within the options, a deadline not passed, and a voter not excused |
| Sessions.CastVote | backend/src/routes/sessions.ts:600-631 | the voter's row is created if absent and holds the new vote; every other row is unchanged |
| Sessions.CastVoteKeepsDistinct | backend/src/routes/sessions.ts:600-631 | casting a vote keeps one row per user |
| Sessions.Vote | backend/src/routes/sessions.ts:556-631 | the reply is the check's; on success only the session's rows change, to `CastVote`; no ledger row is written |
| Sessions.LastVoteCounts | backend/src/routes/sessions.ts:625-631 | a second vote overwrites the first |
| Sessions.ExcuseCheck | backend/src/routes/sessions.ts:670-732 | the refusals in the handler's order: administrator, missing session, not voting, initiator, started, no row, already excused, voted and late |
| Sessions.ExcuseText | backend/src/routes/sessions.ts:735 | the stored reason is never empty and is the given one when that is non-empty |
| Sessions.Excuse | backend/src/routes/sessions.ts:664-775 | on success the row is marked excused; a late excuse appends one −2 `late_excuse` row and lowers RP by 2; an on-time one writes no row |
| Sessions.TwoHourBoundary | backend/src/routes/sessions.ts:697-705 | exactly two hours before the start is on time, one millisecond later is late |
| Sessions.Scoring | backend/src/routes/sessions.ts:904-925 | excused gives 0, present +5, otherwise −20; the badge of an excused entry is `excused` exactly when the excuse was on time |
| Sessions.PresentCount | backend/src/routes/sessions.ts:869 | counts at most one per entry |
| Sessions.PresentCountCounts | backend/src/routes/sessions.ts:869 | the count is the number of entries marked present |
| Sessions.ConcludeCheck | backend/src/routes/sessions.ts:824-875 | accepted exactly for the initiator of a voting session with options, at least two participants, every participant listed, and, for settle, enough present entries |
| Sessions.FirstUnknown | backend/src/routes/sessions.ts:878-892 | the first entry without a participation row, where the update throws |
| Sessions.Mark | backend/src/routes/sessions.ts:879-891 | recording an entry sets its participant's presence, settler and settlement time and changes no other row |
| Sessions.MarkAll | backend/src/routes/sessions.ts:878-892 | recording entries keeps the same users in the same places |
| Sessions.LastEntry | backend/src/routes/sessions.ts:878-892 | the position of a user's last entry, with no later entry for that user, or none exactly when the user has no entry |
| Sessions.MarkAllRecords | backend/src/routes/sessions.ts:878-892 | a row named by no entry is unchanged; otherwise it holds the presence of the user's last entry, the settler and the time: with duplicates the last entry wins |
| Sessions.MarkLoop | backend/src/routes/sessions.ts:878-892 | the first loop stops at the first unknown entry, with the entries before it recorded |
| Sessions.SettlementRows | backend/src/routes/sessions.ts:895-944 | at most one ledger row per entry |
| Sessions.SettlementRowsPointwise | backend/src/routes/sessions.ts:895-944 | one row per entry, for that entry's user, with the points of `Scoring` |
| Sessions.SettlementRowsShape | backend/src/routes/sessions.ts:928-937 | settlement rows belong to users, are live rows of the session, and are numbered from the next id |
| Sessions.ScoreLoop | backend/src/routes/sessions.ts:895-944 | the second loop produces the settlement rows and credits each row's delta to its user |
| Sessions.ScoreAttendances | backend/src/routes/sessions.ts:895-944 | the rows are appended, each user's RP moves by the row deltas, and the database stays valid |
| Sessions.Conclude | backend/src/routes/sessions.ts:817-1011 | the reply is the check's; on success every entry is recorded, one scored row per entry is appended and credited, and the status and final game are set; at an unknown entry the earlier entries stay recorded and the reply is an error |
| Sessions.Record | backend/src/routes/sessions.ts:878-1011 | the two loops and the final status, as `Concluded` states |
| Sessions.Complete | backend/src/routes/sessions.ts:895-1011 | once every entry is recorded, the scoring loop and the final status, as `Completed` states |
| Sessions.Settle | backend/src/routes/sessions.ts:817-1037 | a successful settlement was of a voting session with enough present entries, and leaves it settled |
| Sessions.Cancel | backend/src/routes/sessions.ts:1043-1254 | a successful cancellation was of a voting session and leaves it cancelled |
| Sessions.ConcludedIsFinal | backend/src/routes/sessions.ts:850 | a settled or cancelled session can no longer be settled, cancelled, updated, voted on or excused from |
| Sessions.DuplicateEntryScoredTwice | backend/src/routes/sessions.ts:895-944 | an entry listed twice is scored twice: two +5 rows |
| Sessions.SettlementMovesRpByRows | backend/src/routes/sessions.ts:928-944 | each user's RP moves by exactly the deltas of that user's new rows |
| Store.Credit | backend/src/routes/sessions.ts:939-944 | an increment keeps the set of users |
| Store.CreditRows | backend/src/routes/sessions.ts:939-944 | increments keep the set of users |
| Store.Purged | backend/src/routes/sessions.ts:518-520 | the rows left belong to other sessions |
| Store.ContributionAppend | backend/src/routes/sessions.ts:928-944 | an appended row adds its effect to its user's contribution only |
| Store.AppendKeepsReconciled | backend/src/routes/admin.ts:179-194 | appending a row and crediting its effect keeps RP reconciled |
| Store.ContributionConcat | backend/src/routes/sessions.ts:928-944 | contributions add up over concatenated ledgers |
| Store.CreditRowsRp | backend/src/routes/sessions.ts:928-944 | crediting live rows raises each RP by the user's contribution in them and changes nothing else |
| Store.AppendRowsKeepsReconciled | backend/src/routes/sessions.ts:928-944 | appending and crediting a run of live rows keeps RP reconciled |
| Store.NoRowsNoContribution | backend/src/routes/auth.ts:85-92 | a user without rows contributes 0, so a new user's 100 RP is reconciled |
| Store.ReplaceRowContribution | backend/src/routes/admin.ts:269-286 | replacing a row changes each contribution by the difference of the two effects |
| Store.PurgedContribution | backend/src/routes/sessions.ts:518-520 | purging a session's rows removes exactly their effect from every contribution |
| Store.AppendRowsKeepsConsistent | backend/src/routes/sessions.ts:928-944 | appending fresh live rows with their credits keeps the database invariant |
| Store.Database.constructor | backend/src/routes/auth.ts:85-92 | an empty database is valid |
| Store.Database.NewId | backend/src/routes/sessions.ts:253-261 | hands out a fresh id and changes nothing else |
| Store.Database.PutSession | backend/src/routes/sessions.ts:253-279 | stores a well-formed session and keeps the invariant |
| Store.Database.AppendRow | backend/src/routes/sessions.ts:292-308 | appends one live row and raises its user's RP by its delta, keeping the invariant |
| Store.Database.AddUser | backend/src/routes/auth.ts:85-92 | inserts a user with 100 RP under a fresh id, keeping the invariant |
| Store.Database.PutUser | backend/src/routes/auth.ts:282-285 | rewrites a user's fields other than RP, keeping the invariant |
| Store.Database.SoftDeleteRow | backend/src/routes/admin.ts:269-286 | marks a row deleted by the administrator; RP is lowered by the delta only for an `admin_adjust` row; the invariant is kept |
| Badges.RankPick | backend/src/routes/badges.ts:75-85 | the chosen badge is among those examined |
| Badges.SelectRank | backend/src/routes/badges.ts:67-92 | the loop returns the code `RankCode` describes |
| Badges.RankPickMatches | backend/src/routes/badges.ts:75-85 | the chosen badge matches the RP, and nothing is chosen exactly when no badge matches |
| Badges.RankPickGreatestMinRp | backend/src/routes/badges.ts:75-85 | among lower bounds only, the first badge with the greatest matching `minRp` is chosen |
| Badges.SeedRankBands | backend/src/seedBadges.ts:6-88 | with the seeded table every RP selects the band it falls in, and below 20 `missing` |
| Badges.UnlockBehavior | backend/src/routes/badges.ts:113-151 | unknown code is not found; a non-behaviour badge is refused; an already unlocked badge adds nothing; otherwise exactly one record is added |
| Badges.UnlockIdempotent | backend/src/routes/badges.ts:130-141 | a repeated unlock adds nothing and keeps the first record |
| Badges.LowestBalance | backend/src/routes/badges.ts:257-265 | the lowest of all prefix balances from the start, which one of them attains |
| Badges.ComebackLow | backend/src/routes/badges.ts:257-265 | the loop returns the lowest prefix balance from 100 |
| Badges.UserDeltas | backend/src/routes/badges.ts:252-255 | the user's deltas, at most one per ledger row |
| Badges.ReplayMatchesContribution | backend/src/routes/badges.ts:252-265 | without soft-deleted rows, the replay ends at the user's ledger contribution |
| Badges.ConsecutiveAttended | backend/src/routes/badges.ts:336-361 | 0 exactly for no days; otherwise at most the number of days, no gap above one day inside the run, and a larger gap right after it |
| Badges.Streak | backend/src/routes/badges.ts:336-361 | a run from a position is between 1 and the days left |
| Badges.StreakUnique | backend/src/routes/badges.ts:336-361 | a maximal run without large gaps has exactly the streak's length |
| Badges.NoShowRows | backend/src/routes/badges.ts:272-279 | counts at most the rows examined |
| Badges.NoShowRowsPositive | backend/src/routes/badges.ts:272-279 | the count is positive exactly when some examined row is an unexcused absence of the user |
| Badges.CheckAchievements | backend/src/routes/badges.ts:159-303 | on a valid database (one participation row per user and session, so attended sessions count the source's rows) a missing user is not found; otherwise exactly the achievement badges not yet unlocked whose condition holds are added, for this session |
| Badges.UnlockAchievements | backend/src/routes/badges.ts:192-303 | the loop adds exactly the unlockable badges and keeps every earlier record |
| Badges.CheckAchievementsIdempotent | backend/src/routes/badges.ts:192-203 | a second check right after the first unlocks nothing |
| Badges.UnknownConditionNeverUnlocks | backend/src/routes/badges.ts:286-288 | unknown and rank conditions never unlock |
| Badges.NoShowRowsAtMostOne | backend/src/routes/badges.ts:272-281 | with one row per user, a session has at most one absent row of the user |
| Badges.NoShowRowsWithoutUser | backend/src/routes/badges.ts:272-281 | without a row of the user there is no absence |
| Badges.CausedCancellationIgnoresMinimum | backend/src/routes/badges.ts:280-282 | with a minimum of at least 2, the `< minPlayers` test always holds |
| Admin.Expire | backend/src/routes/admin.ts:20-30 | keeps every invitation and leaves none overdue |
| Admin.ExpireInvites | backend/src/routes/admin.ts:20-30 | the listing expires overdue invitations and changes nothing else |
| Admin.ExpireChangesOnlyOverdue | backend/src/routes/admin.ts:20-30 | only overdue pending invitations become expired, and expiring twice changes nothing more |
| Admin.InviteExpiry | backend/src/routes/admin.ts:81-88 | 0 days means 30 seconds, otherwise between 1 and 365 days ahead |
| Admin.GenerateInvites | backend/src/routes/admin.ts:66-104 | an absent count means 1 and an absent expiresIn means 30 days; a count outside 1..100 or days outside 0..365 is refused; otherwise the given codes are issued in order as pending invitations sharing one expiry, all of them when they are fresh, stopping with an error at a clash |
| Admin.IssuedKeys | backend/src/routes/admin.ts:90-104 | the codes after issuing are the old ones and the issued ones |
| Admin.NotIssued | backend/src/routes/admin.ts:90-104 | a code neither used nor issued stays absent |
| Admin.IssuedCount | backend/src/routes/admin.ts:90-104 | a fresh batch adds exactly `count` invitations |
| Admin.IssuedContents | backend/src/routes/admin.ts:94-101 | every issued code holds the same invitation record, and the old invitations are unchanged |
| Admin.DeleteInvite | backend/src/routes/admin.ts:120-141 | a missing invitation is not found; a used one is refused; otherwise it becomes deleted |
| Admin.DeletedInviteRefused | backend/src/routes/admin.ts:136-141 | a deleted invitation cannot be used to register |
| Admin.AdjustScore | backend/src/routes/admin.ts:155-194 | missing or zero change and blank reason are refused, then a missing user; otherwise one `admin_adjust` row of the change and RP raised by exactly the change |
| Admin.RowFrom | backend/src/routes/admin.ts:257-259 | a found position holds the id |
| Admin.RowIndex | backend/src/routes/admin.ts:257-259 | a found position holds the id |
| Admin.RowFromNone | backend/src/routes/admin.ts:257-263 | nothing is found exactly when no row has the id |
| Admin.RowFromSameIds | backend/src/routes/admin.ts:257-259 | the lookup depends only on the ids |
| Admin.SoftDeleteScore | backend/src/routes/admin.ts:252-286 | a missing or deleted row is refused; otherwise the row is marked deleted, RP is lowered by its delta only for `admin_adjust`, and the database stays valid |
| Admin.SecondSoftDeleteRefused | backend/src/routes/admin.ts:265-267 | a second soft delete of the same row is refused |
| Admin.AdjustUndoneBySoftDelete | backend/src/routes/admin.ts:179-194 | an adjustment followed by its soft delete leaves every contribution as before |
| Admin.SoftDeleteKeepsOtherContributions | backend/src/routes/admin.ts:278-286 | soft-deleting any other row leaves every contribution unchanged |
| Admin.DeleteUser | backend/src/routes/admin.ts:312-336 | an administrator's own id is refused and a missing user is not found; otherwise only the deletion time is set |
| Admin.DeleteUserNeverSelf | backend/src/routes/admin.ts:318-320 | the requesting administrator is never deleted, and a deletion keeps the account and its RP |
| Admin.ResetPassword | backend/src/routes/admin.ts:454-489 | a password breaking the policy is refused, then a missing user; otherwise only the password changes |
| Admin.ResetPasswordIsStrong | backend/src/routes/admin.ts:461-474 | a reset password meets the policy |
| Auth.PasswordProblem | backend/src/routes/auth.ts:23-39 | no problem exactly when the password meets the policy; too short exactly when under 8 UTF-16 units |
| Auth.AsciiUtf16Length | backend/src/routes/auth.ts:24-35 | an ASCII password has one unit per character |
| Auth.StrongPasswordShape | backend/src/routes/auth.ts:23-39 | an accepted password has at least 8 ASCII characters and no space or tab |
| Auth.Register | backend/src/routes/auth.ts:12-102 | the refusals in order, an overdue invitation marked expired on the way; on success a new user with 100 RP and the invitation used by that user at that time; unique names are kept |
| Auth.UsedCodeRefused | backend/src/routes/auth.ts:50-52 | a used invitation is refused for every later registration |
| Auth.RegisterAccepts | backend/src/routes/auth.ts:17-79 | an accepted registration has a strong password, a pending unexpired invitation and fresh names |
| Auth.ChangePassword | backend/src/routes/auth.ts:237-286 | the refusals in order; on success only the password changes |
| Auth.ChangedPasswordIsNewAndStrong | backend/src/routes/auth.ts:247-276 | a changed password needed the old one, differs from it and meets the policy |
| FuzzySearch.Normalize | frontend/src/utils/fuzzySearch.ts:16-17 | the result has no ignored character and no upper-case letter, and is no longer than the input |
| FuzzySearch.NormalizeAppend | frontend/src/utils/fuzzySearch.ts:16-17 | normalisation distributes over concatenation |
| FuzzySearch.NormalizeIgnoredOnly | frontend/src/utils/fuzzySearch.ts:5 | a string of ignored characters normalises to the empty string |
| FuzzySearch.NormalizeIdempotent | frontend/src/utils/fuzzySearch.ts:16-17 | normalising twice changes nothing |
| FuzzySearch.NormalizeFixesClean | frontend/src/utils/fuzzySearch.ts:16-17 | a normalised string is its own normal form |
| FuzzySearch.NormalizeIgnoresInserted | frontend/src/utils/fuzzySearch.ts:16-17 | inserting ignored characters leaves the normal form unchanged |
| FuzzySearch.FuzzyMatchIgnoresInserted | frontend/src/utils/fuzzySearch.ts:15-19 | inserting ignored characters into either argument never changes the answer |
| FuzzySearch.NormalizeCaseInsensitive | frontend/src/utils/fuzzySearch.ts:17 | strings equal up to ASCII case normalise alike |
| FuzzySearch.FuzzyMatchCaseInsensitive | frontend/src/utils/fuzzySearch.ts:15-19 | upper-casing either argument never changes the answer |
| FuzzySearch.FuzzyMatchIgnoredQuery | frontend/src/utils/fuzzySearch.ts:15-19 | an empty or ignored-only query matches everything |
| FuzzySearch.FuzzyMatchReflexive | frontend/src/utils/fuzzySearch.ts:15-19 | every string matches itself |
| FuzzySearch.FuzzyMatch | frontend/src/utils/fuzzySearch.ts:15-19 | a match exactly when the normalised query occurs at some position of the normalised target |
| FuzzySearch.DottedTitleIgnoresCase | frontend/src/utils/fuzzySearch.ts:12 | the title "R.E.P.O." matches exactly as its lower-case form does |
| FuzzySearch.DottedTitleIgnoresDots | frontend/src/utils/fuzzySearch.ts:12 | "repo" matches "r.e.p.o.", whose dots are ignored |
| FuzzySearch.SpacedQueryIgnoresCase | frontend/src/utils/fuzzySearch.ts:13 | the target "Apex" matches exactly as "apex" does |
| FuzzySearch.SpacedQueryIgnoresSpaces | frontend/src/utils/fuzzySearch.ts:13 | the query ".. ap  ex" matches "apex", its dots and spaces ignored |
| FuzzySearch.DocumentedExamples | frontend/src/utils/fuzzySearch.ts:12-13 | both documented examples match |
| SteamLinks.DigitRun | frontend/src/utils/steam.ts:15 | the greedy digit run is a prefix of digits followed by a non-digit or the end |
| SteamLinks.FindMatch | frontend/src/utils/steam.ts:15 | the first position from the start where the pattern matches, or none |
| SteamLinks.ExtractSteamAppId | frontend/src/utils/steam.ts:13-17 | nothing exactly when the pattern matches nowhere; otherwise the non-empty digit run after a match |
| SteamLinks.LeftmostMatch | frontend/src/utils/steam.ts:15-16 | the id comes from the leftmost match |
| SteamLinks.StoreLinkRoundTrip | frontend/src/utils/steam.ts:13-17 | a store link built from a digit id gives back that id |
| SteamLinks.CounterStrikeExample | frontend/src/utils/steam.ts:10-11 | the documented link gives `730` |
| SteamLinks.NoStorePathNoId | frontend/src/utils/steam.ts:14-16 | a link without the store's app path gives nothing |
| SteamLinks.ImageUrlInjective | frontend/src/utils/steam.ts:24-36 | different ids or image types never share an image URL |
| SteamLinks.GetSteamImageUrl | frontend/src/utils/steam.ts:24-36 | the URL starts with the CDN path and `/`, holds the app id right after it, and ends with `/` and the image type's file name |
| SteamLinks.BackgroundStyle | frontend/src/utils/steam.ts:41-99 | empty exactly without an app id; otherwise exactly the three style keys with the image URL, `cover` and the position |
| SteamLinks.GameCardBackground | frontend/src/utils/steam.ts:41-51 | empty exactly without an app id; otherwise the header image, `cover`, `center` |
| SteamLinks.GamePortraitBackground | frontend/src/utils/steam.ts:56-66 | empty exactly without an app id; otherwise the 600x900 portrait, `cover`, `center` |
| SteamLinks.GamePageBackground | frontend/src/utils/steam.ts:71-81 | empty exactly without an app id; otherwise the generated page background, `cover`, `right center` |
| SteamLinks.SessionHeaderBackground | frontend/src/utils/steam.ts:86-99 | empty exactly without an app id; otherwise the library hero image, `cover`, `center` |
| SteamLinks.BackgroundsShareGame | frontend/src/utils/steam.ts:41-99 | the four helpers are empty together, and otherwise show the same game with their own image type |
| SteamCache.Lookup | backend/src/routes/steam.ts:28-32 | a hit exactly when the entry exists and is younger than seven days, returning its data |
| SteamCache.Swept | backend/src/routes/steam.ts:83-88 | keeps exactly the entries not older than seven days, unchanged |
| SteamCache.Described | backend/src/routes/steam.ts:62-77 | hero and portrait use the probed CDN image or fall back to the header; the page background prefers the raw one |
| SteamCache.Cache.constructor | backend/src/routes/steam.ts:7 | the cache starts empty |
| SteamCache.Cache.Sweep | backend/src/routes/steam.ts:83-88 | the loop leaves exactly `Swept` |
| SteamCache.Cache.GetGame | backend/src/routes/steam.ts:20-116 | an invalid id is refused untouched; a hit returns the stored data untouched; otherwise the store's answer is stored then swept, a missing game is not found, and a failure stores the fallback entry |
| SteamCache.FreshEntrySurvivesSweep | backend/src/routes/steam.ts:80-88 | the entry just written survives the sweep and is a hit |
| SteamCache.SweepKeepsHits | backend/src/routes/steam.ts:29-32 | the sweep never evicts a hit |
| SteamCache.SevenDaysBoundary | backend/src/routes/steam.ts:29 | an entry exactly seven days old is neither a hit nor evicted |
| SteamCache.FallbackLivesFiveMinutes | backend/src/routes/steam.ts:109-112 | the fallback entry is a hit exactly for less than five minutes |
| SteamCache.Fallback | backend/src/routes/steam.ts:99-106 | named `Unknown Game`, with exactly the front end's image URLs for the same id |
| SteamCache.FallbackEntry | backend/src/routes/steam.ts:109-112 | holds the fallback answer, and is fresh at a time exactly when less than five minutes have passed since it was written |

## Left out

- Admin handlers: modelled as called by an administrator; the 403 that `requireAdmin` answers every other caller (backend/src/routes/admin.ts:9-10) is not modelled, and the handlers that take no caller do not check one.
- Authentication tokens, password hashing and the signed-in user: the caller's id is a parameter, and the session handlers read the admin flag from the caller's user row (`isAdmin`), as the middleware loads it, and `password` stands for its hash (hashing is taken to be injective).
- Notifications and socket broadcasts: calls into code outside the rules, with no effect on the modelled tables.
- Sessions.Conclude: settling and cancelling send `unlock-behavior` requests (backend/src/routes/sessions.ts:949, 969, 1166, 1186) and a `check-achievements` request (988, 1205) to the badge routes. These insert `userBadges` rows, and they run before the status becomes settled or cancelled (1008, 1225), so `initiated_sessions` does not yet count this session. These writes are not modelled; `OnlyGameTables` states only the handler's own writes.
- Admin.GenerateInvites: `count` and `expiresIn` are integers in the model. The code accepts any JSON value that passes its comparisons: a count of 1.5 passes the range check and issues 2 codes, and a non-numeric string fails both comparisons and answers success with no codes.
- The audit log: written after the changes the model covers, and never read back by them.
- The list, history, detail, logout, me, users, audit and export endpoints: they only read.
- Login: checks the password and writes only the user's `updatedAt` (backend/src/routes/auth.ts:157-160), a field outside the model.
- The preset-game routes: they create, update and delete `presetGame` rows (backend/src/routes/presetGames.ts:58, 91, 120, 159), a table outside the model.
- Random invitation codes: `randomBytes` is replaced by the parameter `codes`.
- Concurrency: requests are taken one at a time, and each handler's database calls form one step.
- Foreign-key and other database failures beyond those the model names (a clash of invitation codes, an unknown attendance entry, an empty option list).
- JSON parsing of stored votes and options: a stored vote is the first entry of its ranking, or none. A non-integer `gameIndex`, and a ranking that does not parse, are not modelled.
- Calendar arithmetic: `setDate(getDate() + n)` is taken as adding `n` whole days of 86 400 000 ms, and the streak works on whole day numbers given as a sequence (`days`), latest first.
- Badges.CheckAchievements: takes the attendance days, which the source reads from the database, as a parameter.
- Badges.SelectRank: returns the chosen code; when nothing matches, the lookup of the `missing` badge in the table (which may return nothing) is not modelled.
- FuzzySearch.Normalize: lower-cases ASCII letters only; JavaScript's `toLowerCase` also folds other scripts.
- SteamCache.Cache.GetGame: the HEAD probes and the store's JSON are folded into the `fetch` parameter; no timing of the network is modelled.
- Sessions.ScoreLoop: the second settlement loop computes its rows and credits as values that are written to the database in one step, so partial writes after a failure inside that loop are not modelled.
- Sessions.Settle: states only the status outcome; the full effect is the contract of `Sessions.Conclude`, which it calls.
- Sessions.Cancel: states only the status outcome; the full effect is the contract of `Sessions.Conclude`, which it calls.
- Sessions.DeleteSessionAsWritten: keeps only well-formedness, not reconciliation, because the code as written breaks it (see Findings).

## Findings

| source | as written | input that shows it | evidently intended | confidence | as-written member | corrected member |
|---|---|---|---|---|---|---|
| backend/src/routes/sessions.ts:469-520 | deleting a session reverts only the +2 initiation bonus, then hard-deletes every ledger row of the session | a user with 107 RP whose ledger holds a +5 `attended` row and a +2 `initiated` row of one session: after deletion the ledger is empty but the user keeps 105 RP | every user's RP stays 100 plus the sum of the user's ledger rows: deleting a session's rows also takes back their effect | not executed | Sessions.DeleteAsWrittenLosesLedgerRows | Sessions.DeleteKeepsReconciled |
