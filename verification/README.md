# Swiss-tournament manager: a Dafny model of its core

The system is a console chess-club manager. It keeps a registry of players and a list of
Swiss-system tournaments. A tournament holds a roster, a list of rounds of matches, a history
of pairings and a status that moves from "non démarré" to "en cours" to "terminé".

This project models, as pure functions over immutable datatypes:

- the round-and-pairing engine of `models/tournament.py`:
  - the ordering pass and the greedy pairing;
  - starting a round and recording results;
  - recomputing points;
  - the save/load record mapping and the file name;
- the match record of `models/match.py`;
- the deterministic alternative pairer, result entry and standings of `controllers/round_controller.py`;
- the status guards (start, next round, score entry) and the score-entry collection.
  The guards are written once; their copies in the controllers are listed under "## Model".
- roster editing:
  - choosing a tournament by number;
  - the add and remove selections;
  - replacing player references by id;
- the player registry:
  - id validation on create and update;
  - select by number or id, update, delete;
  - the cross-tournament sync of a changed player;
- the export folder name `_slug` of `services/export_csv_service.py`.

Modelling conventions:
- Points and scores are integer half-points: a win is 2, a draw 1 and a loss 0.
- Interactive input is a list of typed lines. The re-prompt loops consume that list. Running
  out of lines is the `EOFError` the prompt would raise, here `EndOfInput`.
- Python exceptions become error values:
  - `IndexError` is `IndexOutOfRange`;
  - `StopIteration` is `NotFound`;
  - `ValueError` from `list.remove` is `NotInList`;
  - `KeyError` on load is `UnknownId`;
  - an odd roster is `OddRoster`;
  - no rounds left is `RoundsExhausted`.
- A round is closed when its end time is set.
- The clock is a parameter `now`.
- The random shuffle is a parameter constrained by `Ordering.ShuffleOutcome`.

Files:
- `wrappers.dfy`: `Option` and `Result`.
- `text.dfy`: ASCII string helpers for strip, split, upper, lower, title and digits.
- `sorting.dfy`: a stable insertion sort under a total preorder.
- `matches.dfy`, `domain.dfy`: the entities.
- `ordering.dfy`, `pairing.dfy`, `lifecycle.dfy`, `records.dfy`: `models/tournament.py`.
- `round_control.dfy`: `controllers/round_controller.py`.
- `guards.dfy`: the status guards and score collection.
- `roster.dfy`: tournament choice, roster editing and reference replacement.
- `registry.dfy`: `controllers/player_controller.py`.
- `slug.dfy`: `_slug`.

## Model

The status guards are written once and hold for each of their identical copies. The table cites one
copy per member. The other copies are:
- the start guard at controllers/tournament_start.py:51-84 and controllers/tournament_controller.py:571-601;
- the launch at controllers/tournament_start.py:87-107;
- the next-round chain at controllers/tournament_rounds.py:189-205 and controllers/tournament_controller.py:726-742;
- the score-entry guard at controllers/tournament_scores.py:61-81 and controllers/tournament_controller.py:635-646;
- the score collection at controllers/tournament_scores.py:112-157;
- the score-entry flow at controllers/tournament_rounds.py:214-247;
- the reference replacement at controllers/tournament_controller.py:995-1015.

| member | source | states |
|---|---|---|
| Matches.NewMatch | models/match.py:9-13 | the players are kept in argument order and both scores start at zero |
| Matches.Serialize | models/match.py:15-23 | the stored form rebuilds into the very match it came from |
| Matches.Deserialize | models/tournament.py:262-269 | the first stored pair becomes player 1 with its score and the second pair player 2 with its score |
| Matches.SerializeRoundTrip | models/match.py:15-23 | the record is ((id1, s1), (id2, s2)), and rebuilding a match from it gives back the same ids in the same order with the same scores |
| Matches.DeserializeRoundTrip | models/tournament.py:262-269 | serialising a match rebuilt from any record gives that record back |
| Domain.NewTournament | models/tournament.py:19-41 | a new tournament is "non démarré" at round index 0 with no players, rounds or history, and keeps its name and round budget |
| Domain.Close | models/tournament.py:157 | closing a round marks it closed and keeps its name, matches and start time |
| Domain.PyIndex | models/tournament.py:157 | Python list indexing: an index is valid iff it lies in -n..n-1, and a negative index counts from the end |
| Domain.MetSymmetric | models/tournament.py:94-101 | the history check ignores the order of the pair |
| Domain.IdsPermutation | models/tournament.py:57-81 | a reordered roster has the same multiset of ids |
| Domain.UniqueIdsPermuted | models/tournament.py:57-81 | reordering a roster keeps its ids distinct |
| Domain.Credit | models/tournament.py:150-152 | crediting an id adds the score to exactly the entries with that id and changes nothing else |
| Ordering.SortByPoints | models/tournament.py:64 | the points sort is a permutation of the roster |
| Ordering.UnshuffledIsOutcome | models/tournament.py:57-81 | the unshuffled roster is an allowed round-1 order, and the plain points sort is an allowed later-round order |
| Ordering.OutcomeNonIncreasing | models/tournament.py:64-81 | every allowed later-round order is non-increasing in points |
| Ordering.ShuffleWindowKeepsOutcome | models/tournament.py:67-81 | shuffling a window of equal-points players keeps the order allowed |
| Ordering.MaximalRun | models/tournament.py:67-76 | in a non-increasing order, a maximal equal-points run has strictly higher points before it and strictly lower after it |
| Ordering.RunCount | models/tournament.py:67-81 | a maximal run holds every roster entry with its points value and no other entry |
| Ordering.RunIsPermuted | models/tournament.py:67-81 | each equal-points run of an allowed order is a permutation of the same run of the points sort |
| Pairing.PartnerIndex | models/tournament.py:92-101 | the partner is the first remaining player not yet met, and a met player is taken only when every remaining player was met, in which case it is the first |
| Pairing.Greedy | models/tournament.py:85-107 | an even list of players yields half as many matches |
| Pairing.GreedyStep | models/tournament.py:91-107 | the first match pairs the head with its partner, and the rest is the greedy pairing of the others under the extended history |
| Pairing.GreedyCoversPlayers | models/tournament.py:85-107 | the ids of the matches are exactly the ids of the players, as a multiset |
| Pairing.GreedyUnscored | models/tournament.py:105 | every new match starts at 0-0 |
| Pairing.FirstRematchForced | models/tournament.py:92-103 | the first match is a rematch only when the head had met every other player |
| Pairing.RematchOnlyWhenForced | models/tournament.py:92-103 | any match is a rematch only when its first player had met every player still unpaired at that point |
| Pairing.PairPlayers | models/tournament.py:45-111 | an odd roster fails with the roster, rounds and history untouched; otherwise the roster becomes the given order, half as many matches are built, they cover the roster's ids and are unscored, and the history grows by exactly their pairs in match order |
| Pairing.PairingCoversRoster | models/tournament.py:85-107 | with distinct ids every player appears in exactly one match |
| Lifecycle.RoundName | models/tournament.py:123 | the round created when `index` rounds exist is named "Round " followed by the decimal digits of index+1, which read back as index+1 |
| Lifecycle.RoundNamesDiffer | models/tournament.py:123 | rounds created at different counts get different names |
| Lifecycle.StartNextRound | models/tournament.py:113-133 | with the round budget spent the tournament is unchanged and the call fails; an odd roster fails unchanged; otherwise exactly one open round "Round i+1" holding the greedy pairing is appended, the index grows by one, status becomes "en cours" and the history grows by the new pairs |
| Lifecycle.StartKeepsRoundCount | models/tournament.py:126-129 | starting a round keeps the round index equal to the number of rounds |
| Lifecycle.StartExtendsHistory | models/tournament.py:107 | the history only grows: old entries are kept as a prefix, and a successful start adds one entry per match |
| Lifecycle.StartKeepsPoints | models/tournament.py:113-133 | when every player's points equal the sum of their recorded scores, starting a round keeps that true |
| Lifecycle.Recalculate | models/tournament.py:290-309 | recalculation changes only the players' points and keeps the roster's identities and order |
| Lifecycle.RecalculateConsistent | models/tournament.py:290-309 | after recalculation each player's points equal the sum of their scores over every match of every round |
| Lifecycle.RecalculateIgnoresPoints | models/tournament.py:290-309 | the result does not depend on the points the players held before |
| Lifecycle.RecalculateIdempotent | models/tournament.py:290-309 | recalculating twice gives the same tournament as recalculating once |
| Lifecycle.RecalculateFixesConsistent | models/tournament.py:290-309 | a tournament whose points are already consistent is left unchanged |
| Lifecycle.Address | models/tournament.py:145-149 | a result entry addresses a match only when both indices are valid Python indices |
| Lifecycle.SetScores | models/tournament.py:148-149 | exactly the addressed match gets the new scores and every other match is unchanged |
| Lifecycle.ApplyEntry | models/tournament.py:145-152 | a bad address raises IndexError; otherwise only rounds and points change, the round shape is kept, and each player gains the credit of that entry |
| Lifecycle.ApplyEntries | models/tournament.py:145-152 | recording entries touches only the rounds and the players, and keeps the number of each |
| Lifecycle.ApplyEntriesShape | models/tournament.py:145-152 | recording entries never changes the number of rounds or matches or the players' identities |
| Lifecycle.ApplyEntriesFails | models/tournament.py:145-152 | the loop raises iff some entry addresses no match, and then the error is IndexError |
| Lifecycle.ApplyEntriesPoints | models/tournament.py:150-152 | each player's points grow by the sum of the credits of the entries |
| Lifecycle.ApplyEntriesScores | models/tournament.py:148-149 | each match ends with the scores of the last entry addressing it, or keeps its old scores when none does |
| Lifecycle.LastScoresOnly | models/tournament.py:148-149 | when exactly one entry addresses a match, that match ends with that entry's scores |
| Lifecycle.CloseCurrent | models/tournament.py:157-162 | round index-1 is closed with its matches kept and the other rounds unchanged; status becomes "terminé" iff the index has reached the budget and is otherwise unchanged; a bad index raises IndexError |
| Lifecycle.RecordResults | models/tournament.py:135-162 | a failing entry stops the loop with the partial state; otherwise the current round is closed after all entries are applied |
| Lifecycle.RecordResultsCloses | models/tournament.py:145-162 | after a successful record, the current round is closed with the recorded matches, other rounds carry the recorded scores, and status follows the budget |
| Lifecycle.RecordResultsSucceeds | models/tournament.py:135-162 | recording succeeds iff every entry addresses a match and the current round index is a valid index |
| Lifecycle.RecordResultsPoints | models/tournament.py:150-152 | after a successful record, each player's points grew by exactly their credits from the entries |
| Lifecycle.RecordKeepsRoundCount | models/tournament.py:135-162 | recording keeps the round index equal to the number of rounds |
| Lifecycle.RecordKeepsPoints | models/tournament.py:135-162 | recording fresh results into unscored matches keeps points equal to the recorded scores |
| Records.ToRecord | models/tournament.py:189-212 | the record keeps the player ids in order, round i stored as the record of round i, the name, place, description and dates, the history, the status, the index and the budget |
| Records.LastWithId | models/tournament.py:255 | the id map keeps the last registry entry with each id |
| Records.Lookup | models/tournament.py:255-257 | looking up an unknown id raises KeyError; a known id gives a registry player with that id |
| Records.LookupAll | models/tournament.py:257 | the roster loads iff every id is known, and then in the stored order |
| Records.RoundFromRecord | models/tournament.py:260-277 | a round loads iff all its match ids are known, and it keeps its name, times and deserialised matches |
| Records.FromRecord | models/tournament.py:224-286 | loading fails iff some roster or match id is unknown; otherwise the roster is the looked-up players, the rounds are the loaded rounds, the name, place, description, dates, round budget, history, status and index come from the record, and points are consistent with the rounds |
| Records.SaveLoadRoundTrip | models/tournament.py:179-286 | loading what was saved, against a registry that agrees with the roster, gives the tournament with recalculated points |
| Records.FileName | models/tournament.py:166-177 | the file name is the name with each space turned into "_" and each letter lower-cased, character by character, followed by ".json" |
| Records.FileNameShared | models/tournament.py:172 | two names share a file iff they have the same length and agree character by character once spaces become "_" and letters are lower-cased |
| Records.FileNameCollision | models/tournament.py:172 | two different tournament names can share one file |
| RoundControl.Standings | controllers/round_controller.py:105 | the standings are a permutation of the roster |
| RoundControl.StandingsOrdered | controllers/round_controller.py:105 | standings run by points descending, then last name, then first name |
| RoundControl.ParseResult | controllers/round_controller.py:35-44 | an answer is accepted iff its stripped text is one of "1-0", "0-1", "0.5-0.5" or "½-½" |
| RoundControl.ParseResultAccepts | controllers/round_controller.py:35-44 | "1-0" is a win for player 1, "0-1" a win for player 2, and the two draw spellings a draw, each iff |
| RoundControl.Results | controllers/round_controller.py:32-44 | each typed line is parsed independently and in order |
| RoundControl.ScoreMatches | controllers/round_controller.py:32-44 | scoring keeps every match's players; match j gets the j-th valid answer typed, matches past the valid answers keep their scores, and running out of answers (fewer valid answers than matches) is EOFError |
| RoundControl.ScoredResultsAccepted | controllers/round_controller.py:32-44 | when every match got an answer, every match carries an accepted result |
| RoundControl.CreditShared | controllers/round_controller.py:52-53 | the two found objects gain their scores, shown at every roster entry that is the same object; no other field changes |
| RoundControl.CreditFirst | controllers/round_controller.py:49-53 | crediting fails with StopIteration iff a player of the match is not on the roster; otherwise the object the first lookup of each id lands on gains that player's score, at every entry that is that object, both players being found before either is credited |
| RoundControl.CreditAllFirst | controllers/round_controller.py:49-53 | crediting every match keeps the size of the roster, and the only error it can raise is StopIteration |
| RoundControl.CreditAllFirstTotals | controllers/round_controller.py:49-53 | crediting all matches keeps the roster, and each entry that is the object its id's lookup lands on gains all its scores in the matches; any other entry gains nothing |
| RoundControl.CreditAllFirstAliases | controllers/round_controller.py:49-53 | two entries holding one object are still equal after crediting: each shows every credit |
| RoundControl.CreditAllShared | controllers/round_controller.py:49-53 | on a roster where repeated ids are one shared object, as `load` builds it, every entry gains all its id's scores |
| RoundControl.CreditAllFirstFails | controllers/round_controller.py:49-53 | crediting all matches succeeds iff every player of every match is on the roster |
| RoundControl.EnterResults | controllers/round_controller.py:18-56 | with no rounds or a closed last round it returns false with no change; only the last round and the points can change; on success the last round is closed |
| RoundControl.EnterResultsCredits | controllers/round_controller.py:46-53 | with answers for every match, the last round is closed, match j carries the j-th valid answer typed, and each player gains their scores from it |
| RoundControl.Played | controllers/round_controller.py:72-78 | two players have played iff some match of some round paired them, in either order |
| RoundControl.Opponent | controllers/round_controller.py:80-95 | the opponent is the first unused entry that is not the same player (`q is p`) and has not been met, or, failing that, the first unused entry that is not the same player; none exists iff every other player is used |
| RoundControl.SelfPairingRefused | controllers/round_controller.py:80-95 | one player listed twice is never paired with itself: the pairing raises StopIteration |
| RoundControl.NextPairs | controllers/round_controller.py:80-95 | running out of opponents is StopIteration, and every new match is unscored |
| RoundControl.FirstFresh | controllers/round_controller.py:80-82 | the first position from a start whose player is not yet paired, or none iff every player from there on is paired |
| RoundControl.NextPairsStep | controllers/round_controller.py:80-95 | a paired player is skipped; an unpaired one is seated in the first match with their `Opponent`, and the later players are paired with both ids marked as paired |
| RoundControl.NextPairsMatch | controllers/round_controller.py:80-95 | match k seats the first player in list order that the earlier matches left unpaired, with that player's `Opponent` among the players still unpaired |
| RoundControl.NextPairsPartition | controllers/round_controller.py:80-95 | pairing succeeds iff an even number of players is left unused, and then the matches cover each unused player exactly once |
| RoundControl.NextPairsRematch | controllers/round_controller.py:80-95 | a new match is a rematch only when its first player had met every player still unpaired |
| RoundControl.PairsEveryone | controllers/round_controller.py:68-95 | with distinct ids the pairing succeeds iff the roster is even, and then every player is in exactly one match |
| RoundControl.NextRound | controllers/round_controller.py:60-99 | with the budget spent or the last round open it returns false with no change; on success exactly one round "Round n+1" is appended, holding the pairing of the players in standings order (points descending, then last name, then first name), and nothing else changes; when the guards pass it returns false iff that pairing raises, and the error is StopIteration |
| RoundControl.NextRoundSelfRefused | controllers/round_controller.py:60-99 | a roster holding one player twice gets no round: StopIteration is raised and nothing changes |
| RoundControl.StandingsPairsEveryone | controllers/round_controller.py:68-95 | pairing the standings of a roster with distinct ids succeeds iff the roster is even, and then seats exactly that roster once each, with rematches only where forced |
| RoundControl.NextRoundPairsEveryone | controllers/round_controller.py:60-99 | when the guards pass, a new round is added iff the roster is even; its matches are the pairing of the standings order, every player is seated exactly once, and a rematch happens only when forced; an odd roster raises StopIteration |
| RoundControl.NextRoundSwiss | controllers/round_controller.py:68-95 | match k of a new round seats the best-placed player in standings order whom the earlier matches left unpaired, with the first unpaired player they have not met, or else the first unpaired player |
| RoundControl.NextRoundLeaderFirst | controllers/round_controller.py:68-95 | the standings leader is seated in the first match of a new round, with their `Opponent` |
| Guards.StartRefused | controllers/tournament_rounds.py:84-120 | start is allowed iff the roster is non-empty, even, at least 2, and status is neither "terminé" nor "en cours"; each refusal names its reason |
| Guards.OnlyNotStartedStarts | controllers/tournament_start.py:71-84 | among the three statuses only "non démarré" passes the start guard |
| Guards.NotStartedOnly | controllers/tournament_rounds.py:55 | exactly the "non démarré" tournaments are offered for starting |
| Guards.Launch | controllers/tournament_rounds.py:123-143 | launching sets "en cours" before starting the round, so a start that raises leaves status "en cours" |
| Guards.StartTournament | controllers/tournament_rounds.py:84-143 | a refused start changes nothing, and an allowed one launches |
| Guards.StartOpensOneRound | controllers/tournament_start.py:100-104 | an allowed start with rounds left adds exactly one open round and the tournament is "en cours" |
| Guards.LaunchWithoutRoundsLeft | controllers/tournament_rounds.py:137-140 | with the budget spent, launching sets "en cours" and then raises, leaving no round added |
| Guards.NextRefused | controllers/tournament_next_round.py:36-49 | "terminé" is refused before anything else, then an open last round, then a spent budget; otherwise the next round is allowed |
| Guards.StartNext | controllers/tournament_next_round.py:52 | a refused next round changes nothing; otherwise exactly one `start_next_round` is performed |
| Guards.StartNextOneRound | controllers/tournament_next_round.py:36-52 | when the guards pass on an even roster, exactly one round is added and the index grows by one |
| Guards.NextGuardsAgree | models/tournament.py:116-117 | while the index equals the number of rounds, the controller's guards pass iff the tournament is not over, the last round is closed and rounds remain |
| Guards.ScoresOnlyInProgress | controllers/tournament_rounds.py:256-276 | among the three statuses, scores may be entered iff the tournament is "en cours" |
| Guards.ParseScore | controllers/tournament_rounds.py:355-384 | an answer is accepted iff, stripped and without spaces, it is "1-0", "0-1" or "0.5-0.5", and these give (1, 0), (0, 1) and (0.5, 0.5) respectively |
| Guards.SpacedAnswerAccepted | controllers/tournament_scores.py:160-189 | "1 - 0" is accepted as a win for player 1 |
| Guards.Answers | controllers/tournament_rounds.py:331-343 | each typed line is parsed independently and in order |
| Guards.CollectScores | controllers/tournament_rounds.py:307-352 | one entry (num-1, i-1, a, b) per match in match order, whose scores are the valid answers in the order typed; EOFError iff fewer valid answers than matches remain |
| Matches.GivenInOrder | controllers/tournament_rounds.py:355-384 | the valid answers, in the order typed, are never more than the answers given |
| Guards.EnterScores | controllers/tournament_scores.py:19-52 | a refused status or a closed last round changes nothing; no rounds raises IndexError; running out of answers changes nothing |
| Guards.CollectedTargetsFresh | controllers/tournament_rounds.py:327-352 | the collected entries address the matches of the last round in order, each once |
| Guards.EnterScoresRecords | controllers/tournament_scores.py:44-52 | with an open unscored last round and answers for all its matches, the round is recorded and closed, match k carries the k-th valid answer typed, and points stay consistent |
| Guards.RecordedAsTyped | models/tournament.py:145-152 | recording one entry per match of the last round, each addressing its own match, closes that round with each match carrying its entry's scores |
| Roster.ByName | controllers/tournament_players.py:169 | the re-sorted roster is a permutation sorted by last name, then first name |
| Roster.Listing | controllers/tournament_controller_base.py:95 | the listing is a permutation sorted by lower-cased name |
| Roster.Choose | controllers/tournament_controller_base.py:72-113 | a choice is made iff the answer is all digits with value 1..n, and the result is one of the tournaments; an empty list gives none |
| Roster.ChooseFollowsListing | controllers/tournament_controller_base.py:95-113 | a smaller number never picks a later name in the lower-cased order |
| Roster.ChooseReachesAll | controllers/tournament_controller_base.py:106-113 | every tournament of the list is chosen by some number k in 1..n |
| Roster.Editable | controllers/tournament_players.py:52-55 | exactly the "non démarré" tournaments are offered, sorted by lower-cased name |
| Roster.ChosenForEditing | controllers/tournament_players.py:52-55 | a tournament chosen for editing is "non démarré" and belongs to the list |
| Roster.Tokens | controllers/tournament_players.py:280-290 | the selection is split on commas and each token stripped |
| Roster.Select | controllers/tournament_players.py:280-314 | the selected indices are distinct, in range, not already taken, and are exactly the in-range numbers named by digit tokens; corrected (see ## Findings) |
| Roster.SelectAsWritten | controllers/tournament_controller.py:465-483 | the source's selection yields only in-range indices; duplicates by number are possible |
| Roster.LeadingZeroSelectsTwice | controllers/tournament_controller.py:465-483 | "1,01" selects the first player twice as written and once when deduplicated by number |
| Roster.PicksDistinct | controllers/tournament_players.py:280-314 | distinct indices into a duplicate-free list pick distinct players |
| Roster.Available | controllers/tournament_players.py:255-266 | the offered players are exactly the registry minus the roster, sorted by name, and without duplicates when the registry has none |
| Roster.AddPlayers | controllers/tournament_players.py:98-178 | adding never raises; the roster grows by exactly the added players, each from the registry and not already on the roster; the roster is re-sorted when something was added and untouched otherwise; corrected (see ## Findings) |
| Roster.AddPicksListed | controllers/tournament_players.py:134-162 | an offered player is added when a token names its number, and every added player is the offered player at some named number |
| Roster.AddKeepsDistinct | controllers/tournament_controller.py:439-497 | with the corrected selection the roster never holds the same player twice |
| Roster.RemoveFirst | controllers/tournament_players.py:235-242 | `list.remove` drops exactly one occurrence |
| Roster.Confirm | controllers/tournament_players.py:235-242 | the kept and removed players together are the old roster; a missing player raises ValueError; running out of answers is EOFError; otherwise exactly the confirmed picks are removed |
| Roster.ConfirmDistinctFound | controllers/tournament_players.py:235-242 | distinct picks from the roster never raise ValueError |
| Roster.RemovalPicksAsWritten | controllers/tournament_players.py:221-232 | the removal selection keeps every in-range number named, repeats included |
| Roster.RemovePlayersAsWritten | controllers/tournament_controller.py:499-554 | the kept and removed players together are the old roster |
| Roster.RepeatedNumberRaises | controllers/tournament_controller.py:520-540 | "1,1" confirmed twice raises ValueError as written |
| Roster.RemovePlayers | controllers/tournament_players.py:185-252 | the kept and removed players together are the old roster; on success the removed players are exactly the picks whose answers confirm them, in pick order; EOFError iff fewer answers than picks were typed and no confirmed pick was already missing from the roster; a saved change leaves the roster sorted by name; corrected (see ## Findings) |
| Roster.RemovalPicks | controllers/tournament_players.py:217-232 | pick k is the player at the k-th selected number in the roster sorted by name, so every pick is on the roster |
| Roster.ConfirmedPicksIff | controllers/tournament_players.py:235-242 | a player is removed iff it is a pick whose answer, lower-cased, is "o" |
| Roster.RemoveOnlyConfirmed | controllers/tournament_players.py:185-252 | a completed removal takes off exactly the players at the numbers typed whose answer confirms them |
| Roster.RemoveNeverMissing | controllers/tournament_players.py:221-242 | with the corrected selection, removal never raises ValueError |
| Roster.ManageRoster | controllers/tournament_controller.py:405-408 | editing is refused unless the tournament is "non démarré"; adding grows the roster by the added players, removing shrinks it |
| Roster.ReplaceById | controllers/tournament_utils.py:34-56 | every entry with the updated player's id becomes that player, the others are unchanged, length and id order are kept, and a save happens iff the id was present |
| Roster.ReplaceSettles | controllers/tournament_utils.py:47-52 | replacing a second time changes nothing more |
| Roster.UpdatePlayerReferences | controllers/tournament_controller_base.py:176-198 | each tournament's roster has its same-id entries replaced, and it is saved iff something was replaced |
| Registry.OrKeep | controllers/player_controller.py:137-143 | a blank answer keeps the old value |
| Registry.CreatePlayer | controllers/player_controller.py:57-79 | creation fails with EOFError iff no typed id has the shape AB plus five digits and is unused; otherwise exactly one player is appended, with the id of the first acceptable typed line, title-cased names and zero points |
| Registry.FirstAccepted | controllers/player_controller.py:61-69 | the first typed id line that has the right shape and is unused, or none iff no line qualifies |
| Registry.CreateKeepsIdsUnique | controllers/player_controller.py:61-69 | creating a player keeps the registry's ids distinct |
| Registry.NumberPosition | controllers/player_controller.py:104-117 | a number names the player at that position of the name-sorted list |
| Registry.IdPosition | controllers/player_controller.py:118-122 | an id finds a player iff some player has it, and the first one |
| Registry.SelectPlayer | controllers/player_controller.py:104-122 | a digit key k selects iff 1 <= k <= n, the k-th player by name; any other key selects iff it is some player's id |
| Registry.AsWrittenRejectsEveryId | controllers/player_controller.py:126-135 | the update pattern, as written, matches no normalised input, even a well-formed id like AB12345 |
| Registry.AsWrittenKeepsId | controllers/player_controller.py:126-135 | as written, an update can never change a player's id |
| Registry.RequestedId | controllers/player_controller.py:126-128 | a blank id answer keeps the old id, otherwise the normalised answer is requested |
| Registry.Revised | controllers/player_controller.py:137-155 | the revised player has the new id and the old points; blank names and a skipped birth date keep the old values |
| Registry.UpdatePlayer | controllers/player_controller.py:95-160 | an update changes at most the selected player, into its revision, and hands it to the sync; it reaches the sync iff the key selects a player and the requested id is allowed; a refused id or an unknown key changes nothing; distinct ids stay distinct; corrected (see ## Findings) |
| Registry.UpdateBlankIdRevises | controllers/player_controller.py:126-155 | a blank id answer keeps the selected player's id and still revises its names and birth date, leaving the other players unchanged |
| Registry.UpdateChangesId | controllers/player_controller.py:126-160 | with the corrected pattern, a well-formed unused id replaces the old one and nothing else in the list changes |
| Registry.UpdateRefusesTakenId | controllers/player_controller.py:133-135 | an id already held by another player is refused with no change |
| Registry.DeletePlayer | controllers/player_controller.py:163-199 | a player is removed iff the key selects one, the removed player is the selected one, and exactly one occurrence of it goes |
| Registry.DeleteByNumber | controllers/player_controller.py:176-187 | delete by number k removes the k-th player of the name-sorted list |
| Registry.SyncEverywhere | controllers/player_controller.py:202-229 | a save happens iff some tournament mentions the old id; unmentioned tournaments are unchanged and sizes are kept; a stored player with the old id takes the new id, names and birth date and others are untouched; a match player equal to the old id becomes the new id |
| Registry.SyncKeepsScores | controllers/player_controller.py:207-226 | the sync copies only the identity fields, so every stored score and match score is kept |
| Registry.SyncSettles | controllers/player_controller.py:202-229 | after a sync to a new id no mention of the old id remains, and a second sync saves nothing |
| Slug.DropRun | services/export_csv_service.py:17 | the dropped prefix holds only replaced characters and what is left starts with a kept one |
| Slug.Collapse | services/export_csv_service.py:17 | the substitution leaves only characters of [A-Za-z0-9_-] |
| Slug.Slug | services/export_csv_service.py:16-17 | the result is non-empty, uses only [a-z0-9_-], and neither starts nor ends with "_" |
| Slug.CollapseRun | services/export_csv_service.py:17 | a maximal run of other characters becomes a single "_" |
| Slug.SlugIdempotent | services/export_csv_service.py:16-17 | slugging a slug changes nothing |
| Slug.SlugKeepsAlnums | services/export_csv_service.py:16-17 | every letter and digit of the name reaches the slug, lower-cased and in order |

## Left out

- Console I/O, printing and menus are not modelled. Typed answers are input lists.
- JSON files are not modelled. `save` and `load` are modelled as the mapping to and from a record. The registry is a parameter of loading.
- JSON-level defects are not modelled, because they belong to the file layer:
  - `datetime` values that `json.dump` cannot write;
  - history tuples that come back as lists after loading.
- `random.shuffle`: the order is a parameter. For later rounds it must be a permutation that agrees pointwise in points with the stable points sort.
- `datetime.now`: it is the parameter `now`. A round is closed when its end time is set.
- Birth-date parsing with `strptime` and its prompt loop: the update takes the parsed date as an `Option`.
- Registry.CreatePlayer: it takes the name and birth-date answers as values and does not model their prompts.
- Floating-point scores: these are integer half-points, which is exact for 0, 0.5 and 1.
- String functions are ASCII-only. `str.strip`, `upper`, `lower`, `title` and `isdigit` ignore non-ASCII whitespace, letters and digits.
- Matches refer to players by id. The source stores `Player` objects. Crediting every roster entry with the id matches the sharing that `load` sets up through its id map.
- RoundControl.Opponent: `q is p` is modelled as equality of the two `Player` records. Two distinct objects with identical fields count as one player, so neither is offered as the other's opponent. A repeated entry of one object is skipped, as in the source.
- RoundControl.CreditFirst: object identity is equality in the roster as it stood before crediting began. An entry that is a distinct object with identical fields to the one found also shows the credit.
- Players are found by the first structurally equal entry. This is where update, delete and removal would use object identity in the source.
- Registry.SyncEverywhere: stored records are matched on the player-id key. The source looks under keys (`id_national`, `player1_id`) that differ from what `save` writes. The model assumes the keys agree.
- `Round.close` does not exist in the source. It is modelled as setting the end time. Other attribute-name mismatches (`national_id` against `id_national`, `points` against `score`) are unified into one `Player` datatype.
- No winner or tie-break is computed by the source, so none is modelled.
- Report rendering, CSV and HTML export are not modelled, apart from `_slug`.
- The aggregation module `controllers/tournament_controller_main.py` is not part of this model.
- Tournament creation, modification, deletion and listing flows are not part of this model.

## Findings

| source | as written | input that shows it | evidently intended | confidence | as-written member | corrected member |
|---|---|---|---|---|---|---|
| controllers/tournament_controller.py:465-483 | repeated tokens are skipped by their text, so two spellings of one number both pass | selection "1,01" adds the first offered player twice | skip a number already chosen, so no player is added twice | not executed | Roster.LeadingZeroSelectsTwice | Roster.AddKeepsDistinct |
| controllers/tournament_players.py:221-242 | the removal selection keeps repeated numbers, and the second `list.remove` of the same player raises ValueError | selection "1,1" confirmed twice on a one-player roster | remove each chosen player once | not executed | Roster.RepeatedNumberRaises | Roster.RemoveNeverMissing |
| controllers/player_controller.py:130 | the raw pattern `AB\\d{5}` matches only the literal text `AB\ddddd`, which an upper-cased answer can never be | new id "AB12345" for any player | accept AB followed by five digits, as at line 63 | not executed | Registry.AsWrittenRejectsEveryId | Registry.UpdateChangesId |
