# Swiss tournament bookkeeping, modelled in Dafny

`vagrant/tournament/tournament.py` keeps a Swiss-system tournament in two
database tables. `players` holds (id, name) and `matches` holds (winner,
loser). Around them sit:

- the mutators `deleteMatches`, `deletePlayers`, `registerPlayer` and `reportMatch`;
- the queries `countPlayers`, `allPlayers`, `getWins` and `getMatches`;
- the engine. `playerStandings` builds one (id, name, wins, matches) row per
  player and sorts the rows by wins. `swissPairings` pairs the sorted rows
  two at a time from the front.

The model replaces the database with plain data:
`Store(players: seq<Player>, matches: seq<Match>)`. Each mutator becomes a
function from the old store to the new one, and each query becomes a pure
function of the store. The files are:

- `tournament.dfy` (module `Tournament`): the store, the queries and the
  mutators, with the count lemmas.
- `standings.dfy` (module `Standings`): the per-player rows and the stable
  insertion sort on wins.
- `pairings.dfy` (module `Pairings`): pairing of the standings, both as a
  function and as the pop-twice loop of `tournament.py`.
- `scenarios.dfy` (module `Scenarios`): a worked four-player tournament.

Where the code and its doc comments disagree, the model follows the code:

- **Sort direction.** `playerStandings` sorts with `sorted(ans, key=lambda tup: tup[2])`,
  which is ascending (tournament.py:78). The doc comment (tournament.py:64-65)
  promises the leader first. The model sorts
  ascending, as the code does. `Scenarios.FirstRoundStandings` shows the
  consequence: after 1 beats 2 and 3 beats 4, the standings start with
  player 2, who has no wins. The pairings still group equal records
  (2 with 4, 1 with 3), because pairing only looks at adjacency.
- **Odd player counts.** The code has no bye: with an odd count, the second `pop(0)` of the last round hits an
  empty list and raises (tournament.py:150-152). The model returns
  `Err(PopFromEmptyList)` in exactly that case and adds no bye.

Stability is stated through `WithWins(rs, k)`, the subsequence of rows that
have exactly `k` wins. A sort is stable when it keeps every one of these
subsequences. `StableSortUnique` shows that a wins-sorted sequence is
determined by its length and these subsequences. So the model's insertion
sort returns what Python's stable `sorted` returns.

## Model

| member | source | states |
|---|---|---|
| Tournament.WinsCountsRows | vagrant/tournament/tournament.py:102 | the win count equals the number of match rows whose winner is the id, i.e. what `count(*) ... where winner = id` returns |
| Tournament.PlayedCountsRows | vagrant/tournament/tournament.py:113 | the played count equals the number of match rows whose winner or loser is the id; a row naming the id on both sides counts once |
| Tournament.WinsAtMostPlayed | vagrant/tournament/tournament.py:97-116 | a player never has more wins than matches played |
| Tournament.CountPlayersIsDistinctIds | vagrant/tournament/tournament.py:33-40 | when ids are unique, `countPlayers` equals the number of distinct registered ids |
| Tournament.AllPlayers | vagrant/tournament/tournament.py:81-94 | `allPlayers` returns as many entries as `countPlayers` reports |
| Tournament.GetWins | vagrant/tournament/tournament.py:97-105 | `getWins(id)` is the number of recorded matches that `id` won |
| Tournament.GetMatches | vagrant/tournament/tournament.py:108-116 | `getMatches(id)` is the number of recorded matches `id` took part in, and is at least `getWins(id)` |
| Tournament.DeleteMatches | vagrant/tournament/tournament.py:15-21 | after `deleteMatches`, every id has zero wins and zero matches, and the players are untouched |
| Tournament.DeletePlayers | vagrant/tournament/tournament.py:24-30 | after `deletePlayers`, `countPlayers` is 0 and the matches are untouched |
| Tournament.RegisterPlayer | vagrant/tournament/tournament.py:44-58 | registration appends one player, with the sanitised name and the database's id, at the end of `allPlayers`, and leaves the matches alone |
| Tournament.ReportMatch | vagrant/tournament/tournament.py:119-130 | reporting appends exactly one match record after the existing ones, which are kept as they were, and leaves the players alone |
| Tournament.ReportMatchCounts | vagrant/tournament/tournament.py:128 | after `reportMatch(w, l)`, an id's wins grow by 1 exactly when it is `w`, its matches grow by 1 exactly when it is `w` or `l`, and otherwise its counts are unchanged |
| Tournament.ReportMatchDistinct | vagrant/tournament/tournament.py:119-130 | for `w != l`: wins(w), matches(w) and matches(l) each grow by 1, wins(l) is unchanged, and every other id's counts are unchanged |
| Tournament.RegisterPlayerPreservesValid | vagrant/tournament/tournament.py:44-58 | registering under a fresh id keeps ids unique, adds 1 to `countPlayers` and adds exactly that id to the id set |
| Tournament.RegisterPlayerNeedsFreshId | vagrant/tournament/tournament.py:47-48 | registering under an id already in use breaks id uniqueness, so the database's fresh-id promise is needed |
| Tournament.MutatorsPreserveValid | vagrant/tournament/tournament.py:15-30 | `deleteMatches`, `deletePlayers` and `reportMatch` keep player ids unique |
| Standings.RowsOf | vagrant/tournament/tournament.py:74-77 | the loop builds one row per player, in player order; row i carries player i's id and name, the number of matches won and the number played, with wins at most matches |
| Standings.Rows | vagrant/tournament/tournament.py:74-77 | the unsorted rows are one per `allPlayers` entry, in retrieval order: row i is player i's id, name, `getWins` and `getMatches`, with wins at most matches |
| Standings.RowsPerPlayer | vagrant/tournament/tournament.py:74-77 | each player's row is among the unsorted rows, and every row belongs to some player |
| Standings.Insert | vagrant/tournament/tournament.py:78 | inserting into a wins-sorted list keeps it sorted, adds the row to the multiset, and puts it first among the rows it ties with |
| Standings.SortByWins | vagrant/tournament/tournament.py:78 | the sort returns a permutation of its input that is non-decreasing in wins and keeps every same-wins subsequence (stable) |
| Standings.SortIds | vagrant/tournament/tournament.py:78 | sorting keeps the multiset of ids |
| Standings.StableSortUnique | vagrant/tournament/tournament.py:78 | two wins-sorted sequences of equal length with the same same-wins subsequences are equal, so the stable sort is unique |
| Standings.PlayerStandings | vagrant/tournament/tournament.py:61-78 | the standings have `countPlayers` rows and are non-decreasing in wins. They are a permutation of the unsorted rows, with the registered ids as a multiset, and keep tied rows in retrieval order |
| Standings.StandingsRowPerPlayer | vagrant/tournament/tournament.py:74-78 | every registered player's (id, name, wins, matches) row is in the standings, every standings row is such a row, and no row has more wins than matches |
| Standings.StandingsAreTheStableSort | vagrant/tournament/tournament.py:78 | any list with one entry per player that is sorted by wins and has, for every number of wins, the same rows in the same order as the unsorted rows equals the standings |
| Standings.TiesKeepOrder | vagrant/tournament/tournament.py:78 | a stable rearrangement keeps the relative order of any two rows with equal wins |
| Standings.TiesKeepRetrievalOrder | vagrant/tournament/tournament.py:74-78 | if two standings rows have equal wins, the earlier one belongs to a player retrieved earlier by `allPlayers` |
| Standings.DeleteMatchesStandings | vagrant/tournament/tournament.py:15-21 | after `deleteMatches`, the standings list every player in retrieval order with 0 wins and 0 matches |
| Standings.DeletePlayersStandings | vagrant/tournament/tournament.py:24-30 | after `deletePlayers`, the standings are empty |
| Pairings.PairUp | vagrant/tournament/tournament.py:148-155 | pairing succeeds exactly when the row count is even, giving n/2 pairings with pairing k = (id, name) of row 2k then of row 2k+1; it fails with the empty-pop error exactly when the count is odd |
| Pairings.PairLoop | vagrant/tournament/tournament.py:150-154 | the pop-twice `while` loop computes exactly `PairUp`, including the failure on an odd count |
| Pairings.PairedIdsAreRowIds | vagrant/tournament/tournament.py:150-154 | for an even row count, the pairings' ids read left to right are the rows' ids in order |
| Pairings.SwissPairings | vagrant/tournament/tournament.py:133-155 | `swissPairings` succeeds exactly when `countPlayers` is even, with `countPlayers / 2` pairings of adjacent standings rows |
| Pairings.SwissPairingsExactlyOnce | vagrant/tournament/tournament.py:136-137 | with unique ids and an even count, every registered id appears exactly once across the pairings, no other id appears, and no id repeats |
| Pairings.SwissPairingsOddFails | vagrant/tournament/tournament.py:150-152 | with an odd count, `swissPairings` fails with the empty-pop error |
| Pairings.DeletePlayersPairings | vagrant/tournament/tournament.py:148-150 | after `deletePlayers`, the pairings are the empty list |
| Scenarios.FirstRoundStandings | vagrant/tournament/tournament.py:61-78 | with players 1-4, after 1 beats 2 and 3 beats 4, the standings are 2, 4, 1, 3, and the first row has fewer wins than the last. This is the code's ascending order, not the leader first |
| Scenarios.FirstRoundValid | vagrant/tournament/tournament.py:47-48 | registering four players under the distinct ids 1 to 4 and reporting two matches yields a store whose player ids are unique |
| Scenarios.FirstRoundPairings | vagrant/tournament/tournament.py:148-155 | in that tournament the next round pairs (2, 4) and (1, 3) |
| Scenarios.NoPlayers | vagrant/tournament/tournament.py:33-40 | with no players, `countPlayers` is 0, the standings are empty and the pairings are the empty list |

## Left out

- Database access: `connect`, cursors, `execute`, `commit` and `close` are
  replaced by the two-sequence store. Connection failures are not modelled.
- `allPlayers` runs `SELECT *` with no `ORDER BY`. The model returns players
  in insertion order, which is the order the sort's stability is stated
  against.
- `registerPlayer`: `bleach.clean` is a foreign library, so it is the
  parameter `clean`. The id comes from the database's serial column, so it is
  the parameter `id`. Its freshness is the hypothesis of
  `RegisterPlayerPreservesValid`, not a precondition, since the code does not
  check it.
- The table schema (tournament.sql) is not part of this model. `reportMatch`
  accepts any two ids, and `deletePlayers` empties the players regardless of
  existing matches. Foreign keys in the schema, if any, could reject either.
- The `int(...)` and `str(id)` conversions around the queries are identity on
  the integer ids and are not modelled separately.
- Rematch avoidance and byes: the code implements neither, and neither does
  the model.
