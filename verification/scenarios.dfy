/** A worked tournament: four players, two first-round results, then the
    standings and the second-round pairings. Because the standings sort is
    ascending, the first row belongs to a player with no wins, not to the
    leader the `playerStandings` doc comment promises. */
module Scenarios {
  import opened Tournament
  import opened Standings
  import opened Pairings

  /** Registration with names stored as given. */
  function Register(s: Store, id: int, name: string): Store
  {
    RegisterPlayer(s, name, n => n, id)
  }

  /** Players A, B, C, D with ids 1 to 4; 1 beats 2 and 3 beats 4. */
  function FirstRound(): Store
  {
    var s := Register(Register(Register(Register(Empty, 1, "A"), 2, "B"), 3, "C"), 4, "D");
    ReportMatch(ReportMatch(s, 1, 2), 3, 4)
  }

  /** The counts over a two-match history. */
  lemma CountsOfTwo(a: Match, b: Match, id: int)
    ensures Wins([a, b], id) == (if a.winner == id then 1 else 0) + (if b.winner == id then 1 else 0)
    ensures Played([a, b], id)
         == (if a.winner == id || a.loser == id then 1 else 0)
          + (if b.winner == id || b.loser == id then 1 else 0)
  {
    assert [a, b][..1] == [a];
    assert [a][..0] == [];
    assert Wins([a], id) == (if a.winner == id then 1 else 0);
    assert Played([a], id) == (if a.winner == id || a.loser == id then 1 else 0);
  }

  /** The store after the first round, written out. */
  const FirstRoundTables := Store([Player(1, "A"), Player(2, "B"), Player(3, "C"), Player(4, "D")],
                                  [Match(1, 2), Match(3, 4)])

  lemma FirstRoundStore()
    ensures FirstRound() == FirstRoundTables
  {
  }

  /** The first-round counts: players 1 and 3 won their match, everyone
      registered played one, and unregistered ids have no matches. */
  lemma FirstRoundCounts(id: int)
    ensures GetWins(FirstRoundTables, id) == (if id == 1 || id == 3 then 1 else 0)
    ensures GetMatches(FirstRoundTables, id) == (if 1 <= id <= 4 then 1 else 0)
  {
    CountsOfTwo(Match(1, 2), Match(3, 4), id);
  }

  /** The first-round counts, for every id at once. */
  lemma FirstRoundAllCounts(s: Store)
    requires s == FirstRoundTables
    ensures forall id :: GetWins(s, id) == (if id == 1 || id == 3 then 1 else 0)
    ensures forall id :: GetMatches(s, id) == (if 1 <= id <= 4 then 1 else 0)
  {
    forall id
      ensures GetWins(s, id) == (if id == 1 || id == 3 then 1 else 0)
      ensures GetMatches(s, id) == (if 1 <= id <= 4 then 1 else 0)
    {
      FirstRoundCounts(id);
    }
  }

  /** The rows before sorting, in registration order. */
  lemma FirstRoundRows(s: Store)
    requires s == FirstRoundTables
    ensures Rows(s) == [Row(1, "A", 1, 1), Row(2, "B", 0, 1), Row(3, "C", 1, 1), Row(4, "D", 0, 1)]
  {
    FirstRoundAllCounts(s);
  }

  /** The four registrations used distinct ids. */
  lemma FirstRoundValid()
    ensures Valid(FirstRound())
  {
    FirstRoundStore();
  }

  /** The standings list the two losers first, then the two winners, each
      pair in registration order: the first row belongs to a player without
      a win, and the leaders come last. */
  lemma FirstRoundStandings()
    ensures PlayerStandings(FirstRound())
         == [Row(2, "B", 0, 1), Row(4, "D", 0, 1), Row(1, "A", 1, 1), Row(3, "C", 1, 1)]
    ensures PlayerStandings(FirstRound())[0].wins < PlayerStandings(FirstRound())[3].wins
  {
    FirstRoundStore();
    FirstRoundRows(FirstRoundTables);
    StandingsOfAlternatingRows(FirstRoundTables,
      Row(1, "A", 1, 1), Row(2, "B", 0, 1), Row(3, "C", 1, 1), Row(4, "D", 0, 1));
  }

  /** Whenever the rows alternate winner, loser, winner, loser, the standings
      put the losers first and the winners after them. */
  lemma StandingsOfAlternatingRows(s: Store, a: Row, b: Row, c: Row, d: Row)
    requires a.wins == 1 && b.wins == 0 && c.wins == 1 && d.wins == 0
    requires Rows(s) == [a, b, c, d]
    ensures PlayerStandings(s) == [b, d, a, c]
  {
    LosersFirst(a, b, c, d);
    StandingsAreTheStableSort(s, [b, d, a, c]);
  }

  /** Losers first, then winners, is a stable sort of winner, loser, winner, loser. */
  lemma LosersFirst(a: Row, b: Row, c: Row, d: Row)
    requires a.wins == 1 && b.wins == 0 && c.wins == 1 && d.wins == 0
    ensures SortedByWins([b, d, a, c])
    ensures forall k: nat :: WithWins([b, d, a, c], k) == WithWins([a, b, c, d], k)
  {
    forall k: nat ensures WithWins([b, d, a, c], k) == WithWins([a, b, c, d], k) {
      WinnersAndLosersTies(a, b, c, d, k);
    }
  }

  /** The second-round pairings: losers with losers, winners with winners. */
  lemma FirstRoundPairings()
    ensures SwissPairings(FirstRound())
         == Ok([Pairing(2, "B", 4, "D"), Pairing(1, "A", 3, "C")])
  {
    FirstRoundStandings();
    PairFour(Row(2, "B", 0, 1), Row(4, "D", 0, 1), Row(1, "A", 1, 1), Row(3, "C", 1, 1));
  }

  /** Four rows make two pairings, first with second and third with fourth. */
  lemma PairFour(a: Row, b: Row, c: Row, d: Row)
    ensures PairUp([a, b, c, d]) == Ok([PairOf(a, b), PairOf(c, d)])
  {
    var ps := PairUp([a, b, c, d]).value;
    assert ps[0] == PairOf(a, b) && ps[1] == PairOf(c, d);
    assert ps == [PairOf(a, b), PairOf(c, d)];
  }

  /** Two winners and two losers, alternating, have the same per-wins
      subsequences as the losers followed by the winners. */
  lemma WinnersAndLosersTies(a: Row, b: Row, c: Row, d: Row, k: nat)
    requires a.wins == 1 && b.wins == 0 && c.wins == 1 && d.wins == 0
    ensures WithWins([b, d, a, c], k) == WithWins([a, b, c, d], k)
  {
    WithWinsCons(a, [b, c, d], k);
    WithWinsCons(b, [c, d], k);
    WithWinsCons(c, [d], k);
    WithWinsCons(d, [], k);
    WithWinsCons(b, [d, a, c], k);
    WithWinsCons(d, [a, c], k);
    WithWinsCons(a, [c], k);
    WithWinsCons(c, [], k);
    assert [a, b, c, d] == [a] + [b, c, d];
    assert [b, c, d] == [b] + [c, d];
    assert [c, d] == [c] + [d];
    assert [b, d, a, c] == [b] + [d, a, c];
    assert [d, a, c] == [d] + [a, c];
    assert [a, c] == [a] + [c];
  }

  /** With no players there are no standings and nothing to pair. */
  lemma NoPlayers()
    ensures CountPlayers(Empty) == 0
    ensures PlayerStandings(Empty) == []
    ensures SwissPairings(Empty) == Ok([])
  {
  }
}
