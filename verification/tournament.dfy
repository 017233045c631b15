/** The tournament store: the `players` and `matches` tables as plain
    sequences, the mutators as state transformers, and the per-player count
    queries that the standings are built from.

    Every database wrapper in `tournament.py` opens a connection, runs one
    statement and closes the connection; here each becomes a pure function
    from the old store to the new store or to the query's answer. */
module Tournament {

  /** A registered player: the id the database assigned and the sanitised name. */
  datatype Player = Player(id: int, name: string)

  /** One reported match. Every match has exactly one winner and one loser;
      the ids are not checked against the registered players. */
  datatype Match = Match(winner: int, loser: int)

  /** The whole store: players in retrieval order, matches in report order. */
  datatype Store = Store(players: seq<Player>, matches: seq<Match>)

  /** The empty store, as after both bulk deletions. */
  const Empty := Store([], [])

  /** The ids of a player list, in the same order. */
  function Ids(ps: seq<Player>): seq<int>
  {
    seq(|ps|, i requires 0 <= i < |ps| => ps[i].id)
  }

  /** No id occurs twice. */
  predicate Distinct(xs: seq<int>)
  {
    forall i, j :: 0 <= i < j < |xs| ==> xs[i] != xs[j]
  }

  /** The store invariant the database keeps: player ids are a primary key. */
  predicate Valid(s: Store)
  {
    Distinct(Ids(s.players))
  }

  // ---------------------------------------------------------------------------
  // Counting matches

  /** Number of matches in `ms` won by `id`. */
  function Wins(ms: seq<Match>, id: int): nat
  {
    if |ms| == 0 then 0
    else Wins(ms[..|ms| - 1], id) + (if ms[|ms| - 1].winner == id then 1 else 0)
  }

  /** Number of matches in `ms` in which `id` took part, as winner or as loser
      (a match with `id` on both sides counts once). */
  function Played(ms: seq<Match>, id: int): nat
  {
    if |ms| == 0 then 0
    else
      var m := ms[|ms| - 1];
      Played(ms[..|ms| - 1], id) + (if m.winner == id || m.loser == id then 1 else 0)
  }

  /** The positions of the matches won by `id`: the rows that
      `count(*) ... where winner = id` counts. */
  function WinRows(ms: seq<Match>, id: int): set<nat>
  {
    set i: nat | i < |ms| && ms[i].winner == id
  }

  /** The positions of the matches `id` took part in: the rows that
      `count(*) ... where winner = id or loser = id` counts. */
  function PlayedRows(ms: seq<Match>, id: int): set<nat>
  {
    set i: nat | i < |ms| && (ms[i].winner == id || ms[i].loser == id)
  }

  /** The recursive count agrees with the row-set definition. */
  lemma {:induction false} WinsCountsRows(ms: seq<Match>, id: int)
    ensures Wins(ms, id) == |WinRows(ms, id)|
  {
    if |ms| > 0 {
      var n := |ms| - 1;
      var init := ms[..n];
      WinsCountsRows(init, id);
      if ms[n].winner == id {
        assert WinRows(ms, id) == WinRows(init, id) + {n};
      } else {
        assert WinRows(ms, id) == WinRows(init, id);
      }
    }
  }

  /** The recursive count agrees with the row-set definition. */
  lemma {:induction false} PlayedCountsRows(ms: seq<Match>, id: int)
    ensures Played(ms, id) == |PlayedRows(ms, id)|
  {
    if |ms| > 0 {
      var n := |ms| - 1;
      var init := ms[..n];
      PlayedCountsRows(init, id);
      var before := PlayedRows(init, id);
      assert forall i :: 0 <= i < n ==> ms[i] == init[i];
      assert PlayedRows(ms, id) - {n} == before;
      if ms[n].winner == id || ms[n].loser == id {
        assert PlayedRows(ms, id) == before + {n};
      } else {
        assert PlayedRows(ms, id) == before;
      }
    }
  }

  /** A player never has more wins than matches played. */
  lemma {:induction false} WinsAtMostPlayed(ms: seq<Match>, id: int)
    ensures Wins(ms, id) <= Played(ms, id)
  {
    if |ms| > 0 {
      WinsAtMostPlayed(ms[..|ms| - 1], id);
    }
  }

  // ---------------------------------------------------------------------------
  // Queries

  /** The set of registered ids. */
  function IdSet(s: Store): set<int>
  {
    set p | p in s.players :: p.id
  }

  /** A list without repeats has as many elements as its set. */
  lemma {:induction false} DistinctCardinality(xs: seq<int>)
    requires Distinct(xs)
    ensures |set x | x in xs| == |xs|
  {
    if |xs| > 0 {
      var tail := xs[1..];
      DistinctCardinality(tail);
      assert xs[0] !in tail;
      assert (set x | x in xs) == (set x | x in tail) + {xs[0]};
    }
  }

  /** `countPlayers`: the number of registered players. */
  function CountPlayers(s: Store): nat
  {
    |s.players|
  }

  /** Under the store invariant, `countPlayers` is the number of distinct
      registered ids. */
  lemma CountPlayersIsDistinctIds(s: Store)
    requires Valid(s)
    ensures CountPlayers(s) == |IdSet(s)|
  {
    var ids := Ids(s.players);
    DistinctCardinality(ids);
    forall x ensures x in IdSet(s) <==> x in ids {
      if x in IdSet(s) {
        var p :| p in s.players && p.id == x;
        var i :| 0 <= i < |s.players| && s.players[i] == p;
        assert ids[i] == x;
      }
      if x in ids {
        var i :| 0 <= i < |ids| && ids[i] == x;
        assert s.players[i] in s.players;
      }
    }
    assert IdSet(s) == set x | x in ids;
  }

  /** `allPlayers`: every registered (id, name), in retrieval order; as many
      entries as `countPlayers` reports. */
  function AllPlayers(s: Store): (ps: seq<Player>)
    ensures |ps| == CountPlayers(s)
  {
    s.players
  }

  /** `getWins(id)`: how many recorded matches `id` won. */
  function GetWins(s: Store, id: int): (n: nat)
    ensures n == |WinRows(s.matches, id)|
  {
    WinsCountsRows(s.matches, id);
    Wins(s.matches, id)
  }

  /** `getMatches(id)`: how many recorded matches `id` played in. */
  function GetMatches(s: Store, id: int): (n: nat)
    ensures n == |PlayedRows(s.matches, id)|
    ensures GetWins(s, id) <= n
  {
    PlayedCountsRows(s.matches, id);
    WinsAtMostPlayed(s.matches, id);
    Played(s.matches, id)
  }

  // ---------------------------------------------------------------------------
  // Mutators

  /** `deleteMatches`: remove every match record. */
  function DeleteMatches(s: Store): (r: Store)
    ensures r.players == s.players
    ensures forall id :: GetWins(r, id) == 0 && GetMatches(r, id) == 0
  {
    s.(matches := [])
  }

  /** `deletePlayers`: remove every player record. */
  function DeletePlayers(s: Store): (r: Store)
    ensures CountPlayers(r) == 0
    ensures r.matches == s.matches
  {
    s.(players := [])
  }

  /** `registerPlayer(name)`: store the sanitised name under the id the
      database hands out. Sanitisation (`clean`) and the id are supplied by
      the caller; the database promises the id is fresh, see
      `RegisterPlayerPreservesValid`. */
  function RegisterPlayer(s: Store, name: string, clean: string -> string, id: int): (r: Store)
    ensures AllPlayers(r) == AllPlayers(s) + [Player(id, clean(name))]
    ensures r.matches == s.matches
  {
    s.(players := s.players + [Player(id, clean(name))])
  }

  /** `reportMatch(winner, loser)`: record one match result. */
  function ReportMatch(s: Store, winner: int, loser: int): (r: Store)
    ensures r.players == s.players
    ensures |r.matches| == |s.matches| + 1
    ensures r.matches[..|s.matches|] == s.matches
  {
    s.(matches := s.matches + [Match(winner, loser)])
  }

  // ---------------------------------------------------------------------------
  // Properties of the mutators

  /** Reporting a match adds one win to the winner and one match played to
      each participant, and changes nobody else's counts. */
  lemma ReportMatchCounts(s: Store, winner: int, loser: int, id: int)
    ensures GetWins(ReportMatch(s, winner, loser), id)
         == GetWins(s, id) + (if id == winner then 1 else 0)
    ensures GetMatches(ReportMatch(s, winner, loser), id)
         == GetMatches(s, id) + (if id == winner || id == loser then 1 else 0)
  {
    var ms := ReportMatch(s, winner, loser).matches;
    assert ms[..|ms| - 1] == s.matches;
  }

  /** The usual case, two distinct players: the winner gains a win and a
      match, the loser a match only, everyone else is untouched. */
  lemma ReportMatchDistinct(s: Store, winner: int, loser: int)
    requires winner != loser
    ensures GetWins(ReportMatch(s, winner, loser), winner) == GetWins(s, winner) + 1
    ensures GetMatches(ReportMatch(s, winner, loser), winner) == GetMatches(s, winner) + 1
    ensures GetWins(ReportMatch(s, winner, loser), loser) == GetWins(s, loser)
    ensures GetMatches(ReportMatch(s, winner, loser), loser) == GetMatches(s, loser) + 1
    ensures forall id :: id != winner && id != loser ==>
      GetWins(ReportMatch(s, winner, loser), id) == GetWins(s, id) &&
      GetMatches(ReportMatch(s, winner, loser), id) == GetMatches(s, id)
  {
    ReportMatchCounts(s, winner, loser, winner);
    ReportMatchCounts(s, winner, loser, loser);
    forall id | id != winner && id != loser
      ensures GetWins(ReportMatch(s, winner, loser), id) == GetWins(s, id)
      ensures GetMatches(ReportMatch(s, winner, loser), id) == GetMatches(s, id)
    {
      ReportMatchCounts(s, winner, loser, id);
    }
  }

  /** Registering under a fresh id keeps player ids unique. */
  lemma RegisterPlayerPreservesValid(s: Store, name: string, clean: string -> string, id: int)
    requires Valid(s)
    requires id !in Ids(s.players)
    ensures Valid(RegisterPlayer(s, name, clean, id))
    ensures CountPlayers(RegisterPlayer(s, name, clean, id)) == CountPlayers(s) + 1
    ensures IdSet(RegisterPlayer(s, name, clean, id)) == IdSet(s) + {id}
  {
    var ids := Ids(RegisterPlayer(s, name, clean, id).players);
    assert ids == Ids(s.players) + [id];
  }

  /** Registering under an id that is already taken breaks the invariant:
      freshness is exactly what the database has to provide. */
  lemma RegisterPlayerNeedsFreshId(s: Store, name: string, clean: string -> string, id: int)
    requires id in Ids(s.players)
    ensures !Valid(RegisterPlayer(s, name, clean, id))
  {
    var ids := Ids(RegisterPlayer(s, name, clean, id).players);
    var i :| 0 <= i < |s.players| && Ids(s.players)[i] == id;
    assert ids[i] == id == ids[|s.players|];
  }

  /** The other mutators never break the invariant. */
  lemma MutatorsPreserveValid(s: Store, winner: int, loser: int)
    requires Valid(s)
    ensures Valid(DeleteMatches(s))
    ensures Valid(DeletePlayers(s))
    ensures Valid(ReportMatch(s, winner, loser))
  {
  }
}
