/** `playerStandings`: one (id, name, wins, matches) row per registered
    player, built in retrieval order and then sorted by wins with a stable
    sort, ascending, exactly as the Python code does. */
module Standings {
  import opened Tournament

  /** One standings row. `played` is the `matches` column of `tournament.py`. */
  datatype Row = Row(id: int, name: string, wins: nat, played: nat)

  /** The row the loop builds for player `p`: its id and name, and the
      answers of `getWins` and `getMatches` for its id. */
  function RowOf(s: Store, p: Player): Row
  {
    Row(p.id, p.name, GetWins(s, p.id), GetMatches(s, p.id))
  }

  /** The ids of a list of rows, in the same order. */
  function RowIds(rs: seq<Row>): seq<int>
  {
    seq(|rs|, i requires 0 <= i < |rs| => rs[i].id)
  }

  // ---------------------------------------------------------------------------
  // The unsorted rows

  /** The rows the loop appends, one per player of `ps`, in the order of `ps`. */
  function RowsOf(s: Store, ps: seq<Player>): (rs: seq<Row>)
    ensures |rs| == |ps|
    ensures forall i :: 0 <= i < |ps| ==> rs[i].id == ps[i].id && rs[i].name == ps[i].name
    ensures forall i :: 0 <= i < |ps| ==> rs[i].wins == |WinRows(s.matches, ps[i].id)|
    ensures forall i :: 0 <= i < |ps| ==> rs[i].played == |PlayedRows(s.matches, ps[i].id)|
    ensures forall i :: 0 <= i < |ps| ==> rs[i].wins <= rs[i].played
  {
    if |ps| == 0 then []
    else RowsOf(s, ps[..|ps| - 1]) + [RowOf(s, ps[|ps| - 1])]
  }

  /** The rows before sorting: one per player returned by `allPlayers`. */
  function Rows(s: Store): (rs: seq<Row>)
    ensures |rs| == CountPlayers(s)
    ensures RowIds(rs) == Ids(AllPlayers(s))
    ensures forall i :: 0 <= i < |rs| ==> rs[i] == RowOf(s, AllPlayers(s)[i])
    ensures forall i :: 0 <= i < |rs| ==> rs[i].wins <= rs[i].played
  {
    var ps := AllPlayers(s);
    var rs := RowsOf(s, ps);
    assert RowIds(rs) == Ids(ps);
    assert forall i :: 0 <= i < |ps| ==> rs[i] == RowOf(s, ps[i]);
    rs
  }

  /** Each player's row is among the rows, and every row is some player's. */
  lemma RowsPerPlayer(s: Store)
    ensures forall p :: p in AllPlayers(s) ==> RowOf(s, p) in Rows(s)
    ensures forall row :: row in Rows(s) ==> exists p :: p in AllPlayers(s) && row == RowOf(s, p)
  {
    var ps, rs := AllPlayers(s), Rows(s);
    forall p | p in ps ensures RowOf(s, p) in rs {
      var i :| 0 <= i < |ps| && ps[i] == p;
      assert rs[i] == RowOf(s, p);
    }
    forall row | row in rs ensures exists p :: p in ps && row == RowOf(s, p) {
      var i :| 0 <= i < |rs| && rs[i] == row;
      assert ps[i] in ps;
    }
  }

  // ---------------------------------------------------------------------------
  // Stable sort on wins

  /** Non-decreasing in wins. */
  predicate SortedByWins(rs: seq<Row>)
  {
    forall i, j :: 0 <= i < j < |rs| ==> rs[i].wins <= rs[j].wins
  }

  /** The rows with exactly `k` wins, in their order in `rs`. A sort is stable
      when it keeps every one of these subsequences. */
  function WithWins(rs: seq<Row>, k: nat): seq<Row>
  {
    if |rs| == 0 then []
    else (if rs[0].wins == k then [rs[0]] else []) + WithWins(rs[1..], k)
  }

  lemma WithWinsCons(a: Row, rs: seq<Row>, k: nat)
    ensures WithWins([a] + rs, k) == (if a.wins == k then [a] else []) + WithWins(rs, k)
  {
    assert ([a] + rs)[1..] == rs;
  }

  /** The ids of a non-empty list: the head's id, then the tail's. */
  lemma RowIdsHead(rs: seq<Row>)
    requires |rs| > 0
    ensures RowIds(rs) == [rs[0].id] + RowIds(rs[1..])
  {
  }

  lemma SortedCons(a: Row, rs: seq<Row>)
    requires SortedByWins(rs)
    requires |rs| == 0 || a.wins <= rs[0].wins
    ensures SortedByWins([a] + rs)
  {
    var r := [a] + rs;
    forall i, j | 0 <= i < j < |r| ensures r[i].wins <= r[j].wins {
      if i == 0 && j > 1 {
        assert rs[0].wins <= rs[j - 1].wins;
      }
    }
  }

  /** Put `x` in front of the first row with at least as many wins: `x`
      goes before the rows it ties with, as it preceded them originally. */
  function Insert(x: Row, rs: seq<Row>): (r: seq<Row>)
    requires SortedByWins(rs)
    ensures SortedByWins(r)
    ensures multiset(r) == multiset(rs) + multiset{x}
    ensures |r| == |rs| + 1 && (r[0] == x || (|rs| > 0 && r[0] == rs[0]))
    ensures forall k: nat :: WithWins(r, k) == (if k == x.wins then [x] else []) + WithWins(rs, k)
  {
    if |rs| == 0 || x.wins <= rs[0].wins then
      SortedCons(x, rs);
      forall k: nat ensures WithWins([x] + rs, k) == (if k == x.wins then [x] else []) + WithWins(rs, k) {
        WithWinsCons(x, rs, k);
      }
      [x] + rs
    else
      var y := rs[0];
      var tail := Insert(x, rs[1..]);
      assert rs == [y] + rs[1..];
      SortedCons(y, tail);
      InsertBehind(x, y, rs[1..], tail);
      [y] + tail
  }

  /** The step case of `Insert`: when `x` went into `rest` and `y` has
      fewer wins than `x`, putting `y` in front keeps both the multiset
      and the per-wins subsequences in step. */
  lemma InsertBehind(x: Row, y: Row, rest: seq<Row>, tail: seq<Row>)
    requires y.wins < x.wins
    requires multiset(tail) == multiset(rest) + multiset{x}
    requires forall k: nat :: WithWins(tail, k) == (if k == x.wins then [x] else []) + WithWins(rest, k)
    ensures multiset([y] + tail) == multiset([y] + rest) + multiset{x}
    ensures forall k: nat :: WithWins([y] + tail, k) == (if k == x.wins then [x] else []) + WithWins([y] + rest, k)
  {
    assert multiset([y] + tail) == multiset{y} + multiset(tail);
    assert multiset([y] + rest) == multiset{y} + multiset(rest);
    forall k: nat ensures WithWins([y] + tail, k) == (if k == x.wins then [x] else []) + WithWins([y] + rest, k) {
      InsertBehindAt(x, y, rest, tail, k);
    }
  }

  /** `InsertBehind` for one number of wins `k`. */
  lemma InsertBehindAt(x: Row, y: Row, rest: seq<Row>, tail: seq<Row>, k: nat)
    requires y.wins < x.wins
    requires WithWins(tail, k) == (if k == x.wins then [x] else []) + WithWins(rest, k)
    ensures WithWins([y] + tail, k) == (if k == x.wins then [x] else []) + WithWins([y] + rest, k)
  {
    WithWinsCons(y, tail, k);
    WithWinsCons(y, rest, k);
    if k == y.wins {
      assert WithWins(tail, k) == WithWins(rest, k);
    } else {
      assert WithWins([y] + rest, k) == WithWins(rest, k);
    }
  }

  /** Inserting a row adds its id to the ids. */
  lemma {:induction false} InsertIds(x: Row, rs: seq<Row>)
    requires SortedByWins(rs)
    ensures multiset(RowIds(Insert(x, rs))) == multiset(RowIds(rs)) + multiset{x.id}
  {
    var r := Insert(x, rs);
    RowIdsHead(r);
    if |rs| == 0 || x.wins <= rs[0].wins {
      assert r[1..] == rs;
    } else {
      InsertIds(x, rs[1..]);
      assert r[1..] == Insert(x, rs[1..]);
      RowIdsHead(rs);
    }
  }

  /** Stable insertion sort on wins, ascending. */
  function SortByWins(rs: seq<Row>): (r: seq<Row>)
    ensures SortedByWins(r)
    ensures multiset(r) == multiset(rs)
    ensures forall k: nat :: WithWins(r, k) == WithWins(rs, k)
  {
    if |rs| == 0 then []
    else
      var x := rs[0];
      var sorted := SortByWins(rs[1..]);
      assert rs == [x] + rs[1..];
      assert multiset(rs) == multiset{x} + multiset(rs[1..]);
      forall k: nat ensures WithWins(rs, k) == (if k == x.wins then [x] else []) + WithWins(rs[1..], k) {
        WithWinsCons(x, rs[1..], k);
      }
      Insert(x, sorted)
  }

  /** Sorting keeps the ids, up to order. */
  lemma {:induction false} SortIds(rs: seq<Row>)
    ensures multiset(RowIds(SortByWins(rs))) == multiset(RowIds(rs))
  {
    if |rs| > 0 {
      SortIds(rs[1..]);
      InsertIds(rs[0], SortByWins(rs[1..]));
      RowIdsHead(rs);
    }
  }

  /** A row with `k` wins shows up in `WithWins(rs, k)` only if some row has `k` wins. */
  lemma {:induction false} WithWinsMember(rs: seq<Row>, k: nat)
    requires WithWins(rs, k) != []
    ensures exists i :: 0 <= i < |rs| && rs[i].wins == k
  {
    if rs[0].wins != k {
      WithWinsMember(rs[1..], k);
      var i :| 0 <= i < |rs[1..]| && rs[1..][i].wins == k;
      assert rs[i + 1].wins == k;
    }
  }

  /** Two sorted sequences with the same per-wins subsequences start with
      the same number of wins. */
  lemma HeadWinsAgree(a: seq<Row>, b: seq<Row>)
    requires SortedByWins(a) && SortedByWins(b)
    requires |a| > 0 && |b| > 0
    requires forall k: nat :: WithWins(a, k) == WithWins(b, k)
    ensures a[0].wins == b[0].wins
  {
    assert WithWins(a, b[0].wins) == WithWins(b, b[0].wins);
    WithWinsMember(a, b[0].wins);
    assert WithWins(b, a[0].wins) == WithWins(a, a[0].wins);
    WithWinsMember(b, a[0].wins);
  }

  /** A sorted sequence is determined by its length and its per-wins
      subsequences: there is exactly one stable sort, so `SortByWins`
      returns what any stable sort on wins (Python's `sorted` among them)
      returns. */
  lemma {:induction false} StableSortUnique(a: seq<Row>, b: seq<Row>)
    requires |a| == |b|
    requires SortedByWins(a) && SortedByWins(b)
    requires forall k: nat :: WithWins(a, k) == WithWins(b, k)
    ensures a == b
  {
    if |a| > 0 {
      HeadWinsAgree(a, b);
      var k0 := a[0].wins;
      assert WithWins(a, k0) == [a[0]] + WithWins(a[1..], k0);
      assert WithWins(b, k0) == [b[0]] + WithWins(b[1..], k0);
      assert a[0] == WithWins(a, k0)[0] == WithWins(b, k0)[0] == b[0];
      forall k: nat ensures WithWins(a[1..], k) == WithWins(b[1..], k) {
        if k == k0 {
          assert WithWins(a[1..], k) == WithWins(a, k)[1..];
          assert WithWins(b[1..], k) == WithWins(b, k)[1..];
        } else {
          assert WithWins(a, k) == WithWins(a[1..], k);
          assert WithWins(b, k) == WithWins(b[1..], k);
        }
      }
      StableSortUnique(a[1..], b[1..]);
      assert a == [a[0]] + a[1..];
      assert b == [b[0]] + b[1..];
    }
  }

  // ---------------------------------------------------------------------------
  // Positions within the per-wins subsequences

  lemma {:induction false} WithWinsAppend(a: seq<Row>, b: seq<Row>, k: nat)
    ensures WithWins(a + b, k) == WithWins(a, k) + WithWins(b, k)
  {
    if |a| > 0 {
      WithWinsAppend(a[1..], b, k);
      assert (a + b)[1..] == a[1..] + b;
    } else {
      assert a + b == b;
    }
  }

  /** How many rows with `k` wins come before position `i`: the position of
      row `i` within `WithWins(rs, k)`. */
  function Rank(rs: seq<Row>, k: nat, i: int): nat
    requires 0 <= i <= |rs|
  {
    |WithWins(rs[..i], k)|
  }

  lemma RankStep(rs: seq<Row>, k: nat, i: int)
    requires 0 <= i < |rs|
    ensures Rank(rs, k, i + 1) == Rank(rs, k, i) + (if rs[i].wins == k then 1 else 0)
  {
    assert rs[..i + 1] == rs[..i] + [rs[i]];
    WithWinsAppend(rs[..i], [rs[i]], k);
    assert [rs[i]][1..] == [];
  }

  /** Rank never decreases, and grows past every row with `k` wins. */
  lemma {:induction false} RankMonotone(rs: seq<Row>, k: nat, i: int, j: int)
    requires 0 <= i <= |rs| && 0 <= j <= |rs|
    ensures i <= j ==> Rank(rs, k, i) <= Rank(rs, k, j)
    ensures i < j && rs[i].wins == k ==> Rank(rs, k, i) < Rank(rs, k, j)
    decreases j
  {
    if i < j {
      RankMonotone(rs, k, i, j - 1);
      RankStep(rs, k, j - 1);
    }
  }

  /** A row with `k` wins sits at its rank in `WithWins(rs, k)`. */
  lemma RankLocates(rs: seq<Row>, k: nat, i: int)
    requires 0 <= i < |rs| && rs[i].wins == k
    ensures Rank(rs, k, i) < |WithWins(rs, k)|
    ensures WithWins(rs, k)[Rank(rs, k, i)] == rs[i]
  {
    assert rs == rs[..i] + [rs[i]] + rs[i + 1..];
    WithWinsAppend(rs[..i] + [rs[i]], rs[i + 1..], k);
    WithWinsAppend(rs[..i], [rs[i]], k);
    assert [rs[i]][1..] == [];
  }

  /** Every position of `WithWins(rs, k)` is the rank of some row with `k` wins. */
  lemma {:induction false} RankOnto(rs: seq<Row>, k: nat, m: int)
    requires 0 <= m < |WithWins(rs, k)|
    ensures exists p :: 0 <= p < |rs| && rs[p].wins == k && Rank(rs, k, p) == m
  {
    var n := |rs| - 1;
    var init := rs[..n];
    assert rs == init + [rs[n]];
    WithWinsAppend(init, [rs[n]], k);
    assert [rs[n]][1..] == [];
    if m < |WithWins(init, k)| {
      RankOnto(init, k, m);
      var p :| 0 <= p < |init| && init[p].wins == k && Rank(init, k, p) == m;
      assert rs[..p] == init[..p];
    } else {
      assert rs[..n] == init;
    }
  }

  // ---------------------------------------------------------------------------
  // playerStandings

  /** `playerStandings`: the rows of `Rows`, sorted by wins, ascending and
      stably; see `StandingsRowPerPlayer` for what the rows hold. */
  function PlayerStandings(s: Store): (r: seq<Row>)
    ensures |r| == CountPlayers(s)
    ensures SortedByWins(r)
    ensures multiset(r) == multiset(Rows(s))
    ensures multiset(RowIds(r)) == multiset(Ids(AllPlayers(s)))
    ensures forall k: nat :: WithWins(r, k) == WithWins(Rows(s), k)
  {
    var rs := Rows(s);
    var r := SortByWins(rs);
    SortIds(rs);
    assert |r| == |multiset(r)| == |multiset(rs)| == |rs|;
    r
  }

  /** Every registered player has its row in the standings, every row is
      the row of a registered player, and nobody has more wins than matches. */
  lemma StandingsRowPerPlayer(s: Store)
    ensures forall p :: p in AllPlayers(s) ==> RowOf(s, p) in PlayerStandings(s)
    ensures forall row :: row in PlayerStandings(s) ==>
      exists p :: p in AllPlayers(s) && row == RowOf(s, p)
    ensures forall row :: row in PlayerStandings(s) ==> row.wins <= row.played
  {
    var r, rs := PlayerStandings(s), Rows(s);
    RowsPerPlayer(s);
    forall row ensures row in r <==> row in rs {
      assert row in r <==> row in multiset(r);
    }
    forall row | row in rs ensures row.wins <= row.played {
      var i :| 0 <= i < |rs| && rs[i] == row;
    }
  }

  /** `PlayerStandings` is the one stable sort of the rows: any list with one
      entry per player that is sorted by wins and has the same rows for each
      number of wins, in the same order, as the unsorted rows is the
      standings. */
  lemma StandingsAreTheStableSort(s: Store, b: seq<Row>)
    requires |b| == CountPlayers(s)
    requires SortedByWins(b)
    requires forall k: nat :: WithWins(b, k) == WithWins(Rows(s), k)
    ensures b == PlayerStandings(s)
  {
    StableSortUnique(PlayerStandings(s), b);
  }

  /** Rows that all have `k0` wins are their own `k0`-subsequence and have no other. */
  lemma {:induction false} WithWinsConstant(rs: seq<Row>, k0: nat, k: nat)
    requires forall i :: 0 <= i < |rs| ==> rs[i].wins == k0
    ensures WithWins(rs, k) == if k == k0 then rs else []
  {
    if |rs| > 0 {
      WithWinsConstant(rs[1..], k0, k);
      assert rs == [rs[0]] + rs[1..];
    }
  }

  /** After `deleteMatches` the standings are every player, in retrieval
      order, with no wins and no matches. */
  lemma DeleteMatchesStandings(s: Store)
    ensures var r := PlayerStandings(DeleteMatches(s));
      && |r| == CountPlayers(s)
      && forall i :: 0 <= i < |r| ==>
           r[i] == Row(AllPlayers(s)[i].id, AllPlayers(s)[i].name, 0, 0)
  {
    var t := DeleteMatches(s);
    var rs := Rows(t);
    var want := seq(|s.players|, i requires 0 <= i < |s.players| => Row(s.players[i].id, s.players[i].name, 0, 0));
    assert rs == want;
    forall k: nat ensures WithWins(want, k) == WithWins(Rows(t), k) {
      WithWinsConstant(want, 0, k);
    }
    StandingsAreTheStableSort(t, want);
  }

  /** After `deletePlayers` there are no standings. */
  lemma DeletePlayersStandings(s: Store)
    ensures PlayerStandings(DeletePlayers(s)) == []
  {
  }

  /** Players tied on wins keep their `allPlayers` order: if row i comes
      before row j in the standings and they have the same wins, row i's
      player was retrieved before row j's player. */
  lemma TiesKeepRetrievalOrder(s: Store, i: int, j: int)
    requires 0 <= i < j < |PlayerStandings(s)|
    requires PlayerStandings(s)[i].wins == PlayerStandings(s)[j].wins
    ensures exists p, q ::
      (0 <= p < q < |AllPlayers(s)|
       && RowOf(s, AllPlayers(s)[p]) == PlayerStandings(s)[i]
       && RowOf(s, AllPlayers(s)[q]) == PlayerStandings(s)[j])
  {
    var r, rows := PlayerStandings(s), Rows(s);
    TiesKeepOrder(rows, r, i, j);
    var p, q :| 0 <= p < q < |rows| && rows[p] == r[i] && rows[q] == r[j];
    assert RowOf(s, AllPlayers(s)[p]) == r[i];
    assert RowOf(s, AllPlayers(s)[q]) == r[j];
  }

  /** If `r` has the same rows as `rows` for the wins of its rows `i` and
      `j`, in the same order, and `i` comes before `j`, then row `i` also
      comes before row `j` in `rows`. */
  lemma TiesKeepOrder(rows: seq<Row>, r: seq<Row>, i: int, j: int)
    requires 0 <= i < j < |r|
    requires r[i].wins == r[j].wins
    requires WithWins(rows, r[i].wins) == WithWins(r, r[i].wins)
    ensures exists p, q :: 0 <= p < q < |rows| && rows[p] == r[i] && rows[q] == r[j]
  {
    var k := r[i].wins;
    RankMonotone(r, k, i, j);
    RankLocates(r, k, i);
    RankLocates(r, k, j);
    var mi, mj := Rank(r, k, i), Rank(r, k, j);
    RankOnto(rows, k, mi);
    RankOnto(rows, k, mj);
    var p :| 0 <= p < |rows| && rows[p].wins == k && Rank(rows, k, p) == mi;
    var q :| 0 <= q < |rows| && rows[q].wins == k && Rank(rows, k, q) == mj;
    RankLocates(rows, k, p);
    RankLocates(rows, k, q);
    RankMonotone(rows, k, q, p);
    assert p < q;
    assert rows[p] == r[i] && rows[q] == r[j];
  }
}
