/** `swissPairings`: walk the standings from the front and pair them off two
    at a time. There is no bye and no rematch avoidance; with an odd number
    of players the second `pop(0)` of the last round finds the list empty
    and the call fails. */
module Pairings {
  import opened Tournament
  import opened Standings

  /** One proposed match: (id1, name1, id2, name2). */
  datatype Pairing = Pairing(id1: int, name1: string, id2: int, name2: string)

  /** The only way pairing fails: `pop(0)` on an empty list (Python's IndexError). */
  datatype PairingError = PopFromEmptyList

  datatype Result<T> = Ok(value: T) | Err(error: PairingError)

  /** The pairing of rows `a` and `b`, in that order. */
  function PairOf(a: Row, b: Row): Pairing
  {
    Pairing(a.id, a.name, b.id, b.name)
  }

  /** The ids of a list of pairings, each pairing's two ids in order. */
  function PairedIds(ps: seq<Pairing>): seq<int>
  {
    if |ps| == 0 then [] else [ps[0].id1, ps[0].id2] + PairedIds(ps[1..])
  }

  // ---------------------------------------------------------------------------
  // Pairing the standings

  /** Adjacent rows paired from the front: rows 2k and 2k+1 make pairing k.
      Fails exactly when the number of rows is odd. */
  function PairUp(rs: seq<Row>): (r: Result<seq<Pairing>>)
    ensures r.Ok? <==> |rs| % 2 == 0
    ensures r == Err(PopFromEmptyList) <==> |rs| % 2 == 1
    ensures r.Ok? ==> |r.value| == |rs| / 2
    ensures r.Ok? ==> forall k :: 0 <= k < |r.value| ==> r.value[k] == PairOf(rs[2 * k], rs[2 * k + 1])
    decreases |rs|
  {
    if |rs| == 0 then Ok([])
    else if |rs| == 1 then Err(PopFromEmptyList)
    else
      match PairUp(rs[2..])
      case Ok(ps) =>
        var r := [PairOf(rs[0], rs[1])] + ps;
        assert forall k :: 1 <= k < |r| ==> r[k] == ps[k - 1];
        Ok(r)
      case Err(e) => Err(e)
  }

  /** The `while standings: pop(0); pop(0)` loop of `tournament.py`, on a copy
      of the standings. It computes exactly `PairUp`. */
  method PairLoop(standings: seq<Row>) returns (r: Result<seq<Pairing>>)
    ensures r == PairUp(standings)
  {
    var rest := standings;
    var ans: seq<Pairing> := [];
    while rest != []
      invariant |standings| == 2 * |ans| + |rest|
      invariant rest == standings[2 * |ans|..]
      invariant forall k :: 0 <= k < |ans| ==> ans[k] == PairOf(standings[2 * k], standings[2 * k + 1])
      decreases |rest|
    {
      var p1 := rest[0];
      rest := rest[1..];
      if rest == [] {
        return Err(PopFromEmptyList);
      }
      var p2 := rest[0];
      rest := rest[1..];
      ans := ans + [PairOf(p1, p2)];
    }
    assert PairUp(standings).value == ans;
    r := Ok(ans);
  }

  /** The ids of the pairings, read left to right, are the ids of the rows in
      order: pairing only groups the standings, it neither drops, repeats nor
      reorders anyone. */
  lemma {:induction false} PairedIdsAreRowIds(rs: seq<Row>)
    requires |rs| % 2 == 0
    ensures PairUp(rs).Ok?
    ensures PairedIds(PairUp(rs).value) == RowIds(rs)
    decreases |rs|
  {
    if |rs| > 0 {
      PairedIdsAreRowIds(rs[2..]);
      var ps := PairUp(rs).value;
      assert ps[1..] == PairUp(rs[2..]).value;
      assert RowIds(rs) == [rs[0].id, rs[1].id] + RowIds(rs[2..]);
    }
  }

  // ---------------------------------------------------------------------------
  // swissPairings

  /** `swissPairings`: pair the current standings. */
  function SwissPairings(s: Store): (r: Result<seq<Pairing>>)
    ensures r.Ok? <==> CountPlayers(s) % 2 == 0
    ensures r.Ok? ==> |r.value| == CountPlayers(s) / 2
    ensures r.Ok? ==> forall k :: 0 <= k < |r.value| ==>
      r.value[k] == PairOf(PlayerStandings(s)[2 * k], PlayerStandings(s)[2 * k + 1])
  {
    PairUp(PlayerStandings(s))
  }

  /** With an even number of registered players, every player appears in
      exactly one pairing, once, and nobody else appears. */
  lemma SwissPairingsExactlyOnce(s: Store)
    requires Valid(s)
    requires CountPlayers(s) % 2 == 0
    ensures SwissPairings(s).Ok?
    ensures forall id :: multiset(PairedIds(SwissPairings(s).value))[id]
                      == (if id in Ids(AllPlayers(s)) then 1 else 0)
    ensures Distinct(PairedIds(SwissPairings(s).value))
  {
    var st := PlayerStandings(s);
    PairedIdsAreRowIds(st);
    var ids := PairedIds(SwissPairings(s).value);
    assert multiset(ids) == multiset(Ids(AllPlayers(s)));
    DistinctCounts(Ids(AllPlayers(s)));
    forall id ensures multiset(ids)[id] <= 1 {
      assert multiset(ids)[id] == multiset(Ids(AllPlayers(s)))[id];
    }
    CountsDistinct(ids);
  }

  /** With an odd number of players, pairing fails. */
  lemma SwissPairingsOddFails(s: Store)
    requires CountPlayers(s) % 2 == 1
    ensures SwissPairings(s) == Err(PopFromEmptyList)
  {
  }

  /** After `deletePlayers` there is nobody to pair. */
  lemma DeletePlayersPairings(s: Store)
    ensures SwissPairings(DeletePlayers(s)) == Ok([])
  {
  }

  // ---------------------------------------------------------------------------
  // Distinctness and multiplicity

  /** In a list without repeats, every id occurs once or not at all. */
  lemma {:induction false} DistinctCounts(xs: seq<int>)
    requires Distinct(xs)
    ensures forall x :: multiset(xs)[x] == (if x in xs then 1 else 0)
  {
    if |xs| > 0 {
      DistinctCounts(xs[1..]);
      assert xs == [xs[0]] + xs[1..];
      assert xs[0] !in xs[1..];
    }
  }

  /** An id at two positions occurs at least twice. */
  lemma RepeatCountsTwice(xs: seq<int>, i: int, j: int)
    requires 0 <= i < j < |xs|
    ensures xs[i] == xs[j] ==> multiset(xs)[xs[i]] >= 2
  {
    if xs[i] == xs[j] {
      assert xs == xs[..j] + xs[j..];
      assert xs[i] in xs[..j];
      assert xs[j] in xs[j..];
    }
  }

  /** A list in which every id occurs at most once has no repeats. */
  lemma CountsDistinct(xs: seq<int>)
    requires forall x :: multiset(xs)[x] <= 1
    ensures Distinct(xs)
  {
    forall i, j | 0 <= i < j < |xs| ensures xs[i] != xs[j] {
      RepeatCountsTwice(xs, i, j);
    }
  }
}
