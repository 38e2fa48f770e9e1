/**
 Downloading in order: picking and finishing pieces from a full peer, over and over, on a state
 of `crates/bit_rev/src/peer_connection.rs` in sequential mode. The order in which the pieces
 come is defined here without the picker.
 */
module SequentialDrain {
  import opened Basics
  import opened Bitfield
  import opened Picker
  import opened Priority
  import opened PieceTable
  import opened DownloadState

  type Prios = seq<FilePriority>

  /** The wanted pieces below `n` that are not on the list, in ascending order. */
  ghost function Others(prios: Prios, edges: seq<nat>, n: nat): seq<nat> {
    if n == 0 then []
    else Others(prios, edges, n - 1) + if PrioOf(prios, n - 1) != Skip && n - 1 !in edges then [n - 1] else []
  }

  /** The listed pieces that the table has and that are wanted, in order. */
  ghost function Kept(count: nat, prios: Prios, edges: seq<nat>): seq<nat> {
    if edges == [] then []
    else if edges[0] < count && PrioOf(prios, edges[0]) != Skip then [edges[0]] + Kept(count, prios, edges[1..])
    else Kept(count, prios, edges[1..])
  }

  /** First the first and last pieces of the wanted files, then the rest in ascending order. */
  ghost function DrainOrder(count: nat, prios: Prios, edges: seq<nat>): seq<nat> {
    Kept(count, prios, edges) + Others(prios, edges, count)
  }

  lemma {:induction false} KeptMembers(count: nat, prios: Prios, edges: seq<nat>)
    ensures forall p :: p in Kept(count, prios, edges) <==> p in edges && p < count && PrioOf(prios, p) != Skip
    ensures Distinct(edges) ==> Distinct(Kept(count, prios, edges))
  {
    if edges != [] {
      KeptMembers(count, prios, edges[1..]);
      assert edges == [edges[0]] + edges[1..];
      if Distinct(edges) {
        assert edges[0] !in edges[1..];
      }
    }
  }

  /** What the table does not have or nobody wants is passed over anyway. */
  lemma {:induction false} KeptKeepsChoice(count: nat, prios: Prios, edges: seq<nat>, pool: seq<nat>)
    requires forall p :: p in pool ==> p < count && PrioOf(prios, p) != Skip
    ensures FirstPreferred(Kept(count, prios, edges), pool) == FirstPreferred(edges, pool)
  {
    if edges != [] {
      KeptKeepsChoice(count, prios, edges[1..], pool);
    }
  }

  ghost predicate Ascending(s: seq<nat>) {
    forall i, j :: 0 <= i < j < |s| ==> s[i] < s[j]
  }

  lemma {:induction false} OthersMembers(prios: Prios, edges: seq<nat>, n: nat)
    ensures forall p: nat :: p in Others(prios, edges, n) <==> p < n && PrioOf(prios, p) != Skip && p !in edges
  {
    if n > 0 {
      OthersMembers(prios, edges, n - 1);
    }
  }

  lemma {:induction false} OthersAscend(prios: Prios, edges: seq<nat>, n: nat)
    ensures Ascending(Others(prios, edges, n))
  {
    if n > 0 {
      OthersAscend(prios, edges, n - 1);
      OthersMembers(prios, edges, n - 1);
      var front := Others(prios, edges, n - 1);
      forall i | 0 <= i < |front| ensures front[i] < n - 1 {
        assert front[i] in front;
      }
    }
  }

  /** Every wanted piece comes exactly once, and nothing else comes. */
  lemma DrainIsComplete(count: nat, prios: Prios, edges: seq<nat>)
    requires Distinct(edges)
    ensures Distinct(DrainOrder(count, prios, edges))
    ensures forall p: nat :: p in DrainOrder(count, prios, edges) <==> p < count && PrioOf(prios, p) != Skip
  {
    KeptMembers(count, prios, edges);
    OthersMembers(prios, edges, count);
    OthersAscend(prios, edges, count);
    DistinctConcat(Kept(count, prios, edges), Others(prios, edges, count));
  }

  /** Preferred pieces that are gone are passed over. */
  lemma {:induction false} PreferredAfter(edges: seq<nat>, pool: seq<nat>, m: nat)
    requires m < |edges| && edges[m] in pool && forall i :: 0 <= i < m ==> edges[i] !in pool
    ensures FirstPreferred(edges, pool) == Some(edges[m])
  {
    if m > 0 {
      PreferredAfter(edges[1..], pool, m - 1);
    }
  }

  /** With the first `m` pieces of the order gone, a sequential choice is the next one. */
  lemma NextInOrder(count: nat, prios: Prios, edges: seq<nat>, pool: seq<nat>, m: nat, r: Option<nat>)
    requires Distinct(edges)
    requires m <= |DrainOrder(count, prios, edges)|
    requires forall p: nat :: p in pool <==> p in DrainOrder(count, prios, edges)[m..]
    requires SequentialChoice(r, pool, edges)
    ensures r == if m < |DrainOrder(count, prios, edges)| then Some(DrainOrder(count, prios, edges)[m]) else None
  {
    var order, kept := DrainOrder(count, prios, edges), Kept(count, prios, edges);
    var rest := order[m..];
    DrainIsComplete(count, prios, edges);
    RestIsWanted(count, prios, edges, m);
    KeptKeepsChoice(count, prios, edges, pool);
    if m < |order| {
      assert rest[0] == order[m] && rest[0] in rest;
      if m < |kept| {
        forall i | 0 <= i < m ensures kept[i] !in pool {
          GoneFromRest(order, m, i);
        }
        PreferredAfter(kept, pool, m);
      } else {
        forall p | p in kept ensures p !in pool {
          var i :| 0 <= i < |kept| && kept[i] == p;
          GoneFromRest(order, m, i);
        }
        LeastOfRest(count, prios, edges, pool, m);
      }
    }
  }

  lemma RestIsWanted(count: nat, prios: Prios, edges: seq<nat>, m: nat)
    requires Distinct(edges) && m <= |DrainOrder(count, prios, edges)|
    ensures forall p: nat :: p in DrainOrder(count, prios, edges)[m..] ==> p < count && PrioOf(prios, p) != Skip
  {
    DrainIsComplete(count, prios, edges);
    var order := DrainOrder(count, prios, edges);
    assert forall p :: p in order[m..] ==> p in order;
  }

  lemma GoneFromRest(order: seq<nat>, m: nat, i: nat)
    requires Distinct(order) && i < m <= |order|
    ensures order[i] !in order[m..]
  {
  }

  /** Past the list, the next piece of the order is the least that is left. */
  lemma LeastOfRest(count: nat, prios: Prios, edges: seq<nat>, pool: seq<nat>, m: nat)
    requires |Kept(count, prios, edges)| <= m < |DrainOrder(count, prios, edges)|
    requires forall p: nat :: p in pool <==> p in DrainOrder(count, prios, edges)[m..]
    ensures var next := DrainOrder(count, prios, edges)[m]; next in pool && forall p :: p in pool ==> next <= p
  {
    var order := DrainOrder(count, prios, edges);
    var others, kept := Others(prios, edges, count), Kept(count, prios, edges);
    OthersAscend(prios, edges, count);
    assert order[m] == others[m - |kept|];
    assert order[m..][0] == order[m];
    forall p | p in pool ensures order[m] <= p {
      assert p in order[m..];
      var j :| 0 <= j < |order[m..]| && order[m..][j] == p;
      assert p == others[m + j - |kept|];
      assert j > 0 ==> others[m - |kept|] < others[m + j - |kept|];
    }
  }

  /** What the loop of `Drain` keeps: exactly the pieces handed out are finished, and no other is touched. */
  ghost predicate Drained(pieces: seq<Piece>, order: seq<nat>, m: nat)
    requires m <= |order|
  {
    forall k: nat :: k < |pieces| ==>
      if k in order[..m] then pieces[k].downloaded else !pieces[k].downloaded && pieces[k].reserved.None?
  }

  /** The candidates of a full peer are what is left of the order. */
  lemma CandidatesAreRest(pieces: seq<Piece>, prios: Prios, edges: seq<nat>, m: nat)
    requires Distinct(edges)
    requires m <= |DrainOrder(|pieces|, prios, edges)|
    requires Drained(pieces, DrainOrder(|pieces|, prios, edges), m)
    ensures forall p: nat :: p in Candidates(pieces, prios, Filled(|pieces|)) <==> p in DrainOrder(|pieces|, prios, edges)[m..]
  {
    var order := DrainOrder(|pieces|, prios, edges);
    DrainIsComplete(|pieces|, prios, edges);
    CandidatesMembers(pieces, prios, Filled(|pieces|));
    forall p: nat ensures Candidate(pieces, prios, Filled(|pieces|), p) <==> p in order[m..] {
      FilledHas(|pieces|, p);
      assert order == order[..m] + order[m..];
      assert p in order <==> p in order[..m] || p in order[m..];
      if p in order[..m] {
        var i :| 0 <= i < m && order[i] == p;
        GoneFromRest(order, m, i);
      }
    }
  }

  lemma PickIsSequential(pieces: seq<Piece>, prios: Prios, bits: seq<bv8>, edges: seq<nat>,
                         counts: seq<nat>, bootstrapping: bool, r: Option<nat>)
    requires GoodPick(pieces, prios, bits, edges, counts, true, bootstrapping, [], r)
    ensures SequentialChoice(r, Candidates(pieces, prios, bits), edges)
  {
    var pool := Candidates(pieces, prios, bits);
    assert edges + [] == edges;
    CandidatesMembers(pieces, prios, bits);
    assert pool != [] ==> pool[0] in pool;
  }

  /** With the first `m` pieces of the order finished, a pick is the next one. */
  lemma PickIsNext(pieces: seq<Piece>, prios: Prios, edges: seq<nat>, counts: seq<nat>, bootstrapping: bool, m: nat, r: Option<nat>)
    requires Distinct(edges)
    requires m <= |DrainOrder(|pieces|, prios, edges)| && Drained(pieces, DrainOrder(|pieces|, prios, edges), m)
    requires GoodPick(pieces, prios, Filled(|pieces|), edges, counts, true, bootstrapping, [], r)
    ensures r == if m < |DrainOrder(|pieces|, prios, edges)| then Some(DrainOrder(|pieces|, prios, edges)[m]) else None
  {
    CandidatesAreRest(pieces, prios, edges, m);
    PickIsSequential(pieces, prios, Filled(|pieces|), edges, counts, bootstrapping, r);
    NextInOrder(|pieces|, prios, edges, Candidates(pieces, prios, Filled(|pieces|)), m, r);
  }

  /** Finishing the next piece of the order is one step along it. */
  lemma OneFurther(before: seq<Piece>, after: seq<Piece>, order: seq<nat>, m: nat)
    requires m < |order| && order[m] < |before| && Drained(before, order, m)
    requires |after| == |before| && after[order[m]].downloaded
    requires forall k :: 0 <= k < |before| && k != order[m] ==> after[k] == before[k]
    ensures Drained(after, order, m + 1)
  {
    assert order[..m + 1] == order[..m] + [order[m]];
  }

  lemma WantedAreDone(state: TorrentDownloadedState)
    requires state.Valid()
    requires var order := DrainOrder(|state.pieces|, state.piecePriority, state.firstLast);
             Drained(state.pieces, order, |order|)
    ensures forall k: nat :: k < |state.pieces| ==> (state.pieces[k].downloaded <==> Wanted(state.pieces, state.piecePriority, k))
  {
    var order := DrainOrder(|state.pieces|, state.piecePriority, state.firstLast);
    state.EdgesAreDistinct();
    DrainIsComplete(|state.pieces|, state.piecePriority, state.firstLast);
    assert order[..|order|] == order;
  }

  /** Picks the next piece of the order and finishes it. */
  method Step(state: TorrentDownloadedState, peer: Peer, ghost order: seq<nat>, ghost m: nat)
    returns (r: Option<nat>)
    requires state.Valid() && state.sequential
    requires order == DrainOrder(|state.pieces|, state.piecePriority, state.firstLast)
    requires m <= |order| && Drained(state.pieces, order, m)
    modifies state`pieces, state`verified
    ensures state.Valid() && |state.pieces| == old(|state.pieces|)
    ensures if m == |order| then r.None? && state.pieces == old(state.pieces)
            else r == Some(order[m]) && Drained(state.pieces, order, m + 1)
  {
    ghost var before := state.pieces;
    state.EdgesAreDistinct();
    r := state.Pick(peer, Filled(|state.pieces|), []);
    PickIsNext(before, state.piecePriority, state.firstLast, state.availability.counts, state.verified < state.bootstrapUntil, m, r);
    if r.Some? {
      state.MarkDownloaded(r.value);
      OneFurther(before, state.pieces, order, m);
    }
  }

  /** Picks and finishes until nothing is picked. */
  method DrainFrom(state: TorrentDownloadedState, peer: Peer, ghost order: seq<nat>, ghost m: nat)
    returns (handed: seq<nat>)
    requires state.Valid() && state.sequential
    requires order == DrainOrder(|state.pieces|, state.piecePriority, state.firstLast)
    requires m <= |order| && Drained(state.pieces, order, m)
    modifies state`pieces, state`verified
    ensures state.Valid() && |state.pieces| == old(|state.pieces|)
    ensures handed == order[m..] && Drained(state.pieces, order, |order|)
    decreases |order| - m
  {
    var r := Step(state, peer, order, m);
    if r.None? {
      return [];
    }
    var rest := DrainFrom(state, peer, order, m + 1);
    handed := [r.value] + rest;
  }

  /**
   From a state where nothing is downloaded or reserved, the pieces come in the order above, and
   then exactly the wanted pieces are downloaded.
   */
  method Drain(state: TorrentDownloadedState, peer: Peer) returns (handed: seq<nat>)
    requires state.Valid() && state.sequential
    requires forall k :: 0 <= k < |state.pieces| ==> !state.pieces[k].downloaded && state.pieces[k].reserved.None?
    modifies state`pieces, state`verified
    ensures state.Valid() && |state.pieces| == old(|state.pieces|)
    ensures handed == DrainOrder(|state.pieces|, state.piecePriority, state.firstLast)
    ensures forall k: nat :: k < |state.pieces| ==> (state.pieces[k].downloaded <==> Wanted(state.pieces, state.piecePriority, k))
  {
    handed := DrainFrom(state, peer, DrainOrder(|state.pieces|, state.piecePriority, state.firstLast), 0);
    WantedAreDone(state);
  }
}
