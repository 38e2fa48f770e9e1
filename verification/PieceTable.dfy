/**
 The piece table of `TorrentDownloadedState` in `crates/bit_rev/src/peer_connection.rs` as a
 value: flags, byte counts, the candidates of a peer, endgame, and the requesters of blocks.
 */
module PieceTable {
  import opened Basics
  import opened Bitfield
  import opened Assembly
  import opened Picker
  import opened Priority

  /** One entry of the table. */
  datatype Piece = Piece(
    index: nat,
    length: nat,
    chunks: seq<Chunk>,
    downloaded: bool,
    reserved: Option<Peer>,
    writeClaimed: bool)

  /** Entry `i` is piece `i`, as the session builds the table; lengths are 32-bit numbers, and no offset is stored twice. */
  ghost predicate WellFormedTable(pieces: seq<Piece>) {
    forall i :: 0 <= i < |pieces| ==> pieces[i].index == i && pieces[i].length <= U32_MAX && DistinctStarts(pieces[i].chunks)
  }

  predicate Wanted(pieces: seq<Piece>, prios: seq<FilePriority>, i: nat) {
    i < |pieces| && PrioOf(prios, i) != Skip
  }

  predicate Missing(pieces: seq<Piece>, prios: seq<FilePriority>, i: nat) {
    Wanted(pieces, prios, i) && !pieces[i].downloaded
  }

  // ---------------------------------------------------------------------------------------
  // Counters

  /** Downloaded pieces among the first `n`. */
  function CountDownloaded(pieces: seq<Piece>, n: nat): nat
    requires n <= |pieces|
  {
    if n == 0 then 0 else CountDownloaded(pieces, n - 1) + if pieces[n - 1].downloaded then 1 else 0
  }

  lemma {:induction false} CountDependsOnFlags(a: seq<Piece>, b: seq<Piece>, n: nat)
    requires n <= |a| == |b| && forall k :: 0 <= k < n ==> a[k].downloaded == b[k].downloaded
    ensures CountDownloaded(a, n) == CountDownloaded(b, n)
  {
    if n > 0 {
      CountDependsOnFlags(a, b, n - 1);
    }
  }

  /** Changing one entry changes the count by the change of its flag. */
  lemma {:induction false} CountAfterUpdate(pieces: seq<Piece>, i: nat, p: Piece, n: nat)
    requires i < |pieces| && n <= |pieces|
    ensures CountDownloaded(pieces[i := p], n)
            == CountDownloaded(pieces, n)
               + (if i < n && p.downloaded then 1 else 0) - (if i < n && pieces[i].downloaded then 1 else 0)
  {
    if n > 0 {
      CountAfterUpdate(pieces, i, p, n - 1);
    }
  }

  lemma {:induction false} CountIsPositive(pieces: seq<Piece>, i: nat, n: nat)
    requires i < n <= |pieces| && pieces[i].downloaded
    ensures CountDownloaded(pieces, n) > 0
  {
    if i < n - 1 {
      CountIsPositive(pieces, i, n - 1);
    }
  }

  /** Which wanted pieces a byte count adds up. */
  datatype Tally = All | Have | Left

  predicate Counts(t: Tally, p: Piece) {
    t.All? || (t.Have? && p.downloaded) || (t.Left? && !p.downloaded)
  }

  /** Bytes of the wanted pieces among the first `n` that the tally counts. */
  function WantedBytes(pieces: seq<Piece>, prios: seq<FilePriority>, t: Tally, n: nat): nat
    requires n <= |pieces|
  {
    if n == 0 then 0
    else
      WantedBytes(pieces, prios, t, n - 1)
      + if Wanted(pieces, prios, n - 1) && Counts(t, pieces[n - 1]) then pieces[n - 1].length else 0
  }

  /** `left_bytes + wanted_have_bytes == wanted_total_bytes`. */
  lemma {:induction false} BytesAddUp(pieces: seq<Piece>, prios: seq<FilePriority>, n: nat)
    requires n <= |pieces|
    ensures WantedBytes(pieces, prios, Left, n) + WantedBytes(pieces, prios, Have, n) == WantedBytes(pieces, prios, All, n)
  {
    if n > 0 {
      BytesAddUp(pieces, prios, n - 1);
    }
  }

  /**
   The bytes left are none exactly when every wanted piece is here or empty, the bytes here are
   none exactly when no wanted piece is or all that are here are empty.
   */
  lemma {:induction false} NoBytesIff(pieces: seq<Piece>, prios: seq<FilePriority>, n: nat)
    requires n <= |pieces|
    ensures WantedBytes(pieces, prios, Left, n) == 0
            <==> forall i :: 0 <= i < n && PrioOf(prios, i) != Skip ==> pieces[i].downloaded || pieces[i].length == 0
    ensures WantedBytes(pieces, prios, Have, n) == 0
            <==> forall i :: 0 <= i < n && PrioOf(prios, i) != Skip ==> !pieces[i].downloaded || pieces[i].length == 0
  {
    if n > 0 {
      NoBytesIff(pieces, prios, n - 1);
    }
  }

  /** A piece that arrives moves its bytes from those left to those here, if it is wanted; the total stays. */
  lemma {:induction false} ArrivalMovesBytes(pieces: seq<Piece>, prios: seq<FilePriority>, i: nat, n: nat)
    requires n <= |pieces| && i < |pieces| && !pieces[i].downloaded
    ensures var after := pieces[i := pieces[i].(downloaded := true)];
            var moved := if i < n && PrioOf(prios, i) != Skip then pieces[i].length else 0;
            && WantedBytes(after, prios, Left, n) == WantedBytes(pieces, prios, Left, n) - moved
            && WantedBytes(after, prios, Have, n) == WantedBytes(pieces, prios, Have, n) + moved
            && WantedBytes(after, prios, All, n) == WantedBytes(pieces, prios, All, n)
  {
    if n > 0 {
      ArrivalMovesBytes(pieces, prios, i, n - 1);
    }
  }

  // ---------------------------------------------------------------------------------------
  // Picking

  predicate Candidate(pieces: seq<Piece>, prios: seq<FilePriority>, bits: seq<bv8>, i: nat) {
    Missing(pieces, prios, i) && pieces[i].reserved.None? && Has(bits, i)
  }

  /** The candidates among the first `n`, in ascending order. */
  function CandidatesUpTo(pieces: seq<Piece>, prios: seq<FilePriority>, bits: seq<bv8>, n: nat): seq<nat>
    requires n <= |pieces|
  {
    if n == 0 then []
    else CandidatesUpTo(pieces, prios, bits, n - 1) + if Candidate(pieces, prios, bits, n - 1) then [n - 1] else []
  }

  function Candidates(pieces: seq<Piece>, prios: seq<FilePriority>, bits: seq<bv8>): seq<nat> {
    CandidatesUpTo(pieces, prios, bits, |pieces|)
  }

  lemma {:induction false} CandidatesUpToMembers(pieces: seq<Piece>, prios: seq<FilePriority>, bits: seq<bv8>, n: nat, i: nat)
    requires n <= |pieces|
    ensures i in CandidatesUpTo(pieces, prios, bits, n) <==> i < n && Candidate(pieces, prios, bits, i)
  {
    if n > 0 {
      CandidatesUpToMembers(pieces, prios, bits, n - 1, i);
    }
  }

  lemma CandidatesMembers(pieces: seq<Piece>, prios: seq<FilePriority>, bits: seq<bv8>)
    ensures forall i: nat :: i in Candidates(pieces, prios, bits) <==> Candidate(pieces, prios, bits, i)
  {
    forall i: nat ensures i in Candidates(pieces, prios, bits) <==> Candidate(pieces, prios, bits, i) {
      CandidatesUpToMembers(pieces, prios, bits, |pieces|, i);
    }
  }

  /** The members of a list with the given priority, in order. */
  function InBand(list: seq<nat>, prios: seq<FilePriority>, band: FilePriority): seq<nat> {
    if list == [] then []
    else
      InBand(list[..|list| - 1], prios, band)
      + if PrioOf(prios, list[|list| - 1]) == band then [list[|list| - 1]] else []
  }

  lemma {:induction false} InBandMembers(list: seq<nat>, prios: seq<FilePriority>, band: FilePriority, i: nat)
    ensures i in InBand(list, prios, band) <==> i in list && PrioOf(prios, i) == band
  {
    if list != [] {
      InBandMembers(list[..|list| - 1], prios, band, i);
      assert list == list[..|list| - 1] + [list[|list| - 1]];
    }
  }

  /** The members of `list` that are in `pool`, in order. */
  function Among(list: seq<nat>, pool: seq<nat>): seq<nat> {
    if list == [] then []
    else if list[0] in pool then [list[0]] + Among(list[1..], pool)
    else Among(list[1..], pool)
  }

  /** Dropping what is no candidate from the front of the preferences changes no choice. */
  lemma {:induction false} AmongKeepsChoice(list: seq<nat>, more: seq<nat>, pool: seq<nat>)
    ensures FirstPreferred(Among(list, pool) + more, pool) == FirstPreferred(list + more, pool)
  {
    if list == [] {
      assert Among(list, pool) + more == more == list + more;
    } else {
      assert (list + more)[1..] == list[1..] + more;
      AmongKeepsChoice(list[1..], more, pool);
      if list[0] !in pool {
        assert Among(list, pool) + more == Among(list[1..], pool) + more;
      }
    }
  }

  /** What `pick` promises about the piece it returns. */
  ghost predicate GoodPick(pieces: seq<Piece>, prios: seq<FilePriority>, bits: seq<bv8>, firstLast: seq<nat>,
                           counts: seq<nat>, sequential: bool, bootstrapping: bool, prefer: seq<nat>, r: Option<nat>) {
    var pool := Candidates(pieces, prios, bits);
    && (r.None? <==> forall i: nat :: !Candidate(pieces, prios, bits, i))
    && (r.Some? ==> Candidate(pieces, prios, bits, r.value))
    && (r.Some? && sequential ==> SequentialChoice(r, pool, firstLast + prefer))
    && (r.Some? && !sequential ==>
          && (forall i: nat :: Candidate(pieces, prios, bits, i) ==>
                && (PrioOf(prios, i) == High ==> PrioOf(prios, r.value) == High)
                && (PrioOf(prios, i) == Normal ==> PrioOf(prios, r.value) == High || PrioOf(prios, r.value) == Normal))
          && GoodChoice(r, InBand(pool, prios, PrioOf(prios, r.value)), prefer, counts, bootstrapping))
  }

  /** The piece may be picked for the peer: missing, wanted, not reserved, and the peer has it. */
  ghost predicate Free(pieces: seq<Piece>, prios: seq<FilePriority>, bits: seq<bv8>, i: nat) {
    && i < |pieces| && !pieces[i].downloaded && pieces[i].reserved == None
    && (i < |prios| ==> prios[i] != Skip) && Has(bits, i)
  }

  /** Some free piece has the priority. */
  ghost predicate FreeAt(pieces: seq<Piece>, prios: seq<FilePriority>, bits: seq<bv8>, prio: FilePriority) {
    exists i: nat :: Free(pieces, prios, bits, i) && PrioOf(prios, i) == prio
  }

  lemma FreeIff(pieces: seq<Piece>, prios: seq<FilePriority>, bits: seq<bv8>, i: nat)
    ensures Free(pieces, prios, bits, i) <==> Candidate(pieces, prios, bits, i)
  {
  }

  /**
   By name: a piece is picked exactly when one is free, a free one; out of order it is a `High`
   one if any free piece is `High`, else a `Normal` one if any is, else a `Low` one.
   */
  ghost predicate PickedByName(pieces: seq<Piece>, prios: seq<FilePriority>, bits: seq<bv8>, sequential: bool, r: Option<nat>) {
    && (r.None? <==> forall i: nat :: !Free(pieces, prios, bits, i))
    && (r.Some? ==> Free(pieces, prios, bits, r.value))
    && (r.Some? && !sequential ==>
          PrioOf(prios, r.value) == if FreeAt(pieces, prios, bits, High) then High
                                    else if FreeAt(pieces, prios, bits, Normal) then Normal
                                    else Low)
  }

  lemma PickByName(pieces: seq<Piece>, prios: seq<FilePriority>, bits: seq<bv8>, firstLast: seq<nat>,
                   counts: seq<nat>, sequential: bool, bootstrapping: bool, prefer: seq<nat>, r: Option<nat>)
    requires GoodPick(pieces, prios, bits, firstLast, counts, sequential, bootstrapping, prefer, r)
    ensures PickedByName(pieces, prios, bits, sequential, r)
  {
    forall i: nat ensures Free(pieces, prios, bits, i) <==> Candidate(pieces, prios, bits, i) {
      FreeIff(pieces, prios, bits, i);
    }
    if r.Some? {
      assert FreeAt(pieces, prios, bits, PrioOf(prios, r.value));
    }
  }

  /** In order: the first free piece of the preferences, the edges of files before all others, else the lowest free one. */
  lemma PickInOrder(pieces: seq<Piece>, prios: seq<FilePriority>, bits: seq<bv8>, firstLast: seq<nat>,
                    counts: seq<nat>, bootstrapping: bool, prefer: seq<nat>, r: Option<nat>)
    requires GoodPick(pieces, prios, bits, firstLast, counts, true, bootstrapping, prefer, r) && r.Some?
    ensures forall j :: 0 <= j < |firstLast + prefer| && Free(pieces, prios, bits, (firstLast + prefer)[j])
                        && (forall m :: 0 <= m < j ==> !Free(pieces, prios, bits, (firstLast + prefer)[m]))
                        ==> r.value == (firstLast + prefer)[j]
    ensures (forall p :: p in firstLast + prefer ==> !Free(pieces, prios, bits, p))
            ==> forall i: nat :: Free(pieces, prios, bits, i) ==> r.value <= i
  {
    var pool, order := Candidates(pieces, prios, bits), firstLast + prefer;
    FreeIsInPool(pieces, prios, bits);
    forall j | 0 <= j < |order| && Free(pieces, prios, bits, order[j])
               && (forall m :: 0 <= m < j ==> !Free(pieces, prios, bits, order[m]))
      ensures r.value == order[j]
    {
      PreferredIsFirst(order, pool, j);
    }
  }

  lemma FreeIsInPool(pieces: seq<Piece>, prios: seq<FilePriority>, bits: seq<bv8>)
    ensures forall i: nat :: Free(pieces, prios, bits, i) <==> i in Candidates(pieces, prios, bits)
  {
    CandidatesMembers(pieces, prios, bits);
    forall i: nat ensures Free(pieces, prios, bits, i) <==> i in Candidates(pieces, prios, bits) {
      FreeIff(pieces, prios, bits, i);
    }
  }

  /** The free pieces of a priority. */
  ghost predicate FreeOf(pieces: seq<Piece>, prios: seq<FilePriority>, bits: seq<bv8>, prio: FilePriority, i: nat) {
    Free(pieces, prios, bits, i) && PrioOf(prios, i) == prio
  }

  /**
   Out of order, once enough is verified: among the free pieces of the picked priority the first of
   the preferences, else one that no other has fewer peers for.
   */
  lemma PickRarest(pieces: seq<Piece>, prios: seq<FilePriority>, bits: seq<bv8>, firstLast: seq<nat>,
                   counts: seq<nat>, prefer: seq<nat>, r: Option<nat>)
    requires GoodPick(pieces, prios, bits, firstLast, counts, false, false, prefer, r) && r.Some?
    requires |counts| == |pieces|
    ensures var prio := PrioOf(prios, r.value);
            && (forall j :: 0 <= j < |prefer| && FreeOf(pieces, prios, bits, prio, prefer[j])
                            && (forall m :: 0 <= m < j ==> !FreeOf(pieces, prios, bits, prio, prefer[m]))
                            ==> r.value == prefer[j])
            && ((forall p :: p in prefer ==> !FreeOf(pieces, prios, bits, prio, p))
                ==> forall i: nat :: FreeOf(pieces, prios, bits, prio, i) ==> counts[r.value] <= counts[i])
  {
    var prio := PrioOf(prios, r.value);
    var band := InBand(Candidates(pieces, prios, bits), prios, prio);
    FreeIsInPool(pieces, prios, bits);
    forall i: nat ensures FreeOf(pieces, prios, bits, prio, i) <==> i in band {
      InBandMembers(Candidates(pieces, prios, bits), prios, prio, i);
    }
    forall j | 0 <= j < |prefer| && FreeOf(pieces, prios, bits, prio, prefer[j])
               && (forall m :: 0 <= m < j ==> !FreeOf(pieces, prios, bits, prio, prefer[m]))
      ensures r.value == prefer[j]
    {
      PreferredIsFirst(prefer, band, j);
    }
    if forall p :: p in prefer ==> !FreeOf(pieces, prios, bits, prio, p) {
      forall i: nat | FreeOf(pieces, prios, bits, prio, i) ensures counts[r.value] <= counts[i] {
        assert CountOf(counts, r.value) <= CountOf(counts, i);
      }
    }
  }

  // ---------------------------------------------------------------------------------------
  // Complete, endgame, or something left to pick

  ghost predicate IsComplete(pieces: seq<Piece>, prios: seq<FilePriority>) {
    pieces != [] && forall i: nat :: !Missing(pieces, prios, i)
  }

  ghost predicate InEndgame(pieces: seq<Piece>, prios: seq<FilePriority>) {
    && (exists i: nat :: Missing(pieces, prios, i))
    && (forall i: nat :: Missing(pieces, prios, i) ==> pieces[i].reserved.Some?)
  }

  /** In full, when every piece has a priority. */
  lemma PhasesInFull(pieces: seq<Piece>, prios: seq<FilePriority>)
    requires |prios| == |pieces|
    ensures IsComplete(pieces, prios)
            <==> pieces != [] && forall i :: 0 <= i < |pieces| && prios[i] != Skip ==> pieces[i].downloaded
    ensures InEndgame(pieces, prios)
            <==> && (exists i :: 0 <= i < |pieces| && prios[i] != Skip && !pieces[i].downloaded)
                 && (forall i :: 0 <= i < |pieces| && prios[i] != Skip && !pieces[i].downloaded ==> pieces[i].reserved.Some?)
  {
    forall i: nat ensures Missing(pieces, prios, i) <==> i < |pieces| && prios[i] != Skip && !pieces[i].downloaded {
    }
    if exists i :: 0 <= i < |pieces| && prios[i] != Skip && !pieces[i].downloaded {
      var i :| 0 <= i < |pieces| && prios[i] != Skip && !pieces[i].downloaded;
      assert Missing(pieces, prios, i);
    }
    if forall i: nat :: Missing(pieces, prios, i) ==> pieces[i].reserved.Some? {
      forall i | 0 <= i < |pieces| && prios[i] != Skip && !pieces[i].downloaded ensures pieces[i].reserved.Some? {
        assert Missing(pieces, prios, i);
      }
    }
  }

  ghost predicate FullPeerCanPick(pieces: seq<Piece>, prios: seq<FilePriority>) {
    exists i: nat :: Candidate(pieces, prios, Filled(|pieces|), i)
  }

  /** A table that is not empty is complete, in endgame, or has work for a full peer: exactly one. */
  lemma ExactlyOnePhase(pieces: seq<Piece>, prios: seq<FilePriority>)
    requires pieces != []
    ensures IsComplete(pieces, prios) <==> !InEndgame(pieces, prios) && !FullPeerCanPick(pieces, prios)
    ensures !(InEndgame(pieces, prios) && FullPeerCanPick(pieces, prios))
  {
    if !IsComplete(pieces, prios) && !InEndgame(pieces, prios) {
      var i: nat :| Missing(pieces, prios, i) && pieces[i].reserved.None?;
      FilledHas(|pieces|, i);
      assert Candidate(pieces, prios, Filled(|pieces|), i);
    }
    if FullPeerCanPick(pieces, prios) {
      var i: nat :| Candidate(pieces, prios, Filled(|pieces|), i);
      assert Missing(pieces, prios, i);
    }
  }
}
