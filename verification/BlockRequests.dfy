/**
 Who has asked for which block: `assign_block`, `note_block_received`,
 `unassign_peer_blocks`, `endgame_blocks` and the cancels of `unwant_skipped` in
 `crates/bit_rev/src/peer_connection.rs`, as functions of the assignment table.
 */
module BlockRequests {
  import opened Basics
  import opened Bitfield
  import opened Assembly
  import opened Picker
  import opened Priority
  import opened PieceTable

  datatype Block = Block(index: nat, begin: nat, length: nat)

  /** The requesters of every block asked for, oldest first. */
  type Assignments = map<Block, seq<Peer>>

  /** Every block asked for has one or two requesters, and they differ. */
  ghost predicate WellAssigned(a: Assignments) {
    forall b :: b in a ==> 1 <= |a[b]| <= MAX_BLOCK_REQUESTERS && Distinct(a[b])
  }

  predicate CanAssign(a: Assignments, b: Block, p: Peer) {
    b in a ==> p !in a[b] && |a[b]| < MAX_BLOCK_REQUESTERS
  }

  function Assign(a: Assignments, b: Block, p: Peer): Assignments {
    a[b := (if b in a then a[b] else []) + [p]]
  }

  lemma AssignKeeps(a: Assignments, b: Block, p: Peer)
    requires WellAssigned(a) && CanAssign(a, b, p)
    ensures WellAssigned(Assign(a, b, p))
    ensures forall c, q :: c != b ==> (CanAssign(Assign(a, b, p), c, q) <==> CanAssign(a, c, q))
  {
  }

  function Unassign(a: Assignments, p: Peer): Assignments {
    map b | b in a && Without(a[b], p) != [] :: Without(a[b], p)
  }

  /** After a peer is gone nothing is assigned to it, and every other request stands. */
  lemma UnassignKeeps(a: Assignments, p: Peer)
    requires WellAssigned(a)
    ensures WellAssigned(Unassign(a, p))
    ensures forall b, q :: (b in Unassign(a, p) && q in Unassign(a, p)[b]) <==> (b in a && q in a[b] && q != p)
  {
    forall b | b in a
      ensures forall q :: q in Without(a[b], p) <==> q in a[b] && q != p
      ensures Distinct(Without(a[b], p))
    {
      WithoutMembers(a[b], p);
    }
    forall b, q | b in a && q in a[b] && q != p ensures b in Unassign(a, p) && q in Unassign(a, p)[b] {
      assert q in Without(a[b], p);
    }
  }

  // ---------------------------------------------------------------------------------------
  // Endgame

  /** The block may be asked of `p` now: it is free, or its single requester has had it long enough. */
  predicate Open(a: Assignments, b: Block, p: Peer, aged: set<Block>) {
    b in a ==> p !in a[b] && |a[b]| < MAX_BLOCK_REQUESTERS && b in aged
  }

  function GridBlock(piece: Piece, offset: nat): Block
    requires offset <= piece.length
  {
    Block(piece.index, offset, BlockSize(piece.length, offset))
  }

  predicate Offered(piece: Piece, offset: nat, a: Assignments, p: Peer, aged: set<Block>)
    requires offset <= piece.length
  {
    !HasStart(piece.chunks, offset) && Open(a, GridBlock(piece, offset), p, aged)
  }

  /** The blocks of one piece that `p` may be asked for, from `offset` on. */
  function PieceOffers(piece: Piece, offset: nat, a: Assignments, p: Peer, aged: set<Block>): seq<Block>
    decreases piece.length - offset
  {
    if offset >= piece.length then []
    else
      (if Offered(piece, offset, a, p, aged) then [GridBlock(piece, offset)] else [])
      + PieceOffers(piece, offset + BlockSize(piece.length, offset), a, p, aged)
  }

  /** A missing wanted piece that someone works on and the peer has. */
  predicate Busy(pieces: seq<Piece>, prios: seq<FilePriority>, bits: seq<bv8>, k: nat) {
    Missing(pieces, prios, k) && pieces[k].reserved.Some? && Has(bits, k)
  }

  /** All blocks that `p` may be asked for, from piece `k` on. */
  function OffersFrom(pieces: seq<Piece>, prios: seq<FilePriority>, bits: seq<bv8>,
                      a: Assignments, p: Peer, aged: set<Block>, k: nat): seq<Block>
    decreases |pieces| - k
  {
    if k >= |pieces| then []
    else
      (if Busy(pieces, prios, bits, k) then PieceOffers(pieces[k], 0, a, p, aged) else [])
      + OffersFrom(pieces, prios, bits, a, p, aged, k + 1)
  }

  /** The first `limit` elements. */
  function Truncate<T>(s: seq<T>, limit: nat): (r: seq<T>)
    ensures |r| <= limit
  {
    if |s| <= limit then s else s[..limit]
  }

  lemma TruncateTwice<T>(a: seq<T>, b: seq<T>, c: seq<T>, limit: nat)
    ensures Truncate(Truncate(a + b, limit) + c, limit) == Truncate(a + (b + c), limit)
  {
    assert a + (b + c) == (a + b) + c;
  }

  /** The inner loop of `endgame_blocks`: appends the offers of one piece, up to the limit. */
  method PieceBlocks(piece: Piece, a: Assignments, p: Peer, aged: set<Block>, found: seq<Block>, limit: nat)
    returns (out: seq<Block>)
    requires |found| <= limit
    ensures out == Truncate(found + PieceOffers(piece, 0, a, p, aged), limit)
  {
    out := found;
    var offset := 0;
    ghost var all := found + PieceOffers(piece, 0, a, p, aged);
    while offset < piece.length && |out| < limit
      invariant 0 <= offset <= piece.length && |out| <= limit
      invariant Truncate(out + PieceOffers(piece, offset, a, p, aged), limit) == Truncate(all, limit)
      decreases piece.length - offset
    {
      var next := offset + BlockSize(piece.length, offset);
      ghost var rest := PieceOffers(piece, next, a, p, aged);
      var b := GridBlock(piece, offset);
      if !HasStart(piece.chunks, offset) && (b !in a || (p !in a[b] && |a[b]| < MAX_BLOCK_REQUESTERS && b in aged)) {
        assert out + ([b] + rest) == (out + [b]) + rest;
        out := out + [b];
      } else {
        assert out + ([] + rest) == out + rest;
      }
      offset := next;
    }
  }

  /** The outer loop of `endgame_blocks`. */
  method OfferedBlocks(pieces: seq<Piece>, prios: seq<FilePriority>, bits: seq<bv8>,
                       a: Assignments, p: Peer, aged: set<Block>, limit: nat) returns (found: seq<Block>)
    ensures found == Truncate(OffersFrom(pieces, prios, bits, a, p, aged, 0), limit)
  {
    found := [];
    ghost var goal := Truncate(OffersFrom(pieces, prios, bits, a, p, aged, 0), limit);
    assert goal == Truncate([] + OffersFrom(pieces, prios, bits, a, p, aged, 0), limit) by {
      assert [] + OffersFrom(pieces, prios, bits, a, p, aged, 0) == OffersFrom(pieces, prios, bits, a, p, aged, 0);
    }
    var i := 0;
    while i < |pieces| && |found| < limit
      invariant i <= |pieces| && |found| <= limit
      invariant goal == Truncate(found + OffersFrom(pieces, prios, bits, a, p, aged, i), limit)
    {
      OffersStep(pieces, prios, bits, a, p, aged, found, i, limit);
      if Busy(pieces, prios, bits, i) {
        found := PieceBlocks(pieces[i], a, p, aged, found, limit);
      }
      i := i + 1;
    }
    TruncateDone(found, OffersFrom(pieces, prios, bits, a, p, aged, i), limit);
  }

  lemma TruncateDone<T>(found: seq<T>, rest: seq<T>, limit: nat)
    requires |found| <= limit && (rest == [] || |found| == limit)
    ensures Truncate(found + rest, limit) == found
  {
  }

  lemma OffersStep(pieces: seq<Piece>, prios: seq<FilePriority>, bits: seq<bv8>,
                   a: Assignments, p: Peer, aged: set<Block>, found: seq<Block>, i: nat, limit: nat)
    requires i < |pieces| && |found| <= limit
    ensures var next := if Busy(pieces, prios, bits, i) then Truncate(found + PieceOffers(pieces[i], 0, a, p, aged), limit) else found;
            Truncate(found + OffersFrom(pieces, prios, bits, a, p, aged, i), limit)
            == Truncate(next + OffersFrom(pieces, prios, bits, a, p, aged, i + 1), limit)
  {
    var rest := OffersFrom(pieces, prios, bits, a, p, aged, i + 1);
    if Busy(pieces, prios, bits, i) {
      TruncateTwice(found, PieceOffers(pieces[i], 0, a, p, aged), rest, limit);
    } else {
      assert [] + rest == rest;
    }
  }

  lemma TruncateMembers<T>(s: seq<T>, limit: nat)
    ensures forall x :: x in Truncate(s, limit) ==> x in s
    ensures |Truncate(s, limit)| < limit ==> Truncate(s, limit) == s
    ensures Distinct(s) ==> Distinct(Truncate(s, limit))
  {
  }

  lemma {:induction false} PieceOffersMembers(piece: Piece, offset: nat, a: Assignments, p: Peer, aged: set<Block>)
    requires offset % BLOCK_SIZE == 0
    ensures forall b :: b in PieceOffers(piece, offset, a, p, aged) ==>
              && b.index == piece.index && offset <= b.begin < piece.length
              && b == GridBlock(piece, b.begin) && b.begin % BLOCK_SIZE == 0
              && Offered(piece, b.begin, a, p, aged)
    ensures forall g: nat :: offset <= g < piece.length && g % BLOCK_SIZE == 0 && Offered(piece, g, a, p, aged)
              ==> GridBlock(piece, g) in PieceOffers(piece, offset, a, p, aged)
    ensures Distinct(PieceOffers(piece, offset, a, p, aged))
    decreases piece.length - offset
  {
    if offset < piece.length {
      var next := offset + BlockSize(piece.length, offset);
      if next < piece.length {
        PieceOffersMembers(piece, next, a, p, aged);
        assert forall g: nat :: offset <= g < piece.length && g % BLOCK_SIZE == 0 ==> g == offset || next <= g;
      } else {
        assert PieceOffers(piece, next, a, p, aged) == [];
        assert forall g: nat :: offset <= g < piece.length && g % BLOCK_SIZE == 0 ==> g == offset;
      }
    }
  }

  /** A block that is offered: which piece, which place, and why. */
  ghost predicate IsOffer(pieces: seq<Piece>, prios: seq<FilePriority>, bits: seq<bv8>,
                          a: Assignments, p: Peer, aged: set<Block>, b: Block) {
    && Busy(pieces, prios, bits, b.index)
    && b.begin < pieces[b.index].length && b.begin % BLOCK_SIZE == 0
    && b == GridBlock(pieces[b.index], b.begin)
    && Offered(pieces[b.index], b.begin, a, p, aged)
  }

  /** The offers of piece `k` alone. */
  lemma OffersOfPiece(pieces: seq<Piece>, prios: seq<FilePriority>, bits: seq<bv8>,
                      a: Assignments, p: Peer, aged: set<Block>, k: nat)
    requires WellFormedTable(pieces) && Busy(pieces, prios, bits, k)
    ensures forall b :: b in PieceOffers(pieces[k], 0, a, p, aged)
                        <==> b.index == k && IsOffer(pieces, prios, bits, a, p, aged, b)
  {
    PieceOffersMembers(pieces[k], 0, a, p, aged);
  }

  lemma {:induction false} OffersMembers(pieces: seq<Piece>, prios: seq<FilePriority>, bits: seq<bv8>,
                                         a: Assignments, p: Peer, aged: set<Block>, k: nat)
    requires WellFormedTable(pieces)
    ensures forall b :: b in OffersFrom(pieces, prios, bits, a, p, aged, k)
                        <==> k <= b.index && IsOffer(pieces, prios, bits, a, p, aged, b)
    ensures Distinct(OffersFrom(pieces, prios, bits, a, p, aged, k))
    decreases |pieces| - k
  {
    if k < |pieces| {
      OffersMembers(pieces, prios, bits, a, p, aged, k + 1);
      if Busy(pieces, prios, bits, k) {
        OffersOfPiece(pieces, prios, bits, a, p, aged, k);
        PieceOffersMembers(pieces[k], 0, a, p, aged);
        DistinctConcat(PieceOffers(pieces[k], 0, a, p, aged), OffersFrom(pieces, prios, bits, a, p, aged, k + 1));
      }
    }
  }

  /**
   In full: the piece is missing, wanted, reserved and there at the peer; the block starts on a
   multiple of 16384 and ends there or with the piece; it has not come; and nobody has asked for it,
   or one other peer has, long enough ago.
   */
  lemma OfferInFull(pieces: seq<Piece>, prios: seq<FilePriority>, bits: seq<bv8>,
                    a: Assignments, p: Peer, aged: set<Block>, b: Block)
    requires WellFormedTable(pieces)
    ensures IsOffer(pieces, prios, bits, a, p, aged, b)
            <==> && b.index < |pieces| && Has(bits, b.index)
                 && var piece := pieces[b.index];
                    && !piece.downloaded && piece.reserved.Some? && (b.index < |prios| ==> prios[b.index] != Skip)
                    && b.begin < piece.length && b.begin % 16384 == 0
                    && b.length == (if b.begin + 16384 <= piece.length then 16384 else piece.length - b.begin)
                    && (forall k :: 0 <= k < |piece.chunks| ==> piece.chunks[k].start != b.begin)
                    && (b in a ==> p !in a[b] && |a[b]| < 2 && b in aged)
  {
  }

  // ---------------------------------------------------------------------------------------
  // Cancels

  datatype Cancel = Cancel(peer: Peer, block: Block)

  /** A piece that a priority change lets go: unwanted and not yet downloaded. */
  predicate LetGo(pieces: seq<Piece>, prios: seq<FilePriority>, k: nat) {
    k < |pieces| && !Wanted(pieces, prios, k) && !pieces[k].downloaded
  }

  /** The blocks of a piece on the grid. */
  ghost predicate OnPieceGrid(piece: Piece, b: Block) {
    b.begin < piece.length && b.begin % BLOCK_SIZE == 0 && b == GridBlock(piece, b.begin)
  }

  /**
   A peer must be told to forget a block: it had asked for it, or it held the reservation of
   the piece and the block is on its grid.
   */
  ghost predicate MustCancel(pieces: seq<Piece>, prios: seq<FilePriority>, a: Assignments, c: Cancel) {
    && LetGo(pieces, prios, c.block.index)
    && ((c.block in a && c.peer in a[c.block])
        || (pieces[c.block.index].reserved == Some(c.peer) && OnPieceGrid(pieces[c.block.index], c.block)))
  }

  /** In full: the piece is unwanted and not downloaded, and the peer had asked for the block or reserved the piece. */
  lemma CancelInFull(pieces: seq<Piece>, prios: seq<FilePriority>, a: Assignments, c: Cancel)
    requires WellFormedTable(pieces)
    ensures MustCancel(pieces, prios, a, c)
            <==> && c.block.index < |pieces| && c.block.index < |prios| && prios[c.block.index] == Skip
                 && var piece := pieces[c.block.index];
                    && !piece.downloaded
                    && ((c.block in a && c.peer in a[c.block])
                        || (&& piece.reserved == Some(c.peer) && c.block.begin < piece.length && c.block.begin % 16384 == 0
                            && c.block.length == if c.block.begin + 16384 <= piece.length then 16384
                                                 else piece.length - c.block.begin))
  {
  }

  function Cleared(p: Piece): Piece {
    p.(reserved := None, chunks := [], writeClaimed := false)
  }

  /** A piece whose reservation is given up; the blocks of an unfinished piece may go with it. */
  function Released(p: Piece, clearChunks: bool): Piece {
    p.(reserved := None, chunks := if clearChunks && !p.downloaded then [] else p.chunks)
  }

  /** The assignments without those of one piece. */
  function DropPiece(a: Assignments, index: nat): Assignments {
    map b | b in a && b.index != index :: a[b]
  }

  /** The assignments that stand once the pieces below `n` that are let go have been dropped. */
  ghost function Keep(a: Assignments, pieces: seq<Piece>, prios: seq<FilePriority>, n: nat): Assignments {
    map b | b in a && !(b.index < n && LetGo(pieces, prios, b.index)) :: a[b]
  }

  lemma KeepOneMore(a: Assignments, pieces: seq<Piece>, prios: seq<FilePriority>, n: nat)
    ensures Keep(a, pieces, prios, n + 1)
            == if LetGo(pieces, prios, n) then DropPiece(Keep(a, pieces, prios, n), n) else Keep(a, pieces, prios, n)
  {
  }

  /** The table once the pieces below `n` that are let go have been cleared. */
  ghost function ClearedBelow(pieces: seq<Piece>, prios: seq<FilePriority>, n: nat): seq<Piece> {
    seq(|pieces|, k requires 0 <= k < |pieces| => if k < n && LetGo(pieces, prios, k) then Cleared(pieces[k]) else pieces[k])
  }

  lemma ClearOneMore(pieces: seq<Piece>, prios: seq<FilePriority>, n: nat)
    requires n < |pieces|
    ensures var next := ClearedBelow(pieces, prios, n + 1);
            var here := ClearedBelow(pieces, prios, n);
            && next == (if LetGo(pieces, prios, n) then here[n := Cleared(here[n])] else here)
            && here[n] == pieces[n]
  {
  }

  lemma LettingGoIsSound(a: Assignments, pieces: seq<Piece>, prios: seq<FilePriority>, n: nat)
    requires WellFormedTable(pieces) && WellAssigned(a)
    ensures WellFormedTable(ClearedBelow(pieces, prios, n)) && WellAssigned(Keep(a, pieces, prios, n))
    ensures CountDownloaded(ClearedBelow(pieces, prios, n), |pieces|) == CountDownloaded(pieces, |pieces|)
  {
    CountDependsOnFlags(pieces, ClearedBelow(pieces, prios, n), |pieces|);
  }

  /** A priority change leaves nothing on a piece that is let go, and changes nothing else. */
  lemma NothingLeftBehind(pieces: seq<Piece>, prios: seq<FilePriority>, a: Assignments, k: nat)
    requires k < |pieces|
    ensures var after, kept := ClearedBelow(pieces, prios, |pieces|), Keep(a, pieces, prios, |pieces|);
            if LetGo(after, prios, k) then
              && after[k].reserved.None? && after[k].chunks == [] && !after[k].writeClaimed
              && forall b :: b in kept ==> b.index != k
            else
              && after[k] == pieces[k]
              && forall b: Block :: b.index == k ==> (b in kept <==> b in a) && (b in a ==> kept[b] == a[b])
  {
  }

  /** The pieces let go before `n` do not change what piece `n` has to cancel. */
  lemma CancelsUnchanged(before: seq<Piece>, pieces: seq<Piece>, prios: seq<FilePriority>, a: Assignments, n: nat)
    requires n < |before| == |pieces| && pieces[n] == before[n]
    ensures forall c: Cancel :: c.block.index == n ==>
              (MustCancel(pieces, prios, Keep(a, before, prios, n), c) <==> MustCancel(before, prios, a, c))
  {
  }

  function CancelsOf(b: Block, requesters: seq<Peer>): seq<Cancel> {
    seq(|requesters|, i requires 0 <= i < |requesters| => Cancel(requesters[i], b))
  }

  lemma CancelsOfMembers(b: Block, requesters: seq<Peer>)
    requires Distinct(requesters)
    ensures Distinct(CancelsOf(b, requesters))
    ensures forall c: Cancel :: c in CancelsOf(b, requesters) <==> c.block == b && c.peer in requesters
  {
    var list := CancelsOf(b, requesters);
    forall c: Cancel | c.block == b && c.peer in requesters ensures c in list {
      var i :| 0 <= i < |requesters| && requesters[i] == c.peer;
      assert list[i] == c;
    }
  }

  /** The part of `unwant_skipped` that drops the requests for one piece. */
  method DropRequests(a: Assignments, index: nat) returns (dropped: seq<Cancel>)
    requires WellAssigned(a)
    ensures Distinct(dropped)
    ensures forall c: Cancel :: c in dropped <==> c.block.index == index && c.block in a && c.peer in a[c.block]
  {
    var todo := a.Keys;
    dropped := [];
    while todo != {}
      invariant todo <= a.Keys
      invariant Distinct(dropped)
      invariant forall c: Cancel :: c in dropped <==>
                  c.block.index == index && c.block in a && c.block !in todo && c.peer in a[c.block]
      decreases |todo|
    {
      var b :| b in todo;
      todo := todo - {b};
      if b.index == index {
        CancelsOfMembers(b, a[b]);
        DistinctConcat(dropped, CancelsOf(b, a[b]));
        dropped := dropped + CancelsOf(b, a[b]);
      }
    }
  }

  /** The part of `unwant_skipped` that cancels every block of a reserved piece. */
  method CancelGrid(cancels: seq<Cancel>, peer: Peer, piece: Piece) returns (out: seq<Cancel>)
    requires Distinct(cancels)
    ensures Distinct(out)
    ensures forall c: Cancel :: c in out <==> c in cancels || (c.peer == peer && OnPieceGrid(piece, c.block))
  {
    out := cancels;
    var offset := 0;
    while offset < piece.length
      invariant 0 <= offset <= piece.length && (offset < piece.length ==> offset % BLOCK_SIZE == 0)
      invariant Distinct(out)
      invariant forall c: Cancel :: c in out <==> c in cancels || (c.peer == peer && OnPieceGrid(piece, c.block) && c.block.begin < offset)
      decreases piece.length - offset
    {
      var c := Cancel(peer, GridBlock(piece, offset));
      if c !in out {
        out := out + [c];
      }
      offset := offset + BlockSize(piece.length, offset);
    }
  }
}
