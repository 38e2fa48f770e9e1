/**
 Runs of the download state of `crates/bit_rev/src/peer_connection.rs`: any sequence of the
 calls that peer tasks and the session make, in any order and with any arguments.
 */
module StateRuns {
  import Geometry
  import opened Basics
  import opened Availability
  import opened Bitfield
  import opened Priority
  import opened PieceTable
  import opened BlockRequests
  import opened DownloadState

  /** Calls that reserve a piece. */
  datatype ReserveCall =
    | Pick(picker: Peer, bits: seq<bv8>, prefer: seq<nat>)
    | TryReserve(index: nat, reserver: Peer)

  /** Calls that work on the blocks of one piece. */
  datatype ChunkCall =
    | SetChunks(index: nat, start: nat, buf: seq<Byte>, sender: Peer)
    | Finish(index: nat)
    | ClaimWrite(index: nat)
    | ClearChunks(index: nat)

  /** Calls that set or clear downloaded flags. */
  datatype FlagCall =
    | Mark(index: nat)
    | MarkAll
    | Restore(bits: seq<bv8>)
    | Remove(index: nat)
    | RemoveAll

  /** Calls that give reservations up. */
  datatype ReleaseCall =
    | Release(index: nat)
    | ReleaseOf(index: nat, holder: Peer)
    | RemoveReserved(leaver: Peer)
    | Snub(snubbed: Peer)

  /** Calls about requests. */
  datatype RequestCall =
    | Assign(block: Block, requester: Peer)
    | AssignOffers(requester: Peer, bits: seq<bv8>, limit: nat, aged: set<Block>)
    | Received(block: Block, requester: Peer)
    | Unassign(requester: Peer)

  /** Calls about content and priorities. */
  datatype ContentCall =
    | Install(layout: Geometry.Torrent, inOrder: bool, given: seq<FilePriority>)
    | Priorities(given: seq<FilePriority>)
    | OnePriority(file: nat, prio: FilePriority)
    | InOrder(inOrder: bool)

  datatype Call =
    | OfReserve(reserve: ReserveCall)
    | OfChunks(chunks: ChunkCall)
    | OfFlags(flags: FlagCall)
    | OfRelease(release: ReleaseCall)
    | OfRequests(requests: RequestCall)
    | OfContent(content: ContentCall)
    | OfPeers(step: Step)

  /** A layout that is installed has as many hashes as the table has pieces; how many its length takes does not matter. */
  ghost predicate Fits(c: Call, pieceCount: nat) {
    c.OfContent? && c.content.Install? ==> Geometry.Laid(c.content.layout) && c.content.layout.pieceCount == pieceCount
  }

  /** The call takes the downloaded flag of piece `i` back. */
  predicate TakesBack(c: Call, i: nat) {
    c.OfFlags? && (c.flags == Remove(i) || c.flags.RemoveAll?)
  }

  /** The call may drop the claim to write piece `i`; a priority change may let any piece go. */
  predicate Unclaims(c: Call, i: nat) {
    TakesBack(c, i) || (c.OfContent? && !c.content.InOrder?)
  }

  /** The peer steps among the calls. */
  ghost function StepsOf(calls: seq<Call>): seq<Step> {
    if calls == [] then []
    else StepsOf(calls[..|calls| - 1]) + if calls[|calls| - 1].OfPeers? then [calls[|calls| - 1].step] else []
  }

  /** What a call granted: that a piece is complete, or the right to write it. */
  datatype Grant = Nothing | Finished(index: nat) | Claimed(index: nat)

  ghost predicate IsFinished(pieces: seq<Piece>, i: nat) {
    i < |pieces| && pieces[i].downloaded
  }

  ghost predicate IsClaimed(pieces: seq<Piece>, i: nat) {
    i < |pieces| && pieces[i].writeClaimed
  }

  /** No downloaded flag is lost. */
  ghost predicate KeepsDownloaded(before: seq<Piece>, after: seq<Piece>) {
    |before| == |after| && forall i :: IsFinished(before, i) ==> IsFinished(after, i)
  }

  /** No claim is lost. */
  ghost predicate KeepsClaims(before: seq<Piece>, after: seq<Piece>) {
    |before| == |after| && forall i :: IsClaimed(before, i) ==> IsClaimed(after, i)
  }

  /** A grant is for a piece that did not have it before and has it now. */
  ghost predicate GrantedNow(g: Grant, before: seq<Piece>, after: seq<Piece>) {
    match g
    case Nothing => true
    case Finished(i) => !IsFinished(before, i) && IsFinished(after, i)
    case Claimed(i) => !IsClaimed(before, i) && IsClaimed(after, i)
  }

  /** Call `m` takes back what the grant gave. */
  predicate Undoes(c: Call, g: Grant) {
    (g.Finished? && TakesBack(c, g.index)) || (g.Claimed? && Unclaims(c, g.index))
  }

  /** The piece still has what the grant gave. */
  ghost predicate Stands(g: Grant, pieces: seq<Piece>) {
    match g
    case Nothing => true
    case Finished(i) => IsFinished(pieces, i)
    case Claimed(i) => IsClaimed(pieces, i)
  }

  /** Some call between the two places takes back what the first was granted. */
  ghost predicate UndoneBetween(calls: seq<Call>, grants: seq<Grant>, a: nat, b: nat)
    requires a < b <= |calls| && a < |grants|
  {
    exists m :: a < m < b && Undoes(calls[m], grants[a])
  }

  /** Every grant stands until a call takes it back. */
  ghost predicate GrantsStand(calls: seq<Call>, grants: seq<Grant>, pieces: seq<Piece>) {
    |grants| <= |calls| && forall a :: 0 <= a < |grants| ==> Stands(grants[a], pieces) || UndoneBetween(calls, grants, a, |grants|)
  }

  /** The same grant is given again only after a call in between took it back. */
  ghost predicate GrantedOnce(calls: seq<Call>, grants: seq<Grant>) {
    |grants| <= |calls|
    && forall a, b :: 0 <= a < b < |grants| && grants[a] == grants[b] && !grants[a].Nothing? ==> UndoneBetween(calls, grants, a, b)
  }

  /** The call may set the downloaded flag of piece `i`. */
  predicate MaySet(c: Call, i: nat) {
    c.OfFlags? && (c.flags == Mark(i) || c.flags.MarkAll? || (c.flags.Restore? && Has(c.flags.bits, i)))
  }

  /** Flags and claims that are new after a call come from its grant, or are flags that it sets outright. */
  ghost predicate Caused(c: Call, g: Grant, before: seq<Piece>, after: seq<Piece>) {
    && (forall i :: IsFinished(after, i) ==> IsFinished(before, i) || g == Finished(i) || MaySet(c, i))
    && (forall i :: IsClaimed(after, i) ==> IsClaimed(before, i) || g == Claimed(i))
  }

  /** Some call was granted the piece, or set its flag outright. */
  ghost predicate FlagHasCause(calls: seq<Call>, grants: seq<Grant>, i: nat) {
    |grants| <= |calls| && exists n :: 0 <= n < |grants| && (grants[n] == Finished(i) || MaySet(calls[n], i))
  }

  /** Every flag and every claim was there at the start or has a cause among the calls. */
  ghost predicate AllCaused(calls: seq<Call>, grants: seq<Grant>, start: seq<Piece>, pieces: seq<Piece>) {
    && (forall i :: IsFinished(pieces, i) ==> IsFinished(start, i) || FlagHasCause(calls, grants, i))
    && (forall i :: IsClaimed(pieces, i) ==> IsClaimed(start, i) || Claimed(i) in grants)
  }

  lemma OneMoreCause(calls: seq<Call>, grants: seq<Grant>, g: Grant, start: seq<Piece>, before: seq<Piece>, after: seq<Piece>)
    requires |grants| < |calls| && AllCaused(calls, grants, start, before) && Caused(calls[|grants|], g, before, after)
    ensures AllCaused(calls, grants + [g], start, after)
  {
    var all := grants + [g];
    forall i | IsFinished(after, i) ensures IsFinished(start, i) || FlagHasCause(calls, all, i) {
      if IsFinished(before, i) && !IsFinished(start, i) {
        var n :| 0 <= n < |grants| && (grants[n] == Finished(i) || MaySet(calls[n], i));
        assert all[n] == grants[n];
      } else if !IsFinished(before, i) {
        assert all[|grants|] == g;
      }
    }
  }

  /** Only finishing and claiming are granted anything. */
  predicate GrantFits(c: Call, g: Grant) {
    && (g.Finished? ==> c == OfChunks(Finish(g.index)))
    && (g.Claimed? ==> c == OfChunks(ClaimWrite(g.index)))
  }

  /** One call: grants that it does not take back still stand, and a new one is no repetition. */
  lemma OneMoreGrant(calls: seq<Call>, grants: seq<Grant>, g: Grant, before: seq<Piece>, after: seq<Piece>)
    requires |grants| < |calls| && GrantsStand(calls, grants, before) && GrantedOnce(calls, grants)
    requires GrantedNow(g, before, after)
    requires forall given :: Stands(given, before) && !Undoes(calls[|grants|], given) ==> Stands(given, after)
    ensures GrantsStand(calls, grants + [g], after) && GrantedOnce(calls, grants + [g])
  {
    var all, n := grants + [g], |grants|;
    forall a | 0 <= a < |all| ensures Stands(all[a], after) || UndoneBetween(calls, all, a, n + 1) {
      if a < n {
        if UndoneBetween(calls, grants, a, n) {
          var m :| a < m < n && Undoes(calls[m], grants[a]);
          assert Undoes(calls[m], all[a]);
        } else if Undoes(calls[n], grants[a]) {
          assert Undoes(calls[n], all[a]);
        }
      }
    }
    forall a, b | 0 <= a < b < |all| && all[a] == all[b] && !all[a].Nothing? ensures UndoneBetween(calls, all, a, b) {
      if b < n {
        assert UndoneBetween(calls, grants, a, b);
        var m :| a < m < b && Undoes(calls[m], grants[a]);
        assert Undoes(calls[m], all[a]);
      } else {
        assert !Stands(grants[a], before);
        var m :| a < m < n && Undoes(calls[m], grants[a]);
        assert Undoes(calls[m], all[a]);
      }
    }
  }

  /** One call more. */
  lemma OneMoreCall(start: Swarm, calls: seq<Call>, n: nat)
    requires n < |calls|
    ensures RunFrom(start, StepsOf(calls[..n + 1]))
            == if calls[n].OfPeers? then Next(RunFrom(start, StepsOf(calls[..n])), calls[n].step)
               else RunFrom(start, StepsOf(calls[..n]))
  {
    assert calls[..n + 1][..n] == calls[..n];
    assert StepsOf(calls[..n]) + [] == StepsOf(calls[..n]);
    if calls[n].OfPeers? {
      RunFromAppend(start, StepsOf(calls[..n]), calls[n].step);
    }
  }

  method DoReserveCall(state: TorrentDownloadedState, c: ReserveCall)
    requires state.Valid()
    modifies state`pieces
    ensures state.Valid()
    ensures KeepsDownloaded(old(state.pieces), state.pieces) && KeepsClaims(old(state.pieces), state.pieces)
    ensures Caused(OfReserve(c), Nothing, old(state.pieces), state.pieces)
  {
    match c {
      case Pick(p, bits, prefer) => var _ := state.Pick(p, bits, prefer);
      case TryReserve(i, p) => var _ := state.TryReservePiece(i, p);
    }
  }

  method DoFinish(state: TorrentDownloadedState, i: nat) returns (g: Grant)
    requires state.Valid()
    modifies state`pieces, state`verified
    ensures state.Valid()
    ensures KeepsDownloaded(old(state.pieces), state.pieces) && KeepsClaims(old(state.pieces), state.pieces)
    ensures GrantedNow(g, old(state.pieces), state.pieces) && GrantFits(OfChunks(Finish(i)), g)
    ensures Caused(OfChunks(Finish(i)), g, old(state.pieces), state.pieces)
  {
    var done := state.SetDownloadedIfAllChunks(i);
    g := if done then Finished(i) else Nothing;
  }

  method DoClaim(state: TorrentDownloadedState, i: nat) returns (g: Grant)
    requires state.Valid()
    modifies state`pieces
    ensures state.Valid()
    ensures KeepsDownloaded(old(state.pieces), state.pieces) && KeepsClaims(old(state.pieces), state.pieces)
    ensures GrantedNow(g, old(state.pieces), state.pieces) && GrantFits(OfChunks(ClaimWrite(i)), g)
    ensures Caused(OfChunks(ClaimWrite(i)), g, old(state.pieces), state.pieces)
  {
    var won := state.ClaimWrite(i);
    g := if won then Claimed(i) else Nothing;
  }

  method DoChunkCall(state: TorrentDownloadedState, c: ChunkCall) returns (g: Grant)
    requires state.Valid()
    modifies state`pieces, state`verified, state`duplicateBytes
    ensures state.Valid()
    ensures KeepsDownloaded(old(state.pieces), state.pieces) && KeepsClaims(old(state.pieces), state.pieces)
    ensures GrantedNow(g, old(state.pieces), state.pieces) && GrantFits(OfChunks(c), g)
    ensures Caused(OfChunks(c), g, old(state.pieces), state.pieces)
  {
    g := Nothing;
    match c {
      case SetChunks(i, start, buf, p) => var _ := state.SetChunks(i, start, buf, p);
      case Finish(i) => g := DoFinish(state, i);
      case ClaimWrite(i) => g := DoClaim(state, i);
      case ClearChunks(i) => state.ClearPieceChunks(i);
    }
  }

  method DoFlagCall(state: TorrentDownloadedState, c: FlagCall)
    requires state.Valid()
    modifies state`pieces, state`verified
    ensures state.Valid() && |state.pieces| == old(|state.pieces|)
    ensures Caused(OfFlags(c), Nothing, old(state.pieces), state.pieces)
    ensures forall i :: !TakesBack(OfFlags(c), i) && IsFinished(old(state.pieces), i) ==> IsFinished(state.pieces, i)
    ensures forall i :: !TakesBack(OfFlags(c), i) && IsClaimed(old(state.pieces), i) ==> IsClaimed(state.pieces, i)
  {
    match c {
      case Mark(i) => state.MarkDownloaded(i);
      case MarkAll => state.MarkAllDownloaded();
      case Restore(bits) => state.ApplyBitfield(bits);
      case Remove(i) => state.RemoveDownloaded(i);
      case RemoveAll => state.ClearAllDownloaded();
    }
  }

  method DoReleaseCall(state: TorrentDownloadedState, c: ReleaseCall)
    requires state.Valid()
    modifies state`pieces, state`assignments
    ensures state.Valid()
    ensures KeepsDownloaded(old(state.pieces), state.pieces) && KeepsClaims(old(state.pieces), state.pieces)
    ensures Caused(OfRelease(c), Nothing, old(state.pieces), state.pieces)
  {
    match c {
      case Release(i) => state.ReleasePiece(i);
      case ReleaseOf(i, p) => var _ := state.ReleaseReservation(i, p);
      case RemoveReserved(p) => state.RemoveReserved(p);
      case Snub(p) => state.SnubRelease(p);
    }
  }

  method DoRequestCall(state: TorrentDownloadedState, c: RequestCall)
    requires state.Valid()
    modifies state`assignments
    ensures state.Valid()
  {
    match c {
      case Assign(b, p) => var _ := state.AssignBlock(b, p);
      case AssignOffers(p, bits, limit, aged) => var _, _ := state.AssignOffers(p, bits, limit, aged);
      case Received(b, p) => var _ := state.NoteBlockReceived(b, p);
      case Unassign(p) => state.UnassignPeerBlocks(p);
    }
  }

  method DoContentCall(state: TorrentDownloadedState, c: ContentCall)
    requires state.Valid() && Fits(OfContent(c), |state.pieces|)
    modifies state`pieces, state`assignments, state`filePriorities, state`piecePriority, state`firstLast,
             state`pieceFiles, state`spans, state`pieceLength, state`sequential, state`content
    ensures state.Valid() && KeepsDownloaded(old(state.pieces), state.pieces)
    ensures Caused(OfContent(c), Nothing, old(state.pieces), state.pieces)
    ensures c.InOrder? ==> state.pieces == old(state.pieces)
    ensures c.Install? ==> state.content == Some(c.layout)
    ensures !c.Install? ==> state.content == old(state.content)
  {
    match c {
      case Install(t, inOrder, given) => var _ := state.InstallContent(t, inOrder, given);
      case Priorities(given) => var _ := state.ApplyFilePriorities(given);
      case OnePriority(k, prio) => var _ := state.SetFilePriority(k, prio);
      case InOrder(s) => state.SetSequential(s);
    }
  }

  /**
   What a message leaves stored for its peer: a bitfield its bits, have-all every piece of the
   torrent, have-none nothing, a have one piece more if there is a bit for it.
   */
  ghost predicate Stores(e: Step, pieceCount: nat, before: seq<bv8>, peers: map<Peer, seq<bv8>>) {
    if e.Disconnect? then e.peer !in peers
    else
      && e.peer in peers
      && (e.Connect? ==> peers[e.peer] == before)
      && (e.SendBitfield? ==> peers[e.peer] == e.bits)
      && (e.SendHaveAll? ==> forall i: nat :: Has(peers[e.peer], i) <==> i < pieceCount)
      && (e.SendHaveNone? ==> forall i: nat :: !Has(peers[e.peer], i))
      && (e.SendHave? ==> forall i: nat :: Has(peers[e.peer], i) <==> Has(before, i) || (i == e.index < 8 * |before|))
  }

  lemma StepStores(s: Swarm, e: Step)
    requires e.peer in s.peers
    ensures Stores(e, |s.counts|, s.peers[e.peer], Next(s, e).peers)
  {
    var k := if e.SendHave? then e.index else 0;
    forall i: nat
      ensures e.SendHaveAll? ==> (Has(Next(s, e).peers[e.peer], i) <==> i < |s.counts|)
      ensures e.SendHaveNone? ==> !Has(Next(s, e).peers[e.peer], i)
      ensures e.SendHave? ==>
                (Has(Next(s, e).peers[e.peer], i) <==> Has(s.peers[e.peer], i) || (i == k < 8 * |s.peers[e.peer]|))
    {
      EachMessageStores(s, e.peer, [], k, i);
    }
  }

  /** A peer step, with the bitfields that the peers have stored, as the message loop runs it. */
  method DoPeerStep(state: TorrentDownloadedState, e: Step, stored: map<Peer, seq<bv8>>) returns (next: map<Peer, seq<bv8>>)
    requires state.Valid() && stored == state.stored
    modifies state`stored, state.availability
    ensures state.Valid() && next == state.stored
    ensures state.Peers() == Next(old(state.Peers()), e)
    ensures e.peer in stored ==> Stores(e, |state.pieces|, stored[e.peer], next)
  {
    if e.peer in stored {
      StepStores(old(state.Peers()), e);
    }
    next := stored;
    if e.Connect? {
      if e.peer !in stored {
        next := stored[e.peer := []];
        state.stored := next;
      }
      return;
    }
    if e.peer !in stored {
      return;
    }
    var bits := stored[e.peer];
    match e {
      case SendBitfield(p, sent) =>
        state.ApplyPeerBitfield(p, bits, sent);
        next := stored[p := sent];
      case SendHaveAll(p) =>
        state.ApplyPeerBitfield(p, bits, Filled(|state.pieces|));
        next := stored[p := Filled(|state.pieces|)];
      case SendHaveNone(p) =>
        state.ApplyPeerBitfield(p, bits, Zeros(|state.pieces|));
        next := stored[p := Zeros(|state.pieces|)];
      case SendHave(p, i) =>
        var after, _ := state.ApplyPeerHave(p, bits, i);
        next := stored[p := after];
      case Disconnect(p) =>
        state.RemovePeerAvailability(p, bits);
        next := stored - {p};
    }
  }

  method Do(state: TorrentDownloadedState, c: Call, stored: map<Peer, seq<bv8>>)
    returns (g: Grant, next: map<Peer, seq<bv8>>)
    requires state.Valid() && Fits(c, |state.pieces|) && stored == state.stored
    modifies state, state.availability
    ensures state.Valid() && |state.pieces| == old(|state.pieces|) && next == state.stored
    ensures forall g :: Stands(g, old(state.pieces)) && !Undoes(c, g) ==> Stands(g, state.pieces)
    ensures GrantedNow(g, old(state.pieces), state.pieces) && GrantFits(c, g)
    ensures Caused(c, g, old(state.pieces), state.pieces)
    ensures state.content == if c.OfContent? && c.content.Install? then Some(c.content.layout) else old(state.content)
    ensures state.Peers() == if c.OfPeers? then Next(old(state.Peers()), c.step) else old(state.Peers())
  {
    g, next := Nothing, stored;
    match c {
      case OfReserve(r) => DoReserveCall(state, r);
      case OfChunks(p) => g := DoChunkCall(state, p);
      case OfFlags(f) => DoFlagCall(state, f);
      case OfRelease(r) => DoReleaseCall(state, r);
      case OfRequests(r) => DoRequestCall(state, r);
      case OfContent(k) => DoContentCall(state, k);
      case OfPeers(e) => next := DoPeerStep(state, e, stored);
    }
  }

  /**
   Every run keeps the invariant. A piece is reported complete again only after a call took its
   flag back, and claimed again only after a call may have dropped the claim. A flag that is new was
   reported or set outright, and a claim that is new was granted. Every count exceeds the number of
   connected peers that have the piece by the uncovered haves of the run.
   */
  method Run(state: TorrentDownloadedState, calls: seq<Call>, peers: map<Peer, seq<bv8>>) returns (grants: seq<Grant>)
    requires state.Valid() && peers == state.stored
    requires forall c :: c in calls ==> Fits(c, |state.pieces|)
    modifies state, state.availability
    ensures state.Valid() && |state.pieces| == old(|state.pieces|)
    ensures |grants| == |calls| && GrantedOnce(calls, grants)
    ensures forall n :: 0 <= n < |calls| ==> GrantFits(calls[n], grants[n])
    ensures AllCaused(calls, grants, old(state.pieces), state.pieces)
    ensures state.Peers() == RunFrom(old(state.Peers()), StepsOf(calls))
    ensures old(Agrees(state.Peers())) && AllHaveRoom(old(state.Peers()), StepsOf(calls))
            ==> (Agrees(state.Peers()) <==> NoLeaks(old(state.Peers()), StepsOf(calls)))
    ensures forall i: nat :: i < |state.pieces| && Exceeds(old(state.Peers()), i, 0) && HasRoom(old(state.Peers()), StepsOf(calls), i, 0)
                             ==> Exceeds(state.Peers(), i, Leaks(old(state.Peers()), StepsOf(calls), i))
  {
    grants := [];
    ghost var start := state.Peers();
    var stored := peers;
    for n := 0 to |calls|
      invariant state.Valid() && |state.pieces| == old(|state.pieces|) && stored == state.stored
      invariant |grants| == n && GrantsStand(calls, grants, state.pieces) && GrantedOnce(calls, grants)
      invariant forall k :: 0 <= k < n ==> GrantFits(calls[k], grants[k])
      invariant AllCaused(calls, grants, old(state.pieces), state.pieces)
      invariant state.Peers() == RunFrom(start, StepsOf(calls[..n]))
    {
      assert calls[n] in calls;
      OneMoreCall(start, calls, n);
      ghost var before := state.pieces;
      var g;
      g, stored := Do(state, calls[n], stored);
      OneMoreGrant(calls, grants, g, before, state.pieces);
      OneMoreCause(calls, grants, g, old(state.pieces), before, state.pieces);
      grants := grants + [g];
    }
    assert calls[..|calls|] == calls;
    if Agrees(start) && AllHaveRoom(start, StepsOf(calls)) {
      RunAgreesIff(start, StepsOf(calls));
    }
    forall i: nat | i < |state.pieces| && Exceeds(start, i, 0) && HasRoom(start, StepsOf(calls), i, 0)
      ensures Exceeds(state.Peers(), i, Leaks(start, StepsOf(calls), i))
    {
      ExcessIsLeaks(start, StepsOf(calls), i, 0);
    }
  }
}
