/**
 `TorrentDownloadedState` of `crates/bit_rev/src/peer_connection.rs`: the download state of
 one torrent that all its peer tasks share. Every method is one atomic step; `Valid` is what
 each of them keeps, and so what holds in every state of every run. Notifications and the
 semaphore are left out, random choice is any choice, and whether a block has been out long
 enough to be asked for again is an argument.
 */
module DownloadState {
  import opened Availability
  import opened Basics
  import opened Bitfield
  import opened Assembly
  import opened Geometry
  import opened Picker
  import opened Priority
  import opened PieceTable
  import opened BlockRequests

  /** The priority of a piece from the files it overlaps. */
  function FilesPriority(files: seq<nat>, prios: seq<FilePriority>): FilePriority {
    if files == [] then Normal else HighestOf(files, prios)
  }

  /** The flags that are set already in a new state. */
  method CountFlags(table: seq<Piece>) returns (n: nat)
    ensures n == CountDownloaded(table, |table|)
  {
    n := 0;
    for i := 0 to |table|
      invariant n == CountDownloaded(table, i)
    {
      if table[i].downloaded {
        n := n + 1;
      }
    }
  }

  /** The files of every piece, as `install_content` collects them. */
  method FilesOfPieces(t: Torrent, n: nat) returns (files: seq<seq<nat>>)
    ensures |files| == n && forall k :: 0 <= k < n ==> files[k] == FilesOfPiece(t, k)
  {
    files := [];
    for i := 0 to n
      invariant |files| == i && forall k :: 0 <= k < i ==> files[k] == FilesOfPiece(t, k)
    {
      var mappings := MapPieceToFiles(t, i);
      var list := seq(|mappings|, k requires 0 <= k < |mappings| => mappings[k].file);
      FilesAreMapped(t.files, BoundsForPiece(t, i), |t.files|);
      assert list == FilesOfPiece(t, i);
      files := files + [list];
    }
  }

  /** The maximum that `recompute_piece_priority` takes for one piece. */
  method HighestPriority(files: seq<nat>, prios: seq<FilePriority>) returns (prio: FilePriority)
    ensures prio == FilesPriority(files, prios)
  {
    if files == [] {
      return Normal;
    }
    prio := Skip;
    for j := 0 to |files|
      invariant prio == HighestOf(files[..j], prios)
    {
      assert files[..j + 1][..j] == files[..j];
      prio := Higher(prio, PrioOf(prios, files[j]));
    }
    assert files[..|files|] == files;
  }

  /** The top priority band of a list of pieces, as `pick` retains it. */
  method TopBand(list: seq<nat>, prios: seq<FilePriority>) returns (band: FilePriority, top: seq<nat>)
    requires list != []
    ensures top == InBand(list, prios, band) != []
    ensures forall i :: i in list ==> Rank(PrioOf(prios, i)) <= Rank(band)
    ensures band == if exists i :: i in list && PrioOf(prios, i) == High then High
                    else if exists i :: i in list && PrioOf(prios, i) == Normal then Normal
                    else if exists i :: i in list && PrioOf(prios, i) == Low then Low
                    else Skip
  {
    band := PrioOf(prios, list[0]);
    ghost var best := list[0];
    for k := 1 to |list|
      invariant best in list && PrioOf(prios, best) == band
      invariant forall i :: 0 <= i < k ==> Rank(PrioOf(prios, list[i])) <= Rank(band)
    {
      if Rank(PrioOf(prios, list[k])) > Rank(band) {
        band := PrioOf(prios, list[k]);
        best := list[k];
      }
    }
    top := [];
    for k := 0 to |list|
      invariant top == InBand(list[..k], prios, band)
    {
      assert list[..k + 1][..k] == list[..k];
      if PrioOf(prios, list[k]) == band {
        top := top + [list[k]];
      }
    }
    assert list[..|list|] == list;
    InBandMembers(list, prios, band, best);
  }

  /** The listed pieces that are candidates, in order. */
  method KeepAmong(list: seq<nat>, pool: seq<nat>) returns (kept: seq<nat>)
    ensures kept == Among(list, pool)
  {
    kept := [];
    for i := 0 to |list|
      invariant kept + Among(list[i..], pool) == Among(list, pool)
    {
      assert list[i..][1..] == list[i + 1..];
      if list[i] in pool {
        assert kept + ([list[i]] + Among(list[i + 1..], pool)) == (kept + [list[i]]) + Among(list[i + 1..], pool);
        kept := kept + [list[i]];
      }
    }
  }

  class TorrentDownloadedState {
    var pieces: seq<Piece>
    var verified: nat
    const availability: Counts
    var bootstrapUntil: nat
    var assignments: Assignments
    var duplicateBytes: nat
    var sequential: bool
    var filePriorities: seq<FilePriority>
    var piecePriority: seq<FilePriority>
    var pieceFiles: seq<seq<nat>>
    var spans: seq<FileInfo>
    var pieceLength: int
    var firstLast: seq<nat>

    /** The torrent whose layout was installed. */
    ghost var content: Option<Torrent>

    /** The bitfields that the connected peers have stored, by peer. */
    ghost var stored: map<Peer, seq<bv8>>

    /** The counts with the peers they count. */
    ghost function Peers(): Swarm
      reads this, availability
    {
      Swarm(availability.counts, stored)
    }

    ghost predicate Valid()
      reads this, availability
    {
      Sound() && CachesAgree()
    }

    /** What holds even while the caches are being rebuilt. */
    ghost predicate Sound()
      reads this, availability
    {
      && WellFormedTable(pieces)
      && verified == CountDownloaded(pieces, |pieces|)
      && |availability.counts| == |pieces| && IsCounts(availability.counts)
      && WellAssigned(assignments)
      && |piecePriority| == |pieces|
      && (content.Some? ==> LayoutInstalled(content.value))
      && (content.None? ==> pieceFiles == [] && spans == [] && pieceLength == 0)
      && (content.None? ==> forall i :: 0 <= i < |piecePriority| ==> piecePriority[i] == Normal)
    }

    /** What `install_content` stores. */
    ghost predicate LayoutInstalled(t: Torrent)
      reads this
    {
      && Laid(t) && |pieces| == t.pieceCount
      && |pieceFiles| == |pieces| && (forall i :: 0 <= i < |pieces| ==> pieceFiles[i] == FilesOfPiece(t, i))
      && spans == t.files && pieceLength == t.pieceLength
    }

    /** The caches are the direct definitions applied to the current file priorities. */
    ghost predicate CachesAgree()
      reads this
    {
      match content
      case None => firstLast == []
      case Some(t) =>
        && (forall i :: 0 <= i < |piecePriority| ==> piecePriority[i] == PiecePriority(t, filePriorities, i))
        && firstLast == FirstLastWanted(t, filePriorities)
    }

    constructor (table: seq<Piece>)
      requires WellFormedTable(table)
      ensures Valid() && fresh(availability) && pieces == table && content.None? && assignments == map[]
      ensures bootstrapUntil == 4 && !sequential
      ensures stored == map[] && Agrees(Peers())
    {
      var flags := CountFlags(table);
      pieces, verified := table, flags;
      availability := new Counts(|table|);
      bootstrapUntil := BOOTSTRAP_VERIFIED;
      assignments, duplicateBytes, sequential := map[], 0, false;
      filePriorities, piecePriority := [], seq(|table|, _ => Normal);
      pieceFiles, spans, pieceLength, firstLast := [], [], 0, [];
      content, stored := None, map[];
      new;
      NobodyAgrees(|table|);
    }

    // -------------------------------------------------------------------------------------
    // Flags and counters

    /** Replacing one entry by one that keeps its place. */
    lemma UpdateKeepsTable(i: nat, p: Piece)
      requires WellFormedTable(pieces) && i < |pieces|
      requires p.index == i && p.length == pieces[i].length && DistinctStarts(p.chunks)
      ensures WellFormedTable(pieces[i := p])
      ensures CountDownloaded(pieces[i := p], |pieces|)
              == CountDownloaded(pieces, |pieces|) + (if p.downloaded then 1 else 0) - (if pieces[i].downloaded then 1 else 0)
      ensures pieces[i].downloaded ==> CountDownloaded(pieces, |pieces|) > 0
    {
      CountAfterUpdate(pieces, i, p, |pieces|);
      if pieces[i].downloaded {
        CountIsPositive(pieces, i, |pieces|);
      }
    }

    method MarkDownloaded(index: nat)
      requires Valid()
      modifies `pieces, `verified
      ensures Valid()
      ensures pieces == if index < |old(pieces)| then old(pieces)[index := old(pieces)[index].(downloaded := true)] else old(pieces)
    {
      if index < |pieces| {
        UpdateKeepsTable(index, pieces[index].(downloaded := true));
        if !pieces[index].downloaded {
          verified := verified + 1;
        }
        pieces := pieces[index := pieces[index].(downloaded := true)];
      }
    }

    method MarkAllDownloaded()
      requires Valid()
      modifies `pieces, `verified
      ensures Valid() && |pieces| == |old(pieces)|
      ensures forall k :: 0 <= k < |pieces| ==> pieces[k] == old(pieces)[k].(downloaded := true)
    {
      for i := 0 to |pieces|
        invariant Valid() && |pieces| == |old(pieces)|
        invariant forall k :: 0 <= k < |pieces| ==>
                    pieces[k] == if k < i then old(pieces)[k].(downloaded := true) else old(pieces)[k]
      {
        MarkDownloaded(i);
      }
    }

    /** The decrement never saturates: a set flag is counted. */
    method RemoveDownloaded(index: nat)
      requires Valid()
      modifies `pieces, `verified
      ensures Valid() && |pieces| == |old(pieces)|
      ensures forall k :: 0 <= k < |pieces| ==>
                pieces[k] == if k == index then old(pieces)[k].(chunks := [], writeClaimed := false, downloaded := false)
                             else old(pieces)[k]
    {
      for i := 0 to |pieces|
        invariant Valid() && |pieces| == |old(pieces)|
        invariant pieces == if index < i then old(pieces)[index := old(pieces)[index].(chunks := [], writeClaimed := false, downloaded := false)]
                            else old(pieces)
      {
        if pieces[i].index == index {
          var p := pieces[i].(chunks := [], writeClaimed := false, downloaded := false);
          UpdateKeepsTable(i, p);
          if pieces[i].downloaded {
            verified := verified - 1;
          }
          pieces := pieces[i := p];
        }
      }
    }

    method ClearAllDownloaded()
      requires Valid()
      modifies `pieces, `verified
      ensures Valid() && |pieces| == |old(pieces)|
      ensures forall k :: 0 <= k < |pieces| ==>
                pieces[k] == old(pieces)[k].(chunks := [], writeClaimed := false, downloaded := false)
    {
      for i := 0 to |pieces|
        invariant Valid() && |pieces| == |old(pieces)|
        invariant forall k :: 0 <= k < |pieces| ==>
                    pieces[k] == if k < i then old(pieces)[k].(chunks := [], writeClaimed := false, downloaded := false)
                                 else old(pieces)[k]
      {
        RemoveDownloaded(i);
      }
    }

    method HaveCount() returns (n: nat)
      requires Valid()
      ensures n == CountDownloaded(pieces, |pieces|) == verified
    {
      n := 0;
      for i := 0 to |pieces|
        invariant n == CountDownloaded(pieces, i)
      {
        if pieces[i].downloaded {
          n := n + 1;
        }
      }
    }

    /** `wanted_total_bytes`, `wanted_have_bytes` and `left_bytes`, which add up. */
    method ByteCounts() returns (total: nat, have: nat, left: nat)
      requires Valid()
      ensures total == WantedBytes(pieces, piecePriority, All, |pieces|)
      ensures have == WantedBytes(pieces, piecePriority, Have, |pieces|)
      ensures left == WantedBytes(pieces, piecePriority, Left, |pieces|)
      ensures left + have == total
    {
      total, have, left := 0, 0, 0;
      for i := 0 to |pieces|
        invariant total == WantedBytes(pieces, piecePriority, All, i)
        invariant have == WantedBytes(pieces, piecePriority, Have, i)
        invariant left == WantedBytes(pieces, piecePriority, Left, i)
      {
        if Wanted(pieces, piecePriority, i) {
          total := total + pieces[i].length;
          if pieces[i].downloaded {
            have := have + pieces[i].length;
          } else {
            left := left + pieces[i].length;
          }
        }
      }
      BytesAddUp(pieces, piecePriority, |pieces|);
    }

    method Complete() returns (complete: bool)
      requires Valid()
      ensures complete <==> IsComplete(pieces, piecePriority)
      ensures complete <==> pieces != [] && forall i :: 0 <= i < |pieces| && piecePriority[i] != Skip ==> pieces[i].downloaded
    {
      PhasesInFull(pieces, piecePriority);
      if pieces == [] {
        return false;
      }
      for i := 0 to |pieces|
        invariant forall k: nat :: k < i ==> !Missing(pieces, piecePriority, k)
      {
        if !pieces[i].downloaded && Wanted(pieces, piecePriority, i) {
          assert Missing(pieces, piecePriority, i);
          return false;
        }
      }
      return true;
    }

    method Endgame() returns (endgame: bool)
      requires Valid()
      ensures endgame <==> InEndgame(pieces, piecePriority)
      ensures endgame <==>
                && (exists i :: 0 <= i < |pieces| && piecePriority[i] != Skip && !pieces[i].downloaded)
                && (forall i :: 0 <= i < |pieces| && piecePriority[i] != Skip && !pieces[i].downloaded ==> pieces[i].reserved.Some?)
    {
      var missing, reserved := 0, 0;
      ghost var seen: nat := 0;
      ghost var open: nat := 0;
      for i := 0 to |pieces|
        invariant 0 <= reserved <= missing
        invariant missing == 0 ==> forall k: nat :: k < i ==> !Missing(pieces, piecePriority, k)
        invariant missing > 0 ==> Missing(pieces, piecePriority, seen)
        invariant missing == reserved ==> forall k: nat :: k < i && Missing(pieces, piecePriority, k) ==> pieces[k].reserved.Some?
        invariant missing > reserved ==> Missing(pieces, piecePriority, open) && pieces[open].reserved.None?
      {
        if !pieces[i].downloaded && Wanted(pieces, piecePriority, pieces[i].index) {
          assert Missing(pieces, piecePriority, i);
          missing := missing + 1;
          seen := i;
          if pieces[i].reserved.Some? {
            reserved := reserved + 1;
          } else {
            open := i;
          }
        }
      }
      endgame := missing > 0 && missing == reserved;
      PhasesInFull(pieces, piecePriority);
    }

    // -------------------------------------------------------------------------------------
    // Resume

    /** `our_bitfield`: the bits of the downloaded pieces. */
    method OurBitfield() returns (bits: seq<bv8>)
      requires Valid()
      ensures forall i: nat :: Has(bits, i) <==> i < |pieces| && pieces[i].downloaded
    {
      var buffer := new Buffer.WithPieceCount(|pieces|);
      forall i: nat ensures !Has(Zeros(|pieces|), i) {
        ZerosHaveNothing(|pieces|, i);
      }
      for k := 0 to |pieces|
        invariant fresh(buffer) && |buffer.bytes| == |Zeros(|pieces|)|
        invariant forall i: nat :: Has(buffer.bytes, i) <==> i < k && pieces[i].downloaded
      {
        if pieces[k].downloaded {
          ghost var before := buffer.bytes;
          ZerosHaveNothing(|pieces|, k);
          buffer.SetPiece(k);
          forall i: nat ensures Has(buffer.bytes, i) <==> Has(before, i) || i == k {
            HasAfterSet(before, k, i);
          }
        }
      }
      bits := buffer.bytes;
    }

    /** `apply_bitfield` of the resume file. */
    method ApplyBitfield(bits: seq<bv8>)
      requires Valid()
      modifies `pieces, `verified
      ensures Valid() && |pieces| == |old(pieces)|
      ensures forall k :: 0 <= k < |pieces| ==>
                pieces[k] == if Has(bits, k) then old(pieces)[k].(downloaded := true) else old(pieces)[k]
    {
      for i := 0 to |pieces|
        invariant Valid() && |pieces| == |old(pieces)|
        invariant forall k :: 0 <= k < |pieces| ==>
                    pieces[k] == if k < i && Has(bits, k) then old(pieces)[k].(downloaded := true) else old(pieces)[k]
      {
        if Has(bits, i) {
          MarkDownloaded(i);
        }
      }
    }

    // -------------------------------------------------------------------------------------
    // File priorities

    /** `recompute_piece_priority`. */
    method RecomputePiecePriority()
      requires Sound()
      modifies `piecePriority
      ensures Sound()
      ensures content.Some? ==>
                forall i :: 0 <= i < |pieces| ==> piecePriority[i] == PiecePriority(content.value, filePriorities, i)
    {
      if pieceFiles == [] {
        return;
      }
      for i := 0 to |pieceFiles|
        invariant |piecePriority| == |pieces|
        invariant forall k :: 0 <= k < i ==> piecePriority[k] == FilesPriority(pieceFiles[k], filePriorities)
      {
        var prio := HighestPriority(pieceFiles[i], filePriorities);
        piecePriority := piecePriority[i := prio];
      }
    }

    /** `refresh_first_last`. */
    method RefreshFirstLast()
      requires Sound()
      modifies `firstLast
      ensures Sound()
      ensures firstLast == if content.None? then [] else FirstLastWanted(content.value, filePriorities)
    {
      var out := [];
      if pieceLength == 0 {
        firstLast := out;
        return;
      }
      for i := 0 to |spans|
        invariant out == FirstLastUpTo(spans, pieceLength, filePriorities, i)
      {
        if WantedFile(spans, filePriorities, i) {
          out := PushEdges(out, Wrap32(FirstPiece(spans[i], pieceLength)), Wrap32(LastPiece(spans[i], pieceLength)));
        }
      }
      firstLast := out;
    }

    /** The body of the loop of `unwant_skipped`, for a piece that is let go. */
    method LetGoOf(i: nat, cancels: seq<Cancel>) returns (more: seq<Cancel>)
      requires WellFormedTable(pieces) && WellAssigned(assignments) && LetGo(pieces, piecePriority, i)
      requires Distinct(cancels) && forall c :: c in cancels ==> c.block.index < i
      modifies `pieces, `assignments
      ensures pieces == old(pieces)[i := Cleared(old(pieces)[i])]
      ensures assignments == DropPiece(old(assignments), i)
      ensures Distinct(more)
      ensures forall c: Cancel :: c in more <==>
                c in cancels || (c.block.index == i && MustCancel(old(pieces), piecePriority, old(assignments), c))
    {
      var reservedPeer := pieces[i].reserved;
      pieces := pieces[i := pieces[i].(reserved := None, chunks := [], writeClaimed := false)];
      var dropped := DropRequests(assignments, i);
      assignments := DropPiece(assignments, i);
      DistinctConcat(cancels, dropped);
      more := cancels + dropped;
      if reservedPeer.Some? {
        more := CancelGrid(more, reservedPeer.value, pieces[i]);
      }
    }

    /** `unwant_skipped`: let go of everything that is no longer wanted and not yet downloaded. */
    method UnwantSkipped() returns (cancels: seq<Cancel>)
      requires Sound()
      modifies `pieces, `assignments
      ensures Sound() && |pieces| == |old(pieces)|
      ensures pieces == ClearedBelow(old(pieces), piecePriority, |old(pieces)|)
      ensures assignments == Keep(old(assignments), old(pieces), piecePriority, |old(pieces)|)
      ensures Distinct(cancels)
      ensures forall c: Cancel :: c in cancels <==> MustCancel(old(pieces), piecePriority, old(assignments), c)
    {
      cancels := [];
      ghost var before, asked := pieces, assignments;
      for i := 0 to |pieces|
        invariant pieces == ClearedBelow(before, piecePriority, i)
        invariant assignments == Keep(asked, before, piecePriority, i)
        invariant Distinct(cancels)
        invariant forall c: Cancel :: c in cancels <==> c.block.index < i && MustCancel(before, piecePriority, asked, c)
      {
        KeepOneMore(asked, before, piecePriority, i);
        ClearOneMore(before, piecePriority, i);
        LettingGoIsSound(asked, before, piecePriority, i);
        if !Wanted(pieces, piecePriority, i) && !pieces[i].downloaded {
          CancelsUnchanged(before, pieces, piecePriority, asked, i);
          cancels := LetGoOf(i, cancels);
        }
      }
      LettingGoIsSound(asked, before, piecePriority, |before|);
    }

    /** `apply_file_priorities`: rebuilds the caches, whatever they held, and lets go of what is not wanted any more. */
    method ApplyFilePriorities(given: seq<FilePriority>) returns (cancels: seq<Cancel>)
      requires Sound()
      modifies `filePriorities, `piecePriority, `firstLast, `pieces, `assignments
      ensures Valid() && |pieces| == |old(pieces)|
      ensures |filePriorities| == if spans == [] then |given| else |spans|
      ensures forall k :: 0 <= k < |filePriorities| ==> filePriorities[k] == if k < |given| then given[k] else Normal
      ensures pieces == ClearedBelow(old(pieces), piecePriority, |old(pieces)|)
      ensures assignments == Keep(old(assignments), old(pieces), piecePriority, |old(pieces)|)
      ensures Distinct(cancels)
      ensures forall c: Cancel :: c in cancels <==> MustCancel(old(pieces), piecePriority, old(assignments), c)
    {
      filePriorities := NormalizeFilePriorities(if spans == [] then |given| else |spans|, given);
      RecomputePiecePriority();
      RefreshFirstLast();
      cancels := UnwantSkipped();
    }

    /** `set_file_priority`. */
    method SetFilePriority(k: nat, prio: FilePriority) returns (cancels: Option<seq<Cancel>>)
      requires Valid()
      modifies `filePriorities, `piecePriority, `firstLast, `pieces, `assignments
      ensures Valid()
      ensures cancels.None? <==> k >= |old(filePriorities)|
      ensures cancels.None? ==> unchanged(this)
      ensures cancels.Some? ==>
                && (forall i :: 0 <= i < |filePriorities| ==>
                      filePriorities[i] == if i == k then prio
                                           else if i < |old(filePriorities)| then old(filePriorities)[i] else Normal)
                && pieces == ClearedBelow(old(pieces), piecePriority, |old(pieces)|)
                && assignments == Keep(old(assignments), old(pieces), piecePriority, |old(pieces)|)
                && Distinct(cancels.value)
                && forall c: Cancel :: c in cancels.value <==> MustCancel(old(pieces), piecePriority, old(assignments), c)
    {
      if k >= |filePriorities| {
        return None;
      }
      var list := ApplyFilePriorities(filePriorities[k := prio]);
      return Some(list);
    }

    /** `install_content`. */
    method InstallContent(t: Torrent, inOrder: bool, priorities: seq<FilePriority>) returns (cancels: seq<Cancel>)
      requires Valid() && Laid(t) && t.pieceCount == |pieces|
      modifies `filePriorities, `piecePriority, `firstLast, `pieces, `assignments, `pieceFiles, `spans, `pieceLength, `sequential, `content
      ensures Valid() && content == Some(t) && sequential == inOrder && |pieces| == |old(pieces)|
      ensures forall k :: 0 <= k < |filePriorities| ==> filePriorities[k] == if k < |priorities| then priorities[k] else Normal
      ensures pieces == ClearedBelow(old(pieces), piecePriority, |old(pieces)|)
      ensures assignments == Keep(old(assignments), old(pieces), piecePriority, |old(pieces)|)
      ensures Distinct(cancels)
      ensures forall c: Cancel :: c in cancels <==> MustCancel(old(pieces), piecePriority, old(assignments), c)
    {
      var files := FilesOfPieces(t, |pieces|);
      pieceFiles := files;
      spans := t.files;
      pieceLength := t.pieceLength;
      sequential := inOrder;
      content := Some(t);
      cancels := ApplyFilePriorities(priorities);
    }

    /** A piece in the table is unwanted exactly when it starts inside the torrent and every file it overlaps is skipped. */
    lemma UnwantedIff(i: nat)
      requires Valid() && content.Some? && i < |pieces|
      ensures !Wanted(pieces, piecePriority, i)
              <==> && Inside(content.value, i)
                   && forall k :: 0 <= k < |content.value.files| && Overlaps(content.value.files[k], BoundsForPiece(content.value, i))
                                  ==> PrioOf(filePriorities, k) == Skip
    {
      SkippedIff(content.value, filePriorities, i);
    }

    /** The cached first and last pieces are distinct in every state. */
    lemma EdgesAreDistinct()
      requires Valid()
      ensures Distinct(firstLast)
    {
      if content.Some? {
        FirstLastAreEdges(content.value, filePriorities);
      }
    }

    /** While piece numbers fit 32 bits, they are all in range exactly when no wanted file ends past the table, and then all wanted. */
    lemma EdgesInRangeIff()
      requires Valid() && content.Some? && LastPiecesBelow(content.value, filePriorities, U32_LIMIT)
      ensures AllBelow(firstLast, |pieces|) <==> LastPiecesBelow(content.value, filePriorities, |pieces|)
      ensures forall p :: p in firstLast && p < |pieces| ==> Wanted(pieces, piecePriority, p)
    {
      InRangeIff(content.value, filePriorities, |pieces|);
      FirstLastAreWanted(content.value, filePriorities);
    }

    // -------------------------------------------------------------------------------------
    // Picking

    method ListCandidates(bits: seq<bv8>) returns (list: seq<nat>)
      ensures list == Candidates(pieces, piecePriority, bits)
    {
      list := [];
      for i := 0 to |pieces|
        invariant list == CandidatesUpTo(pieces, piecePriority, bits, i)
      {
        if !pieces[i].downloaded && pieces[i].reserved.None? && Has(bits, i) && Wanted(pieces, piecePriority, i) {
          list := list + [i];
        }
      }
    }

    method TryReservePiece(index: nat, peer: Peer) returns (ok: bool)
      requires Valid()
      modifies `pieces
      ensures Valid()
      ensures ok <==> Missing(old(pieces), piecePriority, index) && old(pieces)[index].reserved.None?
      ensures pieces == if ok then old(pieces)[index := old(pieces)[index].(reserved := Some(peer))] else old(pieces)
    {
      if index >= |pieces| || !Wanted(pieces, piecePriority, index) || pieces[index].downloaded {
        return false;
      }
      if pieces[index].reserved.Some? {
        return false;
      }
      UpdateKeepsTable(index, pieces[index].(reserved := Some(peer)));
      pieces := pieces[index := pieces[index].(reserved := Some(peer))];
      return true;
    }

    /** The choice that `pick` makes among the candidates. */
    method Choose(candidates: seq<nat>, bits: seq<bv8>, prefer: seq<nat>) returns (r: Option<nat>)
      requires Valid() && candidates == Candidates(pieces, piecePriority, bits)
      ensures GoodPick(pieces, piecePriority, bits, firstLast, availability.counts, sequential, verified < bootstrapUntil, prefer, r)
    {
      CandidatesMembers(pieces, piecePriority, bits);
      if candidates == [] {
        return None;
      }
      assert candidates[0] in candidates;
      if sequential {
        var edges := KeepAmong(firstLast, candidates);
        r := SelectSequential(candidates, edges + prefer);
        AmongKeepsChoice(firstLast, prefer, candidates);
      } else {
        var band, top := TopBand(candidates, piecePriority);
        r := SelectPiece(top, prefer, availability.counts, verified, bootstrapUntil);
        InBandMembers(candidates, piecePriority, band, r.value);
      }
    }

    /**
     `pick`. Its retry loop is for a reservation lost to another task in between; within one
     atomic step the first attempt succeeds.
     */
    method Pick(peer: Peer, bits: seq<bv8>, prefer: seq<nat>) returns (r: Option<nat>)
      requires Valid()
      modifies `pieces
      ensures Valid()
      ensures GoodPick(old(pieces), piecePriority, bits, firstLast, availability.counts, sequential, verified < bootstrapUntil, prefer, r)
      ensures pieces == if r.Some? then old(pieces)[r.value := old(pieces)[r.value].(reserved := Some(peer))] else old(pieces)
    {
      var candidates := ListCandidates(bits);
      r := Choose(candidates, bits, prefer);
      if r.Some? {
        var ok := TryReservePiece(r.value, peer);
      }
    }

    // -------------------------------------------------------------------------------------
    // Block requests

    method AssignBlock(b: Block, peer: Peer) returns (ok: bool)
      requires Valid()
      modifies `assignments
      ensures Valid()
      ensures ok == CanAssign(old(assignments), b, peer)
      ensures ok <==> (b in old(assignments) ==> peer !in old(assignments)[b] && |old(assignments)[b]| < 2)
      ensures assignments == if !ok then old(assignments)
                             else old(assignments)[b := (if b in old(assignments) then old(assignments)[b] else []) + [peer]]
    {
      if b in assignments {
        if peer in assignments[b] {
          return false;
        }
        if |assignments[b]| >= MAX_BLOCK_REQUESTERS {
          return false;
        }
        AssignKeeps(assignments, b, peer);
        assignments := assignments[b := assignments[b] + [peer]];
      } else {
        AssignKeeps(assignments, b, peer);
        assert [] + [peer] == [peer];
        assignments := assignments[b := [peer]];
      }
      return true;
    }

    /** The peers that have to be told that the block is here: the other requesters. */
    method NoteBlockReceived(b: Block, peer: Peer) returns (others: seq<Peer>)
      requires Valid()
      modifies `assignments
      ensures Valid()
      ensures assignments == old(assignments) - {b}
      ensures Distinct(others)
      ensures forall q :: q in others <==> b in old(assignments) && q in old(assignments)[b] && q != peer
    {
      if b !in assignments {
        return [];
      }
      WithoutMembers(assignments[b], peer);
      others := Without(assignments[b], peer);
      assignments := assignments - {b};
    }

    method UnassignPeerBlocks(peer: Peer)
      requires Valid()
      modifies `assignments
      ensures Valid()
      ensures forall b, q :: (b in assignments && q in assignments[b]) <==> (b in old(assignments) && q in old(assignments)[b] && q != peer)
    {
      UnassignKeeps(assignments, peer);
      assignments := Unassign(assignments, peer);
    }

    /** `endgame_blocks`: exactly the blocks that may be asked of the peer, up to the limit, each once. */
    method EndgameBlocks(peer: Peer, bits: seq<bv8>, limit: nat, aged: set<Block>) returns (blocks: seq<Block>)
      requires Valid()
      ensures |blocks| <= limit && Distinct(blocks)
      ensures forall b :: b in blocks ==>
                InEndgame(pieces, piecePriority) && IsOffer(pieces, piecePriority, bits, assignments, peer, aged, b)
      ensures InEndgame(pieces, piecePriority) && |blocks| < limit ==>
                forall b :: IsOffer(pieces, piecePriority, bits, assignments, peer, aged, b) ==> b in blocks
    {
      blocks := [];
      var endgame := Endgame();
      if limit == 0 || !endgame {
        return;
      }
      blocks := OfferedBlocks(pieces, piecePriority, bits, assignments, peer, aged, limit);
      OffersMembers(pieces, piecePriority, bits, assignments, peer, aged, 0);
      TruncateMembers(OffersFrom(pieces, piecePriority, bits, assignments, peer, aged, 0), limit);
    }

    /** Every block that is offered is then accepted. */
    method AssignOffers(peer: Peer, bits: seq<bv8>, limit: nat, aged: set<Block>) returns (blocks: seq<Block>, accepted: nat)
      requires Valid()
      modifies `assignments
      ensures Valid()
      ensures accepted == |blocks| <= limit
      ensures forall b :: b in blocks ==> b in assignments && peer in assignments[b]
    {
      blocks := EndgameBlocks(peer, bits, limit, aged);
      accepted := 0;
      forall k | 0 <= k < |blocks| ensures CanAssign(assignments, blocks[k], peer) {
        assert blocks[k] in blocks;
      }
      for i := 0 to |blocks|
        invariant Valid() && accepted == i
        invariant forall k :: i <= k < |blocks| ==> CanAssign(assignments, blocks[k], peer)
        invariant forall k :: 0 <= k < i ==> blocks[k] in assignments && peer in assignments[blocks[k]]
      {
        var ok := AssignBlock(blocks[i], peer);
        if ok {
          accepted := accepted + 1;
        }
      }
    }

    // -------------------------------------------------------------------------------------
    // Chunks

    /** `set_chuncks`. */
    method SetChunks(index: nat, start: nat, buf: seq<Byte>, peer: Peer) returns (stored: bool)
      requires Valid()
      modifies `pieces, `duplicateBytes
      ensures Valid()
      ensures stored <==> index < |old(pieces)| && !HasStart(old(pieces)[index].chunks, start)
      ensures pieces == if index < |old(pieces)|
                        then old(pieces)[index := old(pieces)[index].(chunks := Store(old(pieces)[index].chunks, Chunk(start, buf, peer)))]
                        else old(pieces)
      ensures duplicateBytes == old(duplicateBytes) + if index < |old(pieces)| && !stored then |buf| else 0
    {
      var i := 0;
      while i < |pieces| && pieces[i].index != index
        invariant i <= |pieces| && Valid() && pieces == old(pieces) && duplicateBytes == old(duplicateBytes)
        invariant index < |pieces| ==> i <= index
      {
        i := i + 1;
      }
      if i == |pieces| {
        return false;
      }
      if HasStart(pieces[i].chunks, start) {
        duplicateBytes := duplicateBytes + |buf|;
        return false;
      }
      var p := pieces[i].(chunks := pieces[i].chunks + [Chunk(start, buf, peer)]);
      UpdateKeepsTable(i, p);
      pieces := pieces[i := p];
      return true;
    }

    /** Succeeds exactly when the chunks cover the piece, which then is exactly tiled by them. */
    method SetDownloadedIfAllChunks(index: nat) returns (done: bool)
      requires Valid()
      modifies `pieces, `verified
      ensures Valid()
      ensures done <==> index < |old(pieces)| && !old(pieces)[index].downloaded
                        && Assembly.Covers(old(pieces)[index].chunks, old(pieces)[index].length)
      ensures done ==> (Tiles(pieces[index].chunks, pieces[index].length) <==> NoOverrun(pieces[index].chunks))
      ensures done && pieces[index].length < U32_MAX ==> Tiles(pieces[index].chunks, pieces[index].length)
      ensures pieces == if done then old(pieces)[index := old(pieces)[index].(downloaded := true)] else old(pieces)
    {
      if index >= |pieces| || pieces[index].downloaded {
        return false;
      }
      var covers := PieceChunksCover(pieces[index].chunks, pieces[index].length);
      if !covers {
        return false;
      }
      TilesIff(pieces[index].chunks, pieces[index].length);
      if pieces[index].length < U32_MAX {
        CoversIffTiles(pieces[index].chunks, pieces[index].length);
      }
      UpdateKeepsTable(index, pieces[index].(downloaded := true));
      pieces := pieces[index := pieces[index].(downloaded := true)];
      verified := verified + 1;
      return true;
    }

    method ClearPieceChunks(index: nat)
      requires Valid()
      modifies `pieces
      ensures Valid()
      ensures pieces == if index < |old(pieces)| then old(pieces)[index := old(pieces)[index].(chunks := [])] else old(pieces)
    {
      if index < |pieces| {
        UpdateKeepsTable(index, pieces[index].(chunks := []));
        pieces := pieces[index := pieces[index].(chunks := [])];
      }
    }

    /** The first claim wins. */
    method ClaimWrite(index: nat) returns (won: bool)
      requires Valid()
      modifies `pieces
      ensures Valid()
      ensures won <==> index < |old(pieces)| && !old(pieces)[index].writeClaimed
      ensures pieces == if won then old(pieces)[index := old(pieces)[index].(writeClaimed := true)] else old(pieces)
    {
      if index >= |pieces| || pieces[index].writeClaimed {
        return false;
      }
      UpdateKeepsTable(index, pieces[index].(writeClaimed := true));
      pieces := pieces[index := pieces[index].(writeClaimed := true)];
      return true;
    }

    // -------------------------------------------------------------------------------------
    // Releasing

    method ReleasePiece(index: nat)
      requires Valid()
      modifies `pieces
      ensures Valid()
      ensures pieces == if index >= |old(pieces)| then old(pieces)
                        else if old(pieces)[index].downloaded then old(pieces)[index := old(pieces)[index].(reserved := None)]
                        else old(pieces)[index := old(pieces)[index].(reserved := None, chunks := [])]
    {
      if index < |pieces| {
        var p := pieces[index].(reserved := None);
        if !p.downloaded {
          p := p.(chunks := []);
        }
        UpdateKeepsTable(index, p);
        pieces := pieces[index := p];
      }
    }

    method ReleaseReservation(index: nat, peer: Peer) returns (released: bool)
      requires Valid()
      modifies `pieces
      ensures Valid()
      ensures released <==> index < |old(pieces)| && old(pieces)[index].reserved == Some(peer)
      ensures pieces == if !released then old(pieces)
                        else if old(pieces)[index].downloaded then old(pieces)[index := old(pieces)[index].(reserved := None)]
                        else old(pieces)[index := old(pieces)[index].(reserved := None, chunks := [])]
    {
      if index >= |pieces| || pieces[index].reserved != Some(peer) {
        return false;
      }
      ReleasePiece(index);
      return true;
    }

    /** `release_peer_reservations`: what the peer held and nothing else. */
    method ReleasePeerReservations(peer: Peer, clearChunks: bool)
      requires Valid()
      modifies `pieces
      ensures Valid() && |pieces| == |old(pieces)|
      ensures forall k :: 0 <= k < |pieces| ==>
                pieces[k] == if old(pieces)[k].reserved == Some(peer) then Released(old(pieces)[k], clearChunks) else old(pieces)[k]
    {
      for i := 0 to |pieces|
        invariant Valid() && |pieces| == |old(pieces)|
        invariant forall k :: 0 <= k < |pieces| ==>
                    pieces[k] == if k < i && old(pieces)[k].reserved == Some(peer) then Released(old(pieces)[k], clearChunks) else old(pieces)[k]
      {
        if pieces[i].reserved == Some(peer) {
          UpdateKeepsTable(i, Released(pieces[i], clearChunks));
          pieces := pieces[i := Released(pieces[i], clearChunks)];
        }
      }
    }

    /** `remove_reserved`: after it, nothing in the state is held for the peer or asked of it. */
    method RemoveReserved(peer: Peer)
      requires Valid()
      modifies `pieces, `assignments
      ensures Valid() && |pieces| == |old(pieces)|
      ensures forall k :: 0 <= k < |pieces| ==>
                && pieces[k].reserved != Some(peer)
                && pieces[k] == if old(pieces)[k].reserved != Some(peer) then old(pieces)[k]
                                else if old(pieces)[k].downloaded then old(pieces)[k].(reserved := None)
                                else old(pieces)[k].(reserved := None, chunks := [])
      ensures forall b, q :: (b in assignments && q in assignments[b]) <==> (b in old(assignments) && q in old(assignments)[b] && q != peer)
    {
      ReleasePeerReservations(peer, true);
      UnassignPeerBlocks(peer);
    }

    /** `snub_release`: the blocks received so far and the requests stay. */
    method SnubRelease(peer: Peer)
      requires Valid()
      modifies `pieces
      ensures Valid() && |pieces| == |old(pieces)|
      ensures forall k :: 0 <= k < |pieces| ==>
                && pieces[k].reserved != Some(peer)
                && pieces[k].(reserved := None) == old(pieces)[k].(reserved := None)
                && (old(pieces)[k].reserved != Some(peer) ==> pieces[k] == old(pieces)[k])
    {
      ReleasePeerReservations(peer, false);
    }

    // -------------------------------------------------------------------------------------
    // Availability and settings

    /**
     `apply_peer_bitfield`, called with the bitfield that is stored for the peer: a step of the
     swarm, after which the counts agree with the stored bitfields if they did before.
     */
    method ApplyPeerBitfield(ghost peer: Peer, previous: seq<bv8>, next: seq<bv8>)
      requires Valid() && peer in stored && stored[peer] == previous
      modifies `stored, availability
      ensures Valid() && stored == old(stored)[peer := next]
      ensures Peers() == Next(old(Peers()), SendBitfield(peer, next))
      ensures old(Agrees(Peers())) && |stored| <= U16_MAX ==> Agrees(Peers())
    {
      availability.RemoveBitfield(previous);
      availability.AddBitfield(next);
      stored := stored[peer := next];
      if old(Agrees(Peers())) && |stored| <= U16_MAX {
        StoredStays(old(stored), peer, next);
        ReplaceAgrees(old(Peers()), peer, next);
      }
    }

    /** `apply_peer_have`: the counts still agree exactly when the stored bitfield has room for the piece. */
    method ApplyPeerHave(ghost peer: Peer, bits: seq<bv8>, index: nat) returns (next: seq<bv8>, isNew: bool)
      requires Valid() && peer in stored && stored[peer] == bits
      modifies `stored, availability
      ensures Valid() && stored == old(stored)[peer := next]
      ensures isNew == !Has(bits, index) && next == if isNew then Set(bits, index) else bits
      ensures Peers() == Next(old(Peers()), SendHave(peer, index))
      ensures old(Agrees(Peers())) && |old(stored)| <= U16_MAX ==> (Agrees(Peers()) <==> HaveIsCounted(old(Peers()), peer, index))
    {
      next, isNew := bits, false;
      if !Has(bits, index) {
        next, isNew := Set(bits, index), true;
        availability.AddHave(index);
        stored := stored[peer := next];
      }
      assert stored == old(stored)[peer := next];
      if old(Agrees(Peers())) && |old(stored)| <= U16_MAX {
        HaveAgreesIff(old(Peers()), peer, index);
      }
    }

    /** `remove_peer_availability`, when the peer goes: exactly its pieces are taken back. */
    method RemovePeerAvailability(ghost peer: Peer, bits: seq<bv8>)
      requires Valid() && peer in stored && stored[peer] == bits
      modifies `stored, availability
      ensures Valid() && stored == old(stored) - {peer}
      ensures Peers() == Next(old(Peers()), Disconnect(peer))
      ensures old(Agrees(Peers())) && |old(stored)| <= U16_MAX ==> Agrees(Peers())
    {
      availability.RemoveBitfield(bits);
      stored := stored - {peer};
      if old(Agrees(Peers())) && |old(stored)| <= U16_MAX {
        StoredShrinks(old(stored), peer);
        NextAgrees(old(Peers()), Disconnect(peer));
      }
    }

    method SetSequential(inOrder: bool)
      requires Valid()
      modifies `sequential
      ensures Valid() && sequential == inOrder
    {
      sequential := inOrder;
    }
  }

  /** Saving and restoring: a new state of the same size gets the same flags and the same count. */
  method ResumeRoundTrip(saved: TorrentDownloadedState, restored: TorrentDownloadedState)
    requires saved.Valid() && restored.Valid() && saved != restored
    requires |restored.pieces| == |saved.pieces|
    requires forall k :: 0 <= k < |restored.pieces| ==> !restored.pieces[k].downloaded
    modifies restored`pieces, restored`verified
    ensures saved.Valid() && restored.Valid() && |restored.pieces| == |saved.pieces|
    ensures forall k :: 0 <= k < |saved.pieces| ==> restored.pieces[k].downloaded == saved.pieces[k].downloaded
    ensures restored.verified == saved.verified
  {
    var bits := saved.OurBitfield();
    restored.ApplyBitfield(bits);
    CountDependsOnFlags(saved.pieces, restored.pieces, |saved.pieces|);
  }

  /**
   A piece from its blocks: whatever the order, the repeats and the senders, once every block of
   the grid has come the piece is complete and its bytes are the original ones.
   */
  method DeliverBlocks(state: TorrentDownloadedState, index: nat, blocks: seq<Chunk>, ghost data: seq<Byte>)
    returns (done: bool, bytes: seq<Byte>)
    requires state.Valid() && index < |state.pieces| && |data| == state.pieces[index].length
    requires state.pieces[index].chunks == [] && !state.pieces[index].downloaded
    requires forall c :: c in blocks ==> OnGrid(c, |data|) && IsCutFrom(c, data)
    requires forall g: nat :: g < |data| && g % Assembly.BLOCK_SIZE == 0 ==> HasStart(blocks, g)
    modifies state`pieces, state`verified, state`duplicateBytes
    ensures state.Valid() && done && bytes == data
    ensures state.pieces == old(state.pieces)[index := old(state.pieces)[index].(chunks := Stored(blocks), downloaded := true)]
    ensures state.verified == old(state.verified) + 1
  {
    for i := 0 to |blocks|
      invariant state.Valid() && state.verified == old(state.verified)
      invariant state.pieces == old(state.pieces)[index := old(state.pieces)[index].(chunks := Stored(blocks[..i]))]
    {
      assert blocks[..i + 1][..i] == blocks[..i];
      var _ := state.SetChunks(index, blocks[i].start, blocks[i].buf, blocks[i].peer);
    }
    assert blocks[..|blocks|] == blocks;
    GridDeliveriesComplete(blocks, |data|);
    StoredIsFirstDelivery(blocks);
    done := state.SetDownloadedIfAllChunks(index);
    UpdateCount(old(state.pieces), state.pieces, index);
    bytes := ChunkToBuf(state.pieces[index].chunks, state.pieces[index].length);
    AssembledIsData(Stored(blocks), data);
  }

  lemma UpdateCount(before: seq<Piece>, after: seq<Piece>, i: nat)
    requires i < |before| == |after| && !before[i].downloaded && after[i].downloaded && after == before[i := after[i]]
    ensures CountDownloaded(after, |after|) == CountDownloaded(before, |before|) + 1
  {
    CountAfterUpdate(before, i, after[i], |before|);
  }
}
