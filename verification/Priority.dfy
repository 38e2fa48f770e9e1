/**
 File priorities and what follows from them for pieces: `normalize_file_priorities`,
 `piece_priority` and `first_last_wanted_pieces` of `crates/bit_rev/src/priority.rs`.
 */
module Priority {
  import opened Basics
  import opened Arith
  import opened Geometry

  datatype FilePriority = Skip | Low | Normal | High

  function Rank(p: FilePriority): nat {
    match p
    case Skip => 0
    case Low => 1
    case Normal => 2
    case High => 3
  }

  function Higher(a: FilePriority, b: FilePriority): FilePriority {
    if Rank(a) < Rank(b) then b else a
  }

  /** A file without an entry counts as `Normal`. */
  function PrioOf(prios: seq<FilePriority>, k: nat): FilePriority {
    if k < |prios| then prios[k] else Normal
  }

  /** Pad or truncate to `count` entries. */
  method NormalizeFilePriorities(count: nat, given: seq<FilePriority>) returns (out: seq<FilePriority>)
    ensures |out| == count
    ensures forall k :: 0 <= k < count ==> out[k] == if k < |given| then given[k] else Normal
  {
    out := seq(count, _ => Normal);
    for i := 0 to Min(count, |given|)
      invariant |out| == count
      invariant forall k :: 0 <= k < i ==> out[k] == given[k]
      invariant forall k :: i <= k < count ==> out[k] == Normal
    {
      out := out[i := given[i]];
    }
  }

  /** The highest priority among the files at the given places; `Skip` when there are none. */
  function HighestOf(files: seq<nat>, prios: seq<FilePriority>): FilePriority {
    if files == [] then Skip
    else Higher(HighestOf(files[..|files| - 1], prios), PrioOf(prios, files[|files| - 1]))
  }

  lemma {:induction false} HighestIsMaximum(files: seq<nat>, prios: seq<FilePriority>)
    ensures forall k :: k in files ==> Rank(PrioOf(prios, k)) <= Rank(HighestOf(files, prios))
    ensures files != [] ==> exists k :: k in files && PrioOf(prios, k) == HighestOf(files, prios)
  {
    if files != [] {
      var front, last := files[..|files| - 1], files[|files| - 1];
      HighestIsMaximum(front, prios);
      assert files == front + [last];
      assert last in files;
      if front != [] {
        var k :| k in front && PrioOf(prios, k) == HighestOf(front, prios);
        assert k in files;
      }
    }
  }

  /** By name: `High` if any of the files is, else `Normal` if any is, else `Low` if any is, else `Skip`. */
  lemma HighestByName(files: seq<nat>, prios: seq<FilePriority>)
    ensures HighestOf(files, prios)
            == if exists k :: k in files && PrioOf(prios, k) == High then High
               else if exists k :: k in files && PrioOf(prios, k) == Normal then Normal
               else if exists k :: k in files && PrioOf(prios, k) == Low then Low
               else Skip
  {
    HighestIsMaximum(files, prios);
  }

  /** The files that a piece overlaps, in order. */
  function FilesOfSpan(files: seq<FileInfo>, b: Span, n: nat): seq<nat>
    requires n <= |files|
  {
    if n == 0 then []
    else FilesOfSpan(files, b, n - 1) + if Overlaps(files[n - 1], b) then [n - 1] else []
  }

  function FilesOfPiece(t: Torrent, index: nat): seq<nat> {
    FilesOfSpan(t.files, BoundsForPiece(t, index), |t.files|)
  }

  lemma {:induction false} FilesOfSpanMembers(files: seq<FileInfo>, b: Span, n: nat, k: nat)
    requires n <= |files|
    ensures k in FilesOfSpan(files, b, n) <==> k < n && Overlaps(files[k], b)
  {
    if n > 0 {
      FilesOfSpanMembers(files, b, n - 1, k);
    }
  }

  /** Projecting the mappings of a piece onto their files. */
  lemma {:induction false} FilesAreMapped(files: seq<FileInfo>, b: Span, n: nat)
    requires n <= |files|
    ensures |FilesOfSpan(files, b, n)| == |MapSpan(files, b, n)|
    ensures forall i :: 0 <= i < |MapSpan(files, b, n)| ==> FilesOfSpan(files, b, n)[i] == MapSpan(files, b, n)[i].file
  {
    if n > 0 {
      FilesAreMapped(files, b, n - 1);
    }
  }

  /** `piece_priority`: the maximum over the overlapped files. */
  function PiecePriority(t: Torrent, prios: seq<FilePriority>, index: nat): FilePriority {
    var files := FilesOfPiece(t, index);
    if files == [] then Normal else HighestOf(files, prios)
  }

  /** The file that holds a byte of the flat string. */
  lemma {:induction false} FileOfByte(files: seq<FileInfo>, n: nat, b: int) returns (k: nat)
    requires LaidEndToEnd(files) && n <= |files| && 0 <= b < TotalLength(files, n)
    ensures k < n && files[k].offset <= b < files[k].offset + files[k].length
    ensures files[k].offset == TotalLength(files, k)
  {
    if b >= TotalLength(files, n - 1) {
      k := n - 1;
    } else {
      k := FileOfByte(files, n - 1, b);
    }
  }

  /** A piece overlaps a file exactly when it starts inside the torrent. */
  lemma OverlapsSomeFileIff(t: Torrent, index: nat)
    requires Laid(t)
    ensures FilesOfPiece(t, index) != [] <==> Inside(t, index)
  {
    var b := BoundsForPiece(t, index);
    if Inside(t, index) {
      InsideBounds(t, index);
      var k := FileOfByte(t.files, |t.files|, b.start);
      FilesOfSpanMembers(t.files, b, |t.files|, k);
    } else {
      PastTheEnd(t, index, |t.files|);
      FilesAreMapped(t.files, b, |t.files|);
    }
  }

  /** A piece is skipped exactly when it starts inside the torrent and every file it overlaps is skipped. */
  lemma SkippedIff(t: Torrent, prios: seq<FilePriority>, index: nat)
    requires Laid(t)
    ensures PiecePriority(t, prios, index) == Skip
            <==> && Inside(t, index)
                 && forall k :: 0 <= k < |t.files| && Overlaps(t.files[k], BoundsForPiece(t, index)) ==> PrioOf(prios, k) == Skip
  {
    var files, b := FilesOfPiece(t, index), BoundsForPiece(t, index);
    OverlapsSomeFileIff(t, index);
    HighestIsMaximum(files, prios);
    forall k: nat ensures k in files <==> k < |t.files| && Overlaps(t.files[k], b) {
      FilesOfSpanMembers(t.files, b, |t.files|, k);
    }
    if files != [] && PiecePriority(t, prios, index) != Skip {
      var k :| k in files && PrioOf(prios, k) == HighestOf(files, prios);
    }
  }

  /** The piece overlaps a file of the given priority; a file without an entry counts as `Normal`. */
  ghost predicate TouchesFile(t: Torrent, prios: seq<FilePriority>, index: nat, prio: FilePriority) {
    exists k :: 0 <= k < |t.files| && Overlaps(t.files[k], BoundsForPiece(t, index))
                && prio == if k < |prios| then prios[k] else Normal
  }

  /** By name: the priority of a piece inside the torrent is the highest that a file it overlaps has. */
  lemma PiecePriorityByName(t: Torrent, prios: seq<FilePriority>, index: nat)
    requires Laid(t)
    ensures PiecePriority(t, prios, index)
            == if !Inside(t, index) then Normal
               else if TouchesFile(t, prios, index, High) then High
               else if TouchesFile(t, prios, index, Normal) then Normal
               else if TouchesFile(t, prios, index, Low) then Low
               else Skip
  {
    var files := FilesOfPiece(t, index);
    OverlapsSomeFileIff(t, index);
    HighestByName(files, prios);
    forall prio | prio in {High, Normal, Low}
      ensures TouchesFile(t, prios, index, prio) <==> exists k :: k in files && PrioOf(prios, k) == prio
    {
      TouchesIff(t, prios, index, prio);
    }
  }

  lemma TouchesIff(t: Torrent, prios: seq<FilePriority>, index: nat, prio: FilePriority)
    ensures TouchesFile(t, prios, index, prio)
            <==> exists k :: k in FilesOfPiece(t, index) && PrioOf(prios, k) == prio
  {
    forall k: nat ensures k in FilesOfPiece(t, index) <==> k < |t.files| && Overlaps(t.files[k], BoundsForPiece(t, index)) {
      FilesOfSpanMembers(t.files, BoundsForPiece(t, index), |t.files|, k);
    }
    if TouchesFile(t, prios, index, prio) {
      var k :| 0 <= k < |t.files| && Overlaps(t.files[k], BoundsForPiece(t, index))
               && prio == if k < |prios| then prios[k] else Normal;
      assert k in FilesOfPiece(t, index) && PrioOf(prios, k) == prio;
    }
  }

  /** A piece past the end, from a hash too many, overlaps only skipped files and is wanted all the same. */
  lemma ExtraHashIsWanted()
    ensures var t := Torrent(10, 10, [FileInfo(10, 0)], 2);
            && Laid(t) && 1 < t.pieceCount
            && (forall k :: 0 <= k < |t.files| && Overlaps(t.files[k], BoundsForPiece(t, 1)) ==> PrioOf([Skip], k) == Skip)
            && PiecePriority(t, [Skip], 1) == Normal
  {
    var files := [FileInfo(10, 0)];
    var t := Torrent(10, 10, files, 2);
    assert TotalLength(files, 1) == 10;
    assert BoundsForPiece(t, 1) == Span(10, 10);
    assert FilesOfPiece(t, 1) == [];
  }

  /** The byte of a file at `x` lies in the piece. */
  ghost predicate HoldsByte(t: Torrent, index: nat, k: nat, x: nat)
    requires k < |t.files|
  {
    var b := BoundsForPiece(t, index);
    x < t.files[k].length && b.start <= t.files[k].offset + x < b.end
  }

  /** An empty file whose place lies strictly inside the piece. */
  ghost predicate HoldsEmptyFile(t: Torrent, index: nat, k: nat)
    requires k < |t.files|
  {
    var b := BoundsForPiece(t, index);
    t.files[k].length == 0 && b.start < t.files[k].offset < b.end
  }

  /**
   In terms of bytes: a piece is skipped exactly when it starts inside the torrent, all its bytes
   belong to skipped files, and no unskipped empty file lies strictly inside it.
   */
  lemma SkippedInBytes(t: Torrent, prios: seq<FilePriority>, index: nat)
    requires Laid(t)
    ensures PiecePriority(t, prios, index) == Skip
            <==> && Inside(t, index)
                 && (forall k, x: nat :: 0 <= k < |t.files| && HoldsByte(t, index, k, x) ==> PrioOf(prios, k) == Skip)
                 && (forall k :: 0 <= k < |t.files| && HoldsEmptyFile(t, index, k) ==> PrioOf(prios, k) == Skip)
  {
    SkippedIff(t, prios, index);
    if Inside(t, index) {
      InsideBounds(t, index);
      forall k | 0 <= k < |t.files| && Overlaps(t.files[k], BoundsForPiece(t, index))
        ensures HoldsEmptyFile(t, index, k) || exists x: nat :: HoldsByte(t, index, k, x)
      {
        var f, b := t.files[k], BoundsForPiece(t, index);
        assert f.offset == TotalLength(t.files, k);
        if f.length > 0 {
          assert HoldsByte(t, index, k, if b.start > f.offset then b.start - f.offset else 0);
        }
      }
    }
  }

  /** A wanted empty file alone keeps a piece of skipped bytes wanted. */
  lemma EmptyFileKeepsPieceWanted()
    ensures var t := Torrent(10, 10, [FileInfo(5, 0), FileInfo(0, 5), FileInfo(5, 5)], 1);
            && WellFormed(t)
            && (forall k, x: nat :: 0 <= k < |t.files| && HoldsByte(t, 0, k, x) ==> PrioOf([Skip, Normal, Skip], k) == Skip)
            && PiecePriority(t, [Skip, Normal, Skip], 0) == Normal
  {
    var files, prios := [FileInfo(5, 0), FileInfo(0, 5), FileInfo(5, 5)], [Skip, Normal, Skip];
    var t := Torrent(10, 10, files, 1);
    assert BoundsForPiece(t, 0) == Span(0, 10);
    assert TotalLength(files, 1) == 5 && TotalLength(files, 2) == 5 && TotalLength(files, 3) == 10;
    assert Overlaps(t.files[1], BoundsForPiece(t, 0)) && prios[1] == Normal;
    PiecePriorityByName(t, prios, 0);
  }

  // ---------------------------------------------------------------------------------------
  // First and last pieces

  /** The piece of the first byte of a file. */
  function FirstPiece(f: FileInfo, pieceLength: int): nat
    requires pieceLength > 0
  {
    Max(f.offset, 0) / pieceLength
  }

  /** The piece of the last byte of a file. */
  function LastPiece(f: FileInfo, pieceLength: int): nat
    requires pieceLength > 0 && f.length > 0
  {
    (Max(f.offset, 0) + f.length - 1) / pieceLength
  }

  /** A piece number as a 32-bit number. */
  function Wrap32(p: nat): nat {
    p % U32_LIMIT
  }

  function AddOnce(out: seq<nat>, p: nat): seq<nat> {
    if p in out then out else out + [p]
  }

  function AddEdges(out: seq<nat>, first: nat, last: nat): seq<nat> {
    AddOnce(AddOnce(out, first), last)
  }

  lemma AddEdgesMembers(out: seq<nat>, first: nat, last: nat)
    ensures forall p :: p in AddEdges(out, first, last) <==> p in out || p == first || p == last
    ensures Distinct(out) ==> Distinct(AddEdges(out, first, last))
  {
  }

  predicate WantedFile(files: seq<FileInfo>, prios: seq<FilePriority>, k: nat)
    requires k < |files|
  {
    files[k].length > 0 && PrioOf(prios, k) != Skip
  }

  /** First and last piece of the wanted files among the first `n`, in file order. */
  function FirstLastUpTo(files: seq<FileInfo>, pieceLength: int, prios: seq<FilePriority>, n: nat): seq<nat>
    requires n <= |files| && pieceLength > 0
  {
    if n == 0 then []
    else if !WantedFile(files, prios, n - 1) then FirstLastUpTo(files, pieceLength, prios, n - 1)
    else
      AddEdges(FirstLastUpTo(files, pieceLength, prios, n - 1),
               Wrap32(FirstPiece(files[n - 1], pieceLength)), Wrap32(LastPiece(files[n - 1], pieceLength)))
  }

  function FirstLastWanted(t: Torrent, prios: seq<FilePriority>): seq<nat> {
    if t.pieceLength <= 0 then [] else FirstLastUpTo(t.files, t.pieceLength, prios, |t.files|)
  }

  method PushEdges(out: seq<nat>, first: nat, last: nat) returns (r: seq<nat>)
    ensures r == AddEdges(out, first, last)
  {
    r := out;
    if first !in r {
      r := r + [first];
    }
    if last != first && last !in r {
      r := r + [last];
    }
  }

  /** `first_last_wanted_pieces`. */
  method FirstLastWantedPieces(t: Torrent, prios: seq<FilePriority>) returns (out: seq<nat>)
    ensures out == FirstLastWanted(t, prios)
  {
    out := [];
    if t.pieceLength <= 0 {
      return;
    }
    for i := 0 to |t.files|
      invariant out == FirstLastUpTo(t.files, t.pieceLength, prios, i)
    {
      if WantedFile(t.files, prios, i) {
        out := PushEdges(out, Wrap32(FirstPiece(t.files[i], t.pieceLength)), Wrap32(LastPiece(t.files[i], t.pieceLength)));
      }
    }
  }

  lemma {:induction false} FirstLastUnique(files: seq<FileInfo>, pieceLength: int, prios: seq<FilePriority>, n: nat)
    requires n <= |files| && pieceLength > 0
    ensures Distinct(FirstLastUpTo(files, pieceLength, prios, n))
  {
    if n > 0 {
      FirstLastUnique(files, pieceLength, prios, n - 1);
      if WantedFile(files, prios, n - 1) {
        AddEdgesMembers(FirstLastUpTo(files, pieceLength, prios, n - 1),
                        Wrap32(FirstPiece(files[n - 1], pieceLength)), Wrap32(LastPiece(files[n - 1], pieceLength)));
      }
    }
  }

  ghost predicate EdgeAt(files: seq<FileInfo>, pieceLength: int, prios: seq<FilePriority>, k: nat, p: nat)
    requires k < |files| && pieceLength > 0
  {
    && WantedFile(files, prios, k)
    && (p == Wrap32(FirstPiece(files[k], pieceLength)) || p == Wrap32(LastPiece(files[k], pieceLength)))
  }

  lemma {:induction false} FirstLastMembers(files: seq<FileInfo>, pieceLength: int, prios: seq<FilePriority>, n: nat, p: nat)
    requires n <= |files| && pieceLength > 0
    ensures p in FirstLastUpTo(files, pieceLength, prios, n)
            <==> exists k :: 0 <= k < n && EdgeAt(files, pieceLength, prios, k, p)
  {
    if n > 0 {
      var k := n - 1;
      FirstLastMembers(files, pieceLength, prios, k, p);
      if WantedFile(files, prios, k) {
        AddEdgesMembers(FirstLastUpTo(files, pieceLength, prios, k),
                        Wrap32(FirstPiece(files[k], pieceLength)), Wrap32(LastPiece(files[k], pieceLength)));
      }
      assert p in FirstLastUpTo(files, pieceLength, prios, n)
        <==> p in FirstLastUpTo(files, pieceLength, prios, k) || EdgeAt(files, pieceLength, prios, k, p);
    }
  }

  lemma EdgesInOrder(t: Torrent, k: nat)
    requires Laid(t) && k < |t.files| && t.files[k].length > 0
    ensures FirstPiece(t.files[k], t.pieceLength) <= LastPiece(t.files[k], t.pieceLength) < Needed(t)
  {
    var f, pl := t.files[k], t.pieceLength;
    FileInside(t, k);
    PieceOfByte(t, f.offset + f.length - 1, 0);
    var a, z := f.offset / pl, (f.offset + f.length - 1) / pl;
    QuotientSpan(f.offset, pl);
    QuotientSpan(f.offset + f.length - 1, pl);
    assert pl * (z + 1) == pl * z + pl;
    if z < a {
      MulMonotone(pl, z + 1, a);
    }
  }

  /** An edge whose number fits 32 bits belongs to a piece that is not skipped. */
  lemma EdgeIsWanted(t: Torrent, prios: seq<FilePriority>, k: nat, p: nat)
    requires Laid(t) && k < |t.files| && EdgeAt(t.files, t.pieceLength, prios, k, p)
    requires LastPiece(t.files[k], t.pieceLength) < U32_LIMIT
    ensures PiecePriority(t, prios, p) != Skip
  {
    var f := t.files[k];
    FileInside(t, k);
    EdgesInOrder(t, k);
    PieceOfByte(t, f.offset, p);
    PieceOfByte(t, f.offset + f.length - 1, p);
    SkippedIff(t, prios, p);
    assert Overlaps(f, BoundsForPiece(t, p));
  }

  lemma FirstLastAreListed(t: Torrent, prios: seq<FilePriority>)
    requires t.pieceLength > 0
    ensures forall p: nat :: p in FirstLastWanted(t, prios)
              <==> exists k :: 0 <= k < |t.files| && EdgeAt(t.files, t.pieceLength, prios, k, p)
  {
    forall p: nat
      ensures p in FirstLastWanted(t, prios)
              <==> exists k :: 0 <= k < |t.files| && EdgeAt(t.files, t.pieceLength, prios, k, p)
    {
      FirstLastMembers(t.files, t.pieceLength, prios, |t.files|, p);
    }
  }

  /** File `k` is not empty and not skipped, and the piece holds its first or its last byte, as a 32-bit number. */
  ghost predicate EdgeOf(files: seq<FileInfo>, pieceLength: int, prios: seq<FilePriority>, k: nat, p: nat)
    requires k < |files| && pieceLength > 0
  {
    var first := if files[k].offset < 0 then 0 else files[k].offset;
    && files[k].length > 0 && (k < |prios| ==> prios[k] != Skip)
    && (p == first / pieceLength % 0x1_0000_0000 || p == (first + files[k].length - 1) / pieceLength % 0x1_0000_0000)
  }

  lemma EdgeOfIff(files: seq<FileInfo>, pieceLength: int, prios: seq<FilePriority>, k: nat, p: nat)
    requires k < |files| && pieceLength > 0
    ensures EdgeOf(files, pieceLength, prios, k, p) <==> EdgeAt(files, pieceLength, prios, k, p)
  {
  }

  /** No piece is listed twice, no edge is missing, and nothing else is listed. */
  lemma FirstLastAreEdges(t: Torrent, prios: seq<FilePriority>)
    requires t.pieceLength > 0
    ensures Distinct(FirstLastWanted(t, prios))
    ensures forall p: nat :: p in FirstLastWanted(t, prios)
              <==> exists k :: 0 <= k < |t.files| && EdgeOf(t.files, t.pieceLength, prios, k, p)
  {
    FirstLastUnique(t.files, t.pieceLength, prios, |t.files|);
    FirstLastAreListed(t, prios);
    forall p: nat, k | 0 <= k < |t.files|
      ensures EdgeOf(t.files, t.pieceLength, prios, k, p) <==> EdgeAt(t.files, t.pieceLength, prios, k, p)
    {
      EdgeOfIff(t.files, t.pieceLength, prios, k, p);
    }
  }

  ghost predicate AllBelow(list: seq<nat>, n: nat) {
    forall p :: p in list ==> p < n
  }

  /** The last byte of every wanted file lies in one of the first `n` pieces. */
  ghost predicate LastPiecesBelow(t: Torrent, prios: seq<FilePriority>, n: nat)
    requires t.pieceLength > 0
  {
    forall k :: 0 <= k < |t.files| && WantedFile(t.files, prios, k) ==> LastPiece(t.files[k], t.pieceLength) < n
  }

  /** The list is in range exactly when the 32-bit numbers of all edges are. */
  lemma AllBelowIff(t: Torrent, prios: seq<FilePriority>, n: nat)
    requires t.pieceLength > 0
    ensures AllBelow(FirstLastWanted(t, prios), n)
            <==> forall k :: 0 <= k < |t.files| && WantedFile(t.files, prios, k) ==>
                   Wrap32(FirstPiece(t.files[k], t.pieceLength)) < n && Wrap32(LastPiece(t.files[k], t.pieceLength)) < n
  {
    forall k | 0 <= k < |t.files| && WantedFile(t.files, prios, k)
      ensures Wrap32(FirstPiece(t.files[k], t.pieceLength)) in FirstLastWanted(t, prios)
      ensures Wrap32(LastPiece(t.files[k], t.pieceLength)) in FirstLastWanted(t, prios)
    {
      BothEdgesListed(t, prios, k);
    }
    forall p | p in FirstLastWanted(t, prios) ensures ListedIsEdge(t, prios, p) {
      FirstLastMembers(t.files, t.pieceLength, prios, |t.files|, p);
    }
  }

  ghost predicate ListedIsEdge(t: Torrent, prios: seq<FilePriority>, p: nat)
    requires t.pieceLength > 0
  {
    exists k :: 0 <= k < |t.files| && EdgeAt(t.files, t.pieceLength, prios, k, p)
  }

  lemma BothEdgesListed(t: Torrent, prios: seq<FilePriority>, k: nat)
    requires t.pieceLength > 0 && k < |t.files| && WantedFile(t.files, prios, k)
    ensures Wrap32(FirstPiece(t.files[k], t.pieceLength)) in FirstLastWanted(t, prios)
    ensures Wrap32(LastPiece(t.files[k], t.pieceLength)) in FirstLastWanted(t, prios)
  {
    var first, last := Wrap32(FirstPiece(t.files[k], t.pieceLength)), Wrap32(LastPiece(t.files[k], t.pieceLength));
    FirstLastMembers(t.files, t.pieceLength, prios, |t.files|, first);
    FirstLastMembers(t.files, t.pieceLength, prios, |t.files|, last);
    assert EdgeAt(t.files, t.pieceLength, prios, k, first) && EdgeAt(t.files, t.pieceLength, prios, k, last);
  }

  /** Once piece numbers fit 32 bits, the list is in range exactly when no wanted file ends past the table. */
  lemma InRangeIff(t: Torrent, prios: seq<FilePriority>, n: nat)
    requires Laid(t) && LastPiecesBelow(t, prios, U32_LIMIT)
    ensures AllBelow(FirstLastWanted(t, prios), n) <==> LastPiecesBelow(t, prios, n)
  {
    AllBelowIff(t, prios, n);
    forall k | 0 <= k < |t.files| && WantedFile(t.files, prios, k)
      ensures FirstPiece(t.files[k], t.pieceLength) <= LastPiece(t.files[k], t.pieceLength)
    {
      EdgesInOrder(t, k);
    }
  }

  /** Then no listed piece is skipped. */
  lemma FirstLastAreWanted(t: Torrent, prios: seq<FilePriority>)
    requires Laid(t) && LastPiecesBelow(t, prios, U32_LIMIT)
    ensures forall p :: p in FirstLastWanted(t, prios) ==> PiecePriority(t, prios, p) != Skip
  {
    FirstLastAreListed(t, prios);
    forall p | p in FirstLastWanted(t, prios) ensures PiecePriority(t, prios, p) != Skip {
      var k :| 0 <= k < |t.files| && EdgeAt(t.files, t.pieceLength, prios, k, p);
      EdgeIsWanted(t, prios, k, p);
    }
  }

  /** With hashes missing, the last piece of a file is listed although the table does not have it. */
  lemma MissingHashIsListed()
    ensures var t := Torrent(10, 30, [FileInfo(30, 0)], 1);
            Laid(t) && 2 in FirstLastWanted(t, [Normal]) && t.pieceCount <= 2
  {
    var files := [FileInfo(30, 0)];
    var t := Torrent(10, 30, files, 1);
    assert TotalLength(files, 1) == 30;
    FirstLastMembers(files, 10, [Normal], 1, 2);
    assert EdgeAt(files, 10, [Normal], 0, 2);
  }

  /** A piece number past 32 bits wraps: here piece 2^32 is listed as piece 0, which is skipped. */
  lemma WrappedEdgeIsSkipped()
    ensures var t := Torrent(1, U32_LIMIT + 1, [FileInfo(U32_LIMIT, 0), FileInfo(1, U32_LIMIT)], 1);
            Laid(t) && 0 in FirstLastWanted(t, [Skip, Normal]) && PiecePriority(t, [Skip, Normal], 0) == Skip
  {
    var files := [FileInfo(U32_LIMIT, 0), FileInfo(1, U32_LIMIT)];
    var t, prios := Torrent(1, U32_LIMIT + 1, files, 1), [Skip, Normal];
    assert TotalLength(files, 0) == 0;
    assert TotalLength(files, 1) == U32_LIMIT;
    assert TotalLength(files, 2) == U32_LIMIT + 1;
    FirstLastMembers(files, 1, prios, 2, 0);
    assert EdgeAt(files, 1, prios, 1, 0);
    SkippedIff(t, prios, 0);
  }
}
