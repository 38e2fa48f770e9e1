/**
 The piece table that the session builds from a torrent (`crates/bit_rev/src/session.rs`) with
 `calculate_piece_size` of `crates/bit_rev/src/utils.rs`, and how its byte counts relate to the
 length of the torrent. Sizes are stored as 32-bit numbers.
 */
module PieceSizes {
  import opened Basics
  import opened Arith
  import opened Geometry
  import opened Priority
  import opened PieceTable

  /** The bytes of a piece. */
  function Size(t: Torrent, index: nat): int {
    BoundsForPiece(t, index).end - BoundsForPiece(t, index).start
  }

  /** The entry of a piece in a new table. */
  function NewPiece(t: Torrent, index: nat): Piece {
    Piece(index, Size(t, index) % U32_LIMIT, [], false, None, false)
  }

  /** The table that the session builds: one entry for each hash. */
  method BuildTable(t: Torrent) returns (pieces: seq<Piece>)
    ensures |pieces| == t.pieceCount && forall i :: 0 <= i < |pieces| ==> pieces[i] == NewPiece(t, i)
    ensures WellFormedTable(pieces)
    ensures forall i :: 0 <= i < |pieces| ==>
              && pieces[i].index == i && pieces[i].chunks == [] && !pieces[i].downloaded
              && pieces[i].reserved == None && !pieces[i].writeClaimed
  {
    pieces := [];
    for i := 0 to t.pieceCount
      invariant |pieces| == i && forall k :: 0 <= k < i ==> pieces[k] == NewPiece(t, k)
    {
      pieces := pieces + [NewPiece(t, i)];
    }
  }

  /** Where the first `n` pieces end. */
  ghost function EndOf(t: Torrent, n: nat): int {
    Min(n * t.pieceLength, t.length)
  }

  lemma SizeIsStep(t: Torrent, index: nat)
    requires Laid(t) && Inside(t, index)
    ensures Size(t, index) == EndOf(t, index + 1) - EndOf(t, index)
    ensures 0 < Size(t, index) <= Min(t.pieceLength, t.length)
    ensures index == 0 ==> Size(t, index) == Min(t.pieceLength, t.length)
  {
    InsideBounds(t, index);
    assert (index + 1) * t.pieceLength == index * t.pieceLength + t.pieceLength;
  }

  /** No piece is larger than a 32-bit number. */
  predicate SizesFit(t: Torrent) {
    Min(t.pieceLength, t.length) < U32_LIMIT
  }

  /** The bytes of the first `n` pieces. */
  ghost function SumOfSizes(t: Torrent, n: nat): int {
    if n == 0 then 0 else SumOfSizes(t, n - 1) + Size(t, n - 1)
  }

  lemma {:induction false} SumIsEnd(t: Torrent, n: nat)
    requires Laid(t) && n <= Needed(t)
    ensures SumOfSizes(t, n) == EndOf(t, n)
  {
    if n == 0 {
      TotalLengthGrows(t.files, 0, |t.files|);
    } else {
      var k := n - 1;
      SumIsEnd(t, k);
      InsideIff(t, k);
      SizeIsStep(t, k);
      assert k + 1 == n;
    }
  }

  lemma StoredSize(t: Torrent, index: nat)
    requires Laid(t) && Inside(t, index)
    ensures NewPiece(t, index).length <= Size(t, index)
    ensures SizesFit(t) ==> NewPiece(t, index).length == Size(t, index)
    ensures index == 0 && !SizesFit(t) ==> NewPiece(t, index).length < Size(t, index)
  {
    SizeIsStep(t, index);
  }

  /** The stored sizes of the first `n` pieces add up to their bytes, unless one was cut to 32 bits. */
  lemma {:induction false} SizesAddUp(t: Torrent, pieces: seq<Piece>, prios: seq<FilePriority>, n: nat)
    requires WellFormed(t) && n <= |pieces| == t.pieceCount
    requires forall i :: 0 <= i < |pieces| ==> pieces[i] == NewPiece(t, i) && PrioOf(prios, i) != Skip
    ensures WantedBytes(pieces, prios, All, n) <= SumOfSizes(t, n)
    ensures n > 0 ==> (WantedBytes(pieces, prios, All, n) == SumOfSizes(t, n) <==> SizesFit(t))
  {
    if n > 0 {
      var k := n - 1;
      SizesAddUp(t, pieces, prios, k);
      InsideIff(t, k);
      StoredSize(t, k);
      assert WantedBytes(pieces, prios, All, n) == WantedBytes(pieces, prios, All, k) + NewPiece(t, k).length;
    }
  }

  /** With nothing skipped the wanted bytes are the length of the torrent, exactly when every size fits 32 bits. */
  lemma AllBytesIff(t: Torrent, pieces: seq<Piece>, prios: seq<FilePriority>)
    requires WellFormed(t) && |pieces| == t.pieceCount
    requires forall i :: 0 <= i < |pieces| ==> pieces[i] == NewPiece(t, i) && PrioOf(prios, i) != Skip
    ensures WantedBytes(pieces, prios, All, |pieces|) == t.length <==> SizesFit(t)
  {
    TotalLengthGrows(t.files, 0, |t.files|);
    SizesAddUp(t, pieces, prios, t.pieceCount);
    SumIsEnd(t, t.pieceCount);
    EndIsLength(t);
  }

  lemma EndIsLength(t: Torrent)
    requires WellFormed(t)
    ensures EndOf(t, t.pieceCount) == t.length
    ensures t.pieceCount == 0 ==> t.length == 0
  {
    var n, pl := t.pieceCount, t.pieceLength;
    TotalLengthGrows(t.files, 0, |t.files|);
    QuotientSpan(t.length + pl - 1, pl);
    assert n * pl == pl * n;
  }
}
