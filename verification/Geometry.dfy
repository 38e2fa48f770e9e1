/**
 How pieces lie over files: `Torrent::new` of `crates/bit_rev/src/torrent.rs`, the bounds and
 the mapping of `crates/bit_rev/src/utils.rs`. The files of a torrent, laid end to end, form
 one flat byte string that is cut into pieces of equal length; the mapping is specified against
 it. How many piece hashes a torrent has is not checked against its length, so it is free here.
 */
module Geometry {
  import opened Basics
  import opened Arith

  datatype FileInfo = FileInfo(length: int, offset: int)

  datatype Torrent = Torrent(pieceLength: int, length: int, files: seq<FileInfo>, pieceCount: nat)

  /** Lengths of the first `n` files together. */
  ghost function TotalLength(files: seq<FileInfo>, n: nat): int
    requires n <= |files|
  {
    if n == 0 then 0 else TotalLength(files, n - 1) + files[n - 1].length
  }

  /** Every file starts where the one before it ends. */
  ghost predicate LaidEndToEnd(files: seq<FileInfo>) {
    forall k {:trigger TotalLength(files, k)} ::
      0 <= k < |files| ==> files[k].length >= 0 && files[k].offset == TotalLength(files, k)
  }

  /** A layout as `Torrent::new` builds it when no length is negative, with any number of piece hashes. */
  ghost predicate Laid(t: Torrent) {
    && t.pieceLength > 0
    && LaidEndToEnd(t.files)
    && t.length == TotalLength(t.files, |t.files|)
    // Piece indices are 32-bit numbers.
    && t.pieceCount <= U32_LIMIT
  }

  /** How many pieces the length takes. */
  function Needed(t: Torrent): int
    requires t.pieceLength > 0
  {
    (t.length + t.pieceLength - 1) / t.pieceLength
  }

  /** There are as many hashes as the length takes. */
  ghost predicate WellFormed(t: Torrent) {
    Laid(t) && t.pieceCount == Needed(t)
  }

  ghost function Sum(lengths: seq<int>, n: nat): int
    requires n <= |lengths|
  {
    if n == 0 then 0 else Sum(lengths, n - 1) + lengths[n - 1]
  }

  /** The loop of `Torrent::new` over a list of file lengths. */
  method LayOut(lengths: seq<int>) returns (files: seq<FileInfo>, total: int)
    ensures |files| == |lengths|
    ensures forall k :: 0 <= k < |files| ==> files[k] == FileInfo(lengths[k], Sum(lengths, k))
    ensures total == Sum(lengths, |lengths|)
    ensures (forall k :: 0 <= k < |lengths| ==> lengths[k] >= 0)
            ==> LaidEndToEnd(files) && total == TotalLength(files, |files|)
  {
    files, total := [], 0;
    for i := 0 to |lengths|
      invariant |files| == i && total == Sum(lengths, i)
      invariant forall k :: 0 <= k < i ==> files[k] == FileInfo(lengths[k], Sum(lengths, k))
    {
      files := files + [FileInfo(lengths[i], total)];
      total := total + lengths[i];
    }
    forall n | 0 <= n <= |files| ensures TotalLength(files, n) == Sum(lengths, n) {
      SumIsTotalLength(lengths, files, n);
    }
  }

  lemma {:induction false} SumIsTotalLength(lengths: seq<int>, files: seq<FileInfo>, n: nat)
    requires n <= |files| == |lengths| && forall k :: 0 <= k < |files| ==> files[k].length == lengths[k]
    ensures TotalLength(files, n) == Sum(lengths, n)
  {
    if n > 0 {
      SumIsTotalLength(lengths, files, n - 1);
    }
  }

  lemma {:induction false} TotalLengthGrows(files: seq<FileInfo>, i: nat, j: nat)
    requires LaidEndToEnd(files) && i <= j <= |files|
    ensures 0 <= TotalLength(files, i) <= TotalLength(files, j)
    decreases j
  {
    if i < j {
      TotalLengthGrows(files, i, j - 1);
    } else if i > 0 {
      TotalLengthGrows(files, i - 1, i - 1);
    }
  }

  // ---------------------------------------------------------------------------------------
  // Pieces

  /** A stretch of the flat byte string. */
  datatype Span = Span(start: int, end: int)

  function BoundsForPiece(t: Torrent, index: nat): Span {
    var start := index * t.pieceLength;
    var end := start + t.pieceLength;
    Span(start, if end > t.length then t.length else end)
  }

  /** The piece starts before the end of the torrent. */
  predicate Inside(t: Torrent, index: nat) {
    index * t.pieceLength < t.length
  }

  lemma InsideBounds(t: Torrent, index: nat)
    requires Laid(t) && Inside(t, index)
    ensures var b := BoundsForPiece(t, index); 0 <= b.start < b.end <= t.length
  {
    MulMonotone(t.pieceLength, 0, index);
  }

  /** The pieces that start inside are those that the length takes. */
  lemma InsideIff(t: Torrent, index: nat)
    requires Laid(t)
    ensures Inside(t, index) <==> index < Needed(t)
  {
    var pl, n := t.pieceLength, Needed(t);
    QuotientSpan(t.length + pl - 1, pl);
    assert pl * (index + 1) == pl * index + pl;
    if index < n {
      MulMonotone(pl, index + 1, n);
    } else {
      MulMonotone(pl, n, index);
    }
  }

  /** The piece that holds a byte of the flat string. */
  lemma PieceOfByte(t: Torrent, b: int, index: nat)
    requires Laid(t) && 0 <= b < t.length
    ensures 0 <= b / t.pieceLength < Needed(t)
    ensures index == b / t.pieceLength <==> BoundsForPiece(t, index).start <= b < BoundsForPiece(t, index).end
  {
    var pl := t.pieceLength;
    QuotientIff(b, pl, index);
    QuotientSpan(b, pl);
    QuotientSpan(t.length + pl - 1, pl);
    if b / pl >= Needed(t) {
      MulMonotone(pl, Needed(t), b / pl);
    }
  }

  /** Every byte lies in a piece with a hash exactly when there are enough hashes. */
  lemma AllBytesHaveHashesIff(t: Torrent)
    requires Laid(t)
    ensures (forall b :: 0 <= b < t.length ==> PieceWithHash(t, b)) <==> Needed(t) <= t.pieceCount
  {
    if Needed(t) > t.pieceCount {
      var start := t.pieceCount * t.pieceLength;
      InsideIff(t, t.pieceCount);
      MulMonotone(t.pieceLength, 0, t.pieceCount);
      QuotientIs(start, t.pieceLength, t.pieceCount);
      assert !PieceWithHash(t, start);
    } else {
      forall b | 0 <= b < t.length ensures PieceWithHash(t, b) {
        PieceOfByte(t, b, 0);
      }
    }
  }

  predicate PieceWithHash(t: Torrent, b: int)
    requires t.pieceLength > 0
  {
    b / t.pieceLength < t.pieceCount
  }

  // ---------------------------------------------------------------------------------------
  // The mapping

  /** A stretch of one file. */
  datatype Mapping = Mapping(file: nat, offset: int, length: int)

  predicate Overlaps(f: FileInfo, b: Span) {
    b.start < f.offset + f.length && b.end > f.offset
  }

  function MappingOf(files: seq<FileInfo>, k: nat, b: Span): Mapping
    requires k < |files|
  {
    var f := files[k];
    var start := Max(b.start, f.offset);
    Mapping(k, start - f.offset, Min(b.end, f.offset + f.length) - start)
  }

  /** The mappings of a span onto the first `n` files. */
  function MapSpan(files: seq<FileInfo>, b: Span, n: nat): seq<Mapping>
    requires n <= |files|
  {
    if n == 0 then []
    else MapSpan(files, b, n - 1) + if Overlaps(files[n - 1], b) then [MappingOf(files, n - 1, b)] else []
  }

  function MapPiece(t: Torrent, index: nat): seq<Mapping> {
    MapSpan(t.files, BoundsForPiece(t, index), |t.files|)
  }

  /** `map_piece_to_files`. */
  method MapPieceToFiles(t: Torrent, index: nat) returns (mappings: seq<Mapping>)
    ensures mappings == MapPiece(t, index)
  {
    var b := BoundsForPiece(t, index);
    mappings := [];
    for k := 0 to |t.files|
      invariant mappings == MapSpan(t.files, b, k)
    {
      var fileStart := t.files[k].offset;
      var fileEnd := fileStart + t.files[k].length;
      if b.start < fileEnd && b.end > fileStart {
        var overlapStart := Max(b.start, fileStart);
        var overlapEnd := Min(b.end, fileEnd);
        mappings := mappings + [Mapping(k, overlapStart - fileStart, overlapEnd - overlapStart)];
      }
    }
  }

  /** The mapping names each overlapped file once, in order, and no other file. */
  lemma {:induction false} MapSpanMembers(files: seq<FileInfo>, b: Span, n: nat, m: Mapping)
    requires n <= |files|
    ensures m in MapSpan(files, b, n)
            <==> m.file < n && Overlaps(files[m.file], b) && m == MappingOf(files, m.file, b)
  {
    if n > 0 {
      MapSpanMembers(files, b, n - 1, m);
    }
  }

  // ---------------------------------------------------------------------------------------
  // The flat byte string

  /** The contents of the first `n` files, end to end. */
  ghost function Flat(contents: seq<seq<Byte>>, n: nat): seq<Byte>
    requires n <= |contents|
  {
    if n == 0 then [] else Flat(contents, n - 1) + contents[n - 1]
  }

  ghost predicate Fills(contents: seq<seq<Byte>>, files: seq<FileInfo>) {
    |contents| == |files| && forall k :: 0 <= k < |files| ==> |contents[k]| == files[k].length
  }

  ghost predicate InFile(m: Mapping, contents: seq<seq<Byte>>) {
    m.file < |contents| && 0 <= m.offset && 0 <= m.length && m.offset + m.length <= |contents[m.file]|
  }

  ghost function ReadAt(contents: seq<seq<Byte>>, m: Mapping): seq<Byte> {
    if InFile(m, contents) then contents[m.file][m.offset..m.offset + m.length] else []
  }

  /** Reading the mapped stretches one after the other. */
  ghost function Gather(contents: seq<seq<Byte>>, ms: seq<Mapping>): seq<Byte> {
    if ms == [] then [] else Gather(contents, ms[..|ms| - 1]) + ReadAt(contents, ms[|ms| - 1])
  }

  lemma {:induction false} FlatLength(contents: seq<seq<Byte>>, files: seq<FileInfo>, n: nat)
    requires Fills(contents, files) && n <= |files|
    ensures |Flat(contents, n)| == TotalLength(files, n)
  {
    if n > 0 {
      FlatLength(contents, files, n - 1);
    }
  }

  lemma MappingsAreInside(files: seq<FileInfo>, contents: seq<seq<Byte>>, b: Span, n: nat)
    requires Fills(contents, files) && n <= |files| && b.start <= b.end
    ensures forall m :: m in MapSpan(files, b, n) ==> InFile(m, contents)
  {
    forall m | m in MapSpan(files, b, n) ensures InFile(m, contents) {
      MapSpanMembers(files, b, n, m);
    }
  }

  function Clip(x: int, limit: int): int {
    if x < limit then Max(x, 0) else limit
  }

  /** The part of a span that lies inside a string. */
  ghost function Cut(s: seq<Byte>, start: int, end: int): seq<Byte>
    requires start <= end
  {
    s[Clip(start, |s|)..Clip(end, |s|)]
  }

  /** A stretch of two strings laid end to end is the stretch of the first, then of the second. */
  lemma CutOfConcat(a: seq<Byte>, c: seq<Byte>, start: int, end: int)
    requires 0 <= start <= end
    ensures Cut(a + c, start, end) == Cut(a, start, end) + Cut(c, start - |a|, end - |a|)
  {
  }

  /** What one file contributes to a span. */
  ghost function Stretch(files: seq<FileInfo>, contents: seq<seq<Byte>>, b: Span, k: nat): seq<Byte>
    requires k < |files|
  {
    if Overlaps(files[k], b) then ReadAt(contents, MappingOf(files, k, b)) else []
  }

  lemma StretchIsCut(files: seq<FileInfo>, contents: seq<seq<Byte>>, b: Span, k: nat)
    requires Fills(contents, files) && k < |files| && b.start <= b.end
    ensures Stretch(files, contents, b, k) == Cut(contents[k], b.start - files[k].offset, b.end - files[k].offset)
  {
  }

  lemma FlatStep(files: seq<FileInfo>, contents: seq<seq<Byte>>, b: Span, k: nat)
    requires LaidEndToEnd(files) && Fills(contents, files) && k < |files| && 0 <= b.start <= b.end
    ensures Cut(Flat(contents, k + 1), b.start, b.end)
            == Cut(Flat(contents, k), b.start, b.end) + Stretch(files, contents, b, k)
  {
    FlatLength(contents, files, k);
    CutOfConcat(Flat(contents, k), contents[k], b.start, b.end);
    StretchIsCut(files, contents, b, k);
  }

  lemma GatherStep(files: seq<FileInfo>, contents: seq<seq<Byte>>, b: Span, k: nat)
    requires k < |files|
    ensures Gather(contents, MapSpan(files, b, k + 1))
            == Gather(contents, MapSpan(files, b, k)) + Stretch(files, contents, b, k)
  {
    var ms := MapSpan(files, b, k);
    if Overlaps(files[k], b) {
      assert (ms + [MappingOf(files, k, b)])[..|ms|] == ms;
    } else {
      assert MapSpan(files, b, k + 1) == ms;
    }
  }

  /** The mapped stretches of a span, read one after the other, are the span of the flat string. */
  lemma {:induction false} GatherIsFlatSlice(files: seq<FileInfo>, contents: seq<seq<Byte>>, b: Span, n: nat)
    requires LaidEndToEnd(files) && Fills(contents, files) && n <= |files| && 0 <= b.start <= b.end
    ensures Gather(contents, MapSpan(files, b, n)) == Cut(Flat(contents, n), b.start, b.end)
  {
    if n == 0 {
      assert Cut([], b.start, b.end) == [];
    } else {
      var k := n - 1;
      GatherIsFlatSlice(files, contents, b, k);
      FlatStep(files, contents, b, k);
      GatherStep(files, contents, b, k);
      assert k + 1 == n;
    }
  }

  /** A piece read through its mapping is exactly its stretch of all files laid end to end; past the end it is empty. */
  lemma PieceIsFlatSlice(t: Torrent, contents: seq<seq<Byte>>, index: nat)
    requires Laid(t) && Fills(contents, t.files)
    ensures |Flat(contents, |t.files|)| == t.length
    ensures !Inside(t, index) ==> MapPiece(t, index) == []
    ensures Inside(t, index) ==>
              var b := BoundsForPiece(t, index);
              && (forall m :: m in MapPiece(t, index) ==> InFile(m, contents))
              && 0 <= b.start <= b.end <= t.length
              && Gather(contents, MapPiece(t, index)) == Flat(contents, |t.files|)[b.start..b.end]
  {
    FlatLength(contents, t.files, |t.files|);
    if Inside(t, index) {
      InsideBounds(t, index);
      SpanIsFlatSlice(t, contents, BoundsForPiece(t, index));
    } else {
      PastTheEnd(t, index, |t.files|);
    }
  }

  lemma SpanIsFlatSlice(t: Torrent, contents: seq<seq<Byte>>, b: Span)
    requires Laid(t) && Fills(contents, t.files) && 0 <= b.start <= b.end <= t.length
    ensures forall m :: m in MapSpan(t.files, b, |t.files|) ==> InFile(m, contents)
    ensures |Flat(contents, |t.files|)| == t.length
    ensures Gather(contents, MapSpan(t.files, b, |t.files|)) == Flat(contents, |t.files|)[b.start..b.end]
  {
    FlatLength(contents, t.files, |t.files|);
    MappingsAreInside(t.files, contents, b, |t.files|);
    GatherIsFlatSlice(t.files, contents, b, |t.files|);
  }

  lemma {:induction false} PastTheEnd(t: Torrent, index: nat, n: nat)
    requires Laid(t) && !Inside(t, index) && n <= |t.files|
    ensures MapSpan(t.files, BoundsForPiece(t, index), n) == []
  {
    if n > 0 {
      PastTheEnd(t, index, n - 1);
      FileInside(t, n - 1);
    }
  }

  lemma FileInside(t: Torrent, k: nat)
    requires Laid(t) && k < |t.files|
    ensures 0 <= t.files[k].offset && 0 <= t.files[k].length && t.files[k].offset + t.files[k].length <= t.length
  {
    TotalLengthGrows(t.files, 0, k);
    TotalLengthGrows(t.files, k + 1, |t.files|);
  }

  /**
   Every byte of every file is mapped exactly once: of all pieces and all their mappings, only
   the piece that holds the byte has a mapping over it, and that is one mapping.
   */
  lemma ByteIsMappedOnce(t: Torrent, k: nat, x: nat, index: nat, m: Mapping)
    requires Laid(t) && k < |t.files| && x < t.files[k].length
    ensures m in MapPiece(t, index) && m.file == k && m.offset <= x < m.offset + m.length
            <==> index == (t.files[k].offset + x) / t.pieceLength && m == MappingOf(t.files, k, BoundsForPiece(t, index))
    ensures 0 <= (t.files[k].offset + x) / t.pieceLength < Needed(t)
  {
    var b := BoundsForPiece(t, index);
    FileInside(t, k);
    PieceOfByte(t, t.files[k].offset + x, index);
    MapSpanMembers(t.files, b, |t.files|, m);
    InsideIff(t, index);
    if Inside(t, index) {
      InsideBounds(t, index);
    }
  }
}
