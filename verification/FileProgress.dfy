/**
 Progress of one file: `file_piece_mappings` and `file_have_bytes` of
 `crates/bit_rev/src/priority.rs`, specified by counting the bytes of the file whose piece
 is held.
 */
module FileProgress {
  import opened Basics
  import opened Arith
  import opened Geometry
  import opened Priority

  /** A piece and how many bytes of the file it holds. */
  datatype Overlap = Overlap(piece: nat, length: int)

  /** Bytes of the flat string from `from` up to `upto` whose piece is held. */
  ghost function HeldBytes(pieceLength: int, has: nat -> bool, from: int, upto: int): nat
    requires pieceLength > 0 && 0 <= from
    decreases upto - from
  {
    if upto <= from then 0
    else HeldBytes(pieceLength, has, from, upto - 1) + if has((upto - 1) / pieceLength) then 1 else 0
  }

  /** If the first `n` pieces are held, so is every byte before their end. */
  lemma {:induction false} AllHeld(pieceLength: int, has: nat -> bool, n: nat, from: int, upto: int)
    requires pieceLength > 0 && 0 <= from <= upto && (from < upto ==> upto <= pieceLength * n)
    requires forall p :: 0 <= p < n ==> has(p)
    ensures HeldBytes(pieceLength, has, from, upto) == upto - from
    decreases upto - from
  {
    if from < upto {
      AllHeld(pieceLength, has, n, from, upto - 1);
      QuotientSpan(upto - 1, pieceLength);
      if (upto - 1) / pieceLength >= n {
        MulMonotone(pieceLength, n, (upto - 1) / pieceLength);
      }
    }
  }

  /** A stretch inside one piece is held as a whole or not at all. */
  lemma {:induction false} HeldStretch(pieceLength: int, has: nat -> bool, from: int, mid: int, upto: int, p: nat)
    requires pieceLength > 0 && 0 <= from <= mid <= upto
    requires pieceLength * p <= mid && upto <= pieceLength * p + pieceLength
    ensures HeldBytes(pieceLength, has, from, upto)
            == HeldBytes(pieceLength, has, from, mid) + if has(p) then upto - mid else 0
    decreases upto - mid
  {
    if mid < upto {
      HeldStretch(pieceLength, has, from, mid, upto - 1, p);
      QuotientIs(upto - 1, pieceLength, p);
    }
  }

  /** The entry of file `k` among the mappings of a span, if there is one. */
  ghost function EntryOf(files: seq<FileInfo>, b: Span, n: nat, k: nat, piece: nat): seq<Overlap>
    requires n <= |files|
  {
    if k < n && Overlaps(files[k], b) then [Overlap(piece, MappingOf(files, k, b).length)] else []
  }

  /** The inner loop of `file_piece_mappings`: of all mappings of a piece keep those of file `k`. */
  method PickFile(t: Torrent, piece: nat, k: nat) returns (found: seq<Overlap>)
    requires k < |t.files|
    ensures found == EntryOf(t.files, BoundsForPiece(t, piece), |t.files|, k, piece)
  {
    var b := BoundsForPiece(t, piece);
    var ms := MapPieceToFiles(t, piece);
    found := [];
    var i := 0;
    ghost var n := 0;
    while i < |ms|
      invariant 0 <= i <= |ms| && 0 <= n <= |t.files|
      invariant ms[..i] == MapSpan(t.files, b, n)
      invariant found == EntryOf(t.files, b, n, k, piece)
    {
      n := NextMapped(t.files, b, ms, i, n);
      assert ms[..i + 1] == ms[..i] + [ms[i]];
      if ms[i].file == k {
        found := found + [Overlap(piece, ms[i].length)];
      }
      i := i + 1;
    }
    assert ms[..i] == ms;
    NoMoreMapped(t.files, b, n, k);
  }

  /** The next mapping belongs to the next file that overlaps. */
  lemma {:induction false} NextMapped(files: seq<FileInfo>, b: Span, ms: seq<Mapping>, i: nat, n: nat) returns (next: nat)
    requires n <= |files| && i < |ms| && ms == MapSpan(files, b, |files|) && ms[..i] == MapSpan(files, b, n)
    ensures n < next <= |files| && MapSpan(files, b, next) == ms[..i] + [ms[i]]
    ensures ms[i] == MappingOf(files, next - 1, b) && Overlaps(files[next - 1], b)
    ensures forall j :: n <= j < next - 1 ==> !Overlaps(files[j], b)
    decreases |files| - n
  {
    assert |MapSpan(files, b, n)| == i;
    if Overlaps(files[n], b) {
      next := n + 1;
      MapSpanPrefix(files, b, next, |files|);
      assert ms[..i + 1] == MapSpan(files, b, next);
    } else {
      assert MapSpan(files, b, n + 1) == MapSpan(files, b, n);
      next := NextMapped(files, b, ms, i, n + 1);
    }
  }

  lemma {:induction false} MapSpanPrefix(files: seq<FileInfo>, b: Span, n: nat, m: nat)
    requires n <= m <= |files|
    ensures MapSpan(files, b, n) <= MapSpan(files, b, m)
    decreases m - n
  {
    if n < m {
      MapSpanPrefix(files, b, n, m - 1);
    }
  }

  /** When all mappings have been seen, no later file overlaps. */
  lemma NoMoreMapped(files: seq<FileInfo>, b: Span, n: nat, k: nat)
    requires n <= |files| && MapSpan(files, b, n) == MapSpan(files, b, |files|) && k < |files|
    ensures k >= n ==> !Overlaps(files[k], b)
  {
    if k >= n && Overlaps(files[k], b) {
      MapSpanMembers(files, b, |files|, MappingOf(files, k, b));
      MapSpanMembers(files, b, n, MappingOf(files, k, b));
    }
  }

  /** Bytes of file `k` in a piece. */
  function OverlapLength(t: Torrent, k: nat, piece: nat): int
    requires k < |t.files|
  {
    MappingOf(t.files, k, BoundsForPiece(t, piece)).length
  }

  /** How many pieces the loop looks at: those with a hash, but the first one in any case. */
  function Hashed(t: Torrent): nat {
    Max(t.pieceCount, 1)
  }

  /** One entry for each piece of the file among those, with the bytes they share. */
  ghost predicate ListsOverlaps(t: Torrent, k: nat, overlaps: seq<Overlap>)
    requires t.pieceLength > 0 && k < |t.files| && t.files[k].length > 0
  {
    var first, last := FirstPiece(t.files[k], t.pieceLength), LastPiece(t.files[k], t.pieceLength);
    && |overlaps| == Max(0, Min(last + 1, Hashed(t)) - first)
    && forall i :: 0 <= i < |overlaps| ==> overlaps[i] == Overlap(first + i, OverlapLength(t, k, first + i))
  }

  /** `file_piece_mappings`: one entry for each piece from the first of the file to its last, or to the last with a hash. */
  method FilePieceMappings(t: Torrent, k: nat) returns (out: seq<Overlap>)
    requires Laid(t)
    ensures k >= |t.files| || t.files[k].length == 0 ==> out == []
    ensures k < |t.files| && t.files[k].length > 0 ==> ListsOverlaps(t, k, out)
  {
    out := [];
    if k >= |t.files| || t.files[k].length <= 0 || t.pieceLength <= 0 {
      return;
    }
    var first, last := FirstPiece(t.files[k], t.pieceLength), LastPiece(t.files[k], t.pieceLength);
    last := Min(last, if t.pieceCount > 0 then t.pieceCount - 1 else 0);
    var piece := first;
    while piece <= last
      invariant first <= piece <= Max(first, last + 1) && |out| == piece - first
      invariant forall i :: 0 <= i < |out| ==> out[i] == Overlap(first + i, OverlapLength(t, k, first + i))
    {
      var found := PickFile(t, piece, k);
      MiddlePieceOverlaps(t, k, piece);
      out := out + found;
      piece := piece + 1;
    }
  }

  lemma MiddlePieceBounds(t: Torrent, k: nat, piece: nat)
    requires Laid(t) && k < |t.files| && t.files[k].length > 0
    requires FirstPiece(t.files[k], t.pieceLength) <= piece <= LastPiece(t.files[k], t.pieceLength)
    ensures t.files[k].offset < t.pieceLength * piece + t.pieceLength
    ensures t.pieceLength * piece < t.files[k].offset + t.files[k].length <= t.length
    ensures 0 <= t.files[k].offset
  {
    var f, pl := t.files[k], t.pieceLength;
    FileInside(t, k);
    var a, z := f.offset / pl, (f.offset + f.length - 1) / pl;
    QuotientSpan(f.offset, pl);
    QuotientSpan(f.offset + f.length - 1, pl);
    MulMonotone(pl, a, piece);
    MulMonotone(pl, piece, z);
  }

  /** Every piece between the edges of a file overlaps it. */
  lemma MiddlePieceOverlaps(t: Torrent, k: nat, piece: nat)
    requires Laid(t) && k < |t.files| && t.files[k].length > 0
    requires FirstPiece(t.files[k], t.pieceLength) <= piece <= LastPiece(t.files[k], t.pieceLength)
    ensures Overlaps(t.files[k], BoundsForPiece(t, piece))
    ensures OverlapLength(t, k, piece) == Edge(t, k, piece + 1) - Edge(t, k, piece)
    ensures t.files[k].offset <= Edge(t, k, piece) <= Edge(t, k, piece + 1)
    ensures t.pieceLength * piece <= Edge(t, k, piece) && Edge(t, k, piece + 1) <= t.pieceLength * piece + t.pieceLength
  {
    MiddlePieceBounds(t, k, piece);
    assert t.pieceLength * (piece + 1) == t.pieceLength * piece + t.pieceLength;
    assert BoundsForPiece(t, piece).start == t.pieceLength * piece;
  }

  /** Where the part of file `k` before the given piece ends. */
  ghost function Edge(t: Torrent, k: nat, piece: nat): int
    requires k < |t.files|
  {
    Min(Max(t.pieceLength * piece, t.files[k].offset), t.files[k].offset + t.files[k].length)
  }

  lemma OuterEdges(t: Torrent, k: nat)
    requires Laid(t) && k < |t.files| && t.files[k].length > 0
    ensures Edge(t, k, FirstPiece(t.files[k], t.pieceLength)) == t.files[k].offset
    ensures Edge(t, k, LastPiece(t.files[k], t.pieceLength) + 1) == t.files[k].offset + t.files[k].length
  {
    var f, pl := t.files[k], t.pieceLength;
    FileInside(t, k);
    var z := (f.offset + f.length - 1) / pl;
    QuotientSpan(f.offset, pl);
    QuotientSpan(f.offset + f.length - 1, pl);
    assert pl * (z + 1) == pl * z + pl;
  }

  /** The listed pieces end where the last piece with a hash ends, if the file reaches so far. */
  lemma ListedEnd(t: Torrent, k: nat, overlaps: seq<Overlap>)
    requires Laid(t) && k < |t.files| && t.files[k].length > 0 && ListsOverlaps(t, k, overlaps)
    ensures Edge(t, k, FirstPiece(t.files[k], t.pieceLength) + |overlaps|) == Edge(t, k, Hashed(t))
    ensures Edge(t, k, Hashed(t)) == t.files[k].offset + t.files[k].length <==> LastPiece(t.files[k], t.pieceLength) < Hashed(t)
  {
    var f, pl, n := t.files[k], t.pieceLength, Hashed(t);
    var first, last := FirstPiece(f, pl), LastPiece(f, pl);
    FileInside(t, k);
    EdgesInOrder(t, k);
    OuterEdges(t, k);
    QuotientSpan(f.offset, pl);
    QuotientSpan(f.offset + f.length - 1, pl);
    if n <= first {
      MulMonotone(pl, n, first);
    }
    if last < n {
      MulMonotone(pl, last + 1, n);
      assert pl * (last + 1) == pl * last + pl;
    } else {
      MulMonotone(pl, n, last);
    }
  }

  /** Bytes counted over the first `n` entries. */
  ghost function SumHeld(overlaps: seq<Overlap>, has: nat -> bool, n: nat): int
    requires n <= |overlaps|
  {
    if n == 0 then 0
    else SumHeld(overlaps, has, n - 1) + if has(overlaps[n - 1].piece) then overlaps[n - 1].length else 0
  }

  lemma {:induction false} SumIsHeldBytes(t: Torrent, k: nat, has: nat -> bool, overlaps: seq<Overlap>, n: nat)
    requires Laid(t) && k < |t.files| && t.files[k].length > 0 && n <= |overlaps|
    requires ListsOverlaps(t, k, overlaps)
    ensures t.files[k].offset >= 0
    ensures SumHeld(overlaps, has, n)
            == HeldBytes(t.pieceLength, has, t.files[k].offset, Edge(t, k, FirstPiece(t.files[k], t.pieceLength) + n))
  {
    FileInside(t, k);
    OuterEdges(t, k);
    if n > 0 {
      SumIsHeldBytes(t, k, has, overlaps, n - 1);
      var p := FirstPiece(t.files[k], t.pieceLength) + n - 1;
      MiddlePieceOverlaps(t, k, p);
      HeldStretch(t.pieceLength, has, t.files[k].offset, Edge(t, k, p), Edge(t, k, p + 1), p);
    }
  }

  /** `file_have_bytes`: the bytes of the file whose piece is held, up to the last piece with a hash. */
  method FileHaveBytes(t: Torrent, k: nat, has: nat -> bool) returns (have: int)
    requires Laid(t)
    ensures k >= |t.files| ==> have == 0
    ensures k < |t.files| ==> t.files[k].offset >= 0
    ensures k < |t.files| ==> have == HeldBytes(t.pieceLength, has, t.files[k].offset, Edge(t, k, Hashed(t)))
    ensures k < |t.files| && (forall p :: 0 <= p < Hashed(t) ==> has(p)) ==>
              (have == t.files[k].length
               <==> t.files[k].length <= 0 || LastPiece(t.files[k], t.pieceLength) < Hashed(t))
  {
    have := 0;
    if k >= |t.files| {
      return;
    }
    var f := t.files[k];
    FileInside(t, k);
    if f.length <= 0 {
      return;
    }
    var overlaps := FilePieceMappings(t, k);
    for i := 0 to |overlaps|
      invariant have == SumHeld(overlaps, has, i)
    {
      if has(overlaps[i].piece) {
        have := have + overlaps[i].length;
      }
    }
    WholeFile(t, k, has, overlaps);
    have := Min(have, f.length);
  }

  lemma WholeFile(t: Torrent, k: nat, has: nat -> bool, overlaps: seq<Overlap>)
    requires Laid(t) && k < |t.files| && t.files[k].length > 0 && ListsOverlaps(t, k, overlaps)
    ensures t.files[k].offset >= 0
    ensures SumHeld(overlaps, has, |overlaps|)
            == HeldBytes(t.pieceLength, has, t.files[k].offset, Edge(t, k, Hashed(t))) <= t.files[k].length
    ensures (forall p :: 0 <= p < Hashed(t) ==> has(p)) ==>
              (SumHeld(overlaps, has, |overlaps|) == t.files[k].length <==> LastPiece(t.files[k], t.pieceLength) < Hashed(t))
  {
    var f, end := t.files[k], Edge(t, k, Hashed(t));
    FileInside(t, k);
    SumIsHeldBytes(t, k, has, overlaps, |overlaps|);
    ListedEnd(t, k, overlaps);
    HeldAtMost(t.pieceLength, has, f.offset, end);
    if forall p :: 0 <= p < Hashed(t) ==> has(p) {
      AllHeld(t.pieceLength, has, Hashed(t), f.offset, end);
    }
  }

  lemma {:induction false} HeldAtMost(pieceLength: int, has: nat -> bool, from: int, upto: int)
    requires pieceLength > 0 && 0 <= from <= upto
    ensures HeldBytes(pieceLength, has, from, upto) <= upto - from
    decreases upto - from
  {
    if from < upto {
      HeldAtMost(pieceLength, has, from, upto - 1);
    }
  }
}
