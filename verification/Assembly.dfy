/**
 Putting a piece together from blocks that arrive in any order: `set_chuncks`,
 `piece_chunks_cover` and `chunk_to_buf` of `crates/bit_rev/src/peer_connection.rs`, with the
 block grid of `crates/bit_rev/src/utils.rs`.
 */
module Assembly {
  import opened Basics
  import opened PairSort

  const U32_MAX: nat := 0xFFFF_FFFF
  const BLOCK_SIZE: nat := 16384

  /** A received block. Its length on record is the length of its bytes. */
  datatype Chunk = Chunk(start: nat, buf: seq<Byte>, peer: Peer)

  function SaturatingAdd(a: nat, b: nat): nat {
    Min(a + b, U32_MAX)
  }

  /** `calculate_block_size`: the block at `requested` of a piece. */
  function BlockSize(pieceLength: nat, requested: nat): nat
    requires requested <= pieceLength
  {
    if pieceLength - requested < BLOCK_SIZE then pieceLength - requested else BLOCK_SIZE
  }

  // ---------------------------------------------------------------------------------------
  // Storing

  predicate HasStart(chunks: seq<Chunk>, start: nat) {
    exists k :: 0 <= k < |chunks| && chunks[k].start == start
  }

  /** `set_chuncks` on the chunks of one piece: a second block at the same offset is dropped. */
  function Store(chunks: seq<Chunk>, c: Chunk): seq<Chunk> {
    if HasStart(chunks, c.start) then chunks else chunks + [c]
  }

  ghost predicate DistinctStarts(chunks: seq<Chunk>) {
    forall i, j :: 0 <= i < j < |chunks| ==> chunks[i].start != chunks[j].start
  }

  /** The chunks after a series of deliveries. */
  function Stored(deliveries: seq<Chunk>): seq<Chunk> {
    if deliveries == [] then []
    else Store(Stored(deliveries[..|deliveries| - 1]), deliveries[|deliveries| - 1])
  }

  /** No offset is stored twice, nothing is stored that did not arrive, and no offset is lost. */
  lemma {:induction false} StoredIsFirstDelivery(deliveries: seq<Chunk>)
    ensures DistinctStarts(Stored(deliveries))
    ensures forall c :: c in Stored(deliveries) ==> c in deliveries
    ensures forall k :: 0 <= k < |deliveries| ==> HasStart(Stored(deliveries), deliveries[k].start)
  {
    if deliveries != [] {
      var front, last := deliveries[..|deliveries| - 1], deliveries[|deliveries| - 1];
      StoredIsFirstDelivery(front);
      var before, after := Stored(front), Stored(deliveries);
      assert before <= after;
      forall k | 0 <= k < |deliveries| ensures HasStart(after, deliveries[k].start) {
        if k < |front| {
          assert HasStart(before, front[k].start);
          var j :| 0 <= j < |before| && before[j].start == front[k].start;
          assert after[j].start == deliveries[k].start;
        } else if !HasStart(before, last.start) {
          assert after[|before|].start == last.start;
        }
      }
    }
  }

  /** The delivery at `k` is the first of its offset. */
  ghost predicate ComesFirst(deliveries: seq<Chunk>, k: nat)
    requires k < |deliveries|
  {
    forall j :: 0 <= j < k ==> deliveries[j].start != deliveries[k].start
  }

  /** The chunk is the first delivery of its offset. */
  ghost predicate IsFirst(deliveries: seq<Chunk>, c: Chunk) {
    exists k :: 0 <= k < |deliveries| && deliveries[k] == c && ComesFirst(deliveries, k)
  }

  lemma OneMoreDelivery(front: seq<Chunk>, last: Chunk, c: Chunk)
    ensures IsFirst(front + [last], c) <==> IsFirst(front, c) || (c == last && ComesFirst(front + [last], |front|))
  {
    var all := front + [last];
    forall k | 0 <= k < |front| ensures ComesFirst(all, k) <==> ComesFirst(front, k) {
      assert all[k] == front[k] && forall j :: 0 <= j < k ==> all[j] == front[j];
    }
    if IsFirst(front, c) {
      var k :| 0 <= k < |front| && front[k] == c && ComesFirst(front, k);
      assert all[k] == c && ComesFirst(all, k);
    }
    if c == last && ComesFirst(all, |front|) {
      assert all[|front|] == c;
    }
  }

  /** What is kept are the first deliveries of every offset and nothing else. */
  lemma {:induction false} FirstDeliveryIsKept(deliveries: seq<Chunk>, c: Chunk)
    ensures c in Stored(deliveries) <==> IsFirst(deliveries, c)
  {
    if deliveries != [] {
      var front, last := deliveries[..|deliveries| - 1], deliveries[|deliveries| - 1];
      assert deliveries == front + [last];
      FirstDeliveryIsKept(front, c);
      OneMoreDelivery(front, last, c);
      LastComesFirst(front, last);
    }
  }

  lemma LastComesFirst(front: seq<Chunk>, last: Chunk)
    ensures ComesFirst(front + [last], |front|) <==> !HasStart(Stored(front), last.start)
  {
    StoredIsFirstDelivery(front);
    var kept, all := Stored(front), front + [last];
    if HasStart(kept, last.start) {
      var j :| 0 <= j < |kept| && kept[j].start == last.start;
      assert kept[j] in front;
      var i :| 0 <= i < |front| && front[i] == kept[j];
      assert all[i].start == last.start;
    } else {
      forall i | 0 <= i < |front| ensures all[i].start != last.start {
        assert HasStart(kept, front[i].start);
      }
    }
  }

  // ---------------------------------------------------------------------------------------
  // Coverage

  function SpanOf(c: Chunk): Pair {
    Pair(c.start, |c.buf|)
  }

  function Spans(chunks: seq<Chunk>): (spans: seq<Pair>)
    ensures |spans| == |chunks| && forall k :: 0 <= k < |chunks| ==> spans[k] == SpanOf(chunks[k])
  {
    seq(|chunks|, k requires 0 <= k < |chunks| => SpanOf(chunks[k]))
  }

  /** Where a walk over the spans ends, if each starts where the one before it ended. */
  function Walk(spans: seq<Pair>, covered: nat): Option<nat> {
    if spans == [] then Some(covered)
    else if spans[0].fst != covered then None
    else Walk(spans[1..], SaturatingAdd(covered, spans[0].snd))
  }

  function Covers(chunks: seq<Chunk>, length: nat): bool {
    Walk(Sort(Spans(chunks)), 0) == Some(length)
  }

  /** `piece_chunks_cover`. */
  method PieceChunksCover(chunks: seq<Chunk>, length: nat) returns (covers: bool)
    ensures covers == Covers(chunks, length)
  {
    var spans := Sort(Spans(chunks));
    var covered := 0;
    for k := 0 to |spans|
      invariant 0 <= covered
      invariant Walk(spans, 0) == Walk(spans[k..], covered)
    {
      assert spans[k..][1..] == spans[k + 1..];
      if spans[k].fst != covered {
        return false;
      }
      covered := SaturatingAdd(covered, spans[k].snd);
    }
    assert spans[|spans|..] == [];
    covers := covered == length;
  }

  ghost predicate InSpan(p: Pair, x: nat) {
    p.fst <= x < p.fst + p.snd
  }

  ghost predicate Reached(chunks: seq<Chunk>, x: nat) {
    exists k :: 0 <= k < |chunks| && InSpan(SpanOf(chunks[k]), x)
  }

  ghost predicate SpanReached(spans: seq<Pair>, x: nat) {
    exists p :: p in spans && InSpan(p, x)
  }

  /**
   The chunks tile the piece: none reaches past its end, every byte lies in exactly one of
   them, and an empty one can only stand at the end.
   */
  ghost predicate Tiles(chunks: seq<Chunk>, length: nat) {
    && (forall k :: 0 <= k < |chunks| ==> chunks[k].start + |chunks[k].buf| <= length)
    && (forall k :: 0 <= k < |chunks| && chunks[k].buf == [] ==> chunks[k].start == length)
    && (forall x: nat :: x < length ==> Reached(chunks, x))
    && (forall x: nat, i, j ::
          0 <= i < |chunks| && 0 <= j < |chunks| && InSpan(SpanOf(chunks[i]), x) && InSpan(SpanOf(chunks[j]), x) ==> i == j)
  }

  /** The same for spans in ascending order, from `from` on. */
  ghost predicate TilesFrom(spans: seq<Pair>, from: nat, length: nat) {
    && from <= length
    && (forall p :: p in spans ==> from <= p.fst && p.fst + p.snd <= length)
    && (forall p :: p in spans && p.snd == 0 ==> p.fst == length)
    && (forall x: nat :: from <= x < length ==> SpanReached(spans, x))
    && (forall x: nat, p, q :: p in spans && q in spans && InSpan(p, x) && InSpan(q, x) ==> p == q)
  }

  ghost predicate Ascending(spans: seq<Pair>) {
    forall i, j :: 0 <= i < j < |spans| ==> spans[i].fst < spans[j].fst
  }

  /** Each span starts where the one before it ended, and the last ends at `length`. */
  ghost predicate Contiguous(spans: seq<Pair>, from: nat, length: nat) {
    if spans == [] then from == length
    else spans[0].fst == from && Contiguous(spans[1..], from + spans[0].snd, length)
  }

  lemma {:induction false} ContiguousEnds(spans: seq<Pair>, from: nat, length: nat)
    requires Contiguous(spans, from, length)
    ensures from <= length
  {
    if spans != [] {
      ContiguousEnds(spans[1..], from + spans[0].snd, length);
    }
  }

  /** No span ends past the largest 32-bit number. */
  ghost predicate NoSpanOverruns(spans: seq<Pair>) {
    forall k :: 0 <= k < |spans| ==> spans[k].fst + spans[k].snd <= U32_MAX
  }

  /** The saturating walk is right exactly where no span runs past the 32-bit range. */
  lemma {:induction false} WalkIsContiguous(spans: seq<Pair>, from: nat, length: nat)
    requires from <= U32_MAX && length <= U32_MAX
    ensures Contiguous(spans, from, length) <==> Walk(spans, from) == Some(length) && NoSpanOverruns(spans)
  {
    if spans != [] && spans[0].fst == from {
      var next := from + spans[0].snd;
      if next <= U32_MAX {
        WalkIsContiguous(spans[1..], next, length);
        assert spans == [spans[0]] + spans[1..];
      } else if Contiguous(spans[1..], next, length) {
        ContiguousEnds(spans[1..], next, length);
      }
    }
  }

  lemma TailTiles(spans: seq<Pair>, from: nat, length: nat)
    requires Ascending(spans) && spans != [] && spans[0].fst == from && TilesFrom(spans, from, length)
    ensures TilesFrom(spans[1..], from + spans[0].snd, length)
  {
    var head, next := spans[0], from + spans[0].snd;
    assert head in spans;
    forall p | p in spans[1..] ensures p in spans && next <= p.fst {
      assert p in spans && p != head by {
        var k :| 0 <= k < |spans[1..]| && spans[1..][k] == p;
        assert spans[k + 1] == p && spans[0].fst < spans[k + 1].fst;
      }
      assert p.fst < next && p.snd > 0 ==> InSpan(p, p.fst) && InSpan(head, p.fst);
    }
    forall x: nat | next <= x < length ensures SpanReached(spans[1..], x) {
      assert SpanReached(spans, x);
      var p :| p in spans && InSpan(p, x);
      assert p != head;
      var k :| 0 <= k < |spans| && spans[k] == p;
      assert p == spans[1..][k - 1];
    }
  }

  lemma HeadTiles(spans: seq<Pair>, from: nat, length: nat)
    requires Ascending(spans) && spans != [] && spans[0].fst == from
    requires TilesFrom(spans[1..], from + spans[0].snd, length)
    requires spans[0].snd == 0 ==> from == length
    ensures TilesFrom(spans, from, length)
  {
    var head, next := spans[0], from + spans[0].snd;
    forall p ensures p in spans <==> p == head || p in spans[1..] {
      assert spans == [head] + spans[1..];
    }
    forall x: nat | from <= x < length ensures SpanReached(spans, x) {
      if x < next {
        assert head in spans && InSpan(head, x);
      } else {
        assert SpanReached(spans[1..], x);
        var p :| p in spans[1..] && InSpan(p, x);
        assert p in spans;
      }
    }
  }

  /** For ascending spans, running contiguously and tiling are the same thing. */
  lemma {:induction false} ContiguousIffTiles(spans: seq<Pair>, from: nat, length: nat)
    requires Ascending(spans) && from <= length
    ensures Contiguous(spans, from, length) <==> TilesFrom(spans, from, length)
  {
    if spans == [] {
      assert TilesFrom(spans, from, length) && from < length ==> SpanReached(spans, from);
    } else {
      var next := from + spans[0].snd;
      assert Ascending(spans[1..]);
      assert spans[0] in spans;
      assert |spans| > 1 ==> spans[1..][0] == spans[1];
      if Contiguous(spans, from, length) {
        ContiguousEnds(spans[1..], next, length);
        ContiguousIffTiles(spans[1..], next, length);
        HeadTiles(spans, from, length);
      }
      if TilesFrom(spans, from, length) {
        FirstStartsHere(spans, from, length);
        TailTiles(spans, from, length);
        ContiguousIffTiles(spans[1..], next, length);
      }
    }
  }

  lemma FirstStartsHere(spans: seq<Pair>, from: nat, length: nat)
    requires Ascending(spans) && spans != [] && TilesFrom(spans, from, length)
    ensures spans[0].fst == from
  {
    assert spans[0] in spans;
    if from < length {
      assert SpanReached(spans, from);
      var p :| p in spans && InSpan(p, from);
      assert forall k :: 0 < k < |spans| ==> spans[0].fst < spans[k].fst;
    }
  }

  lemma SortedSpansAscend(chunks: seq<Chunk>)
    requires DistinctStarts(chunks)
    ensures var spans := Sort(Spans(chunks));
            && Ascending(spans)
            && (forall p :: p in spans <==> exists k :: 0 <= k < |chunks| && SpanOf(chunks[k]) == p)
  {
    var all := Spans(chunks);
    var spans := Sort(all);
    SortIsSorted(all);
    SortMembers(all);
    forall i, j | 0 <= i < j < |spans| ensures spans[i].fst < spans[j].fst {
      assert Leq(spans[i], spans[j]);
      if spans[i].fst == spans[j].fst {
        SameStartTwice(chunks, spans, i, j);
      }
    }
    forall p ensures p in spans <==> exists k :: 0 <= k < |chunks| && SpanOf(chunks[k]) == p {
      assert p in spans <==> p in all;
      if p in all {
        var k :| 0 <= k < |all| && all[k] == p;
        assert SpanOf(chunks[k]) == p;
      }
      if exists k :: 0 <= k < |chunks| && SpanOf(chunks[k]) == p {
        var k :| 0 <= k < |chunks| && SpanOf(chunks[k]) == p;
        assert all[k] == p;
      }
    }
  }

  lemma SameStartTwice(chunks: seq<Chunk>, spans: seq<Pair>, i: nat, j: nat)
    requires DistinctStarts(chunks) && multiset(spans) == multiset(Spans(chunks))
    requires i < j < |spans|
    ensures spans[i].fst != spans[j].fst
  {
    var all := Spans(chunks);
    assert spans[i] in multiset(all) && spans[j] in multiset(all);
    var m :| 0 <= m < |all| && all[m] == spans[i];
    var n :| 0 <= n < |all| && all[n] == spans[j];
    if spans[i].fst == spans[j].fst {
      assert m == n;
      assert spans == spans[..j] + [spans[j]] + spans[j + 1..];
      assert spans[..j][i] == spans[j];
      assert multiset(spans)[spans[j]] >= 2;
      OnlyOnce(all, m);
    }
  }

  lemma OnlyOnce(all: seq<Pair>, m: nat)
    requires m < |all| && forall k :: 0 <= k < |all| && k != m ==> all[k] != all[m]
    ensures multiset(all)[all[m]] == 1
  {
    var a, b := all[..m], all[m + 1..];
    assert all == a + [all[m]] + b;
    assert all[m] !in a && all[m] !in b;
  }

  /** No chunk ends past the largest 32-bit number. */
  ghost predicate NoOverrun(chunks: seq<Chunk>) {
    forall k :: 0 <= k < |chunks| ==> chunks[k].start + |chunks[k].buf| <= U32_MAX
  }

  lemma SpansOverrun(chunks: seq<Chunk>, spans: seq<Pair>)
    requires forall p :: p in spans <==> exists k :: 0 <= k < |chunks| && SpanOf(chunks[k]) == p
    ensures NoSpanOverruns(spans) <==> NoOverrun(chunks)
  {
    if NoSpanOverruns(spans) {
      forall k | 0 <= k < |chunks| ensures chunks[k].start + |chunks[k].buf| <= U32_MAX {
        assert SpanOf(chunks[k]) in spans;
      }
    }
    if NoOverrun(chunks) {
      forall i | 0 <= i < |spans| ensures spans[i].fst + spans[i].snd <= U32_MAX {
        assert spans[i] in spans;
        var k :| 0 <= k < |chunks| && SpanOf(chunks[k]) == spans[i];
      }
    }
  }

  /**
   The stored chunks tile a piece of any 32-bit length exactly when the coverage test succeeds
   and no chunk runs past the 32-bit range.
   */
  lemma TilesIff(chunks: seq<Chunk>, length: nat)
    requires DistinctStarts(chunks) && length <= U32_MAX
    ensures Tiles(chunks, length) <==> Covers(chunks, length) && NoOverrun(chunks)
  {
    var spans := Sort(Spans(chunks));
    SortedSpansAscend(chunks);
    WalkIsContiguous(spans, 0, length);
    SpansOverrun(chunks, spans);
    ContiguousIffTiles(spans, 0, length);
    TilesIffTilesFrom(chunks, spans, length);
  }

  /** Where the walk ends below the limit, nothing saturated on the way. */
  lemma {:induction false} WalkBelowLimit(spans: seq<Pair>, from: nat, length: nat)
    requires from <= U32_MAX && Walk(spans, from) == Some(length)
    ensures from <= length <= U32_MAX
    ensures length < U32_MAX ==> NoSpanOverruns(spans)
  {
    if spans != [] {
      WalkBelowLimit(spans[1..], SaturatingAdd(from, spans[0].snd), length);
      assert spans == [spans[0]] + spans[1..];
    }
  }

  /** A piece shorter than the largest 32-bit number needs no further condition. */
  lemma CoversIffTiles(chunks: seq<Chunk>, length: nat)
    requires DistinctStarts(chunks) && length < U32_MAX
    ensures Covers(chunks, length) <==> Tiles(chunks, length)
  {
    TilesIff(chunks, length);
    if Covers(chunks, length) {
      WalkBelowLimit(Sort(Spans(chunks)), 0, length);
      SortedSpansAscend(chunks);
      SpansOverrun(chunks, Sort(Spans(chunks)));
    }
  }

  // ---------------------------------------------------------------------------------------
  // The failing case: a piece of the largest length whose last block is a byte too long

  const LONG_BLOCK: nat := 65537
  const LONG_BLOCKS: nat := 65535

  /** Blocks of 65537 bytes that would fill the piece, the last one a byte longer. */
  ghost function Overlong(peer: Peer): (chunks: seq<Chunk>)
    ensures |chunks| == LONG_BLOCKS
  {
    seq(LONG_BLOCKS, i requires 0 <= i < LONG_BLOCKS =>
      Chunk(LONG_BLOCK * i, seq(if i == LONG_BLOCKS - 1 then LONG_BLOCK + 1 else LONG_BLOCK, _ => 0), peer))
  }

  lemma {:induction false} OverlongWalk(spans: seq<Pair>, i: nat)
    requires |spans| == LONG_BLOCKS && i <= LONG_BLOCKS
    requires forall k :: 0 <= k < |spans| ==>
               spans[k] == Pair(LONG_BLOCK * k, if k == LONG_BLOCKS - 1 then LONG_BLOCK + 1 else LONG_BLOCK)
    ensures Walk(spans[i..], if i == LONG_BLOCKS then U32_MAX else LONG_BLOCK * i) == Some(U32_MAX)
    decreases LONG_BLOCKS - i
  {
    if i < LONG_BLOCKS {
      OverlongWalk(spans, i + 1);
      assert spans[i..][1..] == spans[i + 1..];
    }
  }

  /** Every block is far below the largest frame, the test succeeds, and the piece is not tiled. */
  lemma OverlongIsCovered(peer: Peer)
    ensures var chunks := Overlong(peer);
            && DistinctStarts(chunks)
            && (forall k :: 0 <= k < |chunks| ==> |chunks[k].buf| <= LONG_BLOCK + 1)
            && Covers(chunks, U32_MAX) && !Tiles(chunks, U32_MAX)
  {
    var chunks := Overlong(peer);
    var spans := Spans(chunks);
    SortIsSorted(spans);
    SortedIsUnique(spans, Sort(spans));
    OverlongWalk(spans, 0);
    assert spans[0..] == spans;
    var last := chunks[LONG_BLOCKS - 1];
    assert last.start + |last.buf| > U32_MAX;
  }

  lemma TilesIffTilesFrom(chunks: seq<Chunk>, spans: seq<Pair>, length: nat)
    requires DistinctStarts(chunks)
    requires forall p :: p in spans <==> exists k :: 0 <= k < |chunks| && SpanOf(chunks[k]) == p
    ensures Tiles(chunks, length) <==> TilesFrom(spans, 0, length)
  {
    forall x: nat ensures Reached(chunks, x) <==> SpanReached(spans, x) {
      if Reached(chunks, x) {
        var k :| 0 <= k < |chunks| && InSpan(SpanOf(chunks[k]), x);
        assert SpanOf(chunks[k]) in spans;
      }
      if SpanReached(spans, x) {
        var p :| p in spans && InSpan(p, x);
        var k :| 0 <= k < |chunks| && SpanOf(chunks[k]) == p;
      }
    }
    if Tiles(chunks, length) {
      ChunkToSpan(chunks, spans, length);
    }
    if TilesFrom(spans, 0, length) {
      SpanToChunk(chunks, spans, length);
    }
  }

  lemma ChunkToSpan(chunks: seq<Chunk>, spans: seq<Pair>, length: nat)
    requires Tiles(chunks, length)
    requires forall p :: p in spans <==> exists k :: 0 <= k < |chunks| && SpanOf(chunks[k]) == p
    requires forall x: nat :: Reached(chunks, x) <==> SpanReached(spans, x)
    ensures TilesFrom(spans, 0, length)
  {
    forall p | p in spans ensures p.fst + p.snd <= length && (p.snd == 0 ==> p.fst == length) {
      var k :| 0 <= k < |chunks| && SpanOf(chunks[k]) == p;
    }
    forall x: nat, p, q | p in spans && q in spans && InSpan(p, x) && InSpan(q, x) ensures p == q {
      var i :| 0 <= i < |chunks| && SpanOf(chunks[i]) == p;
      var j :| 0 <= j < |chunks| && SpanOf(chunks[j]) == q;
      assert i == j;
    }
  }

  lemma SpanToChunk(chunks: seq<Chunk>, spans: seq<Pair>, length: nat)
    requires DistinctStarts(chunks) && TilesFrom(spans, 0, length)
    requires forall p :: p in spans <==> exists k :: 0 <= k < |chunks| && SpanOf(chunks[k]) == p
    requires forall x: nat :: Reached(chunks, x) <==> SpanReached(spans, x)
    ensures Tiles(chunks, length)
  {
    forall k | 0 <= k < |chunks| ensures SpanOf(chunks[k]) in spans {
    }
    forall x: nat, i, j | 0 <= i < |chunks| && 0 <= j < |chunks| && InSpan(SpanOf(chunks[i]), x) && InSpan(SpanOf(chunks[j]), x)
      ensures i == j
    {
      assert SpanOf(chunks[i]) == SpanOf(chunks[j]);
    }
  }

  // ---------------------------------------------------------------------------------------
  // The assembled bytes

  /** One write of `chunk_to_buf`: a chunk that reaches past the end is left out. */
  function Overlay(buf: seq<Byte>, c: Chunk): (r: seq<Byte>)
    ensures |r| == |buf|
  {
    var end := c.start + |c.buf|;
    if end <= |buf| then buf[..c.start] + c.buf + buf[end..] else buf
  }

  function Assembled(chunks: seq<Chunk>, length: nat): (r: seq<Byte>)
    ensures |r| == length
  {
    if chunks == [] then seq(length, _ => 0)
    else Overlay(Assembled(chunks[..|chunks| - 1], length), chunks[|chunks| - 1])
  }

  /** `chunk_to_buf`. */
  method ChunkToBuf(chunks: seq<Chunk>, length: nat) returns (bytes: seq<Byte>)
    ensures bytes == Assembled(chunks, length)
  {
    var buf := new Byte[length](_ => 0);
    assert buf[..] == Assembled(chunks[..0], length);
    for k := 0 to |chunks|
      invariant buf[..] == Assembled(chunks[..k], length)
    {
      assert chunks[..k + 1][..k] == chunks[..k];
      var start := chunks[k].start;
      var end := start + |chunks[k].buf|;
      if end <= buf.Length {
        CopyInto(buf, start, chunks[k].buf);
      }
    }
    assert chunks[..|chunks|] == chunks;
    bytes := buf[..];
  }

  method CopyInto(buf: array<Byte>, start: nat, src: seq<Byte>)
    requires start + |src| <= buf.Length
    modifies buf
    ensures buf[..] == old(buf[..start]) + src + old(buf[start + |src|..])
  {
    for i := 0 to |src|
      invariant buf[..start] == old(buf[..start])
      invariant buf[start..start + i] == src[..i]
      invariant buf[start + i..] == old(buf[start + i..])
    {
      buf[start + i] := src[i];
    }
  }

  /** Every byte of the assembled piece is the byte of the chunk that covers it. */
  lemma {:induction false} AssembledHolds(chunks: seq<Chunk>, length: nat, k: nat, x: nat)
    requires k < |chunks| && InSpan(SpanOf(chunks[k]), x)
    requires forall i :: 0 <= i < |chunks| ==> chunks[i].start + |chunks[i].buf| <= length
    requires forall i :: 0 <= i < |chunks| && InSpan(SpanOf(chunks[i]), x) ==> i == k
    ensures Assembled(chunks, length)[x] == chunks[k].buf[x - chunks[k].start]
    decreases |chunks|
  {
    var n := |chunks| - 1;
    if k < n {
      assert !InSpan(SpanOf(chunks[n]), x);
      AssembledHolds(chunks[..n], length, k, x);
    }
  }

  /** When the chunks tile the piece, the assembled bytes are theirs, each at its place. */
  lemma TiledPieceIsExact(chunks: seq<Chunk>, length: nat, k: nat)
    requires Tiles(chunks, length) && k < |chunks|
    ensures var c := chunks[k];
            c.start + |c.buf| <= length && Assembled(chunks, length)[c.start..c.start + |c.buf|] == c.buf
  {
    var c := chunks[k];
    forall i | 0 <= i < |c.buf| ensures Assembled(chunks, length)[c.start + i] == c.buf[i] {
      assert InSpan(SpanOf(c), c.start + i);
      AssembledHolds(chunks, length, k, c.start + i);
    }
  }

  /** Chunks cut from some bytes, when they tile the piece, put those bytes together again. */
  lemma AssembledIsData(chunks: seq<Chunk>, data: seq<Byte>)
    requires Tiles(chunks, |data|) && forall c :: c in chunks ==> IsCutFrom(c, data)
    ensures Assembled(chunks, |data|) == data
  {
    forall x: nat | x < |data| ensures Assembled(chunks, |data|)[x] == data[x] {
      assert Reached(chunks, x);
      var k :| 0 <= k < |chunks| && InSpan(SpanOf(chunks[k]), x);
      assert IsCutFrom(chunks[k], data);
      AssembledHolds(chunks, |data|, k, x);
    }
  }

  /** The chunk holds the bytes of `data` at its place. */
  ghost predicate IsCutFrom(c: Chunk, data: seq<Byte>) {
    c.start + |c.buf| <= |data| && c.buf == data[c.start..c.start + |c.buf|]
  }

  /** The order of arrival does not matter: the same chunks give the same piece. */
  lemma OrderDoesNotMatter(a: seq<Chunk>, b: seq<Chunk>, length: nat)
    requires Tiles(a, length) && Tiles(b, length) && forall c :: c in a <==> c in b
    ensures Assembled(a, length) == Assembled(b, length)
  {
    forall x: nat | x < length ensures Assembled(a, length)[x] == Assembled(b, length)[x] {
      assert Reached(a, x);
      var i :| 0 <= i < |a| && InSpan(SpanOf(a[i]), x);
      assert a[i] in b;
      var j :| 0 <= j < |b| && b[j] == a[i];
      AssembledHolds(a, length, i, x);
      AssembledHolds(b, length, j, x);
    }
  }

  // ---------------------------------------------------------------------------------------
  // The block grid

  /** A block of the 16 KiB grid with its grid length. */
  ghost predicate OnGrid(c: Chunk, length: nat) {
    c.start % BLOCK_SIZE == 0 && c.start < length && |c.buf| == BlockSize(length, c.start)
  }

  lemma GridBlockOf(c: Chunk, length: nat, x: nat)
    requires OnGrid(c, length) && x < length
    ensures InSpan(SpanOf(c), x) <==> c.start == x - x % BLOCK_SIZE
  {
    var q, r := c.start / BLOCK_SIZE, x / BLOCK_SIZE;
    assert c.start == BLOCK_SIZE * q && x == BLOCK_SIZE * r + x % BLOCK_SIZE;
  }

  /** Delivering every block of the grid, in any order and with repeats, completes the piece. */
  lemma GridDeliveriesComplete(deliveries: seq<Chunk>, length: nat)
    requires length <= U32_MAX
    requires forall c :: c in deliveries ==> OnGrid(c, length)
    requires forall g: nat :: g < length && g % BLOCK_SIZE == 0 ==> HasStart(deliveries, g)
    ensures Covers(Stored(deliveries), length) && Tiles(Stored(deliveries), length)
  {
    var chunks := Stored(deliveries);
    StoredIsFirstDelivery(deliveries);
    forall k | 0 <= k < |chunks| ensures OnGrid(chunks[k], length) {
      assert chunks[k] in deliveries;
    }
    forall x: nat | x < length ensures Reached(chunks, x) {
      var g := x - x % BLOCK_SIZE;
      assert g % BLOCK_SIZE == 0;
      assert HasStart(deliveries, g);
      var d :| 0 <= d < |deliveries| && deliveries[d].start == g;
      assert HasStart(chunks, deliveries[d].start);
      var k :| 0 <= k < |chunks| && chunks[k].start == g;
      GridBlockOf(chunks[k], length, x);
    }
    forall x: nat, i, j | 0 <= i < |chunks| && 0 <= j < |chunks| && InSpan(SpanOf(chunks[i]), x) && InSpan(SpanOf(chunks[j]), x)
      ensures i == j
    {
      assert x < length;
      GridBlockOf(chunks[i], length, x);
      GridBlockOf(chunks[j], length, x);
    }
    assert Tiles(chunks, length);
    TilesIff(chunks, length);
  }
}
