/**
 The piece bitfield of `crates/bit_rev/src/bitfield.rs`: bit 7 of byte 0 is piece 0. Reading
 or setting a piece past the last byte is harmless.
 */
module Bitfield {
  predicate Bit(b: bv8, offset: nat)
    requires offset < 8
  {
    (b >> (7 - offset)) & 1 != 0
  }

  function SetBit(b: bv8, offset: nat): bv8
    requires offset < 8
  {
    b | (1 << (7 - offset))
  }

  /** The bit of one piece inside its byte. */
  function Mask(offset: nat): bv8
    requires offset < 8
  {
    if offset == 0 then 0x80
    else if offset == 1 then 0x40
    else if offset == 2 then 0x20
    else if offset == 3 then 0x10
    else if offset == 4 then 0x08
    else if offset == 5 then 0x04
    else if offset == 6 then 0x02
    else 0x01
  }

  lemma BitIsMask(b: bv8, offset: nat)
    requires offset < 8
    ensures Bit(b, offset) <==> b & Mask(offset) != 0
  {
    if offset == 0 {
      assert (b >> 7) & 1 != 0 <==> b & 0x80 != 0;
    } else if offset == 1 {
      assert (b >> 6) & 1 != 0 <==> b & 0x40 != 0;
    } else if offset == 2 {
      assert (b >> 5) & 1 != 0 <==> b & 0x20 != 0;
    } else if offset == 3 {
      assert (b >> 4) & 1 != 0 <==> b & 0x10 != 0;
    } else if offset == 4 {
      assert (b >> 3) & 1 != 0 <==> b & 0x08 != 0;
    } else if offset == 5 {
      assert (b >> 2) & 1 != 0 <==> b & 0x04 != 0;
    } else if offset == 6 {
      assert (b >> 1) & 1 != 0 <==> b & 0x02 != 0;
    }
  }

  lemma SetBitIsMask(b: bv8, offset: nat)
    requires offset < 8
    ensures SetBit(b, offset) == b | Mask(offset)
  {
    var one: bv8 := 1;
    assert one << 7 == 0x80 && one << 6 == 0x40 && one << 5 == 0x20 && one << 4 == 0x10;
    assert one << 3 == 0x08 && one << 2 == 0x04 && one << 1 == 0x02 && one << 0 == 0x01;
    assert one << (7 - offset) == Mask(offset);
  }

  lemma MasksDiffer(i: nat, j: nat)
    requires i < 8 && j < 8
    ensures Mask(i) & Mask(j) == if i == j then Mask(i) else 0
    ensures Mask(i) != 0
  {
  }

  lemma OrThenAnd(b: bv8, m: bv8, n: bv8)
    ensures m & n == 0 ==> (b | m) & n == b & n
    ensures n != 0 && m == n ==> (b | m) & n != 0
  {
  }

  /** Setting a bit changes that bit and no other. */
  lemma BitAfterSet(b: bv8, i: nat, j: nat)
    requires i < 8 && j < 8
    ensures Bit(SetBit(b, i), j) <==> i == j || Bit(b, j)
  {
    SetBitIsMask(b, i);
    BitIsMask(SetBit(b, i), j);
    BitIsMask(b, j);
    MasksDiffer(i, j);
    OrThenAnd(b, Mask(i), Mask(j));
  }

  lemma SomeBitIsSet(b: bv8)
    ensures b == 0 <==> forall i :: 0 <= i < 8 ==> !Bit(b, i)
  {
    forall i | 0 <= i < 8 ensures Bit(b, i) <==> b & Mask(i) != 0 {
      BitIsMask(b, i);
    }
    if b != 0 {
      assert b & 0x80 != 0 || b & 0x40 != 0 || b & 0x20 != 0 || b & 0x10 != 0
             || b & 0x08 != 0 || b & 0x04 != 0 || b & 0x02 != 0 || b & 0x01 != 0;
      assert Mask(0) == 0x80 && Mask(1) == 0x40 && Mask(2) == 0x20 && Mask(3) == 0x10;
      assert Mask(4) == 0x08 && Mask(5) == 0x04 && Mask(6) == 0x02 && Mask(7) == 0x01;
    }
  }

  // ---------------------------------------------------------------------------------------
  // Whole bitfields

  predicate Has(bytes: seq<bv8>, index: nat) {
    index / 8 < |bytes| && Bit(bytes[index / 8], index % 8)
  }

  function Set(bytes: seq<bv8>, index: nat): seq<bv8> {
    if index / 8 >= |bytes| then bytes else bytes[index / 8 := SetBit(bytes[index / 8], index % 8)]
  }

  /** The bitfield has a bit for the piece. */
  predicate Covers(bytes: seq<bv8>, index: nat) {
    index / 8 < |bytes|
  }

  function Zeros(count: nat): (bytes: seq<bv8>) {
    seq((count + 7) / 8, _ => 0)
  }

  /** On the wire: pieces 0 to 7 are the bits of the first byte, from the highest to the lowest, and so on. */
  lemma HasIsWireBit(bytes: seq<bv8>, index: nat)
    ensures Has(bytes, index)
            <==> index < 8 * |bytes| && bytes[index / 8] & [0x80, 0x40, 0x20, 0x10, 0x08, 0x04, 0x02, 0x01][index % 8] != 0
  {
    if index < 8 * |bytes| {
      BitIsMask(bytes[index / 8], index % 8);
      assert Mask(index % 8) == [0x80, 0x40, 0x20, 0x10, 0x08, 0x04, 0x02, 0x01][index % 8];
    }
  }

  /** Setting a piece changes that piece and no other; past the end it does nothing. */
  lemma HasAfterSet(bytes: seq<bv8>, i: nat, j: nat)
    ensures Has(Set(bytes, i), j) <==> Has(bytes, j) || (i == j && Covers(bytes, i))
    ensures |Set(bytes, i)| == |bytes|
  {
    if Covers(bytes, i) && i / 8 == j / 8 {
      BitAfterSet(bytes[i / 8], i % 8, j % 8);
    }
  }

  lemma ZerosHaveNothing(count: nat, j: nat)
    ensures !Has(Zeros(count), j)
    ensures j < count ==> Covers(Zeros(count), j)
  {
    if j / 8 < |Zeros(count)| {
      SomeBitIsSet(0);
    }
  }

  function FilledTo(count: nat, n: nat): seq<bv8> {
    if n == 0 then Zeros(count) else Set(FilledTo(count, n - 1), n - 1)
  }

  /** `filled`. */
  function Filled(count: nat): seq<bv8> {
    FilledTo(count, count)
  }

  lemma {:induction false} FilledToLength(count: nat, n: nat)
    ensures |FilledTo(count, n)| == |Zeros(count)|
  {
    if n > 0 {
      FilledToLength(count, n - 1);
    }
  }

  lemma {:induction false} FilledToHas(count: nat, n: nat, j: nat)
    requires n <= count
    ensures Has(FilledTo(count, n), j) <==> j < n
  {
    if n == 0 {
      ZerosHaveNothing(count, j);
    } else {
      var k, bytes := n - 1, FilledTo(count, n - 1);
      FilledToHas(count, k, j);
      FilledToLength(count, k);
      RoomForAll(count, k);
      SetMore(bytes, k, j);
    }
  }

  lemma RoomForAll(count: nat, k: nat)
    requires k < count
    ensures k < 8 * |Zeros(count)|
  {
  }

  /** Setting the piece after the first `k`. */
  lemma SetMore(bytes: seq<bv8>, k: nat, j: nat)
    requires k < 8 * |bytes| && (Has(bytes, j) <==> j < k)
    ensures Has(Set(bytes, k), j) <==> j < k + 1
  {
    HasAfterSet(bytes, k, j);
  }

  /** Exactly the first `count` pieces are set. */
  lemma FilledHas(count: nat, j: nat)
    ensures Has(Filled(count), j) <==> j < count
  {
    FilledToHas(count, count, j);
  }

  /** Both bitfields of a torrent take the fewest bytes that hold a bit for every piece. */
  lemma LeastBytes(count: nat)
    ensures |Filled(count)| == |Zeros(count)| && count <= 8 * |Zeros(count)| < count + 8
  {
    FilledToLength(count, count);
  }

  class Buffer {
    var bytes: seq<bv8>

    /** `with_piece_count`. */
    constructor WithPieceCount(count: nat)
      ensures bytes == Zeros(count)
    {
      bytes := Zeros(count);
    }

    constructor FilledWith(count: nat)
      ensures bytes == Filled(count)
    {
      bytes := Zeros(count);
      new;
      for i := 0 to count
        invariant bytes == FilledTo(count, i)
      {
        SetPiece(i);
      }
    }

    method SetPiece(index: nat)
      modifies this
      ensures bytes == Set(old(bytes), index)
    {
      var byteIndex, offset := index / 8, index % 8;
      if byteIndex >= |bytes| {
        return;
      }
      bytes := bytes[byteIndex := bytes[byteIndex] | (1 << (7 - offset))];
    }

    /** `is_empty`: no piece at all. */
    method IsEmpty() returns (empty: bool)
      ensures empty <==> forall j: nat :: !Has(bytes, j)
    {
      for i := 0 to |bytes|
        invariant forall k :: 0 <= k < i ==> bytes[k] == 0
      {
        if bytes[i] != 0 {
          SomeBitIsSet(bytes[i]);
          ghost var o :| 0 <= o < 8 && Bit(bytes[i], o);
          assert Has(bytes, 8 * i + o);
          return false;
        }
      }
      SomeBitIsSet(0);
      return true;
    }
  }
}
