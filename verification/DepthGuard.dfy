/**
 The linear nesting guard (`check_bencode_depth`) and the proof that it bounds the
 recursion of the walker. Both scanners visit the same token boundaries with the same
 depth for as long as the walk goes on, so a buffer the guard accepts never makes the
 walker hold more than `MAX_BENCODE_DEPTH` containers open, even when the walk then fails.
 */
module DepthGuard {
  import opened Basics
  import opened Bencode

  /** The end of the run of digits at `i`. */
  function DigitsEnd(data: seq<Byte>, i: nat): (end: nat)
    requires i <= |data|
    ensures i <= end <= |data| && AllDigits(data[i..end])
    ensures end < |data| ==> !IsDigit(data[end])
    decreases |data| - i
  {
    if i == |data| || !IsDigit(data[i]) then i
    else
      var end := DigitsEnd(data, i + 1);
      assert data[i..end] == [data[i]] + data[i + 1..end];
      end
  }

  function LengthOrZero(text: seq<Byte>): nat {
    match ParseUsize(text)
    case Some(len) => len
    case None => 0
  }

  /** Where the guard looks next after the byte at `i`. */
  function TokenEnd(data: seq<Byte>, i: nat): (end: nat)
    requires i < |data|
    ensures i < end
  {
    if data[i] == LOWER_I then
      match Find(data, i + 1, LOWER_E)
      case Some(e) => e + 1
      case None => |data|
    else if IsDigit(data[i]) then
      assert DigitsEnd(data, i) > i;
      var stop := DigitsEnd(data, i);
      if stop < |data| && data[stop] == COLON then stop + 1 + LengthOrZero(data[i..stop]) else stop
    else i + 1
  }

  function DepthAfter(b: Byte, depth: nat): nat {
    if b == LOWER_D || b == LOWER_L then depth + 1
    else if b == LOWER_E && depth > 0 then depth - 1
    else depth
  }

  /** The guard's verdict on the rest of the buffer. */
  ghost predicate Accepts(data: seq<Byte>, i: nat, depth: nat)
    decreases |data| - i
  {
    i < |data| ==>
      var next := DepthAfter(data[i], depth);
      next <= MAX_BENCODE_DEPTH && Accepts(data, TokenEnd(data, i), next)
  }

  method PassInteger(data: seq<Byte>, start: nat) returns (i: nat)
    requires start < |data| && data[start] == LOWER_I
    ensures i == TokenEnd(data, start)
  {
    i := start + 1;
    while i < |data| && data[i] != LOWER_E
      invariant start < i <= |data|
      invariant Find(data, start + 1, LOWER_E) == Find(data, i, LOWER_E)
    {
      i := i + 1;
    }
    if i < |data| {
      i := i + 1;
    }
  }

  method PassString(data: seq<Byte>, start: nat) returns (i: nat)
    requires start < |data| && IsDigit(data[start])
    ensures i == TokenEnd(data, start)
  {
    i := start;
    while i < |data| && IsDigit(data[i])
      invariant start <= i <= |data|
      invariant DigitsEnd(data, start) == DigitsEnd(data, i)
    {
      i := i + 1;
    }
    if i < |data| && data[i] == COLON {
      i := i + 1 + LengthOrZero(data[start..i]);
    }
  }

  /** `check_bencode_depth`. */
  method CheckBencodeDepth(data: seq<Byte>) returns (r: Result<(), BencodeError>)
    ensures r == if Accepts(data, 0, 0) then Ok(()) else Err(TooDeep)
  {
    var i: nat, depth: nat := 0, 0;
    while i < |data|
      invariant depth <= MAX_BENCODE_DEPTH
      invariant Accepts(data, 0, 0) <==> Accepts(data, i, depth)
      decreases |data| - i
    {
      var b := data[i];
      if b == LOWER_D || b == LOWER_L {
        depth := depth + 1;
        if depth > MAX_BENCODE_DEPTH {
          return Err(TooDeep);
        }
        i := i + 1;
      } else if b == LOWER_E {
        depth := if depth > 0 then depth - 1 else 0;
        i := i + 1;
      } else if b == LOWER_I {
        i := PassInteger(data, i);
      } else if IsDigit(b) {
        i := PassString(data, i);
      } else {
        i := i + 1;
      }
    }
    return Ok(());
  }

  /**
   The verdict byte by byte: `d` and `l` open a container and must leave at most 32 open, `e` closes
   one if any is open, an integer is passed up to its `e` or to the end, and a byte that starts
   nothing is passed over.
   */
  lemma GuardSteps(data: seq<Byte>, i: nat, depth: nat)
    requires i < |data| && depth <= 32
    ensures data[i] == 100 || data[i] == 108 ==> (Accepts(data, i, depth) <==> depth < 32 && Accepts(data, i + 1, depth + 1))
    ensures data[i] == 101 ==> (Accepts(data, i, depth) <==> Accepts(data, i + 1, if depth == 0 then 0 else depth - 1))
    ensures data[i] == 105 ==>
              (Accepts(data, i, depth)
               <==> Accepts(data, if Find(data, i + 1, 101).Some? then Find(data, i + 1, 101).value + 1 else |data|, depth))
    ensures data[i] !in {100, 101, 105, 108} && !(48 <= data[i] <= 57) ==>
              (Accepts(data, i, depth) <==> Accepts(data, i + 1, depth))
  {
  }

  // ---------------------------------------------------------------------------------------
  // Synchronisation

  /** A run of digits that stops at a non-digit is the whole run. */
  lemma DigitsEndAt(data: seq<Byte>, i: nat, end: nat)
    requires i <= end < |data| && AllDigits(data[i..end]) && !IsDigit(data[end])
    ensures DigitsEnd(data, i) == end
    decreases end - i
  {
    if i < end {
      assert IsDigit(data[i..end][0]);
      assert data[i + 1..end] == data[i..end][1..];
      DigitsEndAt(data, i + 1, end);
    }
  }

  /** A string with a digit first is one token of the guard. */
  lemma StringToken(data: seq<Byte>, i: nat)
    requires i < |data| && IsDigit(data[i]) && ParseString(data, i).Ok?
    ensures TokenEnd(data, i) == ParseString(data, i).value.end
  {
    var colon := Find(data, i, COLON).value;
    assert data[i..colon][0] == data[i];
    DecimalDigits(data[i..colon]);
    DigitsEndAt(data, i, colon);
  }

  /**
   The guard and the walker agree on every value: the guard passes over it exactly when its
   nesting fits, and it then stands where the walker stands. When the walk fails the guard
   has still seen every container the walker opened.
   */
  lemma {:induction false} GuardFollowsSkip(data: seq<Byte>, i: nat, depth: nat)
    requires i < |data| && depth <= MAX_BENCODE_DEPTH
    ensures Accepts(data, i, depth) ==> depth + Peak(data, i) <= MAX_BENCODE_DEPTH
    ensures Skip(data, i).Ok? ==>
              (Accepts(data, i, depth)
               <==> depth + Peak(data, i) <= MAX_BENCODE_DEPTH && Accepts(data, Skip(data, i).value, depth))
    decreases |data| - i, 0
  {
    if data[i] == LOWER_L || data[i] == LOWER_D {
      if depth + 1 <= MAX_BENCODE_DEPTH {
        GuardFollowsItems(data, i + 1, depth + 1);
      }
    } else if IsDigit(data[i]) && ParseString(data, i).Ok? {
      StringToken(data, i);
    }
  }

  lemma {:induction false} GuardFollowsItems(data: seq<Byte>, j: nat, depth: nat)
    requires j <= |data| && 0 < depth <= MAX_BENCODE_DEPTH
    ensures Accepts(data, j, depth) ==> depth + PeakItems(data, j) <= MAX_BENCODE_DEPTH
    ensures SkipItems(data, j).Ok? ==>
              (Accepts(data, j, depth)
               <==> depth + PeakItems(data, j) <= MAX_BENCODE_DEPTH && Accepts(data, SkipItems(data, j).value, depth - 1))
    decreases |data| - j, 1
  {
    if j < |data| && data[j] != LOWER_E {
      GuardFollowsSkip(data, j, depth);
      if Skip(data, j).Ok? {
        GuardFollowsItems(data, Skip(data, j).value, depth);
      }
    }
  }

  /** A dictionary key, which may also start with `+`, leaves the guard's depth alone. */
  lemma GuardFollowsKey(data: seq<Byte>, i: nat, depth: nat)
    requires ParseString(data, i).Ok? && depth <= MAX_BENCODE_DEPTH
    ensures Accepts(data, i, depth) <==> Accepts(data, ParseString(data, i).value.end, depth)
  {
    var colon := Find(data, i, COLON).value;
    var text := data[i..colon];
    assert text[0] == data[i];
    if text[0] == PLUS {
      assert data[i + 1..colon] == text[1..];
      DecimalDigits(text[1..]);
      assert IsDigit(text[1..][0]) && ParseUsize(text[1..]) == ParseUsize(text);
      assert ParseString(data, i + 1) == ParseString(data, i);
      StringToken(data, i + 1);
    } else {
      DecimalDigits(text);
      assert IsDigit(text[0]);
      StringToken(data, i);
    }
  }

  /** The guard accepts a printed value exactly when its nesting is within the limit. */
  lemma GuardIsExact(v: Value)
    requires WellFormed(v)
    ensures Accepts(Encoding(v), 0, 0) <==> Depth(v) <= 32
  {
    var s := Encoding(v);
    assert HoldsAt(s, 0, s);
    SkipAcceptsEncoding(s, 0, v);
    PeakIsDepth(s, 0, v);
    GuardFollowsSkip(s, 0, 0);
  }
}
