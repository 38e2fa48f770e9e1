/**
 The two spellings of an info hash in a magnet link, 40 hexadecimal or 32 base-32 digits
 (section 6 of RFC 4648): `hex_info_hash`, `decode_hex` and `decode_base32` of
 `crates/bit_rev/src/magnet.rs`. Both are specified by the number that is written.
 */
module HashText {
  import opened Basics
  import opened PercentCode

  const HASH_BYTES: nat := 20

  datatype MagnetError = MissingXt | V2NotSupported | BadHashLength(got: nat) | BadHex | BadBase32 | InvalidUri

  // ---------------------------------------------------------------------------------------
  // Numbers and digits, most significant digit first

  function Number256(digits: seq<int>): int {
    if digits == [] then 0 else Number256(digits[..|digits| - 1]) * 256 + digits[|digits| - 1]
  }

  function Number16(digits: seq<int>): int {
    if digits == [] then 0 else Number16(digits[..|digits| - 1]) * 16 + digits[|digits| - 1]
  }

  function Number32(digits: seq<int>): int {
    if digits == [] then 0 else Number32(digits[..|digits| - 1]) * 32 + digits[|digits| - 1]
  }

  /** The lowest `count` bytes of a number. */
  function BytesOf(n: int, count: nat): (bytes: seq<Byte>)
    ensures |bytes| == count
    decreases count
  {
    if count == 0 then [] else BytesOf(n / 256, count - 1) + [n % 256]
  }

  /** The lowest `count` base-32 digits of a number. */
  function Digits32(n: int, count: nat): (digits: seq<int>)
    ensures |digits| == count && forall d :: d in digits ==> 0 <= d < 32
    decreases count
  {
    if count == 0 then [] else Digits32(n / 32, count - 1) + [n % 32]
  }

  lemma TakeLastByte(n: int, b: Byte)
    ensures (n * 256 + b) / 256 == n && (n * 256 + b) % 256 == b
  {
  }

  lemma {:induction false} BytesOfNumber(bytes: seq<Byte>)
    ensures BytesOf(Number256(bytes), |bytes|) == bytes
  {
    if bytes != [] {
      BytesOfNumber(bytes[..|bytes| - 1]);
      TakeLastByte(Number256(bytes[..|bytes| - 1]), bytes[|bytes| - 1]);
      assert bytes == bytes[..|bytes| - 1] + [bytes[|bytes| - 1]];
    }
  }

  function Pow256(k: nat): int {
    if k == 0 then 1 else 256 * Pow256(k - 1)
  }

  function Pow32(k: nat): int {
    if k == 0 then 1 else 32 * Pow32(k - 1)
  }

  /** Eight base-32 digits say as much as five bytes. */
  lemma {:induction false} FiveBytesAreEightDigits(k: nat)
    ensures Pow32(8 * k) == Pow256(5 * k)
  {
    if k > 0 {
      FiveBytesAreEightDigits(k - 1);
      var j := 8 * (k - 1);
      assert 8 * k == j + 8 && 5 * k == 5 * (k - 1) + 5;
      EightDigits(j);
      FiveBytes(5 * (k - 1));
    }
  }

  lemma EightDigits(j: nat)
    ensures Pow32(j + 8) == 0x100_0000_0000 * Pow32(j)
  {
    assert Pow32(j + 2) == 1024 * Pow32(j);
    assert Pow32(j + 4) == 1024 * Pow32(j + 2);
    assert Pow32(j + 6) == 1024 * Pow32(j + 4);
    assert Pow32(j + 8) == 1024 * Pow32(j + 6);
  }

  lemma FiveBytes(j: nat)
    ensures Pow256(j + 5) == 0x100_0000_0000 * Pow256(j)
  {
    assert Pow256(j + 2) == 65536 * Pow256(j);
    assert Pow256(j + 4) == 65536 * Pow256(j + 2);
  }

  lemma {:induction false} NumberIsBounded(bytes: seq<Byte>)
    ensures 0 <= Number256(bytes) < Pow256(|bytes|)
  {
    if bytes != [] {
      NumberIsBounded(bytes[..|bytes| - 1]);
    }
  }

  lemma {:induction false} NumberOfDigits32(n: int, count: nat)
    requires 0 <= n < Pow32(count)
    ensures Number32(Digits32(n, count)) == n
  {
    if count > 0 {
      NumberOfDigits32(n / 32, count - 1);
      var digits := Digits32(n, count);
      assert digits[..|digits| - 1] == Digits32(n / 32, count - 1);
    }
  }

  // ---------------------------------------------------------------------------------------
  // Hexadecimal

  function HexLower(d: int): Byte
    requires 0 <= d < 16
  {
    if d < 10 then 48 + d else 87 + d
  }

  lemma HexLowerIsHex(d: int)
    requires 0 <= d < 16
    ensures HexDigit(HexLower(d)) == Some(d)
  {
  }

  /** `hex_info_hash`. */
  function HexOf(hash: seq<Byte>): (text: seq<Byte>)
    ensures |text| == 2 * |hash|
  {
    if hash == [] then []
    else
      HexOf(hash[..|hash| - 1]) + [HexLower(hash[|hash| - 1] / 16), HexLower(hash[|hash| - 1] % 16)]
  }

  /** The digits, if every byte is one. */
  function HexDigits(text: seq<Byte>): (digits: Option<seq<int>>)
    ensures digits.Some? ==> |digits.value| == |text|
  {
    if text == [] then Some([])
    else
      var front := HexDigits(text[..|text| - 1]);
      var last := HexDigit(text[|text| - 1]);
      if front.Some? && last.Some? then Some(front.value + [last.value]) else None
  }

  function DecodedHex(text: seq<Byte>): Result<seq<Byte>, MagnetError> {
    if |text| != 40 then Err(BadHashLength(|text|))
    else
      match HexDigits(text)
      case None => Err(BadHex)
      case Some(digits) => Ok(BytesOf(Number16(digits), HASH_BYTES))
  }

  /** A text is a number only if each of its prefixes is. */
  lemma {:induction false} HexDigitsOfPrefix(text: seq<Byte>, k: nat)
    requires k <= |text| && HexDigits(text).Some?
    ensures HexDigits(text[..k]).Some?
  {
    if k < |text| {
      assert text[..|text| - 1][..k] == text[..k];
      HexDigitsOfPrefix(text[..|text| - 1], k);
    } else {
      assert text[..k] == text;
    }
  }

  lemma HexPair(text: seq<Byte>, i: nat)
    requires 2 * i + 2 <= |text|
    ensures var p := HexDigits(text[..2 * i]);
            var hi, lo := HexDigit(text[2 * i]), HexDigit(text[2 * i + 1]);
            HexDigits(text[..2 * i + 2])
            == if p.Some? && hi.Some? && lo.Some? then Some(p.value + [hi.value, lo.value]) else None
  {
    var a, b := text[..2 * i + 1], text[..2 * i + 2];
    assert a[..|a| - 1] == text[..2 * i] && b[..|b| - 1] == a;
    var p := HexDigits(text[..2 * i]);
    var hi, lo := HexDigit(text[2 * i]), HexDigit(text[2 * i + 1]);
    if p.Some? && hi.Some? && lo.Some? {
      assert p.value + [hi.value] + [lo.value] == p.value + [hi.value, lo.value];
    }
  }

  lemma NumberOfPair(digits: seq<int>, hi: int, lo: int)
    ensures Number16(digits + [hi, lo]) == Number16(digits) * 256 + (hi * 16 + lo)
  {
    var d := digits + [hi, lo];
    assert d[..|d| - 1] == digits + [hi];
    assert (digits + [hi])[..|digits|] == digits;
  }

  /** `decode_hex`. */
  method DecodeHex(text: seq<Byte>) returns (r: Result<seq<Byte>, MagnetError>)
    ensures r == DecodedHex(text)
  {
    if |text| != 40 {
      return Err(BadHashLength(|text|));
    }
    var out: seq<Byte> := [];
    for i := 0 to HASH_BYTES
      invariant |out| == i
      invariant HexDigits(text[..2 * i]).Some? && Number16(HexDigits(text[..2 * i]).value) == Number256(out)
    {
      HexPair(text, i);
      var hi, lo := HexDigit(text[2 * i]), HexDigit(text[2 * i + 1]);
      if hi.None? || lo.None? {
        if HexDigits(text).Some? {
          HexDigitsOfPrefix(text, 2 * i + 2);
        }
        return Err(BadHex);
      }
      NumberOfPair(HexDigits(text[..2 * i]).value, hi.value, lo.value);
      NumberOfOneMore(out, hi.value * 16 + lo.value);
      out := out + [hi.value * 16 + lo.value];
    }
    assert text[..40] == text;
    BytesOfNumber(out);
    return Ok(out);
  }

  lemma {:induction false} HexOfIsNumber(hash: seq<Byte>)
    ensures HexDigits(HexOf(hash)).Some? && Number16(HexDigits(HexOf(hash)).value) == Number256(hash)
  {
    if hash != [] {
      var front, last := hash[..|hash| - 1], hash[|hash| - 1];
      HexOfIsNumber(front);
      var text, hi, lo := HexOf(hash), last / 16, last % 16;
      assert text[..2 * |front|] == HexOf(front) && text[..2 * |front| + 2] == text;
      assert text[2 * |front|] == HexLower(hi) && text[2 * |front| + 1] == HexLower(lo);
      HexLowerIsHex(hi);
      HexLowerIsHex(lo);
      HexPair(text, |front|);
      NumberOfPair(HexDigits(HexOf(front)).value, hi, lo);
    }
  }

  /** Reading undoes printing. */
  lemma HexRoundTrip(hash: seq<Byte>)
    requires |hash| == HASH_BYTES
    ensures DecodedHex(HexOf(hash)) == Ok(hash)
  {
    HexOfIsNumber(hash);
    BytesOfNumber(hash);
  }

  // ---------------------------------------------------------------------------------------
  // Base 32

  /** The value of a digit, in either case. */
  function Base32Digit(b: Byte): (d: Option<int>)
    ensures d.Some? ==> 0 <= d.value < 32
  {
    if 65 <= b <= 90 then Some(b - 65)
    else if 97 <= b <= 122 then Some(b - 97)
    else if 50 <= b <= 55 then Some(b - 24)
    else None
  }

  /** The digit of RFC 4648. */
  function Base32Char(d: int): Byte
    requires 0 <= d < 32
  {
    if d < 26 then 65 + d else 24 + d
  }

  function Base32Digits(text: seq<Byte>): (digits: Option<seq<int>>)
    ensures digits.Some? ==> |digits.value| == |text|
  {
    if text == [] then Some([])
    else
      var front := Base32Digits(text[..|text| - 1]);
      var last := Base32Digit(text[|text| - 1]);
      if front.Some? && last.Some? then Some(front.value + [last.value]) else None
  }

  function DecodedBase32(text: seq<Byte>): Result<seq<Byte>, MagnetError> {
    if |text| != 32 then Err(BadHashLength(|text|))
    else
      match Base32Digits(text)
      case None => Err(BadBase32)
      case Some(digits) => Ok(BytesOf(Number32(digits), HASH_BYTES))
  }

  lemma {:induction false} Base32DigitsOfPrefix(text: seq<Byte>, k: nat)
    requires k <= |text| && Base32Digits(text).Some?
    ensures Base32Digits(text[..k]).Some?
  {
    if k < |text| {
      assert text[..|text| - 1][..k] == text[..k];
      Base32DigitsOfPrefix(text[..|text| - 1], k);
    } else {
      assert text[..k] == text;
    }
  }

  lemma Base32Next(text: seq<Byte>, k: nat)
    requires k < |text|
    ensures var p, d := Base32Digits(text[..k]), Base32Digit(text[k]);
            && Base32Digits(text[..k + 1]) == (if p.Some? && d.Some? then Some(p.value + [d.value]) else None)
            && (p.Some? && d.Some? ==> Number32(p.value + [d.value]) == Number32(p.value) * 32 + d.value)
  {
    assert text[..k + 1][..k] == text[..k];
    var p, d := Base32Digits(text[..k]), Base32Digit(text[k]);
    if p.Some? && d.Some? {
      assert (p.value + [d.value])[..k] == p.value;
    }
  }

  /** Powers of two for the bits that are left over. */
  function Pow2(bits: int): int
    requires 0 <= bits < 13
  {
    if bits == 0 then 1 else if bits == 1 then 2 else if bits == 2 then 4 else if bits == 3 then 8
    else if bits == 4 then 16 else if bits == 5 then 32 else if bits == 6 then 64 else if bits == 7 then 128
    else if bits == 8 then 256 else if bits == 9 then 512 else if bits == 10 then 1024 else if bits == 11 then 2048
    else 4096
  }

  /** `n` is the bytes so far followed by `acc` in `bits` bits. */
  predicate Split(n: int, high: int, acc: int, bits: int)
    requires 0 <= bits < 13
  {
    0 <= acc < Pow2(bits) && n == high * Pow2(bits) + acc
  }

  lemma SplitAppend(n: int, high: int, acc: int, bits: int, d: int)
    requires 0 <= bits < 8 && 0 <= d < 32 && Split(n, high, acc, bits)
    ensures Split(n * 32 + d, high, acc * 32 + d, bits + 5)
  {
  }

  lemma SplitByte(n: int, high: int, acc: int, bits: int)
    requires 8 <= bits < 13 && Split(n, high, acc, bits)
    ensures 0 <= acc / Pow2(bits - 8) < 256
    ensures Split(n, high * 256 + acc / Pow2(bits - 8), acc % Pow2(bits - 8), bits - 8)
  {
    if bits == 8 {
    } else if bits == 9 {
    } else if bits == 10 {
    } else if bits == 11 {
    } else {
    }
  }

  /** One digit more: the accumulator gives out a byte as soon as it holds eight bits. */
  method TakeDigit(acc: nat, bits: nat, digit: nat, ghost n: int, ghost high: int)
    returns (byte: Option<Byte>, rest: nat, left: nat)
    requires bits < 8 && digit < 32 && Split(n, high, acc, bits)
    ensures left < 8 && left == if byte.Some? then bits + 5 - 8 else bits + 5
    ensures Split(n * 32 + digit, if byte.Some? then high * 256 + byte.value else high, rest, left)
  {
    SplitAppend(n, high, acc, bits, digit);
    rest, left := acc * 32 + digit, bits + 5;
    assert rest < 4096;
    byte := None;
    if left >= 8 {
      SplitByte(n * 32 + digit, high, rest, left);
      left := left - 8;
      byte := Some(rest / Pow2(left));
      rest := rest % Pow2(left);
    }
  }

  lemma NumberOfOneMore(bytes: seq<Byte>, b: Byte)
    ensures Number256(bytes + [b]) == Number256(bytes) * 256 + b
  {
    assert (bytes + [b])[..|bytes|] == bytes;
  }

  /**
   `decode_base32`. The accumulator stays below 2^12, the byte taken from it fits, and the exits
   for too many or too few bytes are never taken: they appear here as assertions.
   */
  method DecodeBase32(text: seq<Byte>) returns (r: Result<seq<Byte>, MagnetError>)
    ensures r == DecodedBase32(text)
  {
    if |text| != 32 {
      return Err(BadHashLength(|text|));
    }
    var acc, bits := 0, 0;
    var out: seq<Byte> := [];
    ghost var n, high := 0, 0;
    for k := 0 to 32
      invariant 0 <= acc && 0 <= bits < 8 && 5 * k == 8 * |out| + bits
      invariant Base32Digits(text[..k]).Some? && n == Number32(Base32Digits(text[..k]).value)
      invariant high == Number256(out) && Split(n, high, acc, bits)
    {
      Base32Next(text, k);
      var val := Base32Digit(text[k]);
      if val.None? {
        BadDigit(text, k);
        return Err(BadBase32);
      }
      var byte: Option<Byte>, rest: nat, left: nat := TakeDigit(acc, bits, val.value, n, high);
      acc, bits := rest, left;
      n := n * 32 + val.value;
      if byte.Some? {
        assert |out| < HASH_BYTES;
        NumberOfOneMore(out, byte.value);
        out := out + [byte.value];
        high := high * 256 + byte.value;
      }
    }
    assert |out| == HASH_BYTES;
    assert text[..32] == text;
    SplitDone(n, high, acc);
    AllDigitsRead(text, out);
    return Ok(out);
  }

  lemma BadDigit(text: seq<Byte>, k: nat)
    requires |text| == 32 && k < 32 && Base32Digits(text[..k + 1]).None?
    ensures DecodedBase32(text) == Err(BadBase32)
  {
    if Base32Digits(text).Some? {
      Base32DigitsOfPrefix(text, k + 1);
    }
  }

  lemma SplitDone(n: int, high: int, acc: int)
    requires Split(n, high, acc, 0)
    ensures n == high
  {
  }

  lemma AllDigitsRead(text: seq<Byte>, out: seq<Byte>)
    requires |text| == 32 && |out| == HASH_BYTES && Base32Digits(text).Some?
    requires Number32(Base32Digits(text).value) == Number256(out)
    ensures DecodedBase32(text) == Ok(out)
  {
    BytesOfNumber(out);
  }

  /** The base-32 spelling of a hash. */
  function Base32Of(hash: seq<Byte>): (text: seq<Byte>)
    ensures |text| == 32
  {
    var digits := Digits32(Number256(hash), 32);
    seq(32, k requires 0 <= k < 32 => assert digits[k] in digits; Base32Char(digits[k]))
  }

  /** A text whose bytes are the given digits. */
  lemma {:induction false} DigitsOfText(text: seq<Byte>, digits: seq<int>)
    requires |text| == |digits| && forall k :: 0 <= k < |text| ==> Base32Digit(text[k]) == Some(digits[k])
    ensures Base32Digits(text) == Some(digits)
  {
    if text != [] {
      DigitsOfText(text[..|text| - 1], digits[..|digits| - 1]);
      assert digits == digits[..|digits| - 1] + [digits[|digits| - 1]];
    }
  }

  /** Any text that spells the digits of a hash, in either case, is read as that hash. */
  lemma Base32RoundTrip(hash: seq<Byte>, text: seq<Byte>)
    requires |hash| == HASH_BYTES && |text| == 32
    requires forall k :: 0 <= k < 32 ==> Base32Digit(text[k]) == Base32Digit(Base32Of(hash)[k])
    ensures DecodedBase32(text) == Ok(hash)
  {
    var digits := Digits32(Number256(hash), 32);
    forall k | 0 <= k < 32 ensures Base32Digit(text[k]) == Some(digits[k]) {
      assert digits[k] in digits;
    }
    DigitsOfText(text, digits);
    NumberIsBounded(hash);
    FiveBytesAreEightDigits(4);
    NumberOfDigits32(Number256(hash), 32);
    BytesOfNumber(hash);
  }
}
