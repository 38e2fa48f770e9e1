/**
 Percent-encoding (sections 2.1 and 2.3 of RFC 3986): `url_encode_bytes` of
 `crates/bit_rev/src/file.rs` and `percent_decode` of `crates/bit_rev/src/magnet.rs`. Texts are
 byte sequences, as both loops see them.
 */
module PercentCode {
  import opened Basics

  const PERCENT: Byte := 37

  /** The letters, the digits and `-._~`. */
  predicate Unreserved(b: Byte) {
    || 48 <= b <= 57 || 65 <= b <= 90 || 97 <= b <= 122
    || b == 45 || b == 46 || b == 95 || b == 126
  }

  /** The upper-case digit of a half byte. */
  function HexUpper(d: int): Byte
    requires 0 <= d < 16
  {
    if d < 10 then 48 + d else 55 + d
  }

  /** `from_hex_digit`. */
  function HexDigit(b: Byte): (d: Option<int>)
    ensures d.Some? ==> 0 <= d.value < 16
  {
    if 48 <= b <= 57 then Some(b - 48)
    else if 97 <= b <= 102 then Some(b - 87)
    else if 65 <= b <= 70 then Some(b - 55)
    else None
  }

  function EncodeByte(b: Byte): seq<Byte> {
    if Unreserved(b) then [b] else [PERCENT, HexUpper(b / 16), HexUpper(b % 16)]
  }

  function Encode(bytes: seq<Byte>): seq<Byte> {
    if bytes == [] then [] else EncodeByte(bytes[0]) + Encode(bytes[1..])
  }

  /** `url_encode_bytes`. */
  method UrlEncodeBytes(bytes: seq<Byte>) returns (out: seq<Byte>)
    ensures out == Encode(bytes)
  {
    out := [];
    for i := 0 to |bytes|
      invariant out + Encode(bytes[i..]) == Encode(bytes)
    {
      EncodeStep(out, bytes, i);
      if Unreserved(bytes[i]) {
        out := out + [bytes[i]];
      } else {
        var hi, lo := bytes[i] / 16, bytes[i] % 16;
        out := out + [PERCENT, HexUpper(hi), HexUpper(lo)];
      }
    }
  }

  lemma EncodeStep(out: seq<Byte>, bytes: seq<Byte>, i: nat)
    requires i < |bytes|
    ensures out + Encode(bytes[i..]) == (out + EncodeByte(bytes[i])) + Encode(bytes[i + 1..])
  {
    assert bytes[i..][1..] == bytes[i + 1..];
  }

  /** A percent sign and two hex digits stand for one byte; any other byte stands for itself. */
  predicate Escaped(text: seq<Byte>) {
    |text| > 2 && text[0] == PERCENT && HexDigit(text[1]).Some? && HexDigit(text[2]).Some?
  }

  function Decode(text: seq<Byte>): seq<Byte> {
    if text == [] then []
    else if Escaped(text) then [HexDigit(text[1]).value * 16 + HexDigit(text[2]).value] + Decode(text[3..])
    else [text[0]] + Decode(text[1..])
  }

  /** The loop of `percent_decode`. */
  method PercentDecode(text: seq<Byte>) returns (out: seq<Byte>)
    ensures out == Decode(text)
  {
    out := [];
    var i := 0;
    while i < |text|
      invariant 0 <= i <= |text|
      invariant out + Decode(text[i..]) == Decode(text)
      decreases |text| - i
    {
      DecodeStep(out, text, i);
      if text[i] == PERCENT && i + 2 < |text| && HexDigit(text[i + 1]).Some? && HexDigit(text[i + 2]).Some? {
        out := out + [HexDigit(text[i + 1]).value * 16 + HexDigit(text[i + 2]).value];
        i := i + 3;
      } else {
        out := out + [text[i]];
        i := i + 1;
      }
    }
  }

  lemma DecodeStep(out: seq<Byte>, text: seq<Byte>, i: nat)
    requires i < |text|
    ensures out + Decode(text[i..])
            == if Escaped(text[i..]) then (out + [HexDigit(text[i + 1]).value * 16 + HexDigit(text[i + 2]).value]) + Decode(text[i + 3..])
               else (out + [text[i]]) + Decode(text[i + 1..])
  {
    if Escaped(text[i..]) {
      assert text[i..][3..] == text[i + 3..];
    } else {
      assert text[i..][1..] == text[i + 1..];
    }
  }

  lemma HexUpperIsHex(d: int)
    requires 0 <= d < 16
    ensures HexDigit(HexUpper(d)) == Some(d)
  {
  }

  /** Decoding undoes encoding, whatever follows. */
  lemma {:induction false} DecodeEncode(bytes: seq<Byte>)
    ensures Decode(Encode(bytes)) == bytes
  {
    if bytes != [] {
      var b, rest := bytes[0], Encode(bytes[1..]);
      var text := EncodeByte(b) + rest;
      DecodeEncode(bytes[1..]);
      if Unreserved(b) {
        assert text[1..] == rest;
      } else {
        HexUpperIsHex(b / 16);
        HexUpperIsHex(b % 16);
        assert text[3..] == rest;
      }
      assert bytes == [b] + bytes[1..];
    }
  }

  /** Encoded text holds only unreserved bytes and percent signs. */
  lemma {:induction false} EncodedIsSafe(bytes: seq<Byte>)
    ensures forall b :: b in Encode(bytes) ==> Unreserved(b) || b == PERCENT
  {
    if bytes != [] {
      EncodedIsSafe(bytes[1..]);
    }
  }

  /** Text without a percent sign decodes to itself. */
  lemma {:induction false} DecodePlain(text: seq<Byte>)
    requires PERCENT !in text
    ensures Decode(text) == text
  {
    if text != [] {
      DecodePlain(text[1..]);
      assert text == [text[0]] + text[1..];
    }
  }
}
