/**
 Finding the raw `info` dictionary of a torrent file (`info_dict_range`, `raw_info_dict`)
 and writing a torrent file around given `info` bytes (`encode_torrent_preserving_info`).
 The serializer is outside the model: its output is any byte sequence or a failure.
 */
module InfoDict {
  import opened Basics
  import opened Bencode
  import opened DepthGuard

  /** The entries of the top-level dictionary from `i` on: where the value of `info` lies. */
  function FindInfo(data: seq<Byte>, i: nat): (r: Result<Range, BencodeError>)
    ensures r.Ok? ==> i < r.value.start < r.value.end <= |data|
    decreases |data| - i
  {
    if i >= |data| || data[i] == LOWER_E then Err(MissingInfo)
    else
      match ParseString(data, i)
      case Err(e) => Err(e)
      case Ok(StringAt(key, afterKey)) =>
        match Skip(data, afterKey)
        case Err(e) => Err(e)
        case Ok(valueEnd) => if key == INFO_KEY then Ok(Range(afterKey, valueEnd)) else FindInfo(data, valueEnd)
  }

  function InfoRange(data: seq<Byte>): (r: Result<Range, BencodeError>)
    ensures r.Ok? ==> 0 < r.value.start < r.value.end <= |data|
  {
    if data == [] || data[0] != LOWER_D then Err(NotADict) else FindInfo(data, 1)
  }

  /** Containers open at once while the entries from `i` on are searched. */
  ghost function EntriesPeak(data: seq<Byte>, i: nat): nat
    decreases |data| - i
  {
    if i >= |data| || data[i] == LOWER_E then 0
    else
      match ParseString(data, i)
      case Err(_) => 0
      case Ok(StringAt(key, afterKey)) =>
        var here := Peak(data, afterKey);
        match Skip(data, afterKey)
        case Err(_) => here
        case Ok(valueEnd) => if key == INFO_KEY then here else Max(here, EntriesPeak(data, valueEnd))
  }

  /** Containers open at once during the whole search, the top-level dictionary included. */
  ghost function InfoPeak(data: seq<Byte>): nat {
    if data == [] || data[0] != LOWER_D then 0 else 1 + EntriesPeak(data, 1)
  }

  /** `info_dict_range`. The ghost result counts the containers that were open at once. */
  method InfoDictRange(data: seq<Byte>) returns (r: Result<Range, BencodeError>, ghost peak: nat)
    ensures r == InfoRange(data)
    ensures peak == InfoPeak(data)
    ensures Accepts(data, 0, 0) ==> peak <= MAX_BENCODE_DEPTH
  {
    GuardBoundsSearch(data);
    if data == [] || data[0] != LOWER_D {
      return Err(NotADict), 0;
    }
    var i := 1;
    peak := 0;
    while i < |data| && data[i] != LOWER_E
      invariant 1 <= i <= |data|
      invariant FindInfo(data, 1) == FindInfo(data, i)
      invariant EntriesPeak(data, 1) == Max(peak, EntriesPeak(data, i))
      decreases |data| - i
    {
      var p := ParseString(data, i);
      if p.Err? {
        return Err(p.error), 1 + peak;
      }
      var StringAt(key, afterKey) := p.value;
      var valueEnd, inner := SkipBencode(data, afterKey);
      peak := Max(peak, inner);
      if valueEnd.Err? {
        return Err(valueEnd.error), 1 + peak;
      }
      if key == INFO_KEY {
        return Ok(Range(afterKey, valueEnd.value)), 1 + peak;
      }
      i := valueEnd.value;
    }
    return Err(MissingInfo), 1 + peak;
  }

  lemma {:induction false} GuardBoundsEntries(data: seq<Byte>, i: nat, depth: nat)
    requires depth <= MAX_BENCODE_DEPTH && Accepts(data, i, depth)
    ensures depth + EntriesPeak(data, i) <= MAX_BENCODE_DEPTH
    decreases |data| - i
  {
    if i < |data| && data[i] != LOWER_E && ParseString(data, i).Ok? {
      GuardFollowsKey(data, i, depth);
      var StringAt(key, afterKey) := ParseString(data, i).value;
      if afterKey < |data| {
        GuardFollowsSkip(data, afterKey, depth);
        if Skip(data, afterKey).Ok? && key != INFO_KEY {
          GuardBoundsEntries(data, Skip(data, afterKey).value, depth);
        }
      }
    }
  }

  /**
   On every buffer the guard accepts, the search for `info` never holds more than
   `MAX_BENCODE_DEPTH` containers open, whether the search succeeds or fails.
   */
  lemma GuardBoundsSearch(data: seq<Byte>)
    ensures Accepts(data, 0, 0) ==> InfoPeak(data) <= MAX_BENCODE_DEPTH
  {
    if Accepts(data, 0, 0) && data != [] && data[0] == LOWER_D {
      GuardBoundsEntries(data, 1, 1);
    }
  }

  // ---------------------------------------------------------------------------------------
  // The splice

  function RawInfoDict(data: seq<Byte>): Result<seq<Byte>, BencodeError> {
    match InfoRange(data)
    case Err(e) => Err(e)
    case Ok(Range(start, end)) => Ok(data[start..end])
  }

  function WrapInfoDict(info: seq<Byte>): seq<Byte> {
    WRAP_HEADER + info + [LOWER_E]
  }

  /** `encode_torrent_preserving_info`, given what the serializer returned. */
  function EncodePreservingInfo(serialized: Option<seq<Byte>>, info: seq<Byte>): seq<Byte> {
    match serialized
    case None => WrapInfoDict(info)
    case Some(encoded) =>
      match InfoRange(encoded)
      case Err(_) => WrapInfoDict(info)
      case Ok(Range(start, end)) =>
        if encoded[start..end] == info then encoded
        else encoded[..start] + info + encoded[end..]
  }

  /** `info` is one complete bencode value. */
  predicate IsOneValue(info: seq<Byte>) {
    Skip(info, 0) == Ok(|info|)
  }

  /** The value found is a value on its own. */
  lemma {:induction false} FoundIsOneValue(data: seq<Byte>, i: nat)
    requires FindInfo(data, i).Ok?
    ensures IsOneValue(data[FindInfo(data, i).value.start..FindInfo(data, i).value.end])
    decreases |data| - i
  {
    var StringAt(key, afterKey) := ParseString(data, i).value;
    var valueEnd := Skip(data, afterKey).value;
    if key == INFO_KEY {
      SkipIsLocal(data, afterKey, data[afterKey..valueEnd], 0);
    } else {
      FoundIsOneValue(data, valueEnd);
    }
  }

  /**
   A buffer that agrees with `data` up to the found value, and holds another complete value
   there, is searched in the same way.
   */
  lemma {:induction false} SearchSurvivesSplice(data: seq<Byte>, i: nat, start: nat, end: nat,
                                                out: seq<Byte>, info: seq<Byte>)
    requires FindInfo(data, i) == Ok(Range(start, end)) && IsOneValue(info)
    requires HoldsAt(out, 0, data[..start]) && HoldsAt(out, start, info)
    ensures FindInfo(out, i) == Ok(Range(start, start + |info|))
    decreases |data| - i
  {
    var StringAt(key, afterKey) := ParseString(data, i).value;
    var valueEnd := Skip(data, afterKey).value;
    SearchStep(data, i, key, afterKey, valueEnd);
    KeySurvives(data, out, start, i);
    if key == INFO_KEY {
      SplicedValue(out, start, info);
      SearchStep(out, i, key, afterKey, start + |info|);
    } else {
      ValueSurvives(data, out, start, afterKey);
      SearchSurvivesSplice(data, valueEnd, start, end, out, info);
      SearchStep(out, i, key, afterKey, valueEnd);
    }
  }

  lemma KeySurvives(data: seq<Byte>, out: seq<Byte>, start: nat, i: nat)
    requires start <= |data| && HoldsAt(out, 0, data[..start])
    requires ParseString(data, i).Ok? && ParseString(data, i).value.end <= start
    ensures ParseString(out, i) == ParseString(data, i) && out[i] == data[i]
  {
    Agree(data, out, start, i, ParseString(data, i).value.end);
    ParseStringIsLocal(data, i, out);
  }

  lemma ValueSurvives(data: seq<Byte>, out: seq<Byte>, start: nat, i: nat)
    requires start <= |data| && HoldsAt(out, 0, data[..start])
    requires Skip(data, i).Ok? && Skip(data, i).value <= start
    ensures Skip(out, i) == Skip(data, i)
  {
    Agree(data, out, start, i, Skip(data, i).value);
    SkipIsLocal(data, i, out, i);
  }

  lemma SplicedValue(out: seq<Byte>, start: nat, info: seq<Byte>)
    requires IsOneValue(info) && HoldsAt(out, start, info)
    ensures Skip(out, start) == Ok(start + |info|)
  {
    assert info[0..|info|] == info;
    SkipIsLocal(info, 0, out, start);
  }

  lemma SearchStep(data: seq<Byte>, i: nat, key: seq<Byte>, afterKey: nat, valueEnd: nat)
    requires i < |data| && data[i] != LOWER_E
    requires ParseString(data, i) == Ok(StringAt(key, afterKey)) && Skip(data, afterKey) == Ok(valueEnd)
    ensures FindInfo(data, i) == if key == INFO_KEY then Ok(Range(afterKey, valueEnd)) else FindInfo(data, valueEnd)
  {
  }

  lemma Agree(data: seq<Byte>, out: seq<Byte>, start: nat, from: nat, to: nat)
    requires from < to <= start <= |data| && HoldsAt(out, 0, data[..start])
    ensures HoldsAt(out, from, data[from..to]) && out[from] == data[from]
  {
    forall k | from <= k < to ensures out[k] == data[k] {
      assert data[..start][k] == data[k];
    }
  }

  lemma WrappedInfoIsFound(info: seq<Byte>)
    requires IsOneValue(info)
    ensures RawInfoDict(WrapInfoDict(info)) == Ok(info)
  {
    var out := WrapInfoDict(info);
    var four: seq<Byte> := [52];
    assert ParseUsize(four) == Some(4) by {
      assert four[..0] == [];
      assert Decimal(four) == Some(4);
    }
    assert four + [COLON] + INFO_KEY == [52, 58, 105, 110, 102, 111] == out[1..7];
    ParseStringHere(out, 1, four, INFO_KEY);
    assert out[7..7 + |info|] == info;
    SplicedValue(out, 7, info);
  }

  /**
   Whatever the serializer did, the file written around `info` reads back as exactly those
   bytes if and only if they are one complete bencode value.
   */
  lemma InfoBytesPreserved(serialized: Option<seq<Byte>>, info: seq<Byte>)
    ensures RawInfoDict(EncodePreservingInfo(serialized, info)) == Ok(info) <==> IsOneValue(info)
  {
    var out := EncodePreservingInfo(serialized, info);
    if RawInfoDict(out) == Ok(info) {
      FoundIsOneValue(out, 1);
    }
    if IsOneValue(info) {
      if serialized.None? || InfoRange(serialized.value).Err? {
        WrappedInfoIsFound(info);
      } else {
        var Range(start, end) := InfoRange(serialized.value).value;
        if serialized.value[start..end] != info {
          SearchSurvivesSplice(serialized.value, 1, start, end, out, info);
        }
      }
    }
  }

  /**
   The rest of the file: where the serialized file has an `info` value, everything before it and
   everything behind it stays and only the value is replaced; otherwise the file is the literal
   header `d4:info`, the value and the closing `e`.
   */
  lemma RestIsKept(serialized: Option<seq<Byte>>, info: seq<Byte>)
    ensures var out := EncodePreservingInfo(serialized, info);
            if serialized.Some? && InfoRange(serialized.value).Ok? then
              var encoded, r := serialized.value, InfoRange(serialized.value).value;
              && |out| == |encoded| - (r.end - r.start) + |info|
              && out[..r.start] == encoded[..r.start]
              && out[r.start..r.start + |info|] == info
              && out[r.start + |info|..] == encoded[r.end..]
            else out == [100, 52, 58, 105, 110, 102, 111] + info + [101]
  {
  }

  /** Anything that does not start with `d` is no dictionary. */
  lemma NotADictIff(data: seq<Byte>)
    ensures InfoRange(data) == Err(NotADict) <==> data == [] || data[0] != 100
  {
    if data != [] && data[0] == 100 {
      SearchIsNotADict(data, 1);
    }
  }

  lemma {:induction false} SearchIsNotADict(data: seq<Byte>, i: nat)
    ensures FindInfo(data, i) != Err(NotADict)
    decreases |data| - i
  {
    if i < |data| && data[i] != LOWER_E && ParseString(data, i).Ok? {
      var afterKey := ParseString(data, i).value.end;
      SkipErrors(data, afterKey);
      if Skip(data, afterKey).Ok? {
        SearchIsNotADict(data, Skip(data, afterKey).value);
      }
    }
  }
}
