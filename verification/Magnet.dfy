/**
 Magnet links (BEP-0009): `Magnet::parse` and the `Display` printer of
 `crates/bit_rev/src/magnet.rs`. Texts are byte sequences. What the platform does with UTF-8 and
 with socket addresses is described in `SocketText`.
 */
module Magnet {
  import opened Basics
  import opened PercentCode
  import opened HashText
  import opened SocketText

  const EQUALS: Byte := 61
  const QUESTION: Byte := 63

  const MAGNET: Text := [109, 97, 103, 110, 101, 116, 58] // magnet:
  const SLASHES: Text := [47, 47] // //
  const URN_BTIH: Text := [117, 114, 110, 58, 98, 116, 105, 104, 58] // urn:btih:
  const URN_BTMH: Text := [117, 114, 110, 58, 98, 116, 109, 104, 58] // urn:btmh:
  const XT: Text := [120, 116] // xt
  const DN: Text := [100, 110] // dn
  const TR: Text := [116, 114] // tr
  const XPE: Text := [120, 46, 112, 101] // x.pe
  const WS: Text := [119, 115] // ws

  datatype Magnet = Magnet(hash: seq<Byte>, name: Option<Text>, trackers: seq<Text>, peers: seq<Addr>, webseeds: seq<Text>)

  // ---------------------------------------------------------------------------------------
  // Splitting

  /** `split`. */
  function SplitAll(s: Text, sep: Byte): seq<Text>
    decreases |s|
  {
    var i := IndexOf(s, sep);
    if i == |s| then [s] else [s[..i]] + SplitAll(s[i + 1..], sep)
  }

  /** Parameters as the printer writes them, each after an ampersand. */
  function Appended(pairs: seq<Text>): Text {
    if pairs == [] then [] else [AMPERSAND] + pairs[0] + Appended(pairs[1..])
  }

  lemma {:induction false} AppendedConcat(a: seq<Text>, b: seq<Text>)
    ensures Appended(a + b) == Appended(a) + Appended(b)
  {
    if a == [] {
      assert a + b == b;
    } else {
      AppendedConcat(a[1..], b);
      assert (a + b)[1..] == a[1..] + b;
    }
  }

  lemma AppendedOne(pair: Text)
    ensures Appended([pair]) == [AMPERSAND] + pair
  {
    assert Appended([pair][1..]) == [];
  }

  /** Splitting undoes joining. */
  lemma {:induction false} SplitJoined(first: Text, pairs: seq<Text>)
    requires AMPERSAND !in first && forall p :: p in pairs ==> AMPERSAND !in p
    ensures SplitAll(first + Appended(pairs), AMPERSAND) == [first] + pairs
    decreases |pairs|
  {
    if pairs == [] {
      assert first + Appended(pairs) == first;
      IndexPlain(first, AMPERSAND);
    } else {
      var rest := pairs[0] + Appended(pairs[1..]);
      var s := first + Appended(pairs);
      assert s == first + [AMPERSAND] + rest;
      IndexAfter(first, AMPERSAND, rest);
      assert s[..|first|] == first && s[|first| + 1..] == rest;
      SplitJoined(pairs[0], pairs[1..]);
      assert pairs == [pairs[0]] + pairs[1..];
    }
  }

  // ---------------------------------------------------------------------------------------
  // Parsing

  function LowerByte(b: Byte): Byte {
    if 65 <= b <= 90 then b + 32 else b
  }

  function Lower(s: Text): (r: Text)
    ensures |r| == |s|
  {
    seq(|s|, i requires 0 <= i < |s| => LowerByte(s[i]))
  }

  /** `parse_xt`. */
  function ParsedXt(value: Text): Result<seq<Byte>, MagnetError> {
    var lower := Lower(value);
    if URN_BTMH <= lower then Err(V2NotSupported)
    else if !(URN_BTIH <= lower) then Err(MissingXt)
    else
      var hash := lower[|URN_BTIH|..];
      if |hash| == 40 then DecodedHex(hash)
      else if |hash| == 32 then DecodedBase32(hash)
      else Err(BadHashLength(|hash|))
  }

  method ParseXt(value: Text) returns (r: Result<seq<Byte>, MagnetError>)
    ensures r == ParsedXt(value)
  {
    var lower := Lower(value);
    if URN_BTMH <= lower {
      return Err(V2NotSupported);
    }
    if !(URN_BTIH <= lower) {
      return Err(MissingXt);
    }
    var hash := lower[|URN_BTIH|..];
    if |hash| == 40 {
      r := DecodeHex(hash);
    } else if |hash| == 32 {
      r := DecodeBase32(hash);
    } else {
      r := Err(BadHashLength(|hash|));
    }
  }

  /** What has been read so far. */
  datatype Fields = Fields(
    hash: Option<seq<Byte>>, sawV2: bool, name: Option<Text>, trackers: seq<Text>, peers: seq<Addr>, webseeds: seq<Text>)

  const START: Fields := Fields(None, false, None, [], [], [])

  function KeyOf(p: Platform, pair: Text): Text {
    Lower(p.utf8(Decode(pair[..IndexOf(pair, EQUALS)])))
  }

  function ValueOf(p: Platform, pair: Text): Text {
    var i := IndexOf(pair, EQUALS);
    p.utf8(Decode(if i == |pair| then [] else pair[i + 1..]))
  }

  /** One parameter. */
  function Take(p: Platform, f: Fields, key: Text, value: Text): Result<Fields, MagnetError> {
    if key == XT then
      match ParsedXt(value)
      case Ok(h) => Ok(if f.hash.None? then f.(hash := Some(h)) else f)
      case Err(V2NotSupported) => Ok(f.(sawV2 := true))
      case Err(e) => Err(e)
    else if key == DN then Ok(if f.name.None? && value != [] then f.(name := Some(value)) else f)
    else if key == TR then Ok(if value != [] then f.(trackers := f.trackers + [value]) else f)
    else if key == XPE then
      match p.read(value)
      case Some(a) => Ok(f.(peers := f.peers + [a]))
      case None => Ok(f)
    else if key == WS then Ok(if value != [] then f.(webseeds := f.webseeds + [value]) else f)
    else Ok(f)
  }

  /** One piece of the query; empty ones are skipped. */
  function TakePair(p: Platform, f: Fields, pair: Text): Result<Fields, MagnetError> {
    if pair == [] then Ok(f) else Take(p, f, KeyOf(p, pair), ValueOf(p, pair))
  }

  function TakeAll(p: Platform, f: Fields, pairs: seq<Text>): Result<Fields, MagnetError>
    decreases |pairs|
  {
    if pairs == [] then Ok(f)
    else
      match TakePair(p, f, pairs[0])
      case Ok(g) => TakeAll(p, g, pairs[1..])
      case Err(e) => Err(e)
  }

  /** Goes on after a result, unless it is an error. */
  function TakeMore(p: Platform, r: Result<Fields, MagnetError>, pairs: seq<Text>): Result<Fields, MagnetError> {
    if r.Ok? then TakeAll(p, r.value, pairs) else r
  }

  /** The part of the link that holds the parameters. */
  function Query(input: Text): Option<Text> {
    if !(MAGNET <= input) then None
    else
      var rest := input[|MAGNET|..];
      var body := if SLASHES <= rest then rest[|SLASHES|..] else rest;
      var i := IndexOf(body, QUESTION);
      Some(if i == |body| then body else body[i + 1..])
  }

  function Finished(f: Fields): Result<Magnet, MagnetError> {
    match f.hash
    case Some(h) => Ok(Magnet(h, f.name, f.trackers, f.peers, f.webseeds))
    case None => Err(if f.sawV2 then V2NotSupported else MissingXt)
  }

  function Parsed(p: Platform, input: Text): Result<Magnet, MagnetError> {
    match Query(input)
    case None => Err(InvalidUri)
    case Some(query) =>
      if query == [] then Err(MissingXt)
      else
        match TakeAll(p, START, SplitAll(query, AMPERSAND))
        case Err(e) => Err(e)
        case Ok(f) => Finished(f)
  }

  /** The body of the loop of `Magnet::parse`. */
  method ReadPair(p: Platform, f: Fields, pair: Text) returns (r: Result<Fields, MagnetError>)
    ensures r == TakePair(p, f, pair)
  {
    if pair == [] {
      return Ok(f);
    }
    var at := IndexOf(pair, EQUALS);
    var key := PercentDecode(pair[..at]);
    var value := PercentDecode(if at == |pair| then [] else pair[at + 1..]);
    key, value := Lower(p.utf8(key)), p.utf8(value);
    r := Ok(f);
    if key == XT {
      var xt := ParseXt(value);
      if xt.Ok? {
        if f.hash.None? {
          r := Ok(f.(hash := Some(xt.value)));
        }
      } else if xt.error == V2NotSupported {
        r := Ok(f.(sawV2 := true));
      } else {
        r := Err(xt.error);
      }
    } else if key == DN {
      if f.name.None? && value != [] {
        r := Ok(f.(name := Some(value)));
      }
    } else if key == TR {
      if value != [] {
        r := Ok(f.(trackers := f.trackers + [value]));
      }
    } else if key == XPE {
      var addr := p.read(value);
      if addr.Some? {
        r := Ok(f.(peers := f.peers + [addr.value]));
      }
    } else if key == WS {
      if value != [] {
        r := Ok(f.(webseeds := f.webseeds + [value]));
      }
    }
  }

  /** `Magnet::parse`. */
  method Parse(p: Platform, input: Text) returns (r: Result<Magnet, MagnetError>)
    ensures r == Parsed(p, input)
  {
    var found := Query(input);
    if found.None? {
      return Err(InvalidUri);
    }
    if found.value == [] {
      return Err(MissingXt);
    }
    var f := START;
    var pairs := SplitAll(found.value, AMPERSAND);
    for i := 0 to |pairs|
      invariant TakeAll(p, f, pairs[i..]) == TakeAll(p, START, pairs)
    {
      assert pairs[i..][1..] == pairs[i + 1..];
      var taken := ReadPair(p, f, pairs[i]);
      if taken.Err? {
        return Err(taken.error);
      }
      f := taken.value;
    }
    r := Finished(f);
  }

  // ---------------------------------------------------------------------------------------
  // Printing

  function Pair(key: Text, value: Text): Text {
    key + [EQUALS] + value
  }

  function EncodedPairs(key: Text, values: seq<Text>): (pairs: seq<Text>)
    ensures |pairs| == |values|
  {
    seq(|values|, i requires 0 <= i < |values| => Pair(key, Encode(values[i])))
  }

  function PeerPairs(p: Platform, peers: seq<Addr>): (pairs: seq<Text>)
    ensures |pairs| == |peers|
  {
    seq(|peers|, i requires 0 <= i < |peers| => Pair(XPE, Show(p, peers[i])))
  }

  function NameList(m: Magnet): seq<Text> {
    if m.name.Some? then [m.name.value] else []
  }

  function XtPair(m: Magnet): Text {
    Pair(XT, URN_BTIH + HexOf(m.hash))
  }

  function OtherPairs(p: Platform, m: Magnet): seq<Text> {
    EncodedPairs(DN, NameList(m)) + (EncodedPairs(TR, m.trackers) + (PeerPairs(p, m.peers) + EncodedPairs(WS, m.webseeds)))
  }

  function Printed(p: Platform, m: Magnet): Text {
    MAGNET + [QUESTION] + (XtPair(m) + Appended(OtherPairs(p, m)))
  }

  lemma AppendedStep(out: Text, key: Text, values: seq<Text>, i: nat)
    requires i < |values|
    ensures out + Appended(EncodedPairs(key, values[..i + 1]))
            == out + Appended(EncodedPairs(key, values[..i])) + [AMPERSAND] + key + [EQUALS] + Encode(values[i])
  {
    var done, next := EncodedPairs(key, values[..i]), Pair(key, Encode(values[i]));
    assert EncodedPairs(key, values[..i + 1]) == done + [next];
    AppendedConcat(done, [next]);
    AppendedOne(next);
    Regroup(out, Appended(done), [AMPERSAND], key, [EQUALS], Encode(values[i]));
    NextInParts(key, Encode(values[i]));
  }

  lemma NextInParts(key: Text, value: Text)
    ensures [AMPERSAND] + Pair(key, value) == [AMPERSAND] + (key + ([EQUALS] + value))
  {
  }

  /** One of the loops of the printer. */
  method AppendValues(out: Text, key: Text, values: seq<Text>) returns (r: Text)
    ensures r == out + Appended(EncodedPairs(key, values))
  {
    r := out;
    for i := 0 to |values|
      invariant r == out + Appended(EncodedPairs(key, values[..i]))
    {
      var encoded := UrlEncodeBytes(values[i]);
      AppendedStep(out, key, values, i);
      r := r + [AMPERSAND] + key + [EQUALS] + encoded;
    }
    assert values[..|values|] == values;
  }

  lemma AppendNext(out: Text, done: seq<Text>, pair: Text)
    ensures out + Appended(done + [pair]) == out + Appended(done) + [AMPERSAND] + pair
  {
    AppendedConcat(done, [pair]);
    AppendedOne(pair);
    assert out + (Appended(done) + ([AMPERSAND] + pair)) == out + Appended(done) + [AMPERSAND] + pair;
  }

  lemma PeerPairsStep(p: Platform, peers: seq<Addr>, i: nat)
    requires i < |peers|
    ensures PeerPairs(p, peers[..i + 1]) == PeerPairs(p, peers[..i]) + [Pair(XPE, Show(p, peers[i]))]
  {
  }

  method AppendPeers(p: Platform, out: Text, peers: seq<Addr>) returns (r: Text)
    ensures r == out + Appended(PeerPairs(p, peers))
  {
    r := out;
    for i := 0 to |peers|
      invariant r == out + Appended(PeerPairs(p, peers[..i]))
    {
      var pair := Pair(XPE, Show(p, peers[i]));
      PeerPairsStep(p, peers, i);
      AppendNext(out, PeerPairs(p, peers[..i]), pair);
      r := r + [AMPERSAND] + pair;
    }
    assert peers[..|peers|] == peers;
  }

  /** `Display`. */
  method Print(p: Platform, m: Magnet) returns (out: Text)
    ensures out == Printed(p, m)
  {
    out := MAGNET + [QUESTION] + XT + [EQUALS] + URN_BTIH + HexOf(m.hash);
    out := AppendValues(out, DN, NameList(m));
    out := AppendValues(out, TR, m.trackers);
    out := AppendPeers(p, out, m.peers);
    out := AppendValues(out, WS, m.webseeds);
    PrintedInParts(p, m);
  }

  lemma Regroup(head: Text, xt: Text, a: Text, b: Text, c: Text, d: Text)
    ensures head + (xt + (a + (b + (c + d)))) == head + xt + a + b + c + d
  {
  }

  lemma HeadInParts(prefix: Text, key: Text, urn: Text, hex: Text)
    ensures prefix + (key + [EQUALS] + (urn + hex)) == prefix + key + [EQUALS] + urn + hex
  {
  }

  lemma PrintedInParts(p: Platform, m: Magnet)
    ensures Printed(p, m)
            == MAGNET + [QUESTION] + XT + [EQUALS] + URN_BTIH + HexOf(m.hash)
               + Appended(EncodedPairs(DN, NameList(m))) + Appended(EncodedPairs(TR, m.trackers))
               + Appended(PeerPairs(p, m.peers)) + Appended(EncodedPairs(WS, m.webseeds))
  {
    var dn, tr := EncodedPairs(DN, NameList(m)), EncodedPairs(TR, m.trackers);
    var pe, ws := PeerPairs(p, m.peers), EncodedPairs(WS, m.webseeds);
    AppendedConcat(dn, tr + (pe + ws));
    AppendedConcat(tr, pe + ws);
    AppendedConcat(pe, ws);
    Regroup(MAGNET + [QUESTION], XtPair(m), Appended(dn), Appended(tr), Appended(pe), Appended(ws));
    HeadInParts(MAGNET + [QUESTION], XT, URN_BTIH, HexOf(m.hash));
  }

  // ---------------------------------------------------------------------------------------
  // Parsing undoes printing

  /** A name made of lower-case letters and dots, as all five parameter names are. */
  predicate PlainKey(key: Text) {
    key != [] && forall b :: b in key ==> 97 <= b <= 122 || b == 46
  }

  lemma LowerKeeps(s: Text)
    requires forall b :: b in s ==> !(65 <= b <= 90)
    ensures Lower(s) == s
  {
    forall i | 0 <= i < |s| ensures Lower(s)[i] == s[i] {
      assert s[i] in s;
    }
  }

  lemma PairReads(p: Platform, key: Text, raw: Text)
    requires KeepsAscii(p) && PlainKey(key)
    ensures var pair := Pair(key, raw);
            pair != [] && KeyOf(p, pair) == key && ValueOf(p, pair) == p.utf8(Decode(raw))
  {
    var pair := Pair(key, raw);
    IndexAfter(key, EQUALS, raw);
    assert pair[..|key|] == key && pair[|key| + 1..] == raw;
    DecodePlain(key);
    LowerKeeps(key);
  }

  lemma {:induction false} HexOfIsPlain(hash: seq<Byte>)
    ensures forall b :: b in HexOf(hash) ==> 48 <= b <= 57 || 97 <= b <= 102
  {
    if hash != [] {
      HexOfIsPlain(hash[..|hash| - 1]);
    }
  }

  lemma XtReads(p: Platform, m: Magnet, f: Fields)
    requires KeepsAscii(p) && |m.hash| == HASH_BYTES && f.hash.None?
    ensures TakePair(p, f, XtPair(m)) == Ok(f.(hash := Some(m.hash)))
  {
    var raw := URN_BTIH + HexOf(m.hash);
    PairReads(p, XT, raw);
    SpellingIsPlain(m.hash);
    DecodePlain(raw);
    HexReads(m.hash, raw);
  }

  lemma SpellingIsPlain(hash: seq<Byte>)
    ensures forall b :: b in URN_BTIH + HexOf(hash) ==> b < 128 && b != PERCENT && b != AMPERSAND
  {
    HexOfIsPlain(hash);
  }

  lemma {:induction false} TakeConcat(p: Platform, f: Fields, a: seq<Text>, b: seq<Text>)
    ensures TakeAll(p, f, a + b)
            == TakeMore(p, TakeAll(p, f, a), b)
    decreases |a|
  {
    if a == [] {
      assert a + b == b;
    } else {
      assert (a + b)[1..] == a[1..] + b;
      if TakePair(p, f, a[0]).Ok? {
        TakeConcat(p, TakePair(p, f, a[0]).value, a[1..], b);
      }
    }
  }

  /** The texts that are not empty. */
  function NonEmpty(values: seq<Text>): seq<Text> {
    if values == [] then []
    else if values[0] == [] then NonEmpty(values[1..])
    else [values[0]] + NonEmpty(values[1..])
  }

  lemma NonEmptyStep(before: seq<Text>, values: seq<Text>)
    requires values != []
    ensures before + NonEmpty(values)
            == (if values[0] == [] then before else before + [values[0]]) + NonEmpty(values[1..])
  {
    if values[0] != [] {
      var v, rest := values[0], NonEmpty(values[1..]);
      assert before + ([v] + rest) == (before + [v]) + rest;
    }
  }

  /** Strings are valid UTF-8. */
  ghost predicate AllStrings(p: Platform, values: seq<Text>) {
    forall i :: 0 <= i < |values| ==> p.utf8(values[i]) == values[i]
  }

  lemma ValueReads(p: Platform, key: Text, value: Text)
    requires KeepsAscii(p) && PlainKey(key) && p.utf8(value) == value
    ensures var pair := Pair(key, Encode(value)); pair != [] && KeyOf(p, pair) == key && ValueOf(p, pair) == value
  {
    PairReads(p, key, Encode(value));
    DecodeEncode(value);
  }

  /** What a tracker, a web seed or a peer adds. */
  function WithTracker(f: Fields, value: Text): Fields {
    if value == [] then f else f.(trackers := f.trackers + [value])
  }

  function WithWebseed(f: Fields, value: Text): Fields {
    if value == [] then f else f.(webseeds := f.webseeds + [value])
  }

  lemma TrackerReads(p: Platform, f: Fields, value: Text)
    requires KeepsAscii(p) && p.utf8(value) == value
    ensures TakePair(p, f, Pair(TR, Encode(value))) == Ok(WithTracker(f, value))
  {
    ValueReads(p, TR, value);
  }

  lemma WebseedReads(p: Platform, f: Fields, value: Text)
    requires KeepsAscii(p) && p.utf8(value) == value
    ensures TakePair(p, f, Pair(WS, Encode(value))) == Ok(WithWebseed(f, value))
  {
    ValueReads(p, WS, value);
    TakeWebseed(p, f, value);
  }

  lemma TakeWebseed(p: Platform, f: Fields, value: Text)
    ensures Take(p, f, WS, value) == Ok(WithWebseed(f, value))
  {
    assert WS[0] != XT[0] && WS[0] != DN[0] && WS[0] != TR[0] && WS[0] != XPE[0];
  }

  function WithPeer(f: Fields, a: Option<Addr>): Fields {
    if a.None? then f else f.(peers := f.peers + [a.value])
  }

  lemma PeerReads(p: Platform, f: Fields, a: Addr)
    requires KeepsAscii(p)
    ensures TakePair(p, f, Pair(XPE, Show(p, a))) == Ok(WithPeer(f, Reread(p, a)))
  {
    PairReads(p, XPE, Show(p, a));
  }

  lemma {:induction false} TrackersAdd(p: Platform, f: Fields, pairs: seq<Text>, values: seq<Text>)
    requires |pairs| == |values|
    requires forall i, g :: 0 <= i < |pairs| ==> TakePair(p, g, pairs[i]) == Ok(WithTracker(g, values[i]))
    ensures TakeAll(p, f, pairs) == Ok(f.(trackers := f.trackers + NonEmpty(values)))
    decreases |values|
  {
    if values == [] {
      assert f.trackers + NonEmpty(values) == f.trackers;
    } else {
      var g := WithTracker(f, values[0]);
      TrackersAdd(p, g, pairs[1..], values[1..]);
      NonEmptyStep(f.trackers, values);
    }
  }

  lemma {:induction false} WebseedsAdd(p: Platform, f: Fields, pairs: seq<Text>, values: seq<Text>)
    requires |pairs| == |values|
    requires forall i, g :: 0 <= i < |pairs| ==> TakePair(p, g, pairs[i]) == Ok(WithWebseed(g, values[i]))
    ensures TakeAll(p, f, pairs) == Ok(f.(webseeds := f.webseeds + NonEmpty(values)))
    decreases |values|
  {
    if values == [] {
      assert f.webseeds + NonEmpty(values) == f.webseeds;
    } else {
      var g := WithWebseed(f, values[0]);
      WebseedsAdd(p, g, pairs[1..], values[1..]);
      NonEmptyStep(f.webseeds, values);
    }
  }

  lemma TrackersRead(p: Platform, f: Fields, values: seq<Text>)
    requires KeepsAscii(p) && AllStrings(p, values)
    ensures TakeAll(p, f, EncodedPairs(TR, values)) == Ok(f.(trackers := f.trackers + NonEmpty(values)))
  {
    var pairs := EncodedPairs(TR, values);
    forall i, g | 0 <= i < |pairs| ensures TakePair(p, g, pairs[i]) == Ok(WithTracker(g, values[i])) {
      TrackerReads(p, g, values[i]);
    }
    TrackersAdd(p, f, pairs, values);
  }

  lemma WebseedsRead(p: Platform, f: Fields, values: seq<Text>)
    requires KeepsAscii(p) && AllStrings(p, values)
    ensures TakeAll(p, f, EncodedPairs(WS, values)) == Ok(f.(webseeds := f.webseeds + NonEmpty(values)))
  {
    var pairs := EncodedPairs(WS, values);
    forall i, g | 0 <= i < |pairs| ensures TakePair(p, g, pairs[i]) == Ok(WithWebseed(g, values[i])) {
      WebseedReads(p, g, values[i]);
    }
    WebseedsAdd(p, f, pairs, values);
  }

  /** The values that are there, in order. */
  function Present<T>(options: seq<Option<T>>): seq<T> {
    if options == [] then []
    else if options[0].None? then Present(options[1..])
    else [options[0].value] + Present(options[1..])
  }

  lemma PresentStep<T>(before: seq<T>, options: seq<Option<T>>)
    requires options != []
    ensures before + Present(options)
            == (if options[0].None? then before else before + [options[0].value]) + Present(options[1..])
  {
    if options[0].Some? {
      var x, rest := options[0].value, Present(options[1..]);
      assert before + ([x] + rest) == (before + [x]) + rest;
    }
  }

  /** What parsing reads from the printed addresses. */
  function Readings(p: Platform, peers: seq<Addr>): (readings: seq<Option<Addr>>)
    ensures |readings| == |peers|
  {
    seq(|peers|, i requires 0 <= i < |peers| => Reread(p, peers[i]))
  }

  lemma {:induction false} PeersAdd(p: Platform, f: Fields, pairs: seq<Text>, readings: seq<Option<Addr>>)
    requires |pairs| == |readings|
    requires forall i, g :: 0 <= i < |pairs| ==> TakePair(p, g, pairs[i]) == Ok(WithPeer(g, readings[i]))
    ensures TakeAll(p, f, pairs) == Ok(f.(peers := f.peers + Present(readings)))
    decreases |readings|
  {
    if readings == [] {
      assert f.peers + Present(readings) == f.peers;
    } else {
      var g := WithPeer(f, readings[0]);
      PeersAdd(p, g, pairs[1..], readings[1..]);
      PresentStep(f.peers, readings);
    }
  }

  lemma PeersRead(p: Platform, f: Fields, peers: seq<Addr>)
    requires KeepsAscii(p)
    ensures TakeAll(p, f, PeerPairs(p, peers)) == Ok(f.(peers := f.peers + Present(Readings(p, peers))))
  {
    var pairs, readings := PeerPairs(p, peers), Readings(p, peers);
    forall i, g | 0 <= i < |pairs| ensures TakePair(p, g, pairs[i]) == Ok(WithPeer(g, readings[i])) {
      PeerReads(p, g, peers[i]);
    }
    PeersAdd(p, f, pairs, readings);
  }

  lemma NameReads(p: Platform, f: Fields, m: Magnet)
    requires KeepsAscii(p) && AllStrings(p, NameList(m)) && f.name.None?
    ensures TakeAll(p, f, EncodedPairs(DN, NameList(m))) == Ok(f.(name := Normalised(p, m).name))
  {
    if m.name.Some? {
      var pairs := EncodedPairs(DN, NameList(m));
      assert p.utf8(NameList(m)[0]) == m.name.value;
      ValueReads(p, DN, m.name.value);
      assert pairs[1..] == [];
    }
  }

  /** A magnet as Rust's types allow it. */
  ghost predicate WellFormed(p: Platform, m: Magnet) {
    && |m.hash| == HASH_BYTES
    && AllStrings(p, NameList(m)) && AllStrings(p, m.trackers) && AllStrings(p, m.webseeds)
    && forall i :: 0 <= i < |m.peers| ==> IsAddr(m.peers[i])
  }

  /** The magnet without an empty name, empty trackers and empty web seeds, and with the peers as they are read back. */
  function Normalised(p: Platform, m: Magnet): Magnet {
    m.(name := if m.name == Some([]) then None else m.name,
       trackers := NonEmpty(m.trackers),
       peers := Present(Readings(p, m.peers)),
       webseeds := NonEmpty(m.webseeds))
  }

  lemma PairsRead(p: Platform, m: Magnet)
    requires KeepsAscii(p) && WellFormed(p, m)
    ensures var n := Normalised(p, m);
            TakeAll(p, START.(hash := Some(m.hash)), OtherPairs(p, m))
            == Ok(Fields(Some(m.hash), false, n.name, n.trackers, n.peers, n.webseeds))
  {
    var n := Normalised(p, m);
    var dn, tr := EncodedPairs(DN, NameList(m)), EncodedPairs(TR, m.trackers);
    var pe, ws := PeerPairs(p, m.peers), EncodedPairs(WS, m.webseeds);
    var f0 := START.(hash := Some(m.hash));
    NameReads(p, f0, m);
    TakeConcat(p, f0, dn, tr + (pe + ws));
    var f1 := f0.(name := n.name);
    TrackersRead(p, f1, m.trackers);
    TakeConcat(p, f1, tr, pe + ws);
    var f2 := f1.(trackers := n.trackers);
    assert [] + n.trackers == n.trackers;
    PeersRead(p, f2, m.peers);
    TakeConcat(p, f2, pe, ws);
    var f3 := f2.(peers := n.peers);
    assert [] + n.peers == n.peers;
    WebseedsRead(p, f3, m.webseeds);
    assert [] + n.webseeds == n.webseeds;
  }

  lemma PairsHaveNoAmpersand(p: Platform, m: Magnet)
    requires PrintsPlain(p)
    ensures AMPERSAND !in XtPair(m) && forall pair :: pair in OtherPairs(p, m) ==> AMPERSAND !in pair
  {
    SpellingIsPlain(m.hash);
    EncodedPairsAreSafe(DN, NameList(m));
    EncodedPairsAreSafe(TR, m.trackers);
    EncodedPairsAreSafe(WS, m.webseeds);
    forall i | 0 <= i < |m.peers| ensures AMPERSAND !in PeerPairs(p, m.peers)[i] {
      NoAmpersand(p, m.peers[i]);
    }
  }

  lemma EncodedPairsAreSafe(key: Text, values: seq<Text>)
    requires AMPERSAND !in key
    ensures forall pair :: pair in EncodedPairs(key, values) ==> AMPERSAND !in pair
  {
    forall i | 0 <= i < |values| ensures AMPERSAND !in EncodedPairs(key, values)[i] {
      EncodedIsSafe(values[i]);
    }
  }

  lemma QueryOfPrinted(rest: Text)
    ensures Query(MAGNET + [QUESTION] + rest) == Some(rest)
  {
    var input, body := MAGNET + [QUESTION] + rest, [QUESTION] + rest;
    assert MAGNET <= input && input[|MAGNET|..] == body;
    assert body[0] != SLASHES[0];
    assert IndexOf(body, QUESTION) == 0 && body[1..] == rest;
  }

  /** Parsing what was printed gives the magnet back, but for empty texts and for what addresses lose. */
  lemma ParsePrinted(p: Platform, m: Magnet)
    requires KeepsAscii(p) && PrintsPlain(p) && WellFormed(p, m)
    ensures Parsed(p, Printed(p, m)) == Ok(Normalised(p, m))
  {
    var xt, others := XtPair(m), OtherPairs(p, m);
    QueryOfPrinted(xt + Appended(others));
    PairsHaveNoAmpersand(p, m);
    SplitJoined(xt, others);
    XtReads(p, m, START);
    assert ([xt] + others)[1..] == others;
    PairsRead(p, m);
  }

  lemma {:induction false} NonEmptyIff(values: seq<Text>)
    ensures |NonEmpty(values)| <= |values|
    ensures NonEmpty(values) == values <==> [] !in values
  {
    if values != [] {
      NonEmptyIff(values[1..]);
      assert values == [values[0]] + values[1..];
      if values[0] != [] {
        assert NonEmpty(values)[1..] == NonEmpty(values[1..]);
      }
    }
  }

  /** Dropping what is missing gives a list back exactly when each of its values is there. */
  lemma {:induction false} PresentIff<T>(options: seq<Option<T>>, values: seq<T>)
    requires |options| == |values|
    ensures |Present(options)| <= |options|
    ensures Present(options) == values <==> forall i :: 0 <= i < |values| ==> options[i] == Some(values[i])
  {
    if options != [] {
      var all, rest := Present(options), Present(options[1..]);
      PresentIff(options[1..], values[1..]);
      assert forall i :: 0 < i < |values| ==> options[i] == options[1..][i - 1] && values[i] == values[1..][i - 1];
      if options[0].Some? {
        assert all[0] == options[0].value && all[1..] == rest;
        assert values == [values[0]] + values[1..];
      }
    }
  }

  lemma PeersComeBackIff(p: Platform, peers: seq<Addr>)
    requires Standard(p) && forall i :: 0 <= i < |peers| ==> IsAddr(peers[i])
    ensures Present(Readings(p, peers)) == peers <==> forall i :: 0 <= i < |peers| ==> Survives(peers[i])
  {
    var readings := Readings(p, peers);
    PresentIff(readings, peers);
    forall i | 0 <= i < |peers| ensures readings[i] == Some(peers[i]) <==> Survives(peers[i]) {
      ComesBackIff(p, peers[i]);
    }
  }

  /**
   The round trip is exact if and only if no text is empty and every IPv6 peer has no flow label
   and at most a one-digit scope identifier.
   */
  lemma RoundTripIff(p: Platform, m: Magnet)
    requires Standard(p) && WellFormed(p, m)
    ensures Parsed(p, Printed(p, m)) == Ok(m)
            <==> && m.name != Some([]) && [] !in m.trackers && [] !in m.webseeds
                 && forall i :: 0 <= i < |m.peers| ==> Survives(m.peers[i])
  {
    ParsePrinted(p, m);
    NonEmptyIff(m.trackers);
    NonEmptyIff(m.webseeds);
    PeersComeBackIff(p, m.peers);
  }

  /** Two magnets that do not come back: one with a two-digit scope, one with an empty tracker. */
  lemma RoundTripCanFail(p: Platform)
    requires Standard(p)
    ensures var scoped := Magnet(seq(HASH_BYTES, _ => 0), None, [], [V6(1, 0, 10, 6881)], []);
            var empty := Magnet(seq(HASH_BYTES, _ => 0), None, [[]], [], []);
            && WellFormed(p, scoped) && Parsed(p, Printed(p, scoped)) != Ok(scoped)
            && WellFormed(p, empty) && Parsed(p, Printed(p, empty)) != Ok(empty)
  {
    var scoped := Magnet(seq(HASH_BYTES, _ => 0), None, [], [V6(1, 0, 10, 6881)], []);
    var empty := Magnet(seq(HASH_BYTES, _ => 0), None, [[]], [], []);
    assert !Survives(scoped.peers[0]);
    RoundTripIff(p, scoped);
    RoundTripIff(p, empty);
  }

  // ---------------------------------------------------------------------------------------
  // Spellings and errors

  lemma LowerParts(hash: Text, t: Text)
    requires Lower(t) == Lower(URN_BTIH + hash)
    ensures URN_BTIH <= Lower(t) && !(URN_BTMH <= Lower(t)) && Lower(t)[|URN_BTIH|..] == Lower(hash)
  {
    var whole := URN_BTIH + hash;
    LowerKeeps(URN_BTIH);
    assert Lower(whole) == Lower(URN_BTIH) + Lower(hash);
    assert Lower(t)[6] == URN_BTIH[6];
  }

  /** Forty hex digits, in any mix of cases. */
  lemma HexReads(hash: seq<Byte>, t: Text)
    requires |hash| == HASH_BYTES && Lower(t) == Lower(URN_BTIH + HexOf(hash))
    ensures ParsedXt(t) == Ok(hash)
  {
    LowerParts(HexOf(hash), t);
    HexOfIsPlain(hash);
    LowerKeeps(HexOf(hash));
    HexRoundTrip(hash);
  }

  /** Thirty-two base-32 digits, in any mix of cases. */
  lemma Base32Reads(hash: seq<Byte>, t: Text)
    requires |hash| == HASH_BYTES && Lower(t) == Lower(URN_BTIH + Base32Of(hash))
    ensures ParsedXt(t) == Ok(hash)
  {
    LowerParts(Base32Of(hash), t);
    LowerKeepsDigits(Base32Of(hash));
    Base32RoundTrip(hash, Lower(Base32Of(hash)));
  }

  lemma LowerKeepsDigits(text: Text)
    ensures forall k :: 0 <= k < |text| ==> Base32Digit(Lower(text)[k]) == Base32Digit(text[k])
  {
  }

  /** Both spellings of a hash are read as the same twenty bytes. */
  lemma SpellingsAgree(hash: seq<Byte>)
    requires |hash| == HASH_BYTES
    ensures ParsedXt(URN_BTIH + HexOf(hash)) == ParsedXt(URN_BTIH + Base32Of(hash)) == Ok(hash)
  {
    HexReads(hash, URN_BTIH + HexOf(hash));
    Base32Reads(hash, URN_BTIH + Base32Of(hash));
  }

  /** Once a hash is known it stays, so the first one wins. */
  lemma {:induction false} FirstHashWins(p: Platform, f: Fields, pairs: seq<Text>)
    requires f.hash.Some?
    ensures TakeAll(p, f, pairs).Ok? ==> TakeAll(p, f, pairs).value.hash == f.hash
    decreases |pairs|
  {
    if pairs != [] && TakePair(p, f, pairs[0]).Ok? {
      FirstHashWins(p, TakePair(p, f, pairs[0]).value, pairs[1..]);
    }
  }

  lemma {:induction false} PairsAreNoUri(p: Platform, f: Fields, pairs: seq<Text>)
    ensures TakeAll(p, f, pairs) != Err(InvalidUri)
    decreases |pairs|
  {
    if pairs != [] && TakePair(p, f, pairs[0]).Ok? {
      PairsAreNoUri(p, TakePair(p, f, pairs[0]).value, pairs[1..]);
    }
  }

  /** A text is refused as no magnet link exactly when it does not start with `magnet:`. */
  lemma InvalidExactly(p: Platform, input: Text)
    ensures Parsed(p, input) == Err(InvalidUri) <==> !([109, 97, 103, 110, 101, 116, 58] <= input)
  {
    if Query(input).Some? {
      PairsAreNoUri(p, START, SplitAll(Query(input).value, AMPERSAND));
    }
  }
}
