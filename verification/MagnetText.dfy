/**
 The letters of a magnet link: what `Magnet::parse` and the `Display` printer of
 `crates/bit_rev/src/magnet.rs` read and write, byte by byte.
 */
module MagnetText {
  import opened Basics
  import opened PercentCode
  import opened HashText
  import opened SocketText
  import opened Magnet

  /** The values after `&key=`, one after the other. */
  ghost function Listed(key: Text, values: seq<Text>): Text {
    if values == [] then [] else [38] + key + [61] + Encode(values[0]) + Listed(key, values[1..])
  }

  /** The addresses after `&x.pe=`. */
  ghost function ListedPeers(p: Platform, peers: seq<Addr>): Text {
    if peers == [] then [] else [38, 120, 46, 112, 101, 61] + Show(p, peers[0]) + ListedPeers(p, peers[1..])
  }

  lemma {:induction false} AppendedIsListed(key: Text, values: seq<Text>)
    ensures Appended(EncodedPairs(key, values)) == Listed(key, values)
  {
    if values != [] {
      var pairs := EncodedPairs(key, values);
      assert pairs[1..] == EncodedPairs(key, values[1..]);
      AppendedIsListed(key, values[1..]);
      assert [38] + (key + [61] + Encode(values[0])) == [38] + key + [61] + Encode(values[0]);
    }
  }

  lemma {:induction false} AppendedIsListedPeers(p: Platform, peers: seq<Addr>)
    ensures Appended(PeerPairs(p, peers)) == ListedPeers(p, peers)
  {
    if peers != [] {
      assert PeerPairs(p, peers)[1..] == PeerPairs(p, peers[1..]);
      AppendedIsListedPeers(p, peers[1..]);
      PeerHead(Show(p, peers[0]));
    }
  }

  lemma PeerHead(address: Text)
    ensures [AMPERSAND] + Pair(XPE, address) == [38, 120, 46, 112, 101, 61] + address
  {
  }

  lemma HeadText()
    ensures MAGNET + [QUESTION] + XT + [EQUALS] + URN_BTIH
            == [109, 97, 103, 110, 101, 116, 58, 63, 120, 116, 61, 117, 114, 110, 58, 98, 116, 105, 104, 58]
  {
  }

  lemma PrintedFrom(p: Platform, m: Magnet, head: Text, dn: Text, tr: Text, pe: Text, ws: Text)
    requires head == MAGNET + [QUESTION] + XT + [EQUALS] + URN_BTIH
    requires dn == Appended(EncodedPairs(DN, NameList(m))) && tr == Appended(EncodedPairs(TR, m.trackers))
    requires pe == Appended(PeerPairs(p, m.peers)) && ws == Appended(EncodedPairs(WS, m.webseeds))
    ensures Printed(p, m) == head + HexOf(m.hash) + dn + tr + pe + ws
  {
    PrintedInParts(p, m);
  }

  /** The text after `magnet:?xt=urn:btih:` and the hash: `&dn=`, `&tr=`, `&x.pe=` and `&ws=` with their values in this order. */
  ghost function Rest(p: Platform, m: Magnet, text: Text): Text {
    text + (if m.name.Some? then Listed([100, 110], [m.name.value]) else []) + Listed([116, 114], m.trackers)
    + ListedPeers(p, m.peers) + Listed([119, 115], m.webseeds)
  }

  /** The printed link: `magnet:?xt=urn:btih:`, the hash in hexadecimal, and the rest. */
  lemma PrintedText(p: Platform, m: Magnet)
    ensures Printed(p, m)
            == Rest(p, m, [109, 97, 103, 110, 101, 116, 58, 63, 120, 116, 61, 117, 114, 110, 58, 98, 116, 105, 104, 58] + HexOf(m.hash))
  {
    AppendedIsListed(DN, NameList(m));
    AppendedIsListed(TR, m.trackers);
    AppendedIsListedPeers(p, m.peers);
    AppendedIsListed(WS, m.webseeds);
    var head := MAGNET + [QUESTION] + XT + [EQUALS] + URN_BTIH;
    PrintedFrom(p, m, head, Listed([100, 110], NameList(m)), Listed([116, 114], m.trackers),
                ListedPeers(p, m.peers), Listed([119, 115], m.webseeds));
    HeadText();
  }

  /** The key is the name, in any mix of cases. */
  predicate Names(key: Text, name: Text) {
    |key| == |name| && forall i :: 0 <= i < |name| ==> key[i] == name[i] || (97 <= name[i] <= 122 && key[i] == name[i] - 32)
  }

  lemma AnyCase(p: Platform, key: Text, name: Text, raw: Text)
    requires KeepsAscii(p) && PlainKey(name) && Names(key, name)
    ensures var pair := key + [61] + raw;
            pair != [] && KeyOf(p, pair) == name && ValueOf(p, pair) == p.utf8(Decode(raw))
  {
    var pair := key + [61] + raw;
    forall b | b in key ensures b < 128 && b != PERCENT && b != EQUALS {
      var i :| 0 <= i < |key| && key[i] == b;
      assert name[i] in name;
    }
    IndexAfter(key, EQUALS, raw);
    assert pair[..|key|] == key && pair[|key| + 1..] == raw;
    DecodePlain(key);
    forall i | 0 <= i < |key| ensures Lower(key)[i] == name[i] {
      assert name[i] in name;
    }
    assert Lower(key) == name;
  }

  /** A `tr=` adds its value to the trackers, unless it is empty. */
  lemma TrackerAdds(p: Platform, f: Fields, key: Text, raw: Text)
    requires KeepsAscii(p) && Names(key, [116, 114])
    ensures var value := p.utf8(Decode(raw));
            TakePair(p, f, key + [61] + raw) == Ok(if value == [] then f else f.(trackers := f.trackers + [value]))
  {
    AnyCase(p, key, [116, 114], raw);
  }

  /** A `ws=` adds its value to the web seeds, unless it is empty. */
  lemma WebseedAdds(p: Platform, f: Fields, key: Text, raw: Text)
    requires KeepsAscii(p) && Names(key, [119, 115])
    ensures var value := p.utf8(Decode(raw));
            TakePair(p, f, key + [61] + raw) == Ok(if value == [] then f else f.(webseeds := f.webseeds + [value]))
  {
    AnyCase(p, key, [119, 115], raw);
    assert [119, 115][0] != XT[0] && [119, 115][0] != DN[0] && [119, 115][0] != TR[0] && [119, 115][0] != XPE[0];
  }

  /** The first `dn=` that is not empty gives the name. */
  lemma NameAdds(p: Platform, f: Fields, key: Text, raw: Text)
    requires KeepsAscii(p) && Names(key, [100, 110])
    ensures var value := p.utf8(Decode(raw));
            TakePair(p, f, key + [61] + raw) == Ok(if f.name.None? && value != [] then f.(name := Some(value)) else f)
  {
    AnyCase(p, key, [100, 110], raw);
    assert [100, 110][0] != XT[0];
  }

  /** An `x.pe=` adds its address, if it is one. */
  lemma PeerAdds(p: Platform, f: Fields, key: Text, raw: Text)
    requires KeepsAscii(p) && Names(key, [120, 46, 112, 101])
    ensures var addr := p.read(p.utf8(Decode(raw)));
            TakePair(p, f, key + [61] + raw) == Ok(if addr.Some? then f.(peers := f.peers + [addr.value]) else f)
  {
    AnyCase(p, key, [120, 46, 112, 101], raw);
  }

  /** The first `xt=` that holds a version 1 hash gives it; one of version 2 is noted; any other ends the parsing. */
  lemma HashAdds(p: Platform, f: Fields, key: Text, raw: Text)
    requires KeepsAscii(p) && Names(key, [120, 116])
    ensures var xt := ParsedXt(p.utf8(Decode(raw)));
            TakePair(p, f, key + [61] + raw)
            == if xt.Ok? then Ok(if f.hash.None? then f.(hash := Some(xt.value)) else f)
               else if xt.error == V2NotSupported then Ok(f.(sawV2 := true))
               else Err(xt.error)
  {
    AnyCase(p, key, [120, 116], raw);
  }

  /** A value of `xt`, whatever its case: `urn:btmh:`, or `urn:btih:` and 40 or 32 digits; anything else is refused. */
  lemma XtCases(value: Text)
    ensures var lower, v1, v2 := Lower(value), [117, 114, 110, 58, 98, 116, 105, 104, 58], [117, 114, 110, 58, 98, 116, 109, 104, 58];
            && (ParsedXt(value) == Err(V2NotSupported) <==> v2 <= lower)
            && (ParsedXt(value) == Err(MissingXt) <==> !(v1 <= lower) && !(v2 <= lower))
            && (v1 <= lower && |value| == 49 ==> ParsedXt(value) == DecodedHex(lower[9..]))
            && (v1 <= lower && |value| == 41 ==> ParsedXt(value) == DecodedBase32(lower[9..]))
            && (v1 <= lower && |value| != 49 && |value| != 41 ==> ParsedXt(value) == Err(BadHashLength(|value| - 9)))
  {
    if URN_BTIH <= Lower(value) {
      assert Lower(value)[6] == 105;
    }
  }

  /** Behind `magnet:` the parameters start after `//`, if it is there, and after the first question mark, if there is one. */
  lemma QueryOfLink(rest: Text)
    ensures Query([109, 97, 103, 110, 101, 116, 58, 63] + rest) == Some(rest)
    ensures Query([109, 97, 103, 110, 101, 116, 58, 47, 47, 63] + rest) == Some(rest)
    ensures 63 !in rest && !([47, 47] <= rest) ==> Query([109, 97, 103, 110, 101, 116, 58] + rest) == Some(rest)
  {
    var head := [109, 97, 103, 110, 101, 116, 58];
    Cut(head, [63] + rest);
    Cut(head, [47, 47] + ([63] + rest));
    Cut(head, rest);
    Cut([47, 47], [63] + rest);
    assert head + ([63] + rest) == [109, 97, 103, 110, 101, 116, 58, 63] + rest;
    assert head + ([47, 47] + ([63] + rest)) == [109, 97, 103, 110, 101, 116, 58, 47, 47, 63] + rest;
    assert ([63] + rest)[0] != SLASHES[0] && ([63] + rest)[1..] == rest;
    if 63 !in rest {
      IndexPlain(rest, QUESTION);
    }
  }

  lemma Cut(a: Text, b: Text)
    ensures a <= a + b && (a + b)[|a|..] == b
  {
  }

  /** Parameters are read one after the other, apart at ampersands. */
  lemma ParametersApart(p: Platform, a: Text, b: Text)
    requires 38 !in a && a != []
    ensures var query := a + [38] + b;
            TakeAll(p, START, SplitAll(query, AMPERSAND)) == TakeMore(p, TakePair(p, START, a), SplitAll(b, AMPERSAND))
  {
    var query := a + [38] + b;
    IndexAfter(a, AMPERSAND, b);
    assert query[..|a|] == a && query[|a| + 1..] == b;
    assert SplitAll(query, AMPERSAND)[1..] == SplitAll(b, AMPERSAND);
  }

  // ---------------------------------------------------------------------------------------
  // Outcomes

  /** What a parameter says about the hash, if it is an `xt`. */
  ghost function Topic(p: Platform, pair: Text): Option<Result<seq<Byte>, MagnetError>> {
    if pair != [] && KeyOf(p, pair) == [120, 116] then Some(ParsedXt(ValueOf(p, pair))) else None
  }

  ghost predicate GivesHash(p: Platform, pair: Text) {
    Topic(p, pair).Some? && Topic(p, pair).value.Ok?
  }

  ghost predicate IsVersion2(p: Platform, pair: Text) {
    Topic(p, pair) == Some(Err(V2NotSupported))
  }

  ghost predicate IsBad(p: Platform, pair: Text) {
    Topic(p, pair).Some? && Topic(p, pair).value.Err? && Topic(p, pair).value.error != V2NotSupported
  }

  lemma OneParameter(p: Platform, f: Fields, pair: Text)
    ensures TakePair(p, f, pair).Err? <==> IsBad(p, pair)
    ensures IsBad(p, pair) ==> TakePair(p, f, pair) == Err(Topic(p, pair).value.error)
    ensures !IsBad(p, pair) ==>
              var g := TakePair(p, f, pair).value;
              && (g.hash.Some? <==> f.hash.Some? || GivesHash(p, pair))
              && (g.sawV2 <==> f.sawV2 || IsVersion2(p, pair))
  {
    assert XT == [120, 116];
  }

  ghost predicate Any(p: Platform, pairs: seq<Text>, test: (Platform, Text) -> bool) {
    exists k :: 0 <= k < |pairs| && test(p, pairs[k])
  }

  lemma AnyStep(p: Platform, pairs: seq<Text>, test: (Platform, Text) -> bool)
    requires pairs != []
    ensures Any(p, pairs, test) <==> test(p, pairs[0]) || Any(p, pairs[1..], test)
  {
    if Any(p, pairs[1..], test) {
      var k :| 0 <= k < |pairs[1..]| && test(p, pairs[1..][k]);
      assert test(p, pairs[k + 1]);
    }
    if Any(p, pairs, test) {
      var k :| 0 <= k < |pairs| && test(p, pairs[k]);
      assert k > 0 ==> pairs[1..][k - 1] == pairs[k];
    }
  }

  /** Reading succeeds exactly without a bad topic; then the hash and the version 2 mark say what was there. */
  lemma {:induction false} AllParameters(p: Platform, f: Fields, pairs: seq<Text>)
    ensures TakeAll(p, f, pairs).Ok? <==> !Any(p, pairs, IsBad)
    ensures TakeAll(p, f, pairs).Ok? ==>
              var g := TakeAll(p, f, pairs).value;
              && (g.hash.Some? <==> f.hash.Some? || Any(p, pairs, GivesHash))
              && (g.sawV2 <==> f.sawV2 || Any(p, pairs, IsVersion2))
    decreases |pairs|
  {
    if pairs != [] {
      OneParameter(p, f, pairs[0]);
      AnyStep(p, pairs, IsBad);
      AnyStep(p, pairs, GivesHash);
      AnyStep(p, pairs, IsVersion2);
      if !IsBad(p, pairs[0]) {
        AllParameters(p, TakePair(p, f, pairs[0]).value, pairs[1..]);
      }
    }
  }

  /** The first bad topic decides. */
  lemma {:induction false} FirstBadDecides(p: Platform, f: Fields, pairs: seq<Text>, k: nat)
    requires k < |pairs| && IsBad(p, pairs[k]) && forall j :: 0 <= j < k ==> !IsBad(p, pairs[j])
    ensures TakeAll(p, f, pairs) == Err(Topic(p, pairs[k]).value.error)
    decreases k
  {
    OneParameter(p, f, pairs[0]);
    if k > 0 {
      FirstBadDecides(p, TakePair(p, f, pairs[0]).value, pairs[1..], k - 1);
    }
  }

  /**
   The outcome of a link with parameters: the error of the first bad topic; else the magnet, if a
   topic gives a hash; else version 2 is refused, if one was there; else the hash is missing.
   */
  lemma Outcome(p: Platform, input: Text, pairs: seq<Text>)
    requires Query(input).Some? && Query(input).value != [] && pairs == SplitAll(Query(input).value, AMPERSAND)
    ensures forall k :: 0 <= k < |pairs| && IsBad(p, pairs[k]) && (forall j :: 0 <= j < k ==> !IsBad(p, pairs[j]))
                        ==> Parsed(p, input) == Err(Topic(p, pairs[k]).value.error)
    ensures !Any(p, pairs, IsBad) ==>
              if Any(p, pairs, GivesHash) then Parsed(p, input).Ok?
              else Parsed(p, input) == Err(if Any(p, pairs, IsVersion2) then V2NotSupported else MissingXt)
  {
    AllParameters(p, START, pairs);
    forall k | 0 <= k < |pairs| && IsBad(p, pairs[k]) && (forall j :: 0 <= j < k ==> !IsBad(p, pairs[j]))
      ensures Parsed(p, input) == Err(Topic(p, pairs[k]).value.error)
    {
      FirstBadDecides(p, START, pairs, k);
    }
  }

  // ---------------------------------------------------------------------------------------
  // Digits

  /** The escape of a byte: a percent sign and two upper-case digits, unless it is a letter, a digit or one of `-._~`. */
  lemma EscapeText(b: Byte)
    ensures var hex := [48, 49, 50, 51, 52, 53, 54, 55, 56, 57, 65, 66, 67, 68, 69, 70];
            EncodeByte(b) == if 48 <= b <= 57 || 65 <= b <= 90 || 97 <= b <= 122 || b in {45, 46, 95, 126} then [b]
                             else [37, hex[b / 16], hex[b % 16]]
  {
  }

  /** A hash is printed as two lower-case digits for each byte, the higher one first. */
  lemma {:induction false} HexText(hash: seq<Byte>, k: nat)
    requires k < |hash|
    ensures var hex := [48, 49, 50, 51, 52, 53, 54, 55, 56, 57, 97, 98, 99, 100, 101, 102];
            HexOf(hash)[2 * k] == hex[hash[k] / 16] && HexOf(hash)[2 * k + 1] == hex[hash[k] % 16]
  {
    if k < |hash| - 1 {
      HexText(hash[..|hash| - 1], k);
    }
  }

  /** An IPv6 address is printed in brackets, with a percent sign before a scope that is not zero, then a colon and the port. */
  lemma AddressText(p: Platform, ip: nat, flow: nat, scope: nat, port: nat)
    ensures Show(p, V4(ip, port)) == p.v4(ip, port)
    ensures Show(p, V6(ip, flow, 0, port)) == [91] + p.v6(ip) + ([93, 58] + Decimal(port))
    ensures scope > 0 ==> Show(p, V6(ip, flow, scope, port)) == [91] + p.v6(ip) + ([37] + Decimal(scope) + ([93, 58] + Decimal(port)))
  {
    assert [] + ([93, 58] + Decimal(port)) == [93, 58] + Decimal(port);
  }

  /** The base-32 digits are `A` to `Z` and `2` to `7`, and `a` to `z` as well. */
  lemma Base32Alphabet(d: nat)
    requires d < 32
    ensures var letters := [65, 66, 67, 68, 69, 70, 71, 72, 73, 74, 75, 76, 77, 78, 79, 80, 81, 82, 83, 84, 85, 86, 87, 88, 89, 90,
                            50, 51, 52, 53, 54, 55];
            && Base32Char(d) == letters[d] && Base32Digit(letters[d]) == Some(d)
            && (d < 26 ==> Base32Digit(letters[d] + 32) == Some(d))
  {
  }
}
