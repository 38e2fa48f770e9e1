/**
 Where `info_dict_range` and `encode_torrent_preserving_info` of `crates/bit_rev/src/file.rs`
 look, in terms of the entries of a dictionary: the first value named `info`, in literal bytes.
 */
module InfoEntries {
  import opened Basics
  import opened Bencode
  import opened InfoDict

  /** The text of a key, the key that it spells, and the bytes of its value. */
  datatype Entry = Entry(head: seq<Byte>, key: seq<Byte>, value: seq<Byte>)

  /** The text is a length-prefixed string and spells the key. */
  ghost predicate Spells(head: seq<Byte>, key: seq<Byte>) {
    head != [] && IsDigit(head[0]) && ParseString(head, 0) == Ok(StringAt(key, |head|))
  }

  ghost predicate GoodEntry(e: Entry) {
    Spells(e.head, e.key) && IsOneValue(e.value)
  }

  /** The key is `info`, in literal bytes. */
  predicate IsInfo(key: seq<Byte>) {
    |key| == 4 && key[0] == 105 && key[1] == 110 && key[2] == 102 && key[3] == 111
  }

  /** Keys and values in order, and the closing `e`. */
  ghost function EntriesText(entries: seq<Entry>): seq<Byte> {
    if entries == [] then [101] else (entries[0].head + entries[0].value) + EntriesText(entries[1..])
  }

  /** A whole dictionary, in literal bytes. */
  ghost function DictText(entries: seq<Entry>): seq<Byte> {
    [100] + EntriesText(entries)
  }

  /** The place of the first entry named `info`, or the number of entries. */
  ghost function FirstInfo(entries: seq<Entry>): (k: nat)
    ensures k <= |entries|
  {
    if entries == [] || IsInfo(entries[0].key) then 0 else 1 + FirstInfo(entries[1..])
  }

  /** Where the entry at `k` starts when the entries start at `i`. */
  ghost function Pos(entries: seq<Entry>, k: nat, i: nat): nat
    requires k <= |entries|
  {
    if k == 0 then i else Pos(entries[1..], k - 1, i + |entries[0].head| + |entries[0].value|)
  }

  lemma {:induction false} PosNext(entries: seq<Entry>, k: nat, i: nat)
    requires k < |entries|
    ensures Pos(entries, k + 1, i) == Pos(entries, k, i) + |entries[k].head| + |entries[k].value|
  {
    if k > 0 {
      PosNext(entries[1..], k - 1, i + |entries[0].head| + |entries[0].value|);
    } else {
      assert Pos(entries[1..], 0, i + |entries[0].head| + |entries[0].value|) == Pos(entries, 1, i);
    }
  }

  /** A decimal length, a colon and the key spell the key. */
  lemma PrefixSpells(prefix: seq<Byte>, key: seq<Byte>)
    requires ParseDigits(prefix) == Some(|key|)
    ensures Spells(prefix + [58] + key, key)
  {
    var head := prefix + [58] + key;
    DecimalDigits(prefix);
    assert head[0] == prefix[0];
    ParseStringHere(head, 0, prefix, key);
  }

  // ---------------------------------------------------------------------------------------
  // The search

  /** `data` holds `s` at `i`. */
  ghost predicate At(data: seq<Byte>, i: nat, s: seq<Byte>) {
    i + |s| <= |data| && data[i..i + |s|] == s
  }

  lemma AtHolds(data: seq<Byte>, i: nat, s: seq<Byte>)
    requires At(data, i, s)
    ensures HoldsAt(data, i, s)
  {
    forall k | 0 <= k < |s| ensures data[i + k] == s[k] {
      assert data[i..i + |s|][k] == s[k];
    }
  }

  lemma AtParts(data: seq<Byte>, i: nat, a: seq<Byte>, b: seq<Byte>)
    requires At(data, i, a + b)
    ensures At(data, i, a) && At(data, i + |a|, b)
  {
    var whole := data[i..i + |a + b|];
    assert whole[..|a|] == a && whole[|a|..] == b;
    assert data[i..i + |a|] == whole[..|a|] && data[i + |a|..i + |a| + |b|] == whole[|a|..];
  }

  /** A string is read alike wherever it stands. */
  lemma SpelledReads(head: seq<Byte>, key: seq<Byte>, data: seq<Byte>, i: nat)
    requires Spells(head, key) && At(data, i, head)
    ensures i < |data| && data[i] != LOWER_E && ParseString(data, i) == Ok(StringAt(key, i + |head|))
  {
    AtHolds(data, i, head);
    var prefix := SpelledShape(head, key);
    assert data[i] == head[0];
    ParseStringHere(data, i, prefix, key);
  }

  lemma SpelledShape(head: seq<Byte>, key: seq<Byte>) returns (prefix: seq<Byte>)
    requires Spells(head, key)
    ensures COLON !in prefix && ParseUsize(prefix) == Some(|key|) && head == prefix + [COLON] + key
  {
    prefix := ParseStringShape(head, 0);
    HoldsAtSlice(head, 0, prefix + [COLON] + key);
  }

  lemma ValueReads(data: seq<Byte>, i: nat, value: seq<Byte>)
    requires IsOneValue(value) && At(data, i, value)
    ensures Skip(data, i) == Ok(i + |value|)
  {
    AtHolds(data, i, value);
    SplicedValue(data, i, value);
  }

  lemma IsInfoKey(key: seq<Byte>)
    ensures IsInfo(key) <==> key == INFO_KEY
  {
  }

  /** Key and value of an entry are read as they stand. */
  ghost predicate EntryReads(data: seq<Byte>, i: nat, key: seq<Byte>, start: nat, end: nat) {
    i < |data| && data[i] != LOWER_E && ParseString(data, i) == Ok(StringAt(key, start)) && Skip(data, start) == Ok(end)
  }

  lemma GoodEntryReads(data: seq<Byte>, i: nat, e: Entry)
    requires GoodEntry(e) && At(data, i, e.head) && At(data, i + |e.head|, e.value)
    ensures EntryReads(data, i, e.key, i + |e.head|, i + |e.head| + |e.value|)
  {
    SpelledReads(e.head, e.key, data, i);
    ValueReads(data, i + |e.head|, e.value);
  }

  type Search = nat -> Result<Range, BencodeError>

  /** The search at one entry returns its value or goes on behind it. */
  ghost predicate Steps(find: Search, i: nat, key: seq<Byte>, start: nat, end: nat) {
    find(i) == if IsInfo(key) then Ok(Range(start, end)) else find(end)
  }

  lemma EntrySteps(data: seq<Byte>, i: nat, key: seq<Byte>, start: nat, end: nat)
    requires EntryReads(data, i, key, start, end)
    ensures Steps((j: nat) => FindInfo(data, j), i, key, start, end)
  {
    IsInfoKey(key);
    SearchStep(data, i, key, start, end);
  }

  lemma {:induction false} TailHolds(data: seq<Byte>, i: nat, entries: seq<Entry>, k: nat)
    requires k <= |entries| && At(data, i, EntriesText(entries))
    ensures At(data, Pos(entries, k, i), EntriesText(entries[k..]))
    decreases k
  {
    if k == 0 {
      assert entries[0..] == entries;
    } else {
      var e, tail := entries[0], entries[1..];
      AtParts(data, i, e.head + e.value, EntriesText(tail));
      TailHolds(data, i + |e.head| + |e.value|, tail, k - 1);
      assert tail[k - 1..] == entries[k..];
    }
  }

  lemma EntryHolds(data: seq<Byte>, i: nat, entries: seq<Entry>, k: nat)
    requires k < |entries| && At(data, i, EntriesText(entries))
    ensures At(data, Pos(entries, k, i), entries[k].head)
    ensures At(data, Pos(entries, k, i) + |entries[k].head|, entries[k].value)
  {
    var rest, p := entries[k..], Pos(entries, k, i);
    TailHolds(data, i, entries, k);
    assert rest[0] == entries[k];
    AtParts(data, p, rest[0].head + rest[0].value, EntriesText(rest[1..]));
    AtParts(data, p, rest[0].head, rest[0].value);
  }

  /** At an entry the search returns its value or goes on with the next one. */
  lemma SearchAt(data: seq<Byte>, i: nat, entries: seq<Entry>, k: nat)
    requires k < |entries| && At(data, i, EntriesText(entries)) && GoodEntry(entries[k])
    ensures EntryReads(data, Pos(entries, k, i), entries[k].key, Pos(entries, k, i) + |entries[k].head|, Pos(entries, k + 1, i))
  {
    EntryHolds(data, i, entries, k);
    PosNext(entries, k, i);
    GoodEntryReads(data, Pos(entries, k, i), entries[k]);
  }

  lemma SearchEnds(data: seq<Byte>, i: nat, entries: seq<Entry>)
    requires At(data, i, EntriesText(entries))
    ensures FindInfo(data, Pos(entries, |entries|, i)) == Err(MissingInfo)
  {
    var n := |entries|;
    TailHolds(data, i, entries, n);
    AtHolds(data, Pos(entries, n, i), EntriesText(entries[n..]));
    assert data[Pos(entries, n, i)] == EntriesText(entries[n..])[0] == 101;
  }

  /** Where the value at `k` lies when the entries start at `i`. */
  ghost function ValueRange(entries: seq<Entry>, k: nat, i: nat): Range
    requires k < |entries|
  {
    Range(Pos(entries, k, i) + |entries[k].head|, Pos(entries, k + 1, i))
  }

  ghost predicate AllStep(find: Search, entries: seq<Entry>, i: nat) {
    forall k :: 0 <= k < |entries| ==>
      Steps(find, Pos(entries, k, i), entries[k].key, Pos(entries, k, i) + |entries[k].head|, Pos(entries, k + 1, i))
  }

  /** Without an `info` on the way the search arrives at the entry at `k`. */
  lemma {:induction false} SearchArrives(find: Search, entries: seq<Entry>, i: nat, k: nat)
    requires k <= FirstInfo(entries) && AllStep(find, entries, i)
    ensures find(i) == find(Pos(entries, k, i))
  {
    if k > 0 {
      SearchArrives(find, entries, i, k - 1);
      FirstInfoFacts(entries, k - 1);
      assert Steps(find, Pos(entries, k - 1, i), entries[k - 1].key, Pos(entries, k - 1, i) + |entries[k - 1].head|, Pos(entries, k, i));
    }
  }

  lemma {:induction false} FirstInfoFacts(entries: seq<Entry>, j: nat)
    requires j < |entries|
    ensures j < FirstInfo(entries) ==> !IsInfo(entries[j].key)
    ensures j == FirstInfo(entries) ==> IsInfo(entries[j].key)
  {
    if j > 0 {
      FirstInfoFacts(entries[1..], j - 1);
    }
  }

  lemma StepsLocate(find: Search, entries: seq<Entry>, i: nat)
    requires AllStep(find, entries, i) && find(Pos(entries, |entries|, i)) == Err(MissingInfo)
    ensures var k := FirstInfo(entries);
            find(i) == if k == |entries| then Err(MissingInfo) else Ok(ValueRange(entries, k, i))
  {
    var k := FirstInfo(entries);
    SearchArrives(find, entries, i, k);
    if k < |entries| {
      FirstInfoFacts(entries, k);
      assert Steps(find, Pos(entries, k, i), entries[k].key, Pos(entries, k, i) + |entries[k].head|, Pos(entries, k + 1, i));
    }
  }

  lemma SearchLocates(data: seq<Byte>, i: nat, entries: seq<Entry>)
    requires (forall k :: 0 <= k < |entries| ==> GoodEntry(entries[k])) && At(data, i, EntriesText(entries))
    ensures var k := FirstInfo(entries);
            FindInfo(data, i) == if k == |entries| then Err(MissingInfo) else Ok(ValueRange(entries, k, i))
  {
    var find := (j: nat) => FindInfo(data, j);
    forall k | 0 <= k < |entries|
      ensures Steps(find, Pos(entries, k, i), entries[k].key, Pos(entries, k, i) + |entries[k].head|, Pos(entries, k + 1, i))
    {
      SearchAt(data, i, entries, k);
      EntrySteps(data, Pos(entries, k, i), entries[k].key, Pos(entries, k, i) + |entries[k].head|, Pos(entries, k + 1, i));
    }
    SearchEnds(data, i, entries);
    StepsLocate(find, entries, i);
  }

  lemma TextInDict(text: seq<Byte>)
    ensures At([100] + text, 1, text)
  {
  }

  /** In a dictionary the value of the first `info` is found; it is missing exactly when there is none. */
  lemma RangeInDictionary(entries: seq<Entry>)
    requires forall k :: 0 <= k < |entries| ==> GoodEntry(entries[k])
    ensures var k := FirstInfo(entries);
            InfoRange(DictText(entries)) == if k == |entries| then Err(MissingInfo) else Ok(ValueRange(entries, k, 1))
  {
    TextInDict(EntriesText(entries));
    SearchLocates(DictText(entries), 1, entries);
  }

  // ---------------------------------------------------------------------------------------
  // The splice

  lemma Assoc(a: seq<Byte>, b: seq<Byte>, c: seq<Byte>)
    ensures a + (b + c) == (a + b) + c
  {
  }

  /** The text around the value at `k`, which is the same whatever the value is. */
  lemma {:induction false} SplitText(entries: seq<Entry>, k: nat, v: seq<Byte>, i: nat) returns (front: seq<Byte>, back: seq<Byte>)
    requires k < |entries|
    ensures i + |front| == Pos(entries, k, i) + |entries[k].head|
    ensures EntriesText(entries) == front + (entries[k].value + back)
    ensures EntriesText(entries[k := entries[k].(value := v)]) == front + (v + back)
    decreases |entries|
  {
    var e, tail := entries[0], entries[1..];
    var after := entries[k := entries[k].(value := v)];
    if k == 0 {
      front, back := e.head, EntriesText(tail);
      assert after[1..] == tail;
      Assoc(e.head, e.value, back);
      Assoc(e.head, v, back);
    } else {
      var f, b := SplitText(tail, k - 1, v, i + |e.head| + |e.value|);
      assert after[1..] == tail[k - 1 := tail[k - 1].(value := v)];
      front, back := (e.head + e.value) + f, b;
      Assoc(e.head + e.value, f, entries[k].value + b);
      Assoc(e.head + e.value, f, v + b);
    }
  }

  lemma CutParts(front: seq<Byte>, was: seq<Byte>, back: seq<Byte>)
    ensures var whole := front + (was + back);
            && whole[..|front|] == front && whole[|front|..|front| + |was|] == was && whole[|front| + |was|..] == back
  {
  }

  /** The text with the stretch of the value at `k` replaced is the text of the entries with that value replaced. */
  lemma ReplacedText(open: seq<Byte>, entries: seq<Entry>, k: nat, v: seq<Byte>, start: nat, end: nat)
    requires k < |entries| && start == Pos(entries, k, |open|) + |entries[k].head| && end == start + |entries[k].value|
    ensures var text := open + EntriesText(entries);
            end <= |text| && open + EntriesText(entries[k := entries[k].(value := v)]) == text[..start] + v + text[end..]
  {
    var front, back := SplitText(entries, k, v, |open|);
    Assoc(open, front, entries[k].value + back);
    Assoc(open, front, v + back);
    CutParts(open + front, entries[k].value, back);
    Assoc(open + front, v, back);
  }

  /** Writing other `info` bytes into a dictionary changes that entry and no other. */
  lemma EntriesSurvive(entries: seq<Entry>, info: seq<Byte>)
    requires (forall k :: 0 <= k < |entries| ==> GoodEntry(entries[k])) && FirstInfo(entries) < |entries|
    ensures var k := FirstInfo(entries);
            EncodePreservingInfo(Some(DictText(entries)), info) == DictText(entries[k := entries[k].(value := info)])
  {
    var k := FirstInfo(entries);
    var r := ValueRange(entries, k, 1);
    RangeInDictionary(entries);
    PosNext(entries, k, 1);
    ReplacedText([100], entries, k, info, r.start, r.end);
    Spliced(DictText(entries), r.start, r.end, info);
  }

  lemma Spliced(encoded: seq<Byte>, start: nat, end: nat, info: seq<Byte>)
    requires InfoRange(encoded) == Ok(Range(start, end))
    ensures EncodePreservingInfo(Some(encoded), info) == encoded[..start] + info + encoded[end..]
  {
    if encoded[start..end] == info {
      assert encoded == encoded[..start] + encoded[start..end] + encoded[end..];
    }
  }
}
