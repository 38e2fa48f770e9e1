/**
 The bencode walker of `crates/bit_rev/src/file.rs`.

 The walker is specified against a grammar of bencode values: `Encoding` prints a value and
 `Skip` is shown to accept exactly the printed values. Buffers are sequences of bytes; a
 Rust slice is shorter than 2^63 bytes, so the saturating and checked additions of the
 source never meet their limit on an offset inside the buffer.
 */
module Bencode {
  import opened Basics

  const PLUS: Byte := 43
  const LOWER_D: Byte := 100
  const LOWER_E: Byte := 101
  const LOWER_I: Byte := 105
  const LOWER_L: Byte := 108

  /** The key `info`. */
  const INFO_KEY: seq<Byte> := [105, 110, 102, 111]

  /** The header `d4:info` of the fallback file. */
  const WRAP_HEADER: seq<Byte> := [100, 52, 58, 105, 110, 102, 111]

  const MAX_BENCODE_DEPTH: nat := 32
  const USIZE_LIMIT: nat := 0x1_0000_0000_0000_0000

  datatype BencodeError = Truncated | InvalidLength | LengthOverflow | Invalid | NotADict | MissingInfo | TooDeep

  /** A parsed string and the offset after it. */
  datatype StringAt = StringAt(content: seq<Byte>, end: nat)

  datatype Range = Range(start: nat, end: nat)

  predicate AllDigits(s: seq<Byte>) {
    forall k :: 0 <= k < |s| ==> IsDigit(s[k])
  }

  /** The number a run of digits denotes; nothing when some byte is not a digit. */
  function Decimal(s: seq<Byte>): Option<nat> {
    if s == [] then Some(0)
    else
      var front := Decimal(s[..|s| - 1]);
      var last := s[|s| - 1];
      if front.Some? && IsDigit(last) then Some(front.value * 10 + (last - 48)) else None
  }

  /** `str::parse::<usize>`: an optional `+`, at least one digit, and a value below 2^64. */
  function ParseUsize(s: seq<Byte>): Option<nat> {
    if s == [] then None
    else if s[0] == PLUS then ParseDigits(s[1..])
    else ParseDigits(s)
  }

  function ParseDigits(digits: seq<Byte>): Option<nat> {
    var n := Decimal(digits);
    if digits != [] && n.Some? && n.value < USIZE_LIMIT then n else None
  }

  lemma DecimalDigits(s: seq<Byte>)
    ensures Decimal(s).Some? ==> AllDigits(s)
  {
    if s != [] {
      DecimalDigits(s[..|s| - 1]);
      assert s == s[..|s| - 1] + [s[|s| - 1]];
    }
  }

  /** The first offset at or after `i` that holds `b`. */
  function Find(data: seq<Byte>, i: nat, b: Byte): (r: Option<nat>)
    ensures r.Some? ==> i <= r.value < |data| && data[r.value] == b
    decreases |data| - i
  {
    if i >= |data| then None else if data[i] == b then Some(i) else Find(data, i + 1, b)
  }

  lemma FindIsFirst(data: seq<Byte>, i: nat, b: Byte)
    requires i <= |data|
    ensures var end := if Find(data, i, b).Some? then Find(data, i, b).value else |data|; b !in data[i..end]
    decreases |data| - i
  {
    if i < |data| && data[i] != b {
      FindIsFirst(data, i + 1, b);
      var end := if Find(data, i, b).Some? then Find(data, i, b).value else |data|;
      assert data[i..end] == [data[i]] + data[i + 1..end];
    }
  }

  /** A length-prefixed string at `i`: its content and the offset after it. */
  function ParseString(data: seq<Byte>, i: nat): (r: Result<StringAt, BencodeError>)
    ensures r.Ok? ==> i < r.value.end <= |data|
  {
    match Find(data, i, COLON)
    case None => Err(Truncated)
    case Some(colon) =>
      match ParseUsize(data[i..colon])
      case None => Err(InvalidLength)
      case Some(len) =>
        var start := colon + 1;
        if start + len > |data| then Err(if start + len >= USIZE_LIMIT then LengthOverflow else Truncated)
        else Ok(StringAt(data[start..start + len], start + len))
  }

  /** The offset after the value at `i`. */
  function Skip(data: seq<Byte>, i: nat): (r: Result<nat, BencodeError>)
    ensures r.Ok? ==> i < r.value <= |data|
    decreases |data| - i, 0
  {
    if i >= |data| then Err(Truncated)
    else if data[i] == LOWER_I then
      match Find(data, i + 1, LOWER_E)
      case None => Err(Truncated)
      case Some(end) => Ok(end + 1)
    else if data[i] == LOWER_L || data[i] == LOWER_D then
      SkipItems(data, i + 1)
    else if IsDigit(data[i]) then
      match ParseString(data, i)
      case Err(e) => Err(e)
      case Ok(p) => Ok(p.end)
    else Err(Invalid)
  }

  /** The offset after the `e` that closes the container whose items start at `j`. */
  function SkipItems(data: seq<Byte>, j: nat): (r: Result<nat, BencodeError>)
    ensures r.Ok? ==> j < r.value <= |data| && data[r.value - 1] == LOWER_E
    decreases |data| - j, 1
  {
    if j >= |data| then Err(Truncated)
    else if data[j] == LOWER_E then Ok(j + 1)
    else
      match Skip(data, j)
      case Err(e) => Err(e)
      case Ok(next) => SkipItems(data, next)
  }

  /** How many containers a walk from `i` has open at its deepest point, whether or not it succeeds. */
  ghost function Peak(data: seq<Byte>, i: nat): nat
    decreases |data| - i, 0
  {
    if i < |data| && (data[i] == LOWER_L || data[i] == LOWER_D) then 1 + PeakItems(data, i + 1) else 0
  }

  ghost function PeakItems(data: seq<Byte>, j: nat): nat
    decreases |data| - j, 1
  {
    if j >= |data| || data[j] == LOWER_E then 0
    else
      var here := Peak(data, j);
      match Skip(data, j)
      case Err(_) => here
      case Ok(next) => Max(here, PeakItems(data, next))
  }

  /** `skip_bencode`. The ghost result counts the containers that were open at once. */
  method SkipBencode(data: seq<Byte>, i: nat) returns (r: Result<nat, BencodeError>, ghost peak: nat)
    ensures r == Skip(data, i)
    ensures peak == Peak(data, i)
    decreases |data| - i
  {
    peak := 0;
    if i >= |data| {
      return Err(Truncated), 0;
    }
    if data[i] == LOWER_I {
      var end := Find(data, i + 1, LOWER_E);
      return (if end.None? then Err(Truncated) else Ok(end.value + 1)), 0;
    } else if data[i] == LOWER_L || data[i] == LOWER_D {
      var j := i + 1;
      while j < |data| && data[j] != LOWER_E
        invariant i < j <= |data|
        invariant SkipItems(data, i + 1) == SkipItems(data, j)
        invariant PeakItems(data, i + 1) == Max(peak, PeakItems(data, j))
        decreases |data| - j
      {
        var next, inner := SkipBencode(data, j);
        peak := Max(peak, inner);
        if next.Err? {
          return Err(next.error), 1 + peak;
        }
        j := next.value;
      }
      peak := 1 + peak;
      if j >= |data| {
        return Err(Truncated), peak;
      }
      return Ok(j + 1), peak;
    } else if IsDigit(data[i]) {
      var p := ParseString(data, i);
      return (if p.Err? then Err(p.error) else Ok(p.value.end)), 0;
    } else {
      return Err(Invalid), 0;
    }
  }

  // ---------------------------------------------------------------------------------------
  // The grammar

  /** A bencode value as the walker sees it: a dictionary is the flat list of its keys and values. */
  datatype Value =
    | Integer(text: seq<Byte>)
    | Text(prefix: seq<Byte>, content: seq<Byte>)
    | Container(dict: bool, items: Items)

  datatype Items = Nil | Cons(head: Value, tail: Items)

  ghost predicate WellFormed(v: Value) {
    match v
    case Integer(text) => LOWER_E !in text
    case Text(prefix, content) => ParseDigits(prefix) == Some(|content|)
    case Container(_, items) => AllWellFormed(items)
  }

  ghost predicate AllWellFormed(items: Items) {
    items.Cons? ==> WellFormed(items.head) && AllWellFormed(items.tail)
  }

  ghost function Encoding(v: Value): (s: seq<Byte>) {
    match v
    case Integer(text) => [LOWER_I] + text + [LOWER_E]
    case Text(prefix, content) => prefix + [COLON] + content
    case Container(dict, items) => [if dict then LOWER_D else LOWER_L] + ItemsEncoding(items)
  }

  /** The items of a container followed by its closing `e`. */
  ghost function ItemsEncoding(items: Items): (s: seq<Byte>) {
    match items
    case Nil => [LOWER_E]
    case Cons(v, rest) => Encoding(v) + ItemsEncoding(rest)
  }

  /** Containers nested in a value, itself included. */
  ghost function Depth(v: Value): nat {
    match v
    case Container(_, items) => 1 + ItemsDepth(items)
    case _ => 0
  }

  ghost function ItemsDepth(items: Items): nat {
    match items
    case Nil => 0
    case Cons(v, rest) => Max(Depth(v), ItemsDepth(rest))
  }

  /** `data` holds `s` at offset `i`. */
  ghost predicate HoldsAt(data: seq<Byte>, i: nat, s: seq<Byte>) {
    i + |s| <= |data| && forall k :: 0 <= k < |s| ==> data[i + k] == s[k]
  }

  lemma HoldsAtParts(data: seq<Byte>, i: nat, a: seq<Byte>, b: seq<Byte>)
    ensures HoldsAt(data, i, a + b) <==> HoldsAt(data, i, a) && HoldsAt(data, i + |a|, b)
  {
    var n := |a|;
    if HoldsAt(data, i, a + b) {
      forall k | 0 <= k < n ensures data[i + k] == a[k] {
        assert (a + b)[k] == a[k];
      }
      forall k | 0 <= k < |b| ensures data[i + n + k] == b[k] {
        assert (a + b)[n + k] == b[k];
      }
    }
    if HoldsAt(data, i, a) && HoldsAt(data, i + n, b) {
      forall k | 0 <= k < |a + b| ensures data[i + k] == (a + b)[k] {
        if k >= n {
          assert (a + b)[k] == b[k - n];
        }
      }
    }
  }

  lemma HoldsAtSlice(data: seq<Byte>, i: nat, s: seq<Byte>)
    requires HoldsAt(data, i, s)
    ensures data[i..i + |s|] == s
  {
  }

  lemma FirstByte(data: seq<Byte>, i: nat, a: seq<Byte>, b: seq<Byte>)
    requires a != [] && HoldsAt(data, i, a + b)
    ensures i < |data| && data[i] == a[0]
  {
    assert (a + b)[0] == a[0];
  }

  /** A decimal text holds no colon, so the first colon after it is the separator. */
  lemma {:induction false} FindAfter(data: seq<Byte>, i: nat, s: seq<Byte>, b: Byte)
    requires HoldsAt(data, i, s + [b])
    requires b !in s
    ensures Find(data, i, b) == Some(i + |s|)
    decreases |s|
  {
    assert data[i] == (s + [b])[0];
    if s != [] {
      assert s + [b] == [s[0]] + (s[1..] + [b]);
      HoldsAtParts(data, i, [s[0]], s[1..] + [b]);
      FindAfter(data, i + 1, s[1..], b);
    }
  }

  /** A string is recognised from its own bytes alone. */
  lemma ParseStringHere(data: seq<Byte>, i: nat, prefix: seq<Byte>, content: seq<Byte>)
    requires COLON !in prefix && ParseUsize(prefix) == Some(|content|)
    requires HoldsAt(data, i, prefix + [COLON] + content)
    ensures ParseString(data, i) == Ok(StringAt(content, i + |prefix| + 1 + |content|))
  {
    HoldsAtParts(data, i, prefix + [COLON], content);
    FindAfter(data, i, prefix, COLON);
    HoldsAtParts(data, i, prefix, [COLON]);
    HoldsAtSlice(data, i, prefix);
    HoldsAtSlice(data, i + |prefix| + 1, content);
  }

  /** What a recognised string looks like. */
  lemma ParseStringShape(data: seq<Byte>, i: nat) returns (prefix: seq<Byte>)
    requires ParseString(data, i).Ok?
    ensures var StringAt(content, end) := ParseString(data, i).value;
            && COLON !in prefix && ParseUsize(prefix) == Some(|content|)
            && end == i + |prefix| + 1 + |content|
            && HoldsAt(data, i, prefix + [COLON] + content)
  {
    var colon := Find(data, i, COLON).value;
    FindIsFirst(data, i, COLON);
    var StringAt(content, end) := ParseString(data, i).value;
    prefix := data[i..colon];
    assert data[i..end] == prefix + [COLON] + content;
  }

  lemma SkipInteger(data: seq<Byte>, i: nat, text: seq<Byte>)
    requires LOWER_E !in text && HoldsAt(data, i, [LOWER_I] + text + [LOWER_E])
    ensures Skip(data, i) == Ok(i + |text| + 2)
  {
    assert [LOWER_I] + text + [LOWER_E] == [LOWER_I] + (text + [LOWER_E]);
    HoldsAtParts(data, i, [LOWER_I], text + [LOWER_E]);
    assert data[i] == [LOWER_I][0];
    FindAfter(data, i + 1, text, LOWER_E);
  }

  lemma SkipText(data: seq<Byte>, i: nat, prefix: seq<Byte>, content: seq<Byte>)
    requires ParseDigits(prefix) == Some(|content|)
    requires HoldsAt(data, i, prefix + [COLON] + content)
    ensures Skip(data, i) == Ok(i + |prefix| + 1 + |content|)
  {
    DecimalDigits(prefix);
    assert IsDigit(prefix[0]);
    ParseStringHere(data, i, prefix, content);
    assert prefix + [COLON] + content == prefix + ([COLON] + content);
    FirstByte(data, i, prefix, [COLON] + content);
  }

  lemma SkipContainer(data: seq<Byte>, i: nat)
    requires i < |data| && (data[i] == LOWER_L || data[i] == LOWER_D)
    ensures Skip(data, i) == SkipItems(data, i + 1)
  {
  }

  lemma SkipItem(data: seq<Byte>, j: nat)
    requires j < |data| && data[j] != LOWER_E && Skip(data, j).Ok?
    ensures SkipItems(data, j) == SkipItems(data, Skip(data, j).value)
  {
  }

  lemma ContainerParts(data: seq<Byte>, i: nat, v: Value)
    requires v.Container? && HoldsAt(data, i, Encoding(v))
    ensures data[i] == LOWER_L || data[i] == LOWER_D
    ensures HoldsAt(data, i + 1, ItemsEncoding(v.items))
    ensures |Encoding(v)| == 1 + |ItemsEncoding(v.items)|
  {
    var open := [if v.dict then LOWER_D else LOWER_L];
    HoldsAtParts(data, i, open, ItemsEncoding(v.items));
    FirstByte(data, i, open, ItemsEncoding(v.items));
  }

  lemma ItemsParts(data: seq<Byte>, j: nat, v: Value, rest: Items)
    requires WellFormed(v) && HoldsAt(data, j, ItemsEncoding(Cons(v, rest)))
    ensures j < |data| && data[j] != LOWER_E && HoldsAt(data, j, Encoding(v))
    ensures HoldsAt(data, j + |Encoding(v)|, ItemsEncoding(rest))
    ensures |ItemsEncoding(Cons(v, rest))| == |Encoding(v)| + |ItemsEncoding(rest)|
  {
    EncodingStart(v);
    HoldsAtParts(data, j, Encoding(v), ItemsEncoding(rest));
    FirstByte(data, j, Encoding(v), ItemsEncoding(rest));
  }

  /** The walker accepts every printed value, wherever it stands and whatever follows. */
  lemma {:induction false} SkipAcceptsEncoding(data: seq<Byte>, i: nat, v: Value)
    requires WellFormed(v) && HoldsAt(data, i, Encoding(v))
    ensures Skip(data, i) == Ok(i + |Encoding(v)|)
    decreases v
  {
    match v
    case Integer(text) => SkipInteger(data, i, text);
    case Text(prefix, content) => SkipText(data, i, prefix, content);
    case Container(dict, items) =>
      ContainerParts(data, i, v);
      SkipItemsAcceptsEncoding(data, i + 1, items);
      SkipContainer(data, i);
  }

  lemma {:induction false} EncodingStart(v: Value)
    requires WellFormed(v)
    ensures Encoding(v) != [] && Encoding(v)[0] != LOWER_E
    ensures v.Container? <==> Encoding(v)[0] == LOWER_L || Encoding(v)[0] == LOWER_D
  {
    if v.Text? {
      DecimalDigits(v.prefix);
      assert IsDigit(v.prefix[0]);
    }
  }

  lemma {:induction false} SkipItemsAcceptsEncoding(data: seq<Byte>, j: nat, items: Items)
    requires AllWellFormed(items) && HoldsAt(data, j, ItemsEncoding(items))
    ensures SkipItems(data, j) == Ok(j + |ItemsEncoding(items)|)
    decreases items
  {
    match items
    case Nil => assert data[j] == ItemsEncoding(items)[0];
    case Cons(v, rest) =>
      ItemsParts(data, j, v, rest);
      SkipAcceptsEncoding(data, j, v);
      SkipItemsAcceptsEncoding(data, j + |Encoding(v)|, rest);
      SkipItem(data, j);
  }

  /** The walk over a printed value opens as many containers at once as the value nests. */
  lemma {:induction false} PeakIsDepth(data: seq<Byte>, i: nat, v: Value)
    requires WellFormed(v) && HoldsAt(data, i, Encoding(v))
    ensures Peak(data, i) == Depth(v)
    decreases v
  {
    if v.Container? {
      ContainerParts(data, i, v);
      PeakItemsIsDepth(data, i + 1, v.items);
    } else {
      EncodingStart(v);
      assert data[i] == Encoding(v)[0];
    }
  }

  lemma {:induction false} PeakItemsIsDepth(data: seq<Byte>, j: nat, items: Items)
    requires AllWellFormed(items) && HoldsAt(data, j, ItemsEncoding(items))
    ensures PeakItems(data, j) == ItemsDepth(items)
    decreases items
  {
    match items
    case Nil => assert data[j] == ItemsEncoding(items)[0];
    case Cons(v, rest) =>
      ItemsParts(data, j, v, rest);
      SkipAcceptsEncoding(data, j, v);
      PeakIsDepth(data, j, v);
      PeakItemsIsDepth(data, j + |Encoding(v)|, rest);
  }

  lemma SkippedInteger(data: seq<Byte>, i: nat) returns (text: seq<Byte>)
    requires i < |data| && data[i] == LOWER_I && Skip(data, i).Ok?
    ensures LOWER_E !in text && HoldsAt(data, i, [LOWER_I] + text + [LOWER_E])
    ensures Skip(data, i).value == i + |text| + 2
  {
    var end := Find(data, i + 1, LOWER_E).value;
    FindIsFirst(data, i + 1, LOWER_E);
    text := data[i + 1..end];
    assert data[i..end + 1] == [LOWER_I] + text + [LOWER_E];
  }

  lemma SkippedText(data: seq<Byte>, i: nat) returns (prefix: seq<Byte>, content: seq<Byte>)
    requires i < |data| && IsDigit(data[i]) && ParseString(data, i).Ok?
    ensures ParseDigits(prefix) == Some(|content|)
    ensures HoldsAt(data, i, prefix + [COLON] + content)
    ensures ParseString(data, i).value.end == i + |prefix| + 1 + |content|
  {
    prefix := ParseStringShape(data, i);
    content := ParseString(data, i).value.content;
    assert prefix + [COLON] + content == prefix + ([COLON] + content);
    FirstByte(data, i, prefix, [COLON] + content);
  }

  /** Whatever the walker accepts is a printed value. */
  lemma {:induction false} SkipAcceptsOnlyEncodings(data: seq<Byte>, i: nat) returns (v: Value)
    requires Skip(data, i).Ok?
    ensures WellFormed(v) && HoldsAt(data, i, Encoding(v))
    ensures Skip(data, i).value == i + |Encoding(v)|
    decreases |data| - i, 0
  {
    if data[i] == LOWER_I {
      var text := SkippedInteger(data, i);
      v := Integer(text);
    } else if data[i] == LOWER_L || data[i] == LOWER_D {
      var items := SkipItemsAcceptsOnlyEncodings(data, i + 1);
      v := Container(data[i] == LOWER_D, items);
      HoldsAtParts(data, i, [data[i]], ItemsEncoding(items));
    } else {
      var prefix, content := SkippedText(data, i);
      v := Text(prefix, content);
    }
  }

  lemma {:induction false} SkipItemsAcceptsOnlyEncodings(data: seq<Byte>, j: nat) returns (items: Items)
    requires SkipItems(data, j).Ok?
    ensures AllWellFormed(items) && HoldsAt(data, j, ItemsEncoding(items))
    ensures SkipItems(data, j).value == j + |ItemsEncoding(items)|
    decreases |data| - j, 1
  {
    if data[j] == LOWER_E {
      items := Nil;
    } else {
      var v := SkipAcceptsOnlyEncodings(data, j);
      var rest := SkipItemsAcceptsOnlyEncodings(data, j + |Encoding(v)|);
      items := Cons(v, rest);
      HoldsAtParts(data, j, Encoding(v), ItemsEncoding(rest));
    }
  }

  /** The walker recognises exactly the printed values. */
  lemma SkipRecognisesGrammar(data: seq<Byte>, i: nat, end: nat)
    ensures Skip(data, i) == Ok(end)
            <==> end <= |data| && exists v :: WellFormed(v) && HoldsAt(data, i, Encoding(v)) && end == i + |Encoding(v)|
  {
    if Skip(data, i) == Ok(end) {
      var v := SkipAcceptsOnlyEncodings(data, i);
    }
    forall v | WellFormed(v) && HoldsAt(data, i, Encoding(v)) && end == i + |Encoding(v)|
      ensures Skip(data, i) == Ok(end)
    {
      SkipAcceptsEncoding(data, i, v);
    }
  }

  /** The result depends only on the bytes it consumes, and moves with them. */
  lemma SkipIsLocal(data: seq<Byte>, i: nat, other: seq<Byte>, k: nat)
    requires Skip(data, i).Ok?
    requires HoldsAt(other, k, data[i..Skip(data, i).value])
    ensures Skip(other, k) == Ok(k + Skip(data, i).value - i)
  {
    var v := SkipAcceptsOnlyEncodings(data, i);
    HoldsAtSlice(data, i, Encoding(v));
    SkipAcceptsEncoding(other, k, v);
  }

  lemma ParseStringIsLocal(data: seq<Byte>, i: nat, other: seq<Byte>)
    requires ParseString(data, i).Ok?
    requires HoldsAt(other, i, data[i..ParseString(data, i).value.end])
    ensures ParseString(other, i) == ParseString(data, i)
  {
    var prefix := ParseStringShape(data, i);
    HoldsAtSlice(data, i, prefix + [COLON] + ParseString(data, i).value.content);
    ParseStringHere(other, i, prefix, ParseString(data, i).value.content);
  }

  // ---------------------------------------------------------------------------------------
  // The format in literal bytes

  /** Integers, strings, lists and dictionaries as they stand in a file. */
  lemma FormatBytes(text: seq<Byte>, prefix: seq<Byte>, content: seq<Byte>, items: Items)
    ensures Encoding(Integer(text)) == [105] + text + [101]
    ensures Encoding(Text(prefix, content)) == prefix + [58] + content
    ensures Encoding(Container(false, items)) == [108] + ItemsEncoding(items)
    ensures Encoding(Container(true, items)) == [100] + ItemsEncoding(items)
    ensures ItemsEncoding(Nil) == [101]
  {
  }

  /** The decimal digits of a number. */
  function Digits(n: nat): (s: seq<Byte>)
    ensures s != []
  {
    if n < 10 then [48 + n] else Digits(n / 10) + [48 + n % 10]
  }

  /** A length prefix is an ordinary decimal number: printed digits read as the number, up to 2^64, also after a plus sign. */
  lemma {:induction false} DigitsRead(n: nat)
    ensures Decimal(Digits(n)) == Some(n)
  {
    if n >= 10 {
      DigitsRead(n / 10);
      assert Digits(n)[..|Digits(n)| - 1] == Digits(n / 10);
    }
  }

  lemma PrefixReads(n: nat)
    ensures ParseUsize(Digits(n)) == ParseUsize([43] + Digits(n)) == if n < 0x1_0000_0000_0000_0000 then Some(n) else None
    ensures ParseUsize([]) == None && ParseUsize([43]) == None
  {
    DigitsRead(n);
    DecimalDigits(Digits(n));
    assert ([43] + Digits(n))[1..] == Digits(n);
  }

  /** A skip fails because the data ends, a length is no number or too large, or a byte starts no value. */
  lemma {:induction false} SkipErrors(data: seq<Byte>, i: nat)
    ensures Skip(data, i).Err? ==> Skip(data, i).error in {Truncated, InvalidLength, LengthOverflow, Invalid}
    ensures Skip(data, i) == Err(Truncated) <== i >= |data|
    decreases |data| - i, 0
  {
    if i < |data| && (data[i] == LOWER_L || data[i] == LOWER_D) {
      SkipItemsErrors(data, i + 1);
    }
  }

  lemma {:induction false} SkipItemsErrors(data: seq<Byte>, j: nat)
    ensures SkipItems(data, j).Err? ==> SkipItems(data, j).error in {Truncated, InvalidLength, LengthOverflow, Invalid}
    decreases |data| - j, 1
  {
    if j < |data| && data[j] != LOWER_E {
      SkipErrors(data, j);
      if Skip(data, j).Ok? {
        SkipItemsErrors(data, Skip(data, j).value);
      }
    }
  }
}
