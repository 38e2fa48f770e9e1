/**
 Socket addresses in the text of a magnet link: how they are printed, what the percent decoding
 of `crates/bit_rev/src/magnet.rs` does to them, and which of them come back. The printed forms
 of the plain IP addresses and the address reader belong to the platform and are parameters.
 */
module SocketText {
  import opened Basics
  import opened PercentCode

  type Text = seq<Byte>

  const AMPERSAND: Byte := 38
  const OPEN_BRACKET: Byte := 91
  const CLOSE_BRACKET: Byte := 93

  /** An IPv6 socket address also has a flow label and a scope identifier. */
  datatype Addr = V4(ip: nat, port: nat) | V6(ip: nat, flow: nat, scope: nat, port: nat)

  /** The fields have the widths of the platform's types. */
  predicate IsAddr(a: Addr) {
    && a.port < 0x1_0000
    && (a.V4? ==> a.ip < 0x1_0000_0000)
    && (a.V6? ==> a.ip < 0x1_0000_0000_0000_0000_0000_0000_0000_0000 && a.flow < 0x1_0000_0000 && a.scope < 0x1_0000_0000)
  }

  /** `utf8` is the identity on valid UTF-8 and the lossy conversion elsewhere. */
  datatype Platform = Platform(utf8: Text -> Text, v4: (nat, nat) -> Text, v6: nat -> Text, read: Text -> Option<Addr>)

  function Decimal(n: nat): Text {
    if n < 10 then [48 + n] else Decimal(n / 10) + [48 + n % 10]
  }

  function ScopeText(scope: nat): Text {
    if scope == 0 then [] else [PERCENT] + Decimal(scope)
  }

  function Head(p: Platform, ip: nat): Text {
    [OPEN_BRACKET] + p.v6(ip)
  }

  function Tail(port: nat): Text {
    [CLOSE_BRACKET, COLON] + Decimal(port)
  }

  /** The printed address. The flow label is not printed, and a scope identifier follows a percent sign. */
  function Show(p: Platform, a: Addr): Text {
    match a
    case V4(ip, port) => p.v4(ip, port)
    case V6(ip, _, scope, port) => Head(p, ip) + (ScopeText(scope) + Tail(port))
  }

  // ---------------------------------------------------------------------------------------
  // What the platform promises

  /** The first place of a separator, or the length. */
  function IndexOf(s: Text, sep: Byte): (i: nat)
    ensures i <= |s| && sep !in s[..i] && (i < |s| ==> s[i] == sep)
  {
    if s == [] then 0
    else if s[0] == sep then 0
    else
      var i := IndexOf(s[1..], sep);
      assert s[..i + 1] == [s[0]] + s[1..][..i];
      i + 1
  }

  /** The digits at the front. */
  function Run(s: Text): (n: nat)
    ensures n <= |s|
  {
    if s != [] && IsDigit(s[0]) then 1 + Run(s[1..]) else 0
  }

  function Number(digits: Text): int {
    if digits == [] then 0 else Number(digits[..|digits| - 1]) * 10 - 48 + digits[|digits| - 1]
  }

  /** The number after the first percent sign, or zero. */
  function ScopeIn(t: Text): int {
    var i := IndexOf(t, PERCENT);
    if i == |t| then 0 else Number(t[i + 1..][..Run(t[i + 1..])])
  }

  /** Text that percent decoding, splitting and UTF-8 leave alone. */
  ghost predicate Plain(t: Text) {
    forall b :: b in t ==> b < 128 && b != PERCENT && b != AMPERSAND
  }

  /** Bytes below 128 are valid UTF-8. */
  ghost predicate KeepsAscii(p: Platform) {
    forall s: Text :: (forall b :: b in s ==> b < 128) ==> p.utf8(s) == s
  }

  /** The lossy conversion makes up no percent sign. */
  ghost predicate AddsNoPercent(p: Platform) {
    forall s: Text :: PERCENT in p.utf8(s) ==> PERCENT in s
  }

  ghost predicate PrintsPlain(p: Platform) {
    && (forall ip: nat, port: nat :: Plain(p.v4(ip, port)))
    && (forall ip: nat :: Plain(p.v6(ip)))
  }

  /** Reading a printed address gives it back, without its flow label. */
  ghost predicate ReadsPrinted(p: Platform) {
    forall a: Addr :: IsAddr(a) ==> p.read(Show(p, a)) == Some(if a.V4? then a else a.(flow := 0))
  }

  /** An IPv6 address that was read has the scope that is written, and no flow label. */
  ghost predicate ReadsScope(p: Platform) {
    forall t: Text :: p.read(t).Some? && p.read(t).value.V6? ==> p.read(t).value.flow == 0 && p.read(t).value.scope == ScopeIn(t)
  }

  ghost predicate Standard(p: Platform) {
    KeepsAscii(p) && AddsNoPercent(p) && PrintsPlain(p) && ReadsPrinted(p) && ReadsScope(p)
  }

  // ---------------------------------------------------------------------------------------
  // Numbers

  lemma {:induction false} DecimalIsNumber(n: nat)
    ensures Number(Decimal(n)) == n
    ensures forall b :: b in Decimal(n) ==> IsDigit(b)
    ensures n < 10 <==> |Decimal(n)| == 1
    ensures |Decimal(n)| >= 1
  {
    if n >= 10 {
      DecimalIsNumber(n / 10);
      assert Decimal(n)[..|Decimal(n)| - 1] == Decimal(n / 10);
    }
  }

  lemma {:induction false} RunOfDigits(digits: Text, rest: Text)
    requires (forall b :: b in digits ==> IsDigit(b)) && rest != [] && !IsDigit(rest[0])
    ensures Run(digits + rest) == |digits|
  {
    if digits == [] {
      assert digits + rest == rest;
    } else {
      assert (digits + rest)[1..] == digits[1..] + rest;
      RunOfDigits(digits[1..], rest);
    }
  }

  /** Digits in front of a number make it larger. */
  lemma {:induction false} NumberGrows(a: Text, b: Text)
    requires Number(a) > 0 && forall d :: d in b ==> IsDigit(d)
    ensures 0 <= Number(b) < Number(a + b)
    decreases |b|
  {
    if b == [] {
      assert a + b == a;
    } else {
      assert b[|b| - 1] in b;
      NumberGrows(a, b[..|b| - 1]);
      assert (a + b)[..|a + b| - 1] == a + b[..|b| - 1];
    }
  }

  lemma IndexAfter(a: Text, sep: Byte, b: Text)
    requires sep !in a
    ensures IndexOf(a + [sep] + b, sep) == |a|
  {
    var s := a + [sep] + b;
    assert s[|a|] == sep;
    assert forall k :: 0 <= k < |a| ==> s[k] == a[k];
  }

  lemma IndexPlain(a: Text, sep: Byte)
    requires sep !in a
    ensures IndexOf(a, sep) == |a|
  {
  }

  // ---------------------------------------------------------------------------------------
  // Decoding a printed address

  lemma {:induction false} DecodeBehind(head: Text, rest: Text)
    requires PERCENT !in head
    ensures Decode(head + rest) == head + Decode(rest)
  {
    if head == [] {
      assert head + rest == rest;
    } else {
      assert (head + rest)[1..] == head[1..] + rest;
      DecodeBehind(head[1..], rest);
    }
  }

  lemma TailIsPlain(port: nat)
    ensures Plain(Tail(port)) && Tail(port)[0] == CLOSE_BRACKET
  {
    DecimalIsNumber(port);
  }

  /** A one-digit scope is no escape, because a bracket follows it. */
  lemma ShortScopeDecodes(scope: nat, port: nat)
    requires 0 < scope < 10
    ensures Decode(ScopeText(scope) + Tail(port)) == ScopeText(scope) + Tail(port)
  {
    var rest := [48 + scope] + Tail(port);
    var s := ScopeText(scope) + Tail(port);
    TailIsPlain(port);
    assert s == [PERCENT] + rest && s[1..] == rest && s[2] == CLOSE_BRACKET;
    DecodePlain(rest);
  }

  /** A longer one is read as an escape: its first two digits become one byte. */
  lemma LongScopeDecodes(scope: nat, port: nat) returns (b: Byte, digits: Text)
    requires scope >= 10
    ensures Decode(ScopeText(scope) + Tail(port)) == [b] + (digits + Tail(port))
    ensures forall d :: d in digits ==> IsDigit(d)
    ensures b == PERCENT ==> 0 <= Number(digits) < scope
  {
    var all := Decimal(scope);
    DecimalIsNumber(scope);
    TailIsPlain(port);
    digits := all[2..];
    b := EscapeDecodes(all, Tail(port));
    if b == PERCENT {
      LeadIsPositive(all);
      assert all == all[..2] + digits;
      NumberGrows(all[..2], digits);
    }
  }

  lemma EscapeDecodes(all: Text, tail: Text) returns (b: Byte)
    requires |all| >= 2 && (forall d :: d in all ==> IsDigit(d)) && PERCENT !in tail
    ensures IsDigit(all[0]) && IsDigit(all[1]) && b == (all[0] - 48) * 16 + (all[1] - 48)
    ensures Decode([PERCENT] + all + tail) == [b] + (all[2..] + tail)
    ensures forall d :: d in all[2..] ==> IsDigit(d)
  {
    assert all[0] in all && all[1] in all;
    b := (all[0] - 48) * 16 + (all[1] - 48);
    var s, rest := [PERCENT] + all + tail, all[2..] + tail;
    assert s[0] == PERCENT && s[1] == all[0] && s[2] == all[1] && s[3..] == rest;
    assert forall d :: d in all[2..] ==> d in all;
    DecodePlain(rest);
  }

  lemma LeadIsPositive(all: Text)
    requires |all| >= 2 && IsDigit(all[0]) && IsDigit(all[1]) && (all[0] - 48) * 16 + (all[1] - 48) == PERCENT
    ensures Number(all[..2]) == 25
  {
    var lead := all[..2];
    assert lead[..1][..0] == [] && lead[..1] == [all[0]];
    assert Number(lead[..1]) == Number([]) * 10 - 48 + all[0];
  }

  /** What parsing makes of a printed address. */
  function Reread(p: Platform, a: Addr): Option<Addr> {
    p.read(p.utf8(Decode(Show(p, a))))
  }

  /** The addresses that come back. */
  predicate Survives(a: Addr) {
    a.V6? ==> a.flow == 0 && a.scope < 10
  }

  lemma ShortComesBack(p: Platform, a: Addr)
    requires Standard(p) && IsAddr(a) && (a.V6? ==> a.scope < 10)
    ensures Reread(p, a) == Some(if a.V4? then a else a.(flow := 0))
  {
    var text := Show(p, a);
    assert forall b :: b in text ==> b < 128 by {
      if a.V6? {
        TailIsPlain(a.port);
        DecimalIsNumber(a.scope);
        assert Plain(p.v6(a.ip));
      }
    }
    assert Decode(text) == text by {
      if a.V4? {
        DecodePlain(text);
      } else {
        assert Plain(p.v6(a.ip));
        DecodeBehind(Head(p, a.ip), ScopeText(a.scope) + Tail(a.port));
        TailIsPlain(a.port);
        if a.scope == 0 {
          assert ScopeText(a.scope) + Tail(a.port) == Tail(a.port);
          DecodePlain(Tail(a.port));
        } else {
          ShortScopeDecodes(a.scope, a.port);
        }
      }
    }
  }

  lemma LongIsLost(p: Platform, a: Addr)
    requires Standard(p) && IsAddr(a) && a.V6? && a.scope >= 10
    ensures Reread(p, a) != Some(a)
  {
    var head, tail := Head(p, a.ip), Tail(a.port);
    assert Plain(p.v6(a.ip));
    TailIsPlain(a.port);
    var b, digits := LongScopeDecodes(a.scope, a.port);
    DecodeBehind(head, ScopeText(a.scope) + tail);
    var x := head + [b] + (digits + tail);
    assert Decode(Show(p, a)) == x by {
      assert head + ([b] + (digits + tail)) == x;
    }
    ScopeIsLost(p, head, b, digits, tail, a.scope);
  }

  lemma ScopeIsLost(p: Platform, head: Text, b: Byte, digits: Text, tail: Text, scope: nat)
    requires KeepsAscii(p) && AddsNoPercent(p)
    requires Plain(head) && Plain(tail) && tail != [] && tail[0] == CLOSE_BRACKET && scope > 0
    requires (forall d :: d in digits ==> IsDigit(d)) && (b == PERCENT ==> 0 <= Number(digits) < scope)
    ensures ScopeIn(p.utf8(head + [b] + (digits + tail))) != scope
  {
    var x := head + [b] + (digits + tail);
    if b == PERCENT {
      assert forall d :: d in x ==> d < 128;
      IndexAfter(head, PERCENT, digits + tail);
      RunOfDigits(digits, tail);
      assert x[|head| + 1..] == digits + tail;
      assert (digits + tail)[..|digits|] == digits;
    } else {
      assert PERCENT !in x;
      IndexPlain(p.utf8(x), PERCENT);
    }
  }

  /** An address comes back if and only if it has no flow label and at most a one-digit scope. */
  lemma ComesBackIff(p: Platform, a: Addr)
    requires Standard(p) && IsAddr(a)
    ensures Reread(p, a) == Some(a) <==> Survives(a)
  {
    if a.V6? && a.scope >= 10 {
      LongIsLost(p, a);
    } else {
      ShortComesBack(p, a);
    }
  }

  /** No printed address splits the query. */
  lemma NoAmpersand(p: Platform, a: Addr)
    requires PrintsPlain(p)
    ensures AMPERSAND !in Show(p, a)
  {
    if a.V6? {
      TailIsPlain(a.port);
      DecimalIsNumber(a.scope);
      assert Plain(p.v6(a.ip));
    } else {
      assert Plain(p.v4(a.ip, a.port));
    }
  }

  // ---------------------------------------------------------------------------------------
  // A platform that keeps all these promises

  function SampleV4(ip: nat, port: nat): Text {
    Decimal(ip) + ([COLON] + Decimal(port))
  }

  function Natural(digits: Text): nat {
    Max(Number(digits), 0)
  }

  /** Prints addresses as decimal numbers; reads nothing yet. */
  function Printer(): Platform {
    Platform(s => s, SampleV4, Decimal, _ => None)
  }

  /** The address that a text could stand for. */
  function Guess(t: Text): Addr
    requires t != []
  {
    if t[0] == OPEN_BRACKET then
      var at := IndexOf(t, CLOSE_BRACKET);
      V6(Natural(t[1..][..Run(t[1..])]), 0, Max(ScopeIn(t), 0), if at + 2 <= |t| then Natural(t[at + 2..]) else 0)
    else V4(Natural(t[..Run(t)]), if Run(t) < |t| then Natural(t[Run(t) + 1..]) else 0)
  }

  /** Reads exactly the printed texts. */
  function SampleRead(t: Text): Option<Addr> {
    if t != [] && IsAddr(Guess(t)) && Show(Printer(), Guess(t)) == t then Some(Guess(t)) else None
  }

  function Sample(): Platform {
    Printer().(read := SampleRead)
  }

  lemma GuessV4(ip: nat, port: nat)
    ensures var t := SampleV4(ip, port); t != [] && t[0] != OPEN_BRACKET && Guess(t) == V4(ip, port)
  {
    DecimalIsNumber(ip);
    DecimalIsNumber(port);
    GuessV4Parts(Decimal(ip), Decimal(port));
  }

  lemma GuessV4Parts(ip: Text, port: Text)
    requires ip != [] && forall d :: d in ip ==> IsDigit(d)
    ensures var t := ip + ([COLON] + port);
            t != [] && t[0] != OPEN_BRACKET && Guess(t) == V4(Natural(ip), Natural(port))
  {
    var t := ip + ([COLON] + port);
    RunOfDigits(ip, [COLON] + port);
    assert ip[0] in ip && t[0] == ip[0];
    assert t[..|ip|] == ip && t[|ip| + 1..] == port;
  }

  /** The number after the percent sign of a text. */
  lemma ScopeAt(head: Text, digits: Text, tail: Text)
    requires PERCENT !in head && (forall d :: d in digits ==> IsDigit(d)) && tail != [] && !IsDigit(tail[0])
    ensures ScopeIn(head + [PERCENT] + (digits + tail)) == Number(digits)
  {
    var t, rest := head + [PERCENT] + (digits + tail), digits + tail;
    IndexAfter(head, PERCENT, rest);
    RunOfDigits(digits, tail);
    assert t[|head| + 1..] == rest && rest[..|digits|] == digits;
  }

  lemma ScopeOfPrinted(head: Text, scope: nat, port: nat)
    requires PERCENT !in head
    ensures ScopeIn(head + (ScopeText(scope) + Tail(port))) == scope
  {
    var tail, digits := Tail(port), Decimal(scope);
    TailIsPlain(port);
    DecimalIsNumber(scope);
    if scope == 0 {
      assert ScopeText(scope) + tail == tail;
      IndexPlain(head + tail, PERCENT);
    } else {
      assert head + ([PERCENT] + digits + tail) == head + [PERCENT] + (digits + tail);
      ScopeAt(head, digits, tail);
    }
  }

  /** What follows the closing bracket of a text. */
  lemma PortAt(before: Text, digits: Text)
    requires CLOSE_BRACKET !in before
    ensures var t := before + ([CLOSE_BRACKET, COLON] + digits);
            IndexOf(t, CLOSE_BRACKET) == |before| && |before| + 2 <= |t| && t[|before| + 2..] == digits
  {
    var t := before + ([CLOSE_BRACKET, COLON] + digits);
    assert t == before + [CLOSE_BRACKET] + ([COLON] + digits);
    IndexAfter(before, CLOSE_BRACKET, [COLON] + digits);
  }

  /** The digits after the opening bracket of a text. */
  lemma IpAt(digits: Text, after: Text)
    requires (forall d :: d in digits ==> IsDigit(d)) && after != [] && !IsDigit(after[0])
    ensures var t := [OPEN_BRACKET] + digits + after; t[1..][..Run(t[1..])] == digits
  {
    var t := [OPEN_BRACKET] + digits + after;
    assert t[1..] == digits + after;
    RunOfDigits(digits, after);
  }

  lemma GuessParts(ip: Text, scope: Text, port: Text)
    requires (forall d :: d in ip ==> IsDigit(d)) && CLOSE_BRACKET !in scope && (scope != [] ==> !IsDigit(scope[0]))
    ensures var t := [OPEN_BRACKET] + ip + (scope + ([CLOSE_BRACKET, COLON] + port));
            Guess(t) == V6(Natural(ip), 0, Max(ScopeIn(t), 0), Natural(port))
  {
    var after := scope + ([CLOSE_BRACKET, COLON] + port);
    var t, before := [OPEN_BRACKET] + ip + after, [OPEN_BRACKET] + ip + scope;
    assert t[1..][..Run(t[1..])] == ip by {
      IpAt(ip, after);
    }
    assert IndexOf(t, CLOSE_BRACKET) == |before| && |before| + 2 <= |t| && t[|before| + 2..] == port by {
      assert t == before + ([CLOSE_BRACKET, COLON] + port);
      PortAt(before, port);
    }
  }

  lemma GuessV6(ip: nat, scope: nat, port: nat)
    ensures var t := [OPEN_BRACKET] + Decimal(ip) + (ScopeText(scope) + Tail(port));
            Guess(t) == V6(ip, 0, scope, port)
  {
    DecimalIsNumber(ip);
    DecimalIsNumber(port);
    ScopeTextShape(scope);
    ScopeOfPrinted([OPEN_BRACKET] + Decimal(ip), scope, port);
    GuessParts(Decimal(ip), ScopeText(scope), Decimal(port));
  }

  lemma ScopeTextShape(scope: nat)
    ensures CLOSE_BRACKET !in ScopeText(scope) && (ScopeText(scope) != [] ==> !IsDigit(ScopeText(scope)[0]))
  {
    DecimalIsNumber(scope);
  }

  lemma SamplePrintsPlain()
    ensures PrintsPlain(Sample())
  {
    var p := Sample();
    forall ip: nat, port: nat ensures Plain(p.v4(ip, port)) {
      DecimalIsPlain(ip);
      DecimalIsPlain(port);
      PlainConcat(Decimal(ip), [COLON] + Decimal(port));
    }
    forall ip: nat ensures Plain(p.v6(ip)) {
      DecimalIsPlain(ip);
    }
  }

  lemma PlainConcat(a: Text, b: Text)
    requires Plain(a) && Plain(b)
    ensures Plain(a + b)
  {
  }

  lemma DecimalIsPlain(n: nat)
    ensures Plain(Decimal(n)) && Plain([COLON] + Decimal(n))
  {
    DecimalIsNumber(n);
  }

  lemma SampleReadsPrinted(a: Addr)
    requires IsAddr(a)
    ensures SampleRead(Show(Sample(), a)) == Some(if a.V4? then a else a.(flow := 0))
  {
    var t := Show(Sample(), a);
    match a
    case V4(ip, port) =>
      GuessV4(ip, port);
      ReadsGuess(t, a);
    case V6(ip, _, scope, port) =>
      GuessV6(ip, scope, port);
      ReadsGuess(t, a.(flow := 0));
  }

  lemma ReadsGuess(t: Text, a: Addr)
    requires t != [] && Guess(t) == a && IsAddr(a) && Show(Printer(), a) == t
    ensures SampleRead(t) == Some(a)
  {
  }

  lemma SampleReadsScope(t: Text)
    requires SampleRead(t).Some? && SampleRead(t).value.V6?
    ensures SampleRead(t).value.flow == 0 && SampleRead(t).value.scope == ScopeIn(t)
  {
    var a := Guess(t);
    DecimalIsNumber(a.ip);
    ScopeOfPrinted([OPEN_BRACKET] + Decimal(a.ip), a.scope, a.port);
  }

  /** So the promises can be kept. */
  lemma SampleIsStandard()
    ensures Standard(Sample())
  {
    var p := Sample();
    SamplePrintsPlain();
    forall a: Addr | IsAddr(a) ensures p.read(Show(p, a)) == Some(if a.V4? then a else a.(flow := 0)) {
      SampleReadsPrinted(a);
    }
    forall t: Text | p.read(t).Some? && p.read(t).value.V6?
      ensures p.read(t).value.flow == 0 && p.read(t).value.scope == ScopeIn(t)
    {
      SampleReadsScope(t);
    }
  }
}
