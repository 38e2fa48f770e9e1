/**
 How a line of the blocklist becomes a range: `parse_cidr` and `range_from_ips` of
 `crates/bit_rev/src/ip_filter.rs`, after the addresses and the prefix length have been read. An
 address is its bits, most significant first, 32 for IPv4 and 128 for IPv6, so that the masks of
 the source are written bit by bit.
 */
module Cidr {
  import opened Basics
  import opened PairSort
  import opened IpFilter

  type Bits = seq<bool>

  datatype RangeError = PrefixOutOfRange | EndBelowStart | FamiliesDiffer

  function Value(b: Bits): nat {
    if b == [] then 0 else 2 * Value(b[..|b| - 1]) + if b[|b| - 1] then 1 else 0
  }

  /** The highest address. */
  function Top(width: nat): nat {
    if width == 0 then 0 else 2 * Top(width - 1) + 1
  }

  /** The first `bits` places set. */
  function Mask(width: nat, bits: nat): (m: Bits)
    ensures |m| == width
  {
    seq(width, i => i < bits)
  }

  function And(a: Bits, b: Bits): (r: Bits)
    requires |a| == |b|
    ensures |r| == |a|
  {
    seq(|a|, i requires 0 <= i < |a| => a[i] && b[i])
  }

  function OrNot(a: Bits, b: Bits): (r: Bits)
    requires |a| == |b|
    ensures |r| == |a|
  {
    seq(|a|, i requires 0 <= i < |a| => a[i] || !b[i])
  }

  /** `parse_cidr`. */
  function CidrRange(ip: Bits, bits: nat): Result<Range, RangeError> {
    if bits > |ip| then Err(PrefixOutOfRange)
    else
      var mask := Mask(|ip|, bits);
      var start := And(ip, mask);
      Ok(Pair(Value(start), Value(OrNot(start, mask))))
  }

  /** `range_from_ips`. */
  function RangeFromIps(start: Bits, end: Bits): Result<Range, RangeError> {
    if |start| != |end| then Err(FamiliesDiffer)
    else if Value(start) > Value(end) then Err(EndBelowStart)
    else Ok(Pair(Value(start), Value(end)))
  }

  lemma {:induction false} ValueIsBounded(b: Bits)
    ensures Value(b) <= Top(|b|)
  {
    if b != [] {
      ValueIsBounded(b[..|b| - 1]);
    }
  }

  lemma {:induction false} ValueIsInjective(a: Bits, b: Bits)
    requires |a| == |b| && Value(a) == Value(b)
    ensures a == b
  {
    if a != [] {
      var n := |a| - 1;
      ValueIsInjective(a[..n], b[..n]);
      assert a == a[..n] + [a[n]] && b == b[..n] + [b[n]];
    }
  }

  /** The prefix followed by the same bit up to the given width. */
  function Fill(prefix: Bits, width: nat, bit: bool): (r: Bits)
    requires |prefix| <= width
    ensures |r| == width
  {
    prefix + seq(width - |prefix|, _ => bit)
  }

  /** Between the prefix with zeros and the prefix with ones lie exactly the numbers with that prefix. */
  lemma {:induction false} BetweenIsPrefix(prefix: Bits, x: Bits)
    requires |prefix| <= |x|
    ensures Value(Fill(prefix, |x|, false)) <= Value(x) <= Value(Fill(prefix, |x|, true)) <==> x[..|prefix|] == prefix
    decreases |x|
  {
    if |x| == |prefix| {
      assert Fill(prefix, |x|, false) == prefix == Fill(prefix, |x|, true);
      assert x[..|prefix|] == x;
      if Value(x) == Value(prefix) {
        ValueIsInjective(x, prefix);
      }
    } else {
      var n := |x| - 1;
      BetweenIsPrefix(prefix, x[..n]);
      assert x[..n][..|prefix|] == x[..|prefix|];
      assert Fill(prefix, |x|, false)[..n] == Fill(prefix, n, false);
      assert Fill(prefix, |x|, true)[..n] == Fill(prefix, n, true);
    }
  }

  /** A CIDR range is valid and holds exactly the addresses that share the prefix. */
  lemma CidrHoldsPrefix(ip: Bits, bits: nat, x: Bits)
    requires bits <= |ip| == |x|
    ensures CidrRange(ip, bits).Ok?
    ensures var r := CidrRange(ip, bits).value;
            && r.fst <= r.snd <= Top(|ip|)
            && (r.fst <= Value(x) <= r.snd <==> x[..bits] == ip[..bits])
  {
    var mask, prefix := Mask(|ip|, bits), ip[..bits];
    var start := And(ip, mask);
    assert start == Fill(prefix, |ip|, false);
    assert OrNot(start, mask) == Fill(prefix, |ip|, true);
    BetweenIsPrefix(prefix, x);
    BetweenIsPrefix(prefix, ip);
    ValueIsBounded(OrNot(start, mask));
  }

  /** Whatever is accepted is a valid range, as merging needs it; a prefix that is too long, a swapped pair and a mixed pair are refused. */
  lemma AcceptedIsValid(a: Bits, b: Bits, bits: nat)
    ensures CidrRange(a, bits).Err? <==> bits > |a|
    ensures RangeFromIps(a, b).Err? <==> |a| != |b| || Value(a) > Value(b)
    ensures CidrRange(a, bits).Ok? ==> ValidRanges([CidrRange(a, bits).value], Top(|a|))
    ensures RangeFromIps(a, b).Ok? ==> ValidRanges([RangeFromIps(a, b).value], Top(|a|))
    ensures RangeFromIps(a, b).Ok? ==> RangeFromIps(a, b).value.fst == Value(a) && RangeFromIps(a, b).value.snd == Value(b)
  {
    ValueIsBounded(b);
    if bits <= |a| {
      CidrHoldsPrefix(a, bits, a);
    }
  }
}
