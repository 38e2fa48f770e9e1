/**
 The blocklist index of `crates/bit_rev/src/ip_filter.rs`: merging address ranges into a
 sorted list with gaps, and looking an address up by binary search. Addresses are numbers up
 to `top`, which is 2^32 - 1 for IPv4 and 2^128 - 1 for IPv6.
 */
module IpFilter {
  import opened Basics
  import opened PairSort

  /** A range of addresses, both ends included. */
  type Range = Pair

  ghost predicate ValidRanges(ranges: seq<Range>, top: nat) {
    forall r :: r in ranges ==> r.fst <= r.snd <= top
  }

  /** Some range of the list holds the address. */
  ghost predicate Blocked(ranges: seq<Range>, ip: nat) {
    exists k :: 0 <= k < |ranges| && ranges[k].fst <= ip <= ranges[k].snd
  }

  /** Valid ranges in ascending order with at least one free address between neighbours. */
  ghost predicate Canonical(ranges: seq<Range>, top: nat) {
    && (forall k :: 0 <= k < |ranges| ==> ranges[k].fst <= ranges[k].snd <= top)
    && (forall i, j :: 0 <= i < j < |ranges| ==> ranges[i].snd + 1 < ranges[j].fst)
  }

  ghost predicate SameSet(a: seq<Range>, b: seq<Range>) {
    forall ip: nat :: Blocked(a, ip) <==> Blocked(b, ip)
  }

  function SaturatingAddOne(x: nat, top: nat): nat {
    if x < top then x + 1 else x
  }

  // ---------------------------------------------------------------------------------------
  // The canonical form is unique

  lemma BlockedTail(a: seq<Range>, top: nat, ip: nat)
    requires Canonical(a, top) && a != []
    ensures Blocked(a[1..], ip) <==> Blocked(a, ip) && ip > a[0].snd
  {
    if Blocked(a[1..], ip) {
      var k :| 0 <= k < |a[1..]| && a[1..][k].fst <= ip <= a[1..][k].snd;
      assert a[k + 1] == a[1..][k];
    }
    if Blocked(a, ip) && ip > a[0].snd {
      var k :| 0 <= k < |a| && a[k].fst <= ip <= a[k].snd;
      assert a[k] == a[1..][k - 1];
    }
  }

  /** The first range of a canonical list is the first run of blocked addresses. */
  lemma FirstRun(a: seq<Range>, top: nat)
    requires Canonical(a, top) && a != []
    ensures Blocked(a, a[0].fst) && Blocked(a, a[0].snd) && !Blocked(a, a[0].snd + 1)
    ensures forall ip: nat :: ip < a[0].fst ==> !Blocked(a, ip)
    ensures forall ip: nat :: a[0].fst <= ip <= a[0].snd ==> Blocked(a, ip)
  {
    assert a[0].fst <= a[0].snd;
    forall ip: nat | ip < a[0].fst ensures !Blocked(a, ip) {
      assert forall k :: 0 < k < |a| ==> a[0].snd + 1 < a[k].fst;
    }
  }

  lemma FirstRangesAgree(a: seq<Range>, b: seq<Range>, top: nat)
    requires Canonical(a, top) && Canonical(b, top) && SameSet(a, b) && a != [] && b != []
    ensures a[0] == b[0]
  {
    FirstRun(a, top);
    FirstRun(b, top);
    assert Blocked(b, a[0].fst) && Blocked(a, b[0].fst);
    assert a[0].fst == b[0].fst;
    assert !Blocked(b, a[0].snd + 1) && !Blocked(a, b[0].snd + 1);
  }

  lemma BothEmpty(a: seq<Range>, b: seq<Range>, top: nat)
    requires Canonical(a, top) && Canonical(b, top) && SameSet(a, b)
    ensures a == [] <==> b == []
  {
    if a != [] {
      FirstRun(a, top);
    }
    if b != [] {
      FirstRun(b, top);
    }
  }

  /** Two canonical lists that block the same addresses are equal. */
  lemma {:induction false} CanonicalIsUnique(a: seq<Range>, b: seq<Range>, top: nat)
    requires Canonical(a, top) && Canonical(b, top) && SameSet(a, b)
    ensures a == b
    decreases |a|
  {
    BothEmpty(a, b, top);
    if a != [] {
      FirstRangesAgree(a, b, top);
      forall ip: nat ensures Blocked(a[1..], ip) <==> Blocked(b[1..], ip) {
        BlockedTail(a, top, ip);
        BlockedTail(b, top, ip);
      }
      CanonicalIsUnique(a[1..], b[1..], top);
      assert a == [a[0]] + a[1..] && b == [b[0]] + b[1..];
    }
  }

  // ---------------------------------------------------------------------------------------
  // Merging

  lemma BlockedAppend(out: seq<Range>, r: Range, ip: nat)
    ensures Blocked(out + [r], ip) <==> Blocked(out, ip) || r.fst <= ip <= r.snd
  {
    var all := out + [r];
    if Blocked(out, ip) {
      var k :| 0 <= k < |out| && out[k].fst <= ip <= out[k].snd;
      assert all[k] == out[k];
    }
    if r.fst <= ip <= r.snd {
      assert all[|out|] == r;
    }
  }

  /** One step of the merge loop: absorbing or closing the open range keeps the addresses. */
  lemma MergeStep(out: seq<Range>, open: Range, next: Range, seen: seq<Range>, top: nat)
    requires open.fst <= open.snd <= top && next.fst <= next.snd <= top && open.fst <= next.fst
    requires SameSet(out + [open], seen)
    ensures next.fst <= SaturatingAddOne(open.snd, top)
            ==> SameSet(out + [Pair(open.fst, Max(open.snd, next.snd))], seen + [next])
    ensures SameSet(out + [open] + [next], seen + [next])
  {
    forall ip: nat
      ensures next.fst <= SaturatingAddOne(open.snd, top)
              ==> (Blocked(out + [Pair(open.fst, Max(open.snd, next.snd))], ip) <==> Blocked(seen + [next], ip))
      ensures Blocked(out + [open] + [next], ip) <==> Blocked(seen + [next], ip)
    {
      BlockedAppend(out, open, ip);
      BlockedAppend(out, Pair(open.fst, Max(open.snd, next.snd)), ip);
      BlockedAppend(out + [open], next, ip);
      BlockedAppend(seen, next, ip);
      assert Blocked(out + [open], ip) <==> Blocked(seen, ip);
    }
  }

  /** A free address lies between every range of the list and `start`. */
  ghost predicate EndsBefore(out: seq<Range>, start: nat) {
    forall k :: 0 <= k < |out| ==> out[k].snd + 1 < start
  }

  lemma CanonicalAppend(out: seq<Range>, r: Range, top: nat)
    requires Canonical(out, top) && r.fst <= r.snd <= top && EndsBefore(out, r.fst)
    ensures Canonical(out + [r], top)
    ensures forall start: nat :: r.snd + 1 < start ==> EndsBefore(out + [r], start)
  {
  }

  lemma SortedRanges(ranges: seq<Range>, top: nat)
    requires ValidRanges(ranges, top)
    ensures SameSet(Sort(ranges), ranges)
    ensures forall k :: 0 <= k < |Sort(ranges)| ==> Sort(ranges)[k].fst <= Sort(ranges)[k].snd <= top
    ensures forall k :: 0 < k < |Sort(ranges)| ==> Sort(ranges)[k - 1].fst <= Sort(ranges)[k].fst
  {
    SortMembers(ranges);
    BlockedMembers(Sort(ranges), ranges);
    forall k | 0 <= k < |Sort(ranges)| ensures Sort(ranges)[k].fst <= Sort(ranges)[k].snd <= top {
      assert Sort(ranges)[k] in ranges;
    }
    forall k | 0 < k < |Sort(ranges)| ensures Sort(ranges)[k - 1].fst <= Sort(ranges)[k].fst {
      assert Leq(Sort(ranges)[k - 1], Sort(ranges)[k]);
    }
  }

  /**
   `merge_ranges`: the result blocks exactly the addresses the input blocks, is canonical,
   and is the only canonical list that does.
   */
  method MergeRanges(ranges: seq<Range>, top: nat) returns (out: seq<Range>)
    requires ValidRanges(ranges, top)
    ensures SameSet(out, ranges)
    ensures Canonical(out, top)
    ensures forall other :: Canonical(other, top) && SameSet(other, ranges) ==> other == out
  {
    if ranges == [] {
      out := ranges;
    } else {
      var sorted := Sort(ranges);
      SortedRanges(ranges, top);
      out := [];
      var start: nat, end: nat := sorted[0].fst, sorted[0].snd;
      var n := 1;
      assert sorted[..1] == [] + [Pair(start, end)];
      while n < |sorted|
        invariant 1 <= n <= |sorted|
        invariant start <= end <= top && start <= sorted[n - 1].fst
        invariant Canonical(out, top) && EndsBefore(out, start)
        invariant SameSet(out + [Pair(start, end)], sorted[..n])
      {
        var next := sorted[n];
        assert sorted[..n + 1] == sorted[..n] + [next];
        MergeStep(out, Pair(start, end), next, sorted[..n], top);
        CanonicalAppend(out, Pair(start, end), top);
        if next.fst <= SaturatingAddOne(end, top) {
          if next.snd > end {
            end := next.snd;
          }
        } else {
          out := out + [Pair(start, end)];
          start := next.fst;
          end := next.snd;
        }
        n := n + 1;
      }
      CanonicalAppend(out, Pair(start, end), top);
      out := out + [Pair(start, end)];
      assert sorted[..n] == sorted;
    }
    OnlyCanonical(ranges, out, top);
  }

  lemma OnlyCanonical(ranges: seq<Range>, out: seq<Range>, top: nat)
    requires Canonical(out, top) && SameSet(out, ranges)
    ensures forall other :: Canonical(other, top) && SameSet(other, ranges) ==> other == out
  {
    forall other | Canonical(other, top) && SameSet(other, ranges) ensures other == out {
      CanonicalIsUnique(other, out, top);
    }
  }

  lemma BlockedMembers(a: seq<Range>, b: seq<Range>)
    requires forall r :: r in a <==> r in b
    ensures SameSet(a, b)
  {
    forall ip: nat ensures Blocked(a, ip) <==> Blocked(b, ip) {
      if Blocked(a, ip) {
        var k :| 0 <= k < |a| && a[k].fst <= ip <= a[k].snd;
        assert a[k] in b;
      }
      if Blocked(b, ip) {
        var k :| 0 <= k < |b| && b[k].fst <= ip <= b[k].snd;
        assert b[k] in a;
      }
    }
  }

  // ---------------------------------------------------------------------------------------
  // Looking an address up

  /** `partition_point` over the starts of a sorted list. */
  method PartitionPoint(ranges: seq<Range>, ip: nat) returns (idx: nat)
    requires forall i, j :: 0 <= i < j < |ranges| ==> ranges[i].fst <= ranges[j].fst
    ensures idx <= |ranges|
    ensures forall k :: 0 <= k < idx ==> ranges[k].fst <= ip
    ensures forall k :: idx <= k < |ranges| ==> ranges[k].fst > ip
  {
    var lo, hi := 0, |ranges|;
    while lo < hi
      invariant 0 <= lo <= hi <= |ranges|
      invariant forall k :: 0 <= k < lo ==> ranges[k].fst <= ip
      invariant forall k :: hi <= k < |ranges| ==> ranges[k].fst > ip
    {
      var mid := (lo + hi) / 2;
      if ranges[mid].fst <= ip {
        lo := mid + 1;
      } else {
        hi := mid;
      }
    }
    idx := lo;
  }

  /** `contains_range`: the binary search answers what the plain list answers. */
  method ContainsRange(ranges: seq<Range>, ip: nat, ghost top: nat) returns (found: bool)
    requires Canonical(ranges, top)
    ensures found <==> Blocked(ranges, ip)
  {
    var idx := PartitionPoint(ranges, ip);
    found := idx > 0 && ranges[idx - 1].snd >= ip;
    if Blocked(ranges, ip) {
      var k :| 0 <= k < |ranges| && ranges[k].fst <= ip <= ranges[k].snd;
      assert k < idx;
      assert k < idx - 1 ==> ranges[k].snd + 1 < ranges[idx - 1].fst;
    }
  }

  /** Loading a list and looking an address up agrees with scanning the list as given. */
  method IndexedLookup(ranges: seq<Range>, top: nat, ip: nat) returns (found: bool)
    requires ValidRanges(ranges, top)
    ensures found <==> Blocked(ranges, ip)
  {
    var index := MergeRanges(ranges, top);
    found := ContainsRange(index, ip, top);
  }
}
