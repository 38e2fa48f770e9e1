/**
 Choosing a piece: `select_piece` and `select_sequential` of `crates/bit_rev/src/picker.rs`.
 A random choice is any element of the list.
 */
module Picker {
  import opened Basics

  const BOOTSTRAP_VERIFIED: nat := 4
  const MAX_BLOCK_REQUESTERS: nat := 2

  /** `Availability::count`: a piece outside the table counts as zero. */
  function CountOf(counts: seq<nat>, index: nat): nat {
    if index < |counts| then counts[index] else 0
  }

  /** The first preferred piece that is a candidate. */
  function FirstPreferred(prefer: seq<nat>, candidates: seq<nat>): (r: Option<nat>)
    ensures r.Some? ==> r.value in prefer && r.value in candidates
    ensures r.None? <==> forall p :: p in prefer ==> p !in candidates
  {
    if prefer == [] then None
    else if prefer[0] in candidates then Some(prefer[0])
    else FirstPreferred(prefer[1..], candidates)
  }

  /** It is the first: no preferred piece before it is a candidate. */
  lemma {:induction false} PreferredIsFirst(prefer: seq<nat>, candidates: seq<nat>, k: nat)
    requires k < |prefer| && prefer[k] in candidates && forall j :: 0 <= j < k ==> prefer[j] !in candidates
    ensures FirstPreferred(prefer, candidates) == Some(prefer[k])
  {
    if k > 0 {
      PreferredIsFirst(prefer[1..], candidates, k - 1);
    }
  }

  /** What `select_piece` promises. */
  ghost predicate GoodChoice(r: Option<nat>, candidates: seq<nat>, prefer: seq<nat>, counts: seq<nat>, bootstrapping: bool) {
    && (r.None? <==> candidates == [])
    && (r.Some? ==> r.value in candidates)
    && (r.Some? && !bootstrapping ==>
          var preferred := FirstPreferred(prefer, candidates);
          && (preferred.Some? ==> r == preferred)
          && (preferred.None? ==> forall c :: c in candidates ==> CountOf(counts, r.value) <= CountOf(counts, c)))
  }

  method SelectPiece(candidates: seq<nat>, prefer: seq<nat>, counts: seq<nat>, verified: nat, bootstrapUntil: nat)
    returns (r: Option<nat>)
    requires forall k :: 0 <= k < |counts| ==> counts[k] <= U16_MAX
    ensures GoodChoice(r, candidates, prefer, counts, verified < bootstrapUntil)
  {
    if candidates == [] {
      return None;
    }
    if verified < bootstrapUntil {
      var k :| 0 <= k < |candidates|;
      return Some(candidates[k]);
    }
    for i := 0 to |prefer|
      invariant FirstPreferred(prefer, candidates) == FirstPreferred(prefer[i..], candidates)
    {
      assert prefer[i..][1..] == prefer[i + 1..];
      if prefer[i] in candidates {
        return Some(prefer[i]);
      }
    }
    var bestAvail := U16_MAX;
    var best := [];
    for i := 0 to |candidates|
      invariant forall b :: b in best ==> b in candidates && CountOf(counts, b) == bestAvail
      invariant forall k :: 0 <= k < i ==> bestAvail <= CountOf(counts, candidates[k])
      invariant i > 0 ==> best != []
      invariant best == [] ==> bestAvail == U16_MAX
    {
      var index := candidates[i];
      var avail := CountOf(counts, index);
      if avail < bestAvail {
        bestAvail := avail;
        best := [index];
      } else if avail == bestAvail {
        best := best + [index];
      }
    }
    var k :| 0 <= k < |best|;
    return Some(best[k]);
  }

  /** What `select_sequential` promises: the preferred piece, else the lowest index. */
  ghost predicate SequentialChoice(r: Option<nat>, candidates: seq<nat>, prefer: seq<nat>) {
    && (r.None? <==> candidates == [])
    && (r.Some? ==>
          && r.value in candidates
          && var preferred := FirstPreferred(prefer, candidates);
             && (preferred.Some? ==> r == preferred)
             && (preferred.None? ==> forall c :: c in candidates ==> r.value <= c))
  }

  method SelectSequential(candidates: seq<nat>, prefer: seq<nat>) returns (r: Option<nat>)
    ensures SequentialChoice(r, candidates, prefer)
  {
    if candidates == [] {
      return None;
    }
    for i := 0 to |prefer|
      invariant FirstPreferred(prefer, candidates) == FirstPreferred(prefer[i..], candidates)
    {
      assert prefer[i..][1..] == prefer[i + 1..];
      if prefer[i] in candidates {
        return Some(prefer[i]);
      }
    }
    var least := candidates[0];
    for i := 1 to |candidates|
      invariant least in candidates
      invariant forall k :: 0 <= k < i ==> least <= candidates[k]
    {
      if candidates[i] < least {
        least := candidates[i];
      }
    }
    return Some(least);
  }
}
