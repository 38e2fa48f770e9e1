/**
 Availability counts: `Availability` of `crates/bit_rev/src/picker.rs` together with the peer
 steps that feed it in `crates/bit_rev/src/peer_connection.rs` (bitfield, have-all, have-none,
 have and disconnect). A count is a 16-bit number that saturates at both ends.
 */
module Availability {
  import opened Basics
  import opened Bitfield

  function SaturatingInc(c: nat): nat {
    if c < U16_MAX then c + 1 else U16_MAX
  }

  function SaturatingDec(c: nat): nat {
    if c > 0 then c - 1 else 0
  }

  function Added(counts: seq<nat>, bits: seq<bv8>): (r: seq<nat>)
    ensures |r| == |counts|
  {
    seq(|counts|, i requires 0 <= i < |counts| => if Has(bits, i) then SaturatingInc(counts[i]) else counts[i])
  }

  function Removed(counts: seq<nat>, bits: seq<bv8>): (r: seq<nat>)
    ensures |r| == |counts|
  {
    seq(|counts|, i requires 0 <= i < |counts| => if Has(bits, i) then SaturatingDec(counts[i]) else counts[i])
  }

  function AddedOne(counts: seq<nat>, index: nat): seq<nat> {
    if index < |counts| then counts[index := SaturatingInc(counts[index])] else counts
  }

  /** Counts are 16-bit numbers. */
  ghost predicate IsCounts(counts: seq<nat>) {
    forall k :: 0 <= k < |counts| ==> counts[k] <= U16_MAX
  }

  class Counts {
    var counts: seq<nat>

    constructor (pieceCount: nat)
      ensures counts == seq(pieceCount, _ => 0)
    {
      counts := seq(pieceCount, _ => 0);
    }

    method AddBitfield(bits: seq<bv8>)
      modifies this
      ensures counts == Added(old(counts), bits)
    {
      for i := 0 to |counts|
        invariant |counts| == |old(counts)|
        invariant counts[..i] == Added(old(counts), bits)[..i] && counts[i..] == old(counts)[i..]
      {
        ghost var before := counts;
        if Has(bits, i) {
          counts := counts[i := SaturatingInc(counts[i])];
        }
        OneMore(before, counts, Added(old(counts), bits), old(counts), i);
      }
    }

    method RemoveBitfield(bits: seq<bv8>)
      modifies this
      ensures counts == Removed(old(counts), bits)
    {
      for i := 0 to |counts|
        invariant |counts| == |old(counts)|
        invariant counts[..i] == Removed(old(counts), bits)[..i] && counts[i..] == old(counts)[i..]
      {
        ghost var before := counts;
        if Has(bits, i) {
          counts := counts[i := SaturatingDec(counts[i])];
        }
        OneMore(before, counts, Removed(old(counts), bits), old(counts), i);
      }
    }

    method AddHave(index: nat)
      modifies this
      ensures counts == AddedOne(old(counts), index)
    {
      if index < |counts| {
        counts := counts[index := SaturatingInc(counts[index])];
      }
    }
  }

  lemma OneMore(before: seq<nat>, after: seq<nat>, goal: seq<nat>, start: seq<nat>, i: nat)
    requires |before| == |after| == |goal| == |start| && i < |start|
    requires before[..i] == goal[..i] && before[i..] == start[i..]
    requires forall k :: 0 <= k < |after| && k != i ==> after[k] == before[k]
    requires before[i] == start[i] ==> after[i] == goal[i]
    ensures after[..i + 1] == goal[..i + 1] && after[i + 1..] == start[i + 1..]
  {
    assert before[i] == before[i..][0] == start[i..][0];
    assert forall k :: 0 <= k < i ==> before[k] == before[..i][k];
    assert forall k :: i < k < |start| ==> before[k] == before[i..][k - i] == start[i..][k - i];
  }

  // ---------------------------------------------------------------------------------------
  // Runs of peer steps

  datatype Swarm = Swarm(counts: seq<nat>, peers: map<Peer, seq<bv8>>)

  datatype Step =
    | Connect(peer: Peer)
    | SendBitfield(peer: Peer, bits: seq<bv8>)
    | SendHaveAll(peer: Peer)
    | SendHaveNone(peer: Peer)
    | SendHave(peer: Peer, index: nat)
    | Disconnect(peer: Peer)

  function Replace(s: Swarm, p: Peer, next: seq<bv8>): Swarm
    requires p in s.peers
  {
    Swarm(Added(Removed(s.counts, s.peers[p]), next), s.peers[p := next])
  }

  /** One step. A peer starts with an empty bitfield; a message of an unknown peer is ignored. */
  function Next(s: Swarm, e: Step): Swarm {
    match e
    case Connect(p) => if p in s.peers then s else s.(peers := s.peers[p := []])
    case SendBitfield(p, bits) => if p in s.peers then Replace(s, p, bits) else s
    case SendHaveAll(p) => if p in s.peers then Replace(s, p, Filled(|s.counts|)) else s
    case SendHaveNone(p) => if p in s.peers then Replace(s, p, Zeros(|s.counts|)) else s
    case SendHave(p, i) =>
      if p !in s.peers || Has(s.peers[p], i) then s
      else Swarm(AddedOne(s.counts, i), s.peers[p := Set(s.peers[p], i)])
    case Disconnect(p) => if p in s.peers then Swarm(Removed(s.counts, s.peers[p]), s.peers - {p}) else s
  }

  /** The connected peers that have a piece. */
  ghost function Holders(peers: map<Peer, seq<bv8>>, i: nat): set<Peer> {
    set p | p in peers && Has(peers[p], i)
  }

  /** Every count is the number of connected peers that have the piece. */
  ghost predicate Agrees(s: Swarm) {
    forall i :: 0 <= i < |s.counts| ==> s.counts[i] == |Holders(s.peers, i)|
  }

  lemma HoldersAreFew(peers: map<Peer, seq<bv8>>, i: nat)
    ensures |Holders(peers, i)| <= |peers|
    ensures forall p :: p in peers && !Has(peers[p], i) ==> |Holders(peers, i)| < |peers|
  {
    SubsetSize(Holders(peers, i), peers.Keys);
    forall p | p in peers && !Has(peers[p], i) ensures |Holders(peers, i)| < |peers| {
      SubsetSize(Holders(peers, i), peers.Keys - {p});
    }
  }

  lemma {:induction false} SubsetSize(a: set<Peer>, b: set<Peer>)
    requires a <= b
    ensures |a| <= |b|
  {
    if a != {} {
      var x :| x in a;
      SubsetSize(a - {x}, b - {x});
    }
  }

  /** Giving one peer another bitfield moves that peer in or out of the holders of a piece. */
  lemma HoldersAfter(peers: map<Peer, seq<bv8>>, p: Peer, bits: seq<bv8>, i: nat)
    ensures Holders(peers[p := bits], i) == Holders(peers, i) - {p} + (if Has(bits, i) then {p} else {})
    ensures |Holders(peers[p := bits], i)|
            == |Holders(peers, i)| - (if p in Holders(peers, i) then 1 else 0) + (if Has(bits, i) then 1 else 0)
  {
    var others := Holders(peers, i) - {p};
    assert Holders(peers[p := bits], i) == others + (if Has(bits, i) then {p} else {});
  }

  lemma HoldersWithout(peers: map<Peer, seq<bv8>>, p: Peer, i: nat)
    ensures Holders(peers - {p}, i) == Holders(peers, i) - {p}
    ensures |Holders(peers - {p}, i)| == |Holders(peers, i)| - (if p in Holders(peers, i) then 1 else 0)
  {
    assert Holders(peers - {p}, i) == Holders(peers, i) - {p};
  }

  lemma ReplaceAgrees(s: Swarm, p: Peer, next: seq<bv8>)
    requires Agrees(s) && p in s.peers && |s.peers| <= U16_MAX
    ensures Agrees(Replace(s, p, next))
  {
    var after := Replace(s, p, next);
    forall i | 0 <= i < |after.counts| ensures after.counts[i] == |Holders(after.peers, i)| {
      HoldersAfter(s.peers, p, next, i);
      HoldersAreFew(s.peers, i);
      assert s.counts[i] == |Holders(s.peers, i)|;
      assert Has(s.peers[p], i) ==> p in Holders(s.peers, i);
    }
  }

  /** Before anyone is connected. */
  lemma NobodyAgrees(pieceCount: nat)
    ensures Agrees(Swarm(seq(pieceCount, _ => 0), map[]))
  {
    assert forall i: nat :: Holders(map[], i) == {};
  }

  lemma StoredStays(peers: map<Peer, seq<bv8>>, p: Peer, bits: seq<bv8>)
    requires p in peers
    ensures |peers[p := bits]| == |peers|
  {
    assert peers[p := bits].Keys == peers.Keys;
  }

  lemma StoredShrinks(peers: map<Peer, seq<bv8>>, p: Peer)
    ensures |peers - {p}| <= |peers|
  {
    SubsetSize((peers - {p}).Keys, peers.Keys);
  }

  /** The bitfield has room for the piece, or the message changes no count. */
  predicate HaveIsCounted(s: Swarm, p: Peer, index: nat)
    requires p in s.peers
  {
    Has(s.peers[p], index) || index >= |s.counts| || Covers(s.peers[p], index)
  }

  /** A `have` keeps the agreement exactly when the stored bitfield has room for the piece. */
  lemma HaveAgreesIff(s: Swarm, p: Peer, index: nat)
    requires Agrees(s) && p in s.peers && |s.peers| <= U16_MAX
    ensures Agrees(Next(s, SendHave(p, index))) <==> HaveIsCounted(s, p, index)
  {
    var after := Next(s, SendHave(p, index));
    if !Has(s.peers[p], index) {
      forall i | 0 <= i < |s.counts|
        ensures after.counts[i] == |Holders(after.peers, i)| <==> i != index || Covers(s.peers[p], index)
      {
        HoldersAfter(s.peers, p, Set(s.peers[p], index), i);
        HasAfterSet(s.peers[p], index, i);
        HoldersAreFew(s.peers, i);
        assert s.counts[i] == |Holders(s.peers, i)|;
      }
      assert index < |s.counts| && !Covers(s.peers[p], index) ==> after.counts[index] != |Holders(after.peers, index)|;
    }
  }

  /** The step does not break the agreement. */
  ghost predicate Admissible(s: Swarm, e: Step) {
    && |Next(s, e).peers| <= U16_MAX
    && (e.SendHave? && e.peer in s.peers ==> HaveIsCounted(s, e.peer, e.index))
  }

  lemma NextAgrees(s: Swarm, e: Step)
    requires Agrees(s) && |s.peers| <= U16_MAX && Admissible(s, e)
    ensures Agrees(Next(s, e))
  {
    var after := Next(s, e);
    if e.Connect? && e.peer !in s.peers {
      forall i | 0 <= i < |s.counts| ensures after.counts[i] == |Holders(after.peers, i)| {
        assert Holders(after.peers, i) == Holders(s.peers, i);
      }
    } else if e.peer in s.peers {
      match e
      case SendBitfield(p, bits) => ReplaceAgrees(s, p, bits);
      case SendHaveAll(p) => ReplaceAgrees(s, p, Filled(|s.counts|));
      case SendHaveNone(p) => ReplaceAgrees(s, p, Zeros(|s.counts|));
      case SendHave(p, i) => HaveAgreesIff(s, p, i);
      case Disconnect(p) =>
        forall i | 0 <= i < |s.counts| ensures after.counts[i] == |Holders(after.peers, i)| {
          HoldersWithout(s.peers, p, i);
          assert s.counts[i] == |Holders(s.peers, i)|;
          assert Has(s.peers[p], i) ==> p in Holders(s.peers, i);
        }
      case Connect(_) =>
    }
  }

  ghost function RunFrom(s: Swarm, steps: seq<Step>): Swarm
    decreases |steps|
  {
    if steps == [] then s else RunFrom(Next(s, steps[0]), steps[1..])
  }

  lemma {:induction false} RunFromAppend(s: Swarm, steps: seq<Step>, e: Step)
    ensures RunFrom(s, steps + [e]) == Next(RunFrom(s, steps), e)
    decreases |steps|
  {
    if steps == [] {
      assert [e][1..] == [] && [] + [e] == [e];
    } else {
      assert (steps + [e])[1..] == steps[1..] + [e];
      RunFromAppend(Next(s, steps[0]), steps[1..], e);
    }
  }

  // ---------------------------------------------------------------------------------------
  // What is stored for a peer

  /**
   What each message of a connected peer stores: have-all every piece of the torrent, have-none
   nothing, a bitfield its bits, and a have the pieces of before and its own, if the stored
   bitfield has a bit for it. Nothing is stored for a peer that is new or gone.
   */
  lemma EachMessageStores(s: Swarm, p: Peer, bits: seq<bv8>, k: nat, i: nat)
    requires p in s.peers
    ensures Has(Next(s, SendHaveAll(p)).peers[p], i) <==> i < |s.counts|
    ensures !Has(Next(s, SendHaveNone(p)).peers[p], i)
    ensures Has(Next(s, SendBitfield(p, bits)).peers[p], i) <==> Has(bits, i)
    ensures Has(Next(s, SendHave(p, k)).peers[p], i) <==> Has(s.peers[p], i) || (i == k < 8 * |s.peers[p]|)
    ensures Next(s, Connect(p)) == s
    ensures p !in Next(s, Disconnect(p)).peers
    ensures Next(Next(s, Disconnect(p)), Connect(p)).peers[p] == []
  {
    FilledHas(|s.counts|, i);
    ZerosHaveNothing(|s.counts|, i);
    HasAfterSet(s.peers[p], k, i);
  }

  /** A message changes what is stored for its own peer only. */
  lemma OthersStay(s: Swarm, e: Step, q: Peer)
    requires q != e.peer
    ensures q in Next(s, e).peers <==> q in s.peers
    ensures q in s.peers ==> Next(s, e).peers[q] == s.peers[q]
  {
  }

  /** The messages of the peer are haves. */
  ghost predicate OnlyHaves(steps: seq<Step>, p: Peer) {
    forall k :: 0 <= k < |steps| && steps[k].peer == p ==> steps[k].SendHave?
  }

  /** Haves add their pieces, as far as the stored bitfield has bits for them, and nothing else does. */
  lemma {:induction false} HavesAdd(s: Swarm, steps: seq<Step>, p: Peer, i: nat)
    requires p in s.peers && OnlyHaves(steps, p)
    ensures var end := RunFrom(s, steps);
            && p in end.peers
            && (Has(end.peers[p], i) <==> Has(s.peers[p], i) || (SendHave(p, i) in steps && i < 8 * |s.peers[p]|))
    decreases |steps|
  {
    if steps != [] {
      var e := steps[0];
      if e.peer == p {
        EachMessageStores(s, p, [], e.index, i);
        HasAfterSet(s.peers[p], e.index, i);
      } else {
        OthersStay(s, e, p);
      }
      HavesAdd(Next(s, e), steps[1..], p, i);
      assert SendHave(p, i) in steps <==> e == SendHave(p, i) || SendHave(p, i) in steps[1..];
    }
  }

  lemma {:induction false} RunFromConcat(s: Swarm, a: seq<Step>, b: seq<Step>)
    ensures RunFrom(s, a + b) == RunFrom(RunFrom(s, a), b)
    decreases |a|
  {
    if a == [] {
      assert a + b == b;
    } else {
      assert (a + b)[1..] == a[1..] + b;
      RunFromConcat(Next(s, a[0]), a[1..], b);
    }
  }

  lemma RunFromParts(s: Swarm, before: seq<Step>, e: Step, since: seq<Step>)
    ensures RunFrom(s, before + [e] + since) == RunFrom(Next(RunFrom(s, before), e), since)
    ensures |RunFrom(s, before).counts| == |s.counts|
  {
    RunFromConcat(s, before + [e], since);
    RunFromAppend(s, before, e);
    RunKeepsLength(s, before);
  }

  /**
   In every run: what is stored for a connected peer is what its last bitfield, have-all or
   have-none said, and the pieces of the haves since then that the bitfield has bits for.
   */
  lemma StoredByRun(s: Swarm, before: seq<Step>, e: Step, since: seq<Step>, i: nat)
    requires e.peer in RunFrom(s, before).peers && OnlyHaves(since, e.peer)
    requires e.SendBitfield? || e.SendHaveAll? || e.SendHaveNone?
    ensures var peers, n := RunFrom(s, before + [e] + since).peers, |s.counts|;
            && e.peer in peers
            && (e.SendBitfield? ==>
                  (Has(peers[e.peer], i) <==> Has(e.bits, i) || (SendHave(e.peer, i) in since && i < 8 * |e.bits|)))
            && (e.SendHaveAll? ==>
                  (Has(peers[e.peer], i) <==> i < n || (SendHave(e.peer, i) in since && i < 8 * ((n + 7) / 8))))
            && (e.SendHaveNone? ==>
                  (Has(peers[e.peer], i) <==> SendHave(e.peer, i) in since && i < 8 * ((n + 7) / 8)))
  {
    var mid := RunFrom(s, before);
    RunFromParts(s, before, e, since);
    EachMessageStores(mid, e.peer, if e.SendBitfield? then e.bits else [], 0, i);
    LeastBytes(|s.counts|);
    HavesAdd(Next(mid, e), since, e.peer, i);
  }

  /** Until its first bitfield, have-all or have-none nothing is stored for a peer, whatever haves it sends. */
  lemma NothingStoredYet(s: Swarm, before: seq<Step>, p: Peer, since: seq<Step>, i: nat)
    requires p !in RunFrom(s, before).peers && OnlyHaves(since, p)
    ensures var peers := RunFrom(s, before + [Connect(p)] + since).peers;
            p in peers && !Has(peers[p], i)
  {
    RunFromParts(s, before, Connect(p), since);
    HavesAdd(Next(RunFrom(s, before), Connect(p)), since, p, i);
  }

  // ---------------------------------------------------------------------------------------
  // What uncovered haves leave behind

  /** The step is a new `have` for piece `i` that the stored bitfield has no room for. */
  predicate IsUncovered(s: Swarm, e: Step, i: nat) {
    e.SendHave? && e.index == i && e.peer in s.peers && !Has(s.peers[e.peer], i) && !Covers(s.peers[e.peer], i)
  }

  function Leak(s: Swarm, e: Step, i: nat): nat {
    if IsUncovered(s, e, i) then 1 else 0
  }

  /** The uncovered haves for piece `i` in a run. */
  ghost function Leaks(s: Swarm, steps: seq<Step>, i: nat): nat
    decreases |steps|
  {
    if steps == [] then 0 else Leak(s, steps[0], i) + Leaks(Next(s, steps[0]), steps[1..], i)
  }

  /** The count is the number of holders and `extra` more. */
  ghost predicate Exceeds(s: Swarm, i: nat, extra: nat) {
    i < |s.counts| && s.counts[i] == |Holders(s.peers, i)| + extra
  }

  /** All along the run the holders and what was left behind fit 16 bits. */
  ghost predicate HasRoom(s: Swarm, steps: seq<Step>, i: nat, extra: nat)
    decreases |steps|
  {
    steps != [] ==>
      var after, left := Next(s, steps[0]), extra + Leak(s, steps[0], i);
      |Holders(after.peers, i)| + left <= U16_MAX && HasRoom(after, steps[1..], i, left)
  }

  lemma ReplaceKeepsExcess(s: Swarm, p: Peer, next: seq<bv8>, i: nat, extra: nat)
    requires Exceeds(s, i, extra) && p in s.peers && |Holders(s.peers[p := next], i)| + extra <= U16_MAX
    ensures Exceeds(Replace(s, p, next), i, extra)
  {
    HoldersAfter(s.peers, p, next, i);
    assert Has(s.peers[p], i) ==> p in Holders(s.peers, i);
  }

  lemma HaveAddsLeak(s: Swarm, p: Peer, index: nat, i: nat, extra: nat)
    requires Exceeds(s, i, extra) && p in s.peers
    requires |Holders(Next(s, SendHave(p, index)).peers, i)| + extra + Leak(s, SendHave(p, index), i) <= U16_MAX
    ensures Exceeds(Next(s, SendHave(p, index)), i, extra + Leak(s, SendHave(p, index), i))
  {
    if !Has(s.peers[p], index) {
      var bits := s.peers[p];
      HasAfterSet(bits, index, i);
      CountHave(s, p, Set(bits, index), index, i, extra, Covers(bits, index));
    }
  }

  /** A new have raises the count of its piece, and the holders only if it was covered. */
  lemma CountHave(s: Swarm, p: Peer, next: seq<bv8>, index: nat, i: nat, extra: nat, covered: bool)
    requires Exceeds(s, i, extra) && p in s.peers && !Has(s.peers[p], index)
    requires Has(next, i) <==> Has(s.peers[p], i) || (index == i && covered)
    requires |Holders(s.peers[p := next], i)| + extra + (if index == i && !covered then 1 else 0) <= U16_MAX
    ensures Exceeds(Swarm(AddedOne(s.counts, index), s.peers[p := next]), i, extra + if index == i && !covered then 1 else 0)
  {
    HoldersAfter(s.peers, p, next, i);
  }

  lemma LeavingKeepsExcess(s: Swarm, p: Peer, i: nat, extra: nat)
    requires Exceeds(s, i, extra) && p in s.peers
    ensures Exceeds(Next(s, Disconnect(p)), i, extra)
  {
    HoldersWithout(s.peers, p, i);
    assert Has(s.peers[p], i) ==> p in Holders(s.peers, i);
  }

  /** One step: the excess grows by one on an uncovered have and stays on everything else. */
  lemma StepAddsLeak(s: Swarm, e: Step, i: nat, extra: nat)
    requires Exceeds(s, i, extra) && |Holders(Next(s, e).peers, i)| + extra + Leak(s, e, i) <= U16_MAX
    ensures Exceeds(Next(s, e), i, extra + Leak(s, e, i))
  {
    if e.Connect? && e.peer !in s.peers {
      assert Holders(Next(s, e).peers, i) == Holders(s.peers, i);
    } else if e.peer in s.peers {
      match e
      case SendBitfield(p, bits) => ReplaceKeepsExcess(s, p, bits, i, extra);
      case SendHaveAll(p) => ReplaceKeepsExcess(s, p, Filled(|s.counts|), i, extra);
      case SendHaveNone(p) => ReplaceKeepsExcess(s, p, Zeros(|s.counts|), i, extra);
      case SendHave(p, index) => HaveAddsLeak(s, p, index, i, extra);
      case Disconnect(p) => LeavingKeepsExcess(s, p, i, extra);
      case Connect(_) =>
    }
  }

  /** In every run each count exceeds the number of holders by the uncovered haves for the piece. */
  lemma {:induction false} ExcessIsLeaks(s: Swarm, steps: seq<Step>, i: nat, extra: nat)
    requires Exceeds(s, i, extra) && HasRoom(s, steps, i, extra)
    ensures Exceeds(RunFrom(s, steps), i, extra + Leaks(s, steps, i))
    decreases |steps|
  {
    if steps != [] {
      StepAddsLeak(s, steps[0], i, extra);
      ExcessIsLeaks(Next(s, steps[0]), steps[1..], i, extra + Leak(s, steps[0], i));
    }
  }

  /** No have in the run is uncovered. */
  ghost predicate NoLeaks(s: Swarm, steps: seq<Step>) {
    forall i: nat :: i < |s.counts| ==> Leaks(s, steps, i) == 0
  }

  ghost predicate AllHaveRoom(s: Swarm, steps: seq<Step>) {
    forall i: nat :: i < |s.counts| ==> HasRoom(s, steps, i, 0)
  }

  /** A run from an agreeing swarm ends in an agreeing one exactly when no have in it is uncovered. */
  lemma RunAgreesIff(s: Swarm, steps: seq<Step>)
    requires Agrees(s) && AllHaveRoom(s, steps)
    ensures |RunFrom(s, steps).counts| == |s.counts|
    ensures Agrees(RunFrom(s, steps)) <==> NoLeaks(s, steps)
  {
    RunKeepsLength(s, steps);
    var end := RunFrom(s, steps);
    forall i: nat | i < |s.counts| ensures end.counts[i] == |Holders(end.peers, i)| + Leaks(s, steps, i) {
      assert Exceeds(s, i, 0);
      ExcessIsLeaks(s, steps, i, 0);
    }
    if Agrees(end) {
      forall i: nat | i < |s.counts| ensures Leaks(s, steps, i) == 0 {
        assert end.counts[i] == |Holders(end.peers, i)|;
      }
      assert NoLeaks(s, steps);
    }
  }

  lemma {:induction false} RunKeepsLength(s: Swarm, steps: seq<Step>)
    ensures |RunFrom(s, steps).counts| == |s.counts|
    decreases |steps|
  {
    if steps != [] {
      RunKeepsLength(Next(s, steps[0]), steps[1..]);
    }
  }

  /**
   In every run from an empty swarm each count is the number of peers that have the piece and one
   more for every uncovered have.
   */
  lemma CountsAreHolders(pieceCount: nat, steps: seq<Step>, i: nat)
    requires i < pieceCount && HasRoom(Swarm(seq(pieceCount, _ => 0), map[]), steps, i, 0)
    ensures var start := Swarm(seq(pieceCount, _ => 0), map[]);
            var end := RunFrom(start, steps);
            |end.counts| == pieceCount && end.counts[i] == |Holders(end.peers, i)| + Leaks(start, steps, i)
  {
    var start := Swarm(seq(pieceCount, _ => 0), map[]);
    NobodyAgrees(pieceCount);
    RunKeepsLength(start, steps);
    ExcessIsLeaks(start, steps, i, 0);
  }

  /** With at most 65535 peers and no uncovered have there is always room. */
  lemma {:induction false} FewPeersHaveRoom(s: Swarm, steps: seq<Step>, i: nat)
    requires Leaks(s, steps, i) == 0 && FewPeers(s, steps)
    ensures HasRoom(s, steps, i, 0)
    decreases |steps|
  {
    if steps != [] {
      HoldersAreFew(Next(s, steps[0]).peers, i);
      FewPeersHaveRoom(Next(s, steps[0]), steps[1..], i);
    }
  }

  ghost predicate FewPeers(s: Swarm, steps: seq<Step>)
    decreases |steps|
  {
    steps != [] ==> |Next(s, steps[0]).peers| <= U16_MAX && FewPeers(Next(s, steps[0]), steps[1..])
  }

  /** A peer that announces a piece before it sent a bitfield leaves a count behind. */
  lemma EarlyHaveLeaks(p: Peer)
    ensures var s := RunFrom(Swarm([0], map[]), [Connect(p), SendHave(p, 0), Disconnect(p)]);
            s.counts == [1] && s.peers == map[]
  {
    var s0 := Swarm([0], map[]);
    var s1 := Next(s0, Connect(p));
    var s2 := Next(s1, SendHave(p, 0));
    var s3 := Next(s2, Disconnect(p));
    assert s1.peers[p] == [] && s2.counts == [1] && s2.peers[p] == [];
    assert s3.counts == [1] && s3.peers == map[];
    var steps := [Connect(p), SendHave(p, 0), Disconnect(p)];
    assert RunFrom(s0, steps) == RunFrom(s1, steps[1..]);
    assert steps[1..] == [SendHave(p, 0), Disconnect(p)];
    assert RunFrom(s1, steps[1..]) == RunFrom(s2, [Disconnect(p)]) by {
      assert [SendHave(p, 0), Disconnect(p)][1..] == [Disconnect(p)];
    }
    assert RunFrom(s2, [Disconnect(p)]) == s3 by {
      assert [Disconnect(p)][1..] == [];
    }
  }
}
