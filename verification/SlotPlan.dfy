/**
 The slot allocation inside `evaluate_queue` of `crates/bit_rev/src/session.rs`: one pass
 over the torrents in queue order that hands out download and upload slots under three caps.
 A cap of zero means no cap. A forced torrent is admitted past the caps, a slow one takes no
 slot, and a torrent at its seed limit is paused.
 */
module SlotPlan {
  import opened Basics

  datatype TorrentState = Checking | Metadata | Downloading | Seeding | Paused | Queued | Moving | Error(message: string)

  predicate TransferEnabled(s: TorrentState) {
    s.Downloading? || s.Seeding? || s.Metadata?
  }

  /** A state the queue leaves alone. */
  predicate Parked(s: TorrentState) {
    s.Paused? || s.Checking? || s.Moving? || s.Error?
  }

  datatype Caps = Caps(downloads: nat, uploads: nat, all: nat)

  /** Slots taken so far. */
  datatype Slots = Slots(dl: nat, ul: nat)

  /**
   What the pass looks at in one torrent: whether it is parked, whether it reached its seed
   limit, whether it seeds, is forced or is slow, and the state it wants.
   */
  datatype Item = Item(parked: bool, limit: bool, seeding: bool, force: bool, slow: bool, want: TorrentState)

  /** `slot_available`. */
  predicate SlotAvailable(seeding: bool, slots: Slots, caps: Caps) {
    && !(caps.all > 0 && slots.dl + slots.ul >= caps.all)
    && !(!seeding && caps.downloads > 0 && slots.dl >= caps.downloads)
    && !(seeding && caps.uploads > 0 && slots.ul >= caps.uploads)
  }

  /** The torrent takes part in the allocation. */
  predicate Competes(item: Item) {
    !item.parked && !item.limit
  }

  predicate Admitted(item: Item, slots: Slots, caps: Caps) {
    Competes(item) && (item.force || SlotAvailable(item.seeding, slots, caps))
  }

  /** The new state of a torrent, if the pass assigns one. */
  function Decide(item: Item, slots: Slots, caps: Caps): Option<TorrentState> {
    if item.parked then None
    else if item.limit then Some(Paused)
    else if item.force || SlotAvailable(item.seeding, slots, caps) then Some(item.want)
    else Some(Queued)
  }

  function Take(item: Item, slots: Slots, caps: Caps): Slots {
    if !Admitted(item, slots, caps) || item.slow then slots
    else if item.seeding then slots.(ul := slots.ul + 1)
    else slots.(dl := slots.dl + 1)
  }

  /** Slots taken by a whole list. */
  function SlotsAfter(items: seq<Item>, caps: Caps): Slots {
    if items == [] then Slots(0, 0) else Take(items[|items| - 1], SlotsAfter(items[..|items| - 1], caps), caps)
  }

  /** The decision on the torrent at place `k`. */
  function DecisionAt(items: seq<Item>, k: nat, caps: Caps): Option<TorrentState>
    requires k < |items|
  {
    Decide(items[k], SlotsAfter(items[..k], caps), caps)
  }

  predicate AdmittedAt(items: seq<Item>, k: nat, caps: Caps)
    requires k < |items|
  {
    Admitted(items[k], SlotsAfter(items[..k], caps), caps)
  }

  // ---------------------------------------------------------------------------------------
  // The caps

  /** Admitted torrents of a kind that are neither forced nor slow. */
  ghost function Regular(items: seq<Item>, seeding: bool, caps: Caps): nat {
    if items == [] then 0
    else
      var front, last := items[..|items| - 1], items[|items| - 1];
      Regular(front, seeding, caps)
      + if Admitted(last, SlotsAfter(front, caps), caps) && last.seeding == seeding && !last.force && !last.slow then 1 else 0
  }

  predicate RegularAt(items: seq<Item>, k: nat, seeding: bool, caps: Caps)
    requires k < |items|
  {
    AdmittedAt(items, k, caps) && items[k].seeding == seeding && !items[k].force && !items[k].slow
  }

  lemma SlotsOneMore(items: seq<Item>, k: nat, caps: Caps)
    requires k < |items|
    ensures SlotsAfter(items[..k + 1], caps) == Take(items[k], SlotsAfter(items[..k], caps), caps)
  {
    assert items[..k + 1][..k] == items[..k];
  }

  lemma RegularOneMore(items: seq<Item>, k: nat, seeding: bool, caps: Caps)
    requires k < |items|
    ensures Regular(items[..k + 1], seeding, caps)
            == Regular(items[..k], seeding, caps) + if RegularAt(items, k, seeding, caps) then 1 else 0
  {
    assert items[..k + 1][..k] == items[..k];
  }

  /** The admitted torrents that are neither forced nor slow stay within every cap. */
  lemma {:induction false} CapsHold(items: seq<Item>, caps: Caps)
    ensures Regular(items, false, caps) <= SlotsAfter(items, caps).dl
    ensures Regular(items, true, caps) <= SlotsAfter(items, caps).ul
    ensures caps.downloads > 0 ==> Regular(items, false, caps) <= caps.downloads
    ensures caps.uploads > 0 ==> Regular(items, true, caps) <= caps.uploads
    ensures caps.all > 0 ==> Regular(items, false, caps) + Regular(items, true, caps) <= caps.all
  {
    if items != [] {
      CapsHold(items[..|items| - 1], caps);
    }
  }

  /** Without forced torrents the slots themselves stay within every cap. */
  lemma {:induction false} CapsHoldWithoutForce(items: seq<Item>, caps: Caps)
    requires forall k :: 0 <= k < |items| ==> !items[k].force
    ensures var s := SlotsAfter(items, caps);
            && (caps.downloads > 0 ==> s.dl <= caps.downloads)
            && (caps.uploads > 0 ==> s.ul <= caps.uploads)
            && (caps.all > 0 ==> s.dl + s.ul <= caps.all)
  {
    if items != [] {
      CapsHoldWithoutForce(items[..|items| - 1], caps);
    }
  }

  // ---------------------------------------------------------------------------------------
  // The order

  lemma {:induction false} SlotsGrow(items: seq<Item>, i: nat, j: nat, caps: Caps)
    requires i <= j <= |items|
    ensures SlotsAfter(items[..i], caps).dl <= SlotsAfter(items[..j], caps).dl
    ensures SlotsAfter(items[..i], caps).ul <= SlotsAfter(items[..j], caps).ul
    decreases j - i
  {
    if i < j {
      SlotsGrow(items, i, j - 1, caps);
      assert items[..j][..j - 1] == items[..j - 1];
    }
  }

  /** Nobody is admitted past a queued torrent of the same kind, except by force. */
  lemma NoOvertaking(items: seq<Item>, i: nat, j: nat, caps: Caps)
    requires i < j < |items|
    requires Competes(items[i]) && !AdmittedAt(items, i, caps)
    requires Competes(items[j]) && !items[j].force && items[j].seeding == items[i].seeding
    ensures !AdmittedAt(items, j, caps) && DecisionAt(items, j, caps) == Some(Queued)
  {
    SlotsGrow(items, i, j, caps);
  }

  /** A torrent waits exactly when it competes without force and a cap that concerns it is used up. */
  lemma QueuedExactlyWhenFull(items: seq<Item>, k: nat, caps: Caps)
    requires k < |items| && items[k].want != Queued
    ensures DecisionAt(items, k, caps) == Some(Queued)
            <==> Competes(items[k]) && !items[k].force
                 && !SlotAvailable(items[k].seeding, SlotsAfter(items[..k], caps), caps)
    ensures DecisionAt(items, k, caps) == Some(Queued) ==> !SlotAvailable(items[k].seeding, SlotsAfter(items, caps), caps)
  {
    SlotsGrow(items, k, |items|, caps);
    assert items[..|items|] == items;
  }

  // ---------------------------------------------------------------------------------------
  // A second pass

  /** How the pass sees a torrent after the first pass: the one at its seed limit is now parked. */
  function Settled(item: Item): Item {
    if item.limit then item.(parked := true) else item
  }

  ghost predicate SettledFrom(before: seq<Item>, after: seq<Item>) {
    |after| == |before| && forall k :: 0 <= k < |before| ==> after[k] == Settled(before[k])
  }

  lemma {:induction false} SettledTakesSameSlots(before: seq<Item>, after: seq<Item>, caps: Caps)
    requires SettledFrom(before, after)
    ensures SlotsAfter(after, caps) == SlotsAfter(before, caps)
    decreases |before|
  {
    if before != [] {
      var n := |before| - 1;
      assert SettledFrom(before[..n], after[..n]);
      SettledTakesSameSlots(before[..n], after[..n], caps);
      assert after[n] == Settled(before[n]);
    }
  }

  /** The second pass decides as the first did, and leaves a torrent it paused alone. */
  lemma SecondPassAgrees(before: seq<Item>, after: seq<Item>, k: nat, caps: Caps)
    requires SettledFrom(before, after) && k < |before|
    ensures DecisionAt(after, k, caps) == (if before[k].limit then None else DecisionAt(before, k, caps))
  {
    assert SettledFrom(before[..k], after[..k]);
    SettledTakesSameSlots(before[..k], after[..k], caps);
    assert after[k] == Settled(before[k]);
  }
}
