/**
 Queue order and queue evaluation of `crates/bit_rev/src/session.rs`. Torrents and magnets
 still waiting for metadata ("pending") live in two tables; the queue runs over both, ordered
 by stored position and then by id. An info hash is a number here, which orders 20-byte
 arrays as the source does. Rates, completion and the clock are inputs.
 */
module QueueSession {
  import opened Basics
  import opened PairSort
  import opened SlotPlan

  type Id = nat

  const SLOW_RATE_BPS: real := 1024.0

  datatype Activity = Activity(force: bool, downloadRate: real, uploadRate: real, slowSince: Option<real>)

  datatype Torrent = Torrent(
    position: nat,
    state: TorrentState,
    transferring: bool,
    activity: Activity,
    complete: bool,
    uploaded: nat,
    downloaded: nat,
    size: nat,
    ratioLimit: Option<real>,
    timeLimit: Option<nat>,
    completedAt: Option<int>)

  datatype Pending = Pending(position: nat, state: TorrentState, transferring: bool, activity: Activity)

  datatype Library = Library(torrents: map<Id, Torrent>, pending: map<Id, Pending>)

  datatype Options = Options(caps: Caps, dontCountSlow: bool, slowWindow: real, seedRatioLimit: real, seedTimeLimit: nat)

  /** The monotonic clock in seconds and the wall clock in whole seconds. */
  datatype Clock = Clock(now: real, unix: int)

  datatype Event = StateChanged(id: Id, state: TorrentState)

  function Positive(x: real): real {
    if x > 0.0 then x else 0.0
  }

  /** `torrent_is_slow`. */
  predicate IsSlow(a: Activity, o: Options, c: Clock) {
    && o.dontCountSlow
    && a.slowSince.Some?
    && Positive(a.downloadRate) + Positive(a.uploadRate) < SLOW_RATE_BPS
    && c.now - a.slowSince.value >= o.slowWindow
  }

  predicate RatioReached(t: Torrent, o: Options) {
    var base := if t.downloaded == 0 then t.size else t.downloaded;
    var limit := if t.ratioLimit.Some? then t.ratioLimit.value else o.seedRatioLimit;
    limit > 0.0 && base > 0 && t.uploaded as real / base as real >= limit
  }

  predicate SeedTimeReached(t: Torrent, o: Options, c: Clock) {
    var minutes := if t.timeLimit.Some? then t.timeLimit.value else o.seedTimeLimit;
    minutes > 0 && t.completedAt.Some? && c.unix - t.completedAt.value >= minutes * 60
  }

  /** `seed_limit_reached`. */
  predicate SeedLimitReached(t: Torrent, o: Options, c: Clock) {
    t.complete && (RatioReached(t, o) || SeedTimeReached(t, o, c))
  }

  function TorrentItem(t: Torrent, o: Options, c: Clock): Item {
    Item(Parked(t.state), SeedLimitReached(t, o, c), t.complete, t.activity.force, IsSlow(t.activity, o, c),
         if t.complete then Seeding else Downloading)
  }

  function PendingItem(p: Pending, o: Options, c: Clock): Item {
    Item(Parked(p.state), false, false, p.activity.force, IsSlow(p.activity, o, c), Metadata)
  }

  predicate Has(lib: Library, id: Id) {
    id in lib.torrents || id in lib.pending
  }

  /** A torrent with metadata hides a pending entry of the same id. */
  function ItemOf(lib: Library, id: Id, o: Options, c: Clock): Item
    requires Has(lib, id)
  {
    if id in lib.torrents then TorrentItem(lib.torrents[id], o, c) else PendingItem(lib.pending[id], o, c)
  }

  function StateOf(lib: Library, id: Id): TorrentState
    requires Has(lib, id)
  {
    if id in lib.torrents then lib.torrents[id].state else lib.pending[id].state
  }

  function PositionOf(lib: Library, id: Id): nat {
    if id in lib.torrents then lib.torrents[id].position
    else if id in lib.pending then lib.pending[id].position
    else 0
  }

  // ---------------------------------------------------------------------------------------
  // The order

  function Keys(lib: Library, ids: seq<Id>): (keys: seq<Pair>)
    ensures |keys| == |ids|
    ensures forall k :: 0 <= k < |ids| ==> keys[k] == Pair(PositionOf(lib, ids[k]), ids[k])
  {
    seq(|ids|, k requires 0 <= k < |ids| => Pair(PositionOf(lib, ids[k]), ids[k]))
  }

  ghost predicate Lists(lib: Library, ids: seq<Id>) {
    Distinct(ids) && forall id :: id in ids <==> Has(lib, id)
  }

  /** All ids, once each, by position and then by id. */
  ghost predicate IsQueueOrder(lib: Library, ids: seq<Id>) {
    Lists(lib, ids) && Sorted(Keys(lib, ids))
  }

  lemma {:induction false} DistinctMultiplicity(s: seq<Pair>, p: Pair)
    requires Distinct(s)
    ensures multiset(s)[p] == if p in s then 1 else 0
  {
    if s != [] {
      var front, last := s[..|s| - 1], s[|s| - 1];
      assert s == front + [last];
      assert last !in front;
      DistinctMultiplicity(front, p);
    }
  }

  lemma SameMembersSameMultiset(a: seq<Pair>, b: seq<Pair>)
    requires Distinct(a) && Distinct(b) && forall p :: p in a <==> p in b
    ensures multiset(a) == multiset(b)
  {
    forall p ensures multiset(a)[p] == multiset(b)[p] {
      DistinctMultiplicity(a, p);
      DistinctMultiplicity(b, p);
    }
  }

  lemma KeysMembers(lib: Library, a: seq<Id>, b: seq<Id>)
    requires forall id :: id in a ==> id in b
    ensures forall p :: p in Keys(lib, a) ==> p in Keys(lib, b)
  {
    forall p | p in Keys(lib, a) ensures p in Keys(lib, b) {
      var k :| 0 <= k < |a| && Keys(lib, a)[k] == p;
      assert a[k] in b;
      var j :| 0 <= j < |b| && b[j] == a[k];
      assert Keys(lib, b)[j] == p;
    }
  }

  /** There is only one queue order. */
  lemma QueueOrderIsUnique(lib: Library, a: seq<Id>, b: seq<Id>)
    requires IsQueueOrder(lib, a) && IsQueueOrder(lib, b)
    ensures a == b
  {
    KeysMembers(lib, a, b);
    KeysMembers(lib, b, a);
    SameMembersSameMultiset(Keys(lib, a), Keys(lib, b));
    SortedIsUnique(Keys(lib, a), Keys(lib, b));
    assert forall k :: 0 <= k < |a| ==> Keys(lib, a)[k] == Keys(lib, b)[k] ==> a[k] == b[k];
  }

  // ---------------------------------------------------------------------------------------
  // Evaluation

  function Items(lib: Library, order: seq<Id>, o: Options, c: Clock): (items: seq<Item>)
    requires forall id :: id in order ==> Has(lib, id)
    ensures |items| == |order|
    ensures forall k :: 0 <= k < |order| ==> items[k] == ItemOf(lib, order[k], o, c)
  {
    seq(|order|, k requires 0 <= k < |order| => ItemOf(lib, order[k], o, c))
  }

  /** The state decided for place `k` of the queue. */
  function Decided(lib: Library, order: seq<Id>, k: nat, o: Options, c: Clock): Option<TorrentState>
    requires (forall id :: id in order ==> Has(lib, id)) && k < |order|
  {
    DecisionAt(Items(lib, order, o, c), k, o.caps)
  }

  function WithState(t: Torrent, d: Option<TorrentState>): Torrent {
    if d.None? then t else t.(state := d.value, transferring := TransferEnabled(d.value))
  }

  function PendingWithState(p: Pending, d: Option<TorrentState>): Pending {
    if d.None? then p else p.(state := d.value, transferring := TransferEnabled(d.value))
  }

  /** `after` is `before` with the decisions on the first `n` places written down. */
  ghost predicate Written(before: Library, after: Library, order: seq<Id>, n: nat, o: Options, c: Clock)
    requires (forall id :: id in order ==> Has(before, id)) && n <= |order|
  {
    && after.torrents.Keys == before.torrents.Keys && after.pending.Keys == before.pending.Keys
    && (forall k :: 0 <= k < |order| && order[k] in before.torrents ==>
          after.torrents[order[k]] == WithState(before.torrents[order[k]], if k < n then Decided(before, order, k, o, c) else None))
    && (forall k :: 0 <= k < |order| && order[k] in before.pending ==>
          after.pending[order[k]] == PendingWithState(before.pending[order[k]],
            if k < n && order[k] !in before.torrents then Decided(before, order, k, o, c) else None))
  }

  /** The events of the first `n` places: one for each state that really changed. */
  ghost function Changes(lib: Library, order: seq<Id>, n: nat, o: Options, c: Clock): seq<Event>
    requires (forall id :: id in order ==> Has(lib, id)) && n <= |order|
  {
    if n == 0 then []
    else
      var d := Decided(lib, order, n - 1, o, c);
      Changes(lib, order, n - 1, o, c)
      + if d.Some? && d.value != StateOf(lib, order[n - 1]) then [StateChanged(order[n - 1], d.value)] else []
  }

  lemma WrittenKeepsOrder(before: Library, after: Library, order: seq<Id>, n: nat, o: Options, c: Clock)
    requires IsQueueOrder(before, order) && n <= |order| && Written(before, after, order, n, o, c)
    ensures IsQueueOrder(after, order)
    ensures forall id :: Has(after, id) ==> PositionOf(after, id) == PositionOf(before, id)
  {
    forall id | Has(after, id) ensures PositionOf(after, id) == PositionOf(before, id) {
      assert Has(before, id);
      assert id in order;
      var k :| 0 <= k < |order| && order[k] == id;
    }
    assert Keys(after, order) == Keys(before, order);
  }

  lemma TorrentSettles(t: Torrent, slots: Slots, o: Options, c: Clock)
    ensures var d := Decide(TorrentItem(t, o, c), slots, o.caps);
            TorrentItem(WithState(t, d), o, c) == Settled(TorrentItem(t, o, c))
  {
  }

  lemma PendingSettles(p: Pending, slots: Slots, o: Options, c: Clock)
    ensures var d := Decide(PendingItem(p, o, c), slots, o.caps);
            PendingItem(PendingWithState(p, d), o, c) == Settled(PendingItem(p, o, c))
  {
  }

  /** What a torrent looks like to the next pass. */
  lemma WrittenSettles(before: Library, after: Library, order: seq<Id>, o: Options, c: Clock)
    requires IsQueueOrder(before, order) && Written(before, after, order, |order|, o, c)
    ensures forall id :: id in order ==> Has(after, id)
    ensures SettledFrom(Items(before, order, o, c), Items(after, order, o, c))
  {
    var was, now := Items(before, order, o, c), Items(after, order, o, c);
    forall k | 0 <= k < |order| ensures now[k] == Settled(was[k]) {
      var id, slots := order[k], SlotsAfter(was[..k], o.caps);
      assert id in order;
      assert Decided(before, order, k, o, c) == Decide(was[k], slots, o.caps);
      if id in before.torrents {
        TorrentSettles(before.torrents[id], slots, o, c);
      } else {
        PendingSettles(before.pending[id], slots, o, c);
      }
    }
  }

  /** The decision on place `k` is the state and the transfer flag that are already there. */
  ghost predicate Quiet(lib: Library, order: seq<Id>, k: nat, o: Options, c: Clock)
    requires (forall id :: id in order ==> Has(lib, id)) && k < |order|
  {
    var d := Decided(lib, order, k, o, c);
    assert order[k] in order;
    && (d.None? || d.value == StateOf(lib, order[k]))
    && (order[k] in lib.torrents ==> WithState(lib.torrents[order[k]], d) == lib.torrents[order[k]])
    && (order[k] !in lib.torrents ==> PendingWithState(lib.pending[order[k]], d) == lib.pending[order[k]])
  }

  /**
   With rates, completion and clock fixed, a second evaluation changes no state, no transfer
   flag and no order, and emits no event.
   */
  lemma SecondEvaluationIsIdle(before: Library, mid: Library, after: Library, order: seq<Id>, o: Options, c: Clock)
    requires IsQueueOrder(before, order) && Written(before, mid, order, |order|, o, c)
    requires IsQueueOrder(mid, order) && Written(mid, after, order, |order|, o, c)
    ensures after == mid
    ensures Changes(mid, order, |order|, o, c) == []
  {
    WrittenSettles(before, mid, order, o, c);
    forall k | 0 <= k < |order| ensures Quiet(mid, order, k, o, c) {
      SecondPassAgrees(Items(before, order, o, c), Items(mid, order, o, c), k, o.caps);
      var id, first := order[k], Decided(before, order, k, o, c);
      assert id in order;
      if id in before.torrents {
        assert mid.torrents[id] == WithState(before.torrents[id], first);
      } else {
        assert mid.pending[id] == PendingWithState(before.pending[id], first);
      }
    }
    QuietLibrary(mid, after, order, o, c);
    QuietChanges(mid, order, |order|, o, c);
  }

  lemma QuietLibrary(mid: Library, after: Library, order: seq<Id>, o: Options, c: Clock)
    requires Lists(mid, order) && Written(mid, after, order, |order|, o, c)
    requires forall k :: 0 <= k < |order| ==> Quiet(mid, order, k, o, c)
    ensures after == mid
  {
    forall id | id in mid.torrents ensures after.torrents[id] == mid.torrents[id] {
      assert Has(mid, id);
      var k :| 0 <= k < |order| && order[k] == id;
      assert Quiet(mid, order, k, o, c);
    }
    forall id | id in mid.pending ensures after.pending[id] == mid.pending[id] {
      assert Has(mid, id);
      var k :| 0 <= k < |order| && order[k] == id;
      assert Quiet(mid, order, k, o, c);
    }
    assert mid.torrents == after.torrents && mid.pending == after.pending;
  }

  lemma {:induction false} QuietChanges(lib: Library, order: seq<Id>, n: nat, o: Options, c: Clock)
    requires (forall id :: id in order ==> Has(lib, id)) && n <= |order|
    requires forall k :: 0 <= k < |order| ==> Quiet(lib, order, k, o, c)
    ensures Changes(lib, order, n, o, c) == []
  {
    if n > 0 {
      QuietChanges(lib, order, n - 1, o, c);
      assert Quiet(lib, order, n - 1, o, c);
    }
  }

  function WriteState(lib: Library, id: Id, d: Option<TorrentState>): Library {
    if id in lib.torrents then lib.(torrents := lib.torrents[id := WithState(lib.torrents[id], d)])
    else if id in lib.pending then lib.(pending := lib.pending[id := PendingWithState(lib.pending[id], d)])
    else lib
  }

  /** The decisions on the first `n` places, written down one after the other. */
  ghost function WriteFirst(lib: Library, order: seq<Id>, n: nat, o: Options, c: Clock): Library
    requires (forall id :: id in order ==> Has(lib, id)) && n <= |order|
  {
    if n == 0 then lib
    else WriteState(WriteFirst(lib, order, n - 1, o, c), order[n - 1], Decided(lib, order, n - 1, o, c))
  }

  // ---------------------------------------------------------------------------------------
  // The caps and the order, in terms of the states that are written down

  function ActivityOf(lib: Library, id: Id): Activity
    requires Has(lib, id)
  {
    if id in lib.torrents then lib.torrents[id].activity else lib.pending[id].activity
  }

  /** A torrent with all its data is a seed; one without, or without metadata, is a download. */
  predicate IsSeed(lib: Library, id: Id) {
    id in lib.torrents && lib.torrents[id].complete
  }

  /** The torrent runs as a seed, or as a download. */
  predicate Runs(lib: Library, id: Id, seeding: bool)
    requires Has(lib, id)
  {
    if seeding then StateOf(lib, id).Seeding? else StateOf(lib, id).Downloading? || StateOf(lib, id).Metadata?
  }

  /** It runs, is not forced, and counts although slow ones may be exempt. */
  predicate TakesSlot(lib: Library, id: Id, seeding: bool, o: Options, c: Clock)
    requires Has(lib, id)
  {
    Runs(lib, id, seeding) && !ActivityOf(lib, id).force && !IsSlow(ActivityOf(lib, id), o, c)
  }

  /** How many of the first `n` take a slot. */
  ghost function Running(lib: Library, order: seq<Id>, n: nat, seeding: bool, o: Options, c: Clock): nat
    requires (forall id :: id in order ==> Has(lib, id)) && n <= |order|
  {
    if n == 0 then 0
    else
      Running(lib, order, n - 1, seeding, o, c)
      + (assert order[n - 1] in order; if TakesSlot(lib, order[n - 1], seeding, o, c) then 1 else 0)
  }

  /** Downloads, seeds and both together stay within every cap that is set. */
  ghost predicate WithinCaps(lib: Library, order: seq<Id>, o: Options, c: Clock)
    requires forall id :: id in order ==> Has(lib, id)
  {
    var dl, ul := Running(lib, order, |order|, false, o, c), Running(lib, order, |order|, true, o, c);
    && (o.caps.downloads > 0 ==> dl <= o.caps.downloads)
    && (o.caps.uploads > 0 ==> ul <= o.caps.uploads)
    && (o.caps.all > 0 ==> dl + ul <= o.caps.all)
  }

  /** Behind a queued torrent none of its kind runs, unless it is forced. */
  ghost predicate InTurn(lib: Library, order: seq<Id>)
    requires forall id :: id in order ==> Has(lib, id)
  {
    forall i, j :: 0 <= i < j < |order| ==> Behind(lib, order[i], order[j])
  }

  predicate Behind(lib: Library, first: Id, later: Id) {
    (Has(lib, first) && Has(lib, later) && StateOf(lib, first).Queued?
     && IsSeed(lib, first) == IsSeed(lib, later) && !ActivityOf(lib, later).force)
    ==> !Runs(lib, later, false) && !Runs(lib, later, true)
  }

  /** The state at place `k` after an evaluation, from the decision on it. */
  lemma PlaceAfter(before: Library, after: Library, order: seq<Id>, k: nat, o: Options, c: Clock)
    requires Lists(before, order) && k < |order| && Written(before, after, order, |order|, o, c)
    ensures var id, d := order[k], Decided(before, order, k, o, c);
            && Has(before, id) && Has(after, id)
            && StateOf(after, id) == (if d.None? then StateOf(before, id) else d.value)
            && ActivityOf(after, id) == ActivityOf(before, id) && IsSeed(after, id) == IsSeed(before, id)
  {
    assert order[k] in order;
  }

  /** What runs after an evaluation is what the plan admitted. */
  lemma RunsIffAdmitted(before: Library, after: Library, order: seq<Id>, k: nat, o: Options, c: Clock)
    requires Lists(before, order) && k < |order| && Written(before, after, order, |order|, o, c)
    ensures Has(before, order[k]) && Has(after, order[k])
    ensures forall seeding ::
              Runs(after, order[k], seeding)
              <==> AdmittedAt(Items(before, order, o, c), k, o.caps) && IsSeed(before, order[k]) == seeding
    ensures StateOf(after, order[k]).Queued?
            ==> Competes(ItemOf(before, order[k], o, c)) && !AdmittedAt(Items(before, order, o, c), k, o.caps)
  {
    PlaceAfter(before, after, order, k, o, c);
  }

  lemma {:induction false} RunningIsRegular(before: Library, after: Library, order: seq<Id>, n: nat, seeding: bool, o: Options, c: Clock)
    requires Lists(before, order) && Lists(after, order) && n <= |order| && Written(before, after, order, |order|, o, c)
    ensures Running(after, order, n, seeding, o, c) == Regular(Items(before, order, o, c)[..n], seeding, o.caps)
  {
    if n > 0 {
      var k, items := n - 1, Items(before, order, o, c);
      RunningIsRegular(before, after, order, k, seeding, o, c);
      SlotIffRegular(before, after, order, k, seeding, o, c);
      RegularOneMore(items, k, seeding, o.caps);
    }
  }

  lemma SlotIffRegular(before: Library, after: Library, order: seq<Id>, k: nat, seeding: bool, o: Options, c: Clock)
    requires Lists(before, order) && k < |order| && Written(before, after, order, |order|, o, c)
    ensures Has(after, order[k])
    ensures TakesSlot(after, order[k], seeding, o, c) <==> RegularAt(Items(before, order, o, c), k, seeding, o.caps)
  {
    RunsIffAdmitted(before, after, order, k, o, c);
    PlaceAfter(before, after, order, k, o, c);
  }

  /** After every evaluation the caps hold and nobody has overtaken. */
  lemma EvaluationIsFair(before: Library, after: Library, order: seq<Id>, o: Options, c: Clock)
    requires Lists(before, order) && Lists(after, order) && Written(before, after, order, |order|, o, c)
    ensures WithinCaps(after, order, o, c) && InTurn(after, order)
  {
    var items := Items(before, order, o, c);
    assert items[..|order|] == items;
    RunningIsRegular(before, after, order, |order|, false, o, c);
    RunningIsRegular(before, after, order, |order|, true, o, c);
    CapsHold(items, o.caps);
    forall i, j | 0 <= i < j < |order| ensures Behind(after, order[i], order[j]) {
      NobodyPasses(before, after, order, i, j, o, c);
    }
  }

  lemma NobodyPasses(before: Library, after: Library, order: seq<Id>, i: nat, j: nat, o: Options, c: Clock)
    requires Lists(before, order) && i < j < |order| && Written(before, after, order, |order|, o, c)
    ensures Behind(after, order[i], order[j])
  {
    var items := Items(before, order, o, c);
    RunsIffAdmitted(before, after, order, i, o, c);
    RunsIffAdmitted(before, after, order, j, o, c);
    PlaceAfter(before, after, order, i, o, c);
    PlaceAfter(before, after, order, j, o, c);
    if Competes(items[i]) && !AdmittedAt(items, i, o.caps) && Competes(items[j]) && !items[j].force && items[j].seeding == items[i].seeding {
      NoOvertaking(items, i, j, o.caps);
    }
  }

  // ---------------------------------------------------------------------------------------
  // Every state after an evaluation, spelled out

  /** The transfer flag is on exactly in the three states that transfer. */
  predicate FlagFollows(state: TorrentState, transferring: bool) {
    transferring <==> state == Downloading || state == Seeding || state == Metadata
  }

  /** The states that an evaluation leaves alone. */
  predicate LeftAlone(state: TorrentState) {
    state == Paused || state == Checking || state == Moving || state.Error?
  }

  /** The limits in products: enough uploaded for the ratio, or enough time since completion. */
  lemma SeedLimitIff(t: Torrent, o: Options, c: Clock)
    ensures var base := if t.downloaded == 0 then t.size else t.downloaded;
            var ratio := if t.ratioLimit.Some? then t.ratioLimit.value else o.seedRatioLimit;
            var minutes := if t.timeLimit.Some? then t.timeLimit.value else o.seedTimeLimit;
            SeedLimitReached(t, o, c)
            <==> && t.complete
                 && (|| (ratio > 0.0 && base > 0 && t.uploaded as real >= ratio * base as real)
                     || (minutes > 0 && t.completedAt.Some? && c.unix >= t.completedAt.value + 60 * minutes))
  {
    var base := if t.downloaded == 0 then t.size else t.downloaded;
    if base > 0 {
      QuotientAtLeast(t.uploaded as real, base as real, if t.ratioLimit.Some? then t.ratioLimit.value else o.seedRatioLimit);
    }
  }

  lemma QuotientAtLeast(x: real, y: real, q: real)
    requires y > 0.0
    ensures x / y >= q <==> x >= q * y
  {
    assert x == (x / y) * y;
    if x / y >= q {
      assert (x / y) * y >= q * y;
    } else {
      assert (x / y) * y < q * y;
    }
  }

  /** Slow means: exempt at all, below 1024 bytes a second both ways together, and for the whole window. */
  lemma SlowIff(a: Activity, o: Options, c: Clock)
    ensures IsSlow(a, o, c)
            <==> && o.dontCountSlow && a.slowSince.Some? && c.now >= a.slowSince.value + o.slowWindow
                 && (if a.downloadRate > 0.0 then a.downloadRate else 0.0) + (if a.uploadRate > 0.0 then a.uploadRate else 0.0) < 1024.0
  {
  }

  /** What an evaluation makes of a torrent. */
  ghost predicate TorrentSettled(t: Torrent, after: Torrent, o: Options, c: Clock) {
    && after == t.(state := after.state, transferring := after.transferring)
    && (LeftAlone(t.state) ==> after == t)
    && (!LeftAlone(t.state) ==> FlagFollows(after.state, after.transferring))
    && (!LeftAlone(t.state) && SeedLimitReached(t, o, c) ==> after.state == Paused)
    && (!LeftAlone(t.state) && !SeedLimitReached(t, o, c) ==>
          after.state == Queued || after.state == if t.complete then Seeding else Downloading)
  }

  ghost predicate PendingSettled(p: Pending, after: Pending) {
    && after == p.(state := after.state, transferring := after.transferring)
    && (LeftAlone(p.state) ==> after == p)
    && (!LeftAlone(p.state) ==>
          FlagFollows(after.state, after.transferring) && (after.state == Queued || after.state == Metadata))
  }

  /** Every torrent, and every pending entry that no torrent hides, is settled. */
  ghost predicate AllSettled(before: Library, after: Library, o: Options, c: Clock) {
    && after.torrents.Keys == before.torrents.Keys && after.pending.Keys == before.pending.Keys
    && (forall id :: id in before.torrents ==> TorrentSettled(before.torrents[id], after.torrents[id], o, c))
    && (forall id :: id in before.pending ==>
          if id in before.torrents then after.pending[id] == before.pending[id]
          else PendingSettled(before.pending[id], after.pending[id]))
  }

  lemma EvaluationSettles(before: Library, after: Library, order: seq<Id>, o: Options, c: Clock)
    requires Lists(before, order) && Written(before, after, order, |order|, o, c)
    ensures AllSettled(before, after, o, c)
  {
    forall id | id in before.torrents ensures TorrentSettled(before.torrents[id], after.torrents[id], o, c) {
      assert Has(before, id);
      var k :| 0 <= k < |order| && order[k] == id;
    }
    forall id | id in before.pending
      ensures if id in before.torrents then after.pending[id] == before.pending[id]
              else PendingSettled(before.pending[id], after.pending[id])
    {
      assert Has(before, id);
      var k :| 0 <= k < |order| && order[k] == id;
    }
  }

  /** Slots of a kind that the places before `n` hold: those that run and are not slow, forced or not. */
  ghost function Occupied(lib: Library, order: seq<Id>, n: nat, seeding: bool, o: Options, c: Clock): nat
    requires (forall id :: id in order ==> Has(lib, id)) && n <= |order|
  {
    if n == 0 then 0
    else
      Occupied(lib, order, n - 1, seeding, o, c)
      + (assert order[n - 1] in order; if Runs(lib, order[n - 1], seeding) && !IsSlow(ActivityOf(lib, order[n - 1]), o, c) then 1 else 0)
  }

  /** A cap that is set and concerns the kind is used up. */
  predicate CapReached(seed: bool, dl: nat, ul: nat, caps: Caps) {
    || (caps.all > 0 && dl + ul >= caps.all)
    || (!seed && caps.downloads > 0 && dl >= caps.downloads)
    || (seed && caps.uploads > 0 && ul >= caps.uploads)
  }

  lemma {:induction false} SlotsAreOccupied(before: Library, after: Library, order: seq<Id>, n: nat, o: Options, c: Clock)
    requires Lists(before, order) && Lists(after, order) && n <= |order| && Written(before, after, order, |order|, o, c)
    ensures SlotsAfter(Items(before, order, o, c)[..n], o.caps)
            == Slots(Occupied(after, order, n, false, o, c), Occupied(after, order, n, true, o, c))
  {
    if n > 0 {
      var k, items := n - 1, Items(before, order, o, c);
      SlotsAreOccupied(before, after, order, k, o, c);
      SlotsOneMore(items, k, o.caps);
      RunsIffAdmitted(before, after, order, k, o, c);
      PlaceAfter(before, after, order, k, o, c);
    }
  }

  /** A torrent waits exactly when it is neither left alone nor stopped nor forced and the slots held before it fill a cap. */
  lemma QueuedIff(before: Library, after: Library, order: seq<Id>, k: nat, o: Options, c: Clock)
    requires Lists(before, order) && Lists(after, order) && k < |order| && Written(before, after, order, |order|, o, c)
    ensures Has(before, order[k]) && Has(after, order[k])
    ensures StateOf(after, order[k]) == Queued
            <==> && !LeftAlone(StateOf(before, order[k]))
                 && !(order[k] in before.torrents && SeedLimitReached(before.torrents[order[k]], o, c))
                 && !ActivityOf(before, order[k]).force
                 && CapReached(IsSeed(before, order[k]), Occupied(after, order, k, false, o, c), Occupied(after, order, k, true, o, c), o.caps)
  {
    SlotsAreOccupied(before, after, order, k, o, c);
    PlaceAfter(before, after, order, k, o, c);
  }

  /** The events of an evaluation are exactly the changes of state, one for each. */
  lemma {:induction false} EventsAreChanges(before: Library, after: Library, order: seq<Id>, n: nat, o: Options, c: Clock)
    requires Lists(before, order) && n <= |order| && Written(before, after, order, |order|, o, c)
    ensures Distinct(Changes(before, order, n, o, c))
    ensures forall e :: e in Changes(before, order, n, o, c) <==>
              e.id in order[..n] && Has(before, e.id) && Has(after, e.id)
              && e.state == StateOf(after, e.id) && e.state != StateOf(before, e.id)
  {
    if n > 0 {
      var k := n - 1;
      EventsAreChanges(before, after, order, k, o, c);
      PlaceAfter(before, after, order, k, o, c);
      assert order[..n] == order[..k] + [order[k]];
      assert order[k] !in order[..k];
    }
  }

  lemma {:induction false} WriteFirstIsWritten(lib: Library, order: seq<Id>, n: nat, o: Options, c: Clock)
    requires Lists(lib, order) && n <= |order|
    ensures Written(lib, WriteFirst(lib, order, n, o, c), order, n, o, c)
  {
    if n > 0 {
      WriteFirstIsWritten(lib, order, n - 1, o, c);
      WriteOneMore(lib, WriteFirst(lib, order, n - 1, o, c), order, n - 1, o, c, Decided(lib, order, n - 1, o, c));
    }
  }

  lemma WriteOneMore(lib: Library, mid: Library, order: seq<Id>, n: nat, o: Options, c: Clock, d: Option<TorrentState>)
    requires Lists(lib, order) && n < |order| && Written(lib, mid, order, n, o, c) && d == Decided(lib, order, n, o, c)
    ensures Written(lib, WriteState(mid, order[n], d), order, n + 1, o, c)
  {
    var id, after := order[n], WriteState(mid, order[n], d);
    assert id in order;
    forall k | 0 <= k < |order|
      ensures order[k] in lib.torrents && k != n ==> after.torrents[order[k]] == mid.torrents[order[k]]
      ensures order[k] in lib.pending && k != n ==> after.pending[order[k]] == mid.pending[order[k]]
    {
    }
  }

  /** A place not yet written keeps its state. */
  lemma NotYetWritten(lib: Library, after: Library, order: seq<Id>, n: nat, o: Options, c: Clock)
    requires Lists(lib, order) && n < |order| && Written(lib, after, order, n, o, c)
    ensures Has(lib, order[n]) && Has(after, order[n]) && StateOf(after, order[n]) == StateOf(lib, order[n])
  {
    assert order[n] in order;
  }

  // ---------------------------------------------------------------------------------------
  // Storing positions

  function Place(lib: Library, id: Id, i: nat): Library {
    Library(if id in lib.torrents then lib.torrents[id := lib.torrents[id].(position := i)] else lib.torrents,
            if id in lib.pending then lib.pending[id := lib.pending[id].(position := i)] else lib.pending)
  }

  /** Only positions differ, and the first `n` ids stand at their places. */
  ghost predicate Placed(before: Library, after: Library, ids: seq<Id>, n: nat)
    requires n <= |ids|
  {
    && after.torrents.Keys == before.torrents.Keys && after.pending.Keys == before.pending.Keys
    && (forall id :: id in before.torrents ==>
          after.torrents[id] == before.torrents[id].(position := after.torrents[id].position))
    && (forall id :: id in before.pending ==>
          after.pending[id] == before.pending[id].(position := after.pending[id].position))
    && (forall k :: 0 <= k < n ==> PositionOf(after, ids[k]) == k)
  }

  lemma PlaceStep(before: Library, lib: Library, ids: seq<Id>, n: nat)
    requires Lists(before, ids) && n < |ids| && Placed(before, lib, ids, n)
    ensures Placed(before, Place(lib, ids[n], n), ids, n + 1)
  {
    var after := Place(lib, ids[n], n);
    assert Has(before, ids[n]);
    forall k | 0 <= k < n + 1 ensures PositionOf(after, ids[k]) == k {
      assert k < n ==> ids[k] != ids[n];
    }
  }

  // ---------------------------------------------------------------------------------------
  // Moving in the queue

  /** The place of an id in a list that holds it. */
  function IndexOf(ids: seq<Id>, id: Id): (k: nat)
    requires id in ids
    ensures k < |ids| && ids[k] == id
  {
    if ids[0] == id then 0 else 1 + IndexOf(ids[1..], id)
  }

  /** The list with `id` taken out and put back at `pos`, or at the end. */
  function MoveTo(ids: seq<Id>, id: Id, pos: nat): seq<Id>
    requires id in ids
  {
    var k := IndexOf(ids, id);
    var rest := ids[..k] + ids[k + 1..];
    var at := Min(pos, |rest|);
    rest[..at] + [id] + rest[at..]
  }

  lemma IndexIs(ids: seq<Id>, k: nat)
    requires Distinct(ids) && k < |ids|
    ensures IndexOf(ids, ids[k]) == k
  {
    var j := IndexOf(ids, ids[k]);
    assert ids[j] == ids[k];
  }

  lemma TakeOut(a: seq<Id>, x: Id, b: seq<Id>)
    requires Distinct(a + [x] + b)
    ensures Distinct(a + b) && x !in a + b
  {
    var whole, rest := a + [x] + b, a + b;
    assert whole[|a|] == x;
    forall i | 0 <= i < |rest| ensures rest[i] != x {
      assert if i < |a| then rest[i] == whole[i] else rest[i] == whole[i + 1];
    }
    forall i, j | 0 <= i < j < |rest| ensures rest[i] != rest[j] {
      assert if i < |a| then rest[i] == whole[i] else rest[i] == whole[i + 1];
      assert if j < |a| then rest[j] == whole[j] else rest[j] == whole[j + 1];
    }
  }

  lemma PutIn(a: seq<Id>, x: Id, b: seq<Id>)
    requires Distinct(a + b) && x !in a + b
    ensures Distinct(a + [x] + b)
  {
    var whole, rest := a + [x] + b, a + b;
    forall i, j | 0 <= i < j < |whole| ensures whole[i] != whole[j] {
      assert i < |a| ==> whole[i] == rest[i];
      assert i > |a| ==> whole[i] == rest[i - 1];
      assert j < |a| ==> whole[j] == rest[j];
      assert j > |a| ==> whole[j] == rest[j - 1];
    }
  }

  /** Moving keeps the ids. */
  lemma MoveKeepsMembers(ids: seq<Id>, id: Id, pos: nat)
    requires Distinct(ids) && id in ids
    ensures Distinct(MoveTo(ids, id, pos))
    ensures forall x :: x in MoveTo(ids, id, pos) <==> x in ids
  {
    var k := IndexOf(ids, id);
    var a, b := ids[..k], ids[k + 1..];
    assert ids == a + [id] + b;
    TakeOut(a, id, b);
    var rest := a + b;
    var at := Min(pos, |rest|);
    assert rest == rest[..at] + rest[at..];
    PutIn(rest[..at], id, rest[at..]);
    forall x ensures x in MoveTo(ids, id, pos) <==> x in ids {
      assert x in ids <==> x in a || x == id || x in b;
      assert x in rest <==> x in rest[..at] || x in rest[at..];
    }
  }

  lemma MoveShape(a: seq<Id>, x: Id, b: seq<Id>, pos: nat)
    requires Distinct(a + [x] + b)
    ensures MoveTo(a + [x] + b, x, pos) == (a + b)[..Min(pos, |a + b|)] + [x] + (a + b)[Min(pos, |a + b|)..]
  {
    var ids := a + [x] + b;
    assert ids[|a|] == x;
    IndexIs(ids, |a|);
    assert ids[..|a|] == a;
    assert ids[|a| + 1..] == b;
  }

  /** `queue_up` swaps a torrent with the one before it. */
  lemma UpSwaps(a: seq<Id>, y: Id, x: Id, b: seq<Id>)
    requires Distinct(a + [y] + [x] + b)
    ensures MoveTo(a + [y] + [x] + b, x, |a|) == a + [x] + [y] + b
  {
    MoveShape(a + [y], x, b, |a|);
    var rest := a + [y] + b;
    assert rest[..|a|] == a;
    assert rest[|a|..] == [y] + b;
  }

  /** `queue_down` swaps a torrent with the one after it, so it undoes `queue_up`. */
  lemma DownSwaps(a: seq<Id>, x: Id, y: Id, b: seq<Id>)
    requires Distinct(a + [x] + ([y] + b))
    ensures MoveTo(a + [x] + ([y] + b), x, |a| + 1) == a + [y] + [x] + b
  {
    MoveShape(a, x, [y] + b, |a| + 1);
    var rest := a + ([y] + b);
    assert rest[..|a| + 1] == a + [y];
    assert rest[|a| + 1..] == b;
  }

  /** The first torrent cannot move up. */
  lemma FirstStays(x: Id, b: seq<Id>)
    requires Distinct([] + [x] + b)
    ensures MoveTo([] + [x] + b, x, 0) == [] + [x] + b
  {
    MoveShape([], x, b, 0);
  }

  /** The last torrent cannot move down. */
  lemma LastStays(a: seq<Id>, x: Id, pos: nat)
    requires Distinct(a + [x] + []) && pos >= |a|
    ensures MoveTo(a + [x] + [], x, pos) == a + [x] + []
  {
    MoveShape(a, x, [], pos);
  }

  lemma SortedKeysAreOrder(lib: Library, ids: seq<Id>, order: seq<Id>)
    requires Lists(lib, ids)
    requires |order| == |ids| && forall k :: 0 <= k < |ids| ==> order[k] == Sort(Keys(lib, ids))[k].snd
    ensures IsQueueOrder(lib, order)
  {
    var keys := Keys(lib, ids);
    var sorted := Sort(keys);
    SortIsSorted(keys);
    SortMembers(keys);
    forall k | 0 <= k < |sorted| ensures sorted[k] == Pair(PositionOf(lib, order[k]), order[k]) && order[k] in ids {
      assert sorted[k] in keys;
    }
    assert Keys(lib, order) == sorted;
    forall i, j | 0 <= i < j < |order| ensures order[i] != order[j] {
      if order[i] == order[j] {
        assert sorted[i] == sorted[j];
        RepeatedMultiplicity(sorted, i, j);
        DistinctMultiplicity(keys, sorted[i]);
      }
    }
    forall id | id in ids ensures id in order {
      var k :| 0 <= k < |ids| && ids[k] == id;
      assert keys[k] in sorted;
      var j :| 0 <= j < |sorted| && sorted[j] == keys[k];
      assert order[j] == id;
    }
  }

  lemma RepeatedMultiplicity(s: seq<Pair>, i: nat, j: nat)
    requires i < j < |s| && s[i] == s[j]
    ensures multiset(s)[s[i]] >= 2
  {
    assert s == s[..j] + [s[j]] + s[j + 1..];
    assert s[..j][i] == s[i];
    assert s[i] in multiset(s[..j]);
  }

  lemma PlacesAreSorted(lib: Library, ids: seq<Id>)
    requires Lists(lib, ids) && forall k :: 0 <= k < |ids| ==> PositionOf(lib, ids[k]) == k
    ensures IsQueueOrder(lib, ids)
  {
  }

  // ---------------------------------------------------------------------------------------
  // The session

  datatype ControlError = NotFound(id: Id)

  /** Every id once, in the order in which the tables happen to be read. */
  method ListIds(lib: Library) returns (ids: seq<Id>)
    ensures Lists(lib, ids)
  {
    ids := [];
    var todo := lib.torrents.Keys + (lib.pending.Keys - lib.torrents.Keys);
    while todo != {}
      invariant Distinct(ids)
      invariant forall id :: id in todo ==> Has(lib, id) && id !in ids
      invariant forall id :: Has(lib, id) <==> id in todo || id in ids
      decreases |todo|
    {
      var id :| id in todo;
      ids := ids + [id];
      todo := todo - {id};
    }
  }

  class Session {
    const options: Options
    var torrents: map<Id, Torrent>
    var pending: map<Id, Pending>
    var nextPosition: nat
    var restoring: bool
    var events: seq<Event>

    constructor (options: Options)
      ensures this.options == options && View() == Library(map[], map[]) && !restoring && events == []
    {
      this.options := options;
      torrents, pending, nextPosition, restoring, events := map[], map[], 0, false, [];
    }

    function View(): Library
      reads this
    {
      Library(torrents, pending)
    }

    /** `queue_order`: the tables are read in any order and the entries sorted. */
    method QueueOrder() returns (order: seq<Id>)
      ensures IsQueueOrder(View(), order)
    {
      var lib := View();
      var ids := ListIds(lib);
      var sorted := Sort(Keys(lib, ids));
      order := seq(|sorted|, k requires 0 <= k < |sorted| => sorted[k].snd);
      SortedKeysAreOrder(lib, ids, order);
    }

    /** `apply_queue_order`: positions become places in the list. */
    method ApplyQueueOrder(ids: seq<Id>)
      requires Lists(View(), ids)
      modifies `torrents, `pending, `nextPosition
      ensures IsQueueOrder(View(), ids) && nextPosition == |ids|
      ensures Placed(old(View()), View(), ids, |ids|)
    {
      for i := 0 to |ids|
        invariant Placed(old(View()), View(), ids, i)
      {
        PlaceStep(old(View()), View(), ids, i);
        var id := ids[i];
        ghost var next := Place(View(), id, i);
        if id in torrents {
          torrents := torrents[id := torrents[id].(position := i)];
        }
        if id in pending {
          pending := pending[id := pending[id].(position := i)];
        }
        assert View() == next;
      }
      nextPosition := |ids|;
      PlacesAreSorted(View(), ids);
    }

    /**
     `evaluate_queue`. The ghost result is the queue order that was used. The states, the
     transfer flags and the events afterwards are those of the slot plan.
     */
    method EvaluateQueue(clock: Clock) returns (ghost order: seq<Id>)
      modifies `torrents, `pending, `events
      ensures restoring ==> View() == old(View()) && events == old(events)
      ensures !restoring ==> IsQueueOrder(old(View()), order) && IsQueueOrder(View(), order)
      ensures !restoring ==> Written(old(View()), View(), order, |order|, options, clock)
      ensures !restoring ==> events == old(events) + Changes(old(View()), order, |order|, options, clock)
      ensures !restoring ==> WithinCaps(View(), order, options, clock) && InTurn(View(), order)
      ensures !restoring ==> AllSettled(old(View()), View(), options, clock)
    {
      order := [];
      if restoring {
        return;
      }
      var ids := QueueOrder();
      order := ids;
      var plan := PlanSlots(ids, clock);
      WriteStates(ids, plan, clock);
      WrittenKeepsOrder(old(View()), View(), order, |order|, options, clock);
      EvaluationIsFair(old(View()), View(), order, options, clock);
      EvaluationSettles(old(View()), View(), order, options, clock);
    }

    /** The first loop of the evaluation: decide on every torrent in turn. */
    method PlanSlots(ids: seq<Id>, clock: Clock) returns (plan: seq<Option<TorrentState>>)
      requires Lists(View(), ids)
      ensures |plan| == |ids|
      ensures forall k :: 0 <= k < |ids| ==> plan[k] == Decided(View(), ids, k, options, clock)
    {
      ghost var items := Items(View(), ids, options, clock);
      var slots := Slots(0, 0);
      plan := [];
      for i := 0 to |ids|
        invariant |plan| == i
        invariant slots == SlotsAfter(items[..i], options.caps)
        invariant forall k :: 0 <= k < i ==> plan[k] == DecisionAt(items, k, options.caps)
      {
        var item := ItemOf(View(), ids[i], options, clock);
        assert items[..i + 1][..i] == items[..i] && items[..i + 1][i] == item;
        if item.parked {
          plan := plan + [None];
        } else if item.limit {
          plan := plan + [Some(Paused)];
        } else if item.force || SlotAvailable(item.seeding, slots, options.caps) {
          if !item.slow {
            slots := if item.seeding then slots.(ul := slots.ul + 1) else slots.(dl := slots.dl + 1);
          }
          plan := plan + [Some(item.want)];
        } else {
          plan := plan + [Some(Queued)];
        }
      }
    }

    /** The second loop: write the states down and report the changes. */
    method WriteStates(ids: seq<Id>, plan: seq<Option<TorrentState>>, clock: Clock)
      requires Lists(View(), ids) && |plan| == |ids|
      requires forall k :: 0 <= k < |ids| ==> plan[k] == Decided(View(), ids, k, options, clock)
      modifies `torrents, `pending, `events
      ensures Written(old(View()), View(), ids, |ids|, options, clock)
      ensures events == old(events) + Changes(old(View()), ids, |ids|, options, clock)
    {
      for i := 0 to |ids|
        invariant View() == WriteFirst(old(View()), ids, i, options, clock)
        invariant events == old(events) + Changes(old(View()), ids, i, options, clock)
      {
        assert Has(View(), ids[i]) && StateOf(View(), ids[i]) == StateOf(old(View()), ids[i]) by {
          WriteFirstIsWritten(old(View()), ids, i, options, clock);
          NotYetWritten(old(View()), View(), ids, i, options, clock);
        }
        if plan[i].Some? {
          SetState(ids[i], plan[i].value);
        } else {
          assert View() == WriteState(View(), ids[i], None);
        }
      }
      WriteFirstIsWritten(old(View()), ids, |ids|, options, clock);
    }

    /** `set_torrent_state`, and the same steps for a pending entry. */
    method SetState(id: Id, state: TorrentState)
      requires Has(View(), id)
      modifies `torrents, `pending, `events
      ensures View() == WriteState(old(View()), id, Some(state))
      ensures id in torrents ==> torrents[id].state == state && FlagFollows(state, torrents[id].transferring)
      ensures id !in torrents ==> pending[id].state == state && FlagFollows(state, pending[id].transferring)
      ensures events == old(events) + if StateOf(old(View()), id) != state then [StateChanged(id, state)] else []
    {
      var changed := StateOf(View(), id) != state;
      if id in torrents {
        torrents := torrents[id := torrents[id].(state := state, transferring := TransferEnabled(state))];
      } else {
        pending := pending[id := pending[id].(state := state, transferring := TransferEnabled(state))];
      }
      if changed {
        events := events + [StateChanged(id, state)];
      }
    }

    /** `set_queue_position`. */
    method SetQueuePosition(id: Id, pos: nat, clock: Clock) returns (error: Option<ControlError>)
      modifies this
      ensures error.Some? <==> !Has(old(View()), id)
      ensures error.Some? ==> View() == old(View()) && events == old(events)
      ensures error.None? ==> forall order :: IsQueueOrder(old(View()), order) ==> id in order && IsQueueOrder(View(), MoveTo(order, id, pos))
    {
      var ids := QueueOrder();
      ghost var order := ids;
      if id !in ids {
        return Some(NotFound(id));
      }
      ids := MoveTo(ids, id, pos);
      MoveKeepsMembers(order, id, pos);
      ApplyQueueOrder(ids);
      ghost var applied := View();
      ghost var used := EvaluateQueue(clock);
      error := None;
      if !restoring {
        QueueOrderIsUnique(applied, used, ids);
      }
      forall other | IsQueueOrder(old(View()), other) ensures id in other && IsQueueOrder(View(), MoveTo(other, id, pos)) {
        QueueOrderIsUnique(old(View()), other, order);
      }
    }

    method QueueUp(id: Id, clock: Clock) returns (error: Option<ControlError>)
      modifies this
      ensures error.Some? <==> !Has(old(View()), id)
      ensures error.None? ==> forall order :: IsQueueOrder(old(View()), order) ==>
                id in order && IsQueueOrder(View(), MoveTo(order, id, Max(IndexOf(order, id), 1) - 1))
    {
      var ids := QueueOrder();
      if id !in ids {
        return Some(NotFound(id));
      }
      var idx := IndexOf(ids, id);
      ghost var before := View();
      error := SetQueuePosition(id, if idx > 0 then idx - 1 else 0, clock);
      forall order | IsQueueOrder(before, order) ensures order == ids {
        QueueOrderIsUnique(before, order, ids);
      }
    }

    method QueueDown(id: Id, clock: Clock) returns (error: Option<ControlError>)
      modifies this
      ensures error.Some? <==> !Has(old(View()), id)
      ensures error.None? ==> forall order :: IsQueueOrder(old(View()), order) ==>
                id in order && IsQueueOrder(View(), MoveTo(order, id, IndexOf(order, id) + 1))
    {
      var ids := QueueOrder();
      if id !in ids {
        return Some(NotFound(id));
      }
      var idx := IndexOf(ids, id);
      ghost var before := View();
      error := SetQueuePosition(id, idx + 1, clock);
      forall order | IsQueueOrder(before, order) ensures order == ids {
        QueueOrderIsUnique(before, order, ids);
      }
    }
  }
}
