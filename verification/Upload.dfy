/**
 The upload side of one peer connection in `crates/bit_rev/src/peer_connection.rs`: requests
 that arrive, the bounded queue, the uploader task, cancels and choking, with the Reject
 Request message of BEP-0006. The source runs these as tasks that share the queue under a
 lock; each method is one stretch of code between two points where another task may run.
 What the peer sends, the piece table's answers, disk reads and the session's choke and
 pause decisions are arguments.
 */
module Upload {
  import opened Basics
  import opened Message

  const MAX_INCOMING_REQUEST_LENGTH: nat := 128 * 1024
  const MAX_UPLOAD_QUEUE: nat := 8
  const MAX_CHOKED_REQUESTS: nat := 8

  datatype RequestError = MissingPiece | InvalidLength | OutOfBounds

  /** `validate_request`: the reason to refuse a request, if any. */
  function ValidateRequest(req: BlockRequest, pieceLength: U32, have: bool): (error: Option<RequestError>)
    ensures error.None? <==> have && 0 < req.length <= MAX_INCOMING_REQUEST_LENGTH && req.begin + req.length <= pieceLength
    ensures error == Some(MissingPiece) <==> !have
  {
    if !have then Some(MissingPiece)
    else if req.length == 0 || req.length > MAX_INCOMING_REQUEST_LENGTH then Some(InvalidLength)
    else if req.begin + req.length < U32_LIMIT && req.begin + req.length <= pieceLength then None
    else Some(OutOfBounds)
  }

  /** The queued requests that survive a choke, in order. */
  function Kept(queue: seq<BlockRequest>, keepAllowed: bool, allowed: set<U32>): (kept: seq<BlockRequest>)
    ensures |kept| <= |queue|
  {
    if queue == [] then []
    else
      var rest := Kept(queue[..|queue| - 1], keepAllowed, allowed);
      var last := queue[|queue| - 1];
      if keepAllowed && last.index in allowed then rest + [last] else rest
  }

  /** The queued requests that a choke rejects, in order. */
  function Refused(queue: seq<BlockRequest>, keepAllowed: bool, allowed: set<U32>): seq<BlockRequest> {
    if queue == [] then []
    else
      var rest := Refused(queue[..|queue| - 1], keepAllowed, allowed);
      var last := queue[|queue| - 1];
      if keepAllowed && last.index in allowed then rest else rest + [last]
  }

  /** The copies of `req` in the queue. */
  function Copies(queue: seq<BlockRequest>, req: BlockRequest): seq<BlockRequest> {
    if queue == [] then []
    else
      var rest := Copies(queue[..|queue| - 1], req);
      if queue[|queue| - 1] == req then rest + [req] else rest
  }

  // ---------------------------------------------------------------------------------------
  // The protocol as a state machine

  /**
   Where every request is: still queued or in hand, answered on the wire by a piece or a
   reject, removed by a cancel, or let go without a message.
   */
  datatype Ledger = Ledger(
    received: seq<BlockRequest>,
    queue: seq<BlockRequest>,
    inHand: Option<BlockRequest>,
    pieces: seq<BlockRequest>,
    rejects: seq<BlockRequest>,
    cancelled: seq<BlockRequest>,
    unanswered: seq<BlockRequest>)

  datatype State = State(
    fast: bool,
    downloading: bool,
    choking: bool,
    allowed: set<U32>,
    chokedRequests: nat,
    closed: bool,
    ledger: Ledger)

  function Fresh(fast: bool): State {
    State(fast, true, true, {}, 0, false, Ledger([], [], None, [], [], [], []))
  }

  /** Everything that can happen on the upload side. A payload arrives decoded by `FromPayload`. */
  datatype Event =
    | RequestArrives(parsed: Option<BlockRequest>, pieceLength: Option<U32>, have: bool)
    | CancelArrives(parsed: Option<BlockRequest>)
    | SetChoking(nowChoking: bool)
    | SetDownloading(nowDownloading: bool)
    | AllowFast(pieces: set<U32>)
    | UploaderRejects
    | UploaderPops
    | ReadFails
    | UploaderSends(delivered: bool)

  /** `send_reject`: nothing goes out without the fast extension. */
  function Reject(l: Ledger, fast: bool, req: BlockRequest): Ledger {
    if fast then l.(rejects := l.rejects + [req]) else l.(unanswered := l.unanswered + [req])
  }

  function LetGo(l: Ledger, req: BlockRequest): Ledger {
    l.(unanswered := l.unanswered + [req])
  }

  function Enqueue(l: Ledger, req: BlockRequest): Ledger {
    l.(queue := l.queue + [req])
  }

  /** `reject_upload_queue`. */
  function RejectQueue(l: Ledger, fast: bool, keepAllowed: bool, allowed: set<U32>): Ledger {
    if fast then
      l.(queue := Kept(l.queue, keepAllowed, allowed), rejects := l.rejects + Refused(l.queue, keepAllowed, allowed))
    else l.(queue := [], unanswered := l.unanswered + l.queue)
  }

  function CancelQueued(l: Ledger, req: BlockRequest): Ledger {
    l.(queue := Without(l.queue, req), cancelled := l.cancelled + Copies(l.queue, req))
  }

  /** The uploader takes the next request, and rejects it at once when a choke overtook it. */
  function Pop(l: Ledger, fast: bool, choking: bool, allowed: set<U32>): Ledger {
    if l.queue == [] || l.inHand.Some? then l
    else
      var req := l.queue[0];
      var rest := l.(queue := l.queue[1..]);
      if choking && req.index !in allowed then Reject(rest, fast, req) else rest.(inHand := Some(req))
  }

  function RejectHand(l: Ledger, fast: bool): Ledger {
    if l.inHand.None? then l else Reject(l.(inHand := None), fast, l.inHand.value)
  }

  function SendHand(l: Ledger): Ledger {
    if l.inHand.None? then l else l.(inHand := None, pieces := l.pieces + [l.inHand.value])
  }

  /** What happens to a request that was decoded. An error closes the connection. */
  function Admit(s: State, l: Ledger, req: BlockRequest, pieceLength: Option<U32>, have: bool): State {
    if pieceLength.None? then s.(closed := true, ledger := LetGo(l, req))
    else
      var error := ValidateRequest(req, pieceLength.value, have);
      if error == Some(MissingPiece) && s.fast then s.(ledger := Reject(l, s.fast, req))
      else if error.Some? then s.(closed := true, ledger := LetGo(l, req))
      else if !s.downloading then s.(ledger := Reject(l, s.fast, req))
      else if s.choking && !(s.fast && req.index in s.allowed) then
        var n := s.chokedRequests + 1;
        s.(chokedRequests := n, closed := n > MAX_CHOKED_REQUESTS, ledger := Reject(l, s.fast, req))
      else if |l.queue| >= MAX_UPLOAD_QUEUE then s.(chokedRequests := 0, ledger := Reject(l, s.fast, req))
      else s.(chokedRequests := 0, ledger := Enqueue(l, req))
  }

  /** One event. A closed connection does nothing more. */
  function Next(s: State, e: Event): State {
    if s.closed then s
    else
      var l := s.ledger;
      match e
      case RequestArrives(None, _, _) => s.(closed := true)
      case RequestArrives(Some(req), pieceLength, have) =>
        Admit(s, l.(received := l.received + [req]), req, pieceLength, have)
      case CancelArrives(None) => s
      case CancelArrives(Some(req)) => s.(ledger := CancelQueued(l, req))
      case SetChoking(c) => s.(choking := c)
      case SetDownloading(d) => s.(downloading := d)
      case AllowFast(more) => s.(allowed := s.allowed + more)
      case UploaderRejects =>
        if s.downloading && !s.choking then s
        else s.(ledger := RejectQueue(l, s.fast, s.downloading, s.allowed))
      case UploaderPops => s.(ledger := Pop(l, s.fast, s.choking, s.allowed))
      case ReadFails => s.(ledger := RejectHand(l, s.fast))
      case UploaderSends(delivered) =>
        if !s.downloading then s.(ledger := RejectHand(l, s.fast))
        else if delivered then s.(ledger := SendHand(l))
        else s.(closed := l.inHand.Some?)
  }

  ghost function RunFrom(s: State, events: seq<Event>): State
    decreases |events|
  {
    if events == [] then s else RunFrom(Next(s, events[0]), events[1..])
  }

  // ---------------------------------------------------------------------------------------
  // Conservation

  ghost function Count(s: seq<BlockRequest>, r: BlockRequest): nat {
    if s == [] then 0 else Count(s[..|s| - 1], r) + if s[|s| - 1] == r then 1 else 0
  }

  lemma {:induction false} CountAppend(s: seq<BlockRequest>, t: seq<BlockRequest>, r: BlockRequest)
    ensures Count(s + t, r) == Count(s, r) + Count(t, r)
    decreases |t|
  {
    if t == [] {
      assert s + t == s;
    } else {
      assert (s + t)[..|s + t| - 1] == s + t[..|t| - 1];
      CountAppend(s, t[..|t| - 1], r);
    }
  }

  lemma {:induction false} CountIsMultiplicity(s: seq<BlockRequest>, r: BlockRequest)
    ensures Count(s, r) == multiset(s)[r]
  {
    if s != [] {
      CountIsMultiplicity(s[..|s| - 1], r);
      assert s == s[..|s| - 1] + [s[|s| - 1]];
    }
  }

  ghost function InHand(l: Ledger, r: BlockRequest): nat {
    if l.inHand == Some(r) then 1 else 0
  }

  /** How often a request has met one of its fates. */
  ghost function Fates(l: Ledger, r: BlockRequest): nat {
    Count(l.pieces, r) + Count(l.rejects, r) + Count(l.cancelled, r) + Count(l.unanswered, r)
    + Count(l.queue, r) + InHand(l, r)
  }

  ghost predicate Balanced(l: Ledger, r: BlockRequest) {
    Count(l.received, r) == Fates(l, r)
  }

  lemma {:induction false} ChokeSplitsQueue(queue: seq<BlockRequest>, keepAllowed: bool, allowed: set<U32>, r: BlockRequest)
    ensures Count(Kept(queue, keepAllowed, allowed), r) + Count(Refused(queue, keepAllowed, allowed), r) == Count(queue, r)
  {
    if queue != [] {
      var front, last := queue[..|queue| - 1], queue[|queue| - 1];
      ChokeSplitsQueue(front, keepAllowed, allowed, r);
      CountAppend(Kept(front, keepAllowed, allowed), [last], r);
      CountAppend(Refused(front, keepAllowed, allowed), [last], r);
    }
  }

  lemma {:induction false} CancelSplitsQueue(queue: seq<BlockRequest>, req: BlockRequest, r: BlockRequest)
    ensures Count(Without(queue, req), r) + Count(Copies(queue, req), r) == Count(queue, r)
  {
    if queue != [] {
      var front, last := queue[..|queue| - 1], queue[|queue| - 1];
      CancelSplitsQueue(front, req, r);
      CountAppend(Without(front, req), [last], r);
      CountAppend(Copies(front, req), [last], r);
    }
  }

  /** A request that arrives is entered once, however it is treated. */
  lemma EntryAddsFate(l: Ledger, fast: bool, req: BlockRequest, r: BlockRequest)
    ensures Fates(Reject(l, fast, req), r) == Fates(l, r) + Count([req], r)
    ensures Fates(LetGo(l, req), r) == Fates(l, r) + Count([req], r)
    ensures Fates(Enqueue(l, req), r) == Fates(l, r) + Count([req], r)
  {
    RejectAddsFate(l, fast, req, r);
    RejectAddsFate(l, false, req, r);
    EnqueueAddsFate(l, req, r);
  }

  lemma RejectAddsFate(l: Ledger, fast: bool, req: BlockRequest, r: BlockRequest)
    ensures Fates(Reject(l, fast, req), r) == Fates(l, r) + Count([req], r)
  {
    CountAppend(if fast then l.rejects else l.unanswered, [req], r);
  }

  lemma EnqueueAddsFate(l: Ledger, req: BlockRequest, r: BlockRequest)
    ensures Fates(Enqueue(l, req), r) == Fates(l, r) + Count([req], r)
  {
    CountAppend(l.queue, [req], r);
  }

  lemma RejectQueueKeepsFates(l: Ledger, fast: bool, keepAllowed: bool, allowed: set<U32>, r: BlockRequest)
    ensures Fates(RejectQueue(l, fast, keepAllowed, allowed), r) == Fates(l, r)
    ensures RejectQueue(l, fast, keepAllowed, allowed).received == l.received
  {
    ChokeSplitsQueue(l.queue, keepAllowed, allowed, r);
    CountAppend(l.rejects, Refused(l.queue, keepAllowed, allowed), r);
    CountAppend(l.unanswered, l.queue, r);
  }

  lemma CancelKeepsFates(l: Ledger, req: BlockRequest, r: BlockRequest)
    ensures Fates(CancelQueued(l, req), r) == Fates(l, r) && CancelQueued(l, req).received == l.received
  {
    CancelSplitsQueue(l.queue, req, r);
    CountAppend(l.cancelled, Copies(l.queue, req), r);
  }

  lemma PopKeepsFates(l: Ledger, fast: bool, choking: bool, allowed: set<U32>, r: BlockRequest)
    ensures Fates(Pop(l, fast, choking, allowed), r) == Fates(l, r) && Pop(l, fast, choking, allowed).received == l.received
  {
    if l.queue != [] && l.inHand.None? {
      var req := l.queue[0];
      assert l.queue == [req] + l.queue[1..];
      CountAppend([req], l.queue[1..], r);
      EntryAddsFate(l.(queue := l.queue[1..]), fast, req, r);
    }
  }

  lemma HandKeepsFates(l: Ledger, fast: bool, r: BlockRequest)
    ensures Fates(RejectHand(l, fast), r) == Fates(l, r) && RejectHand(l, fast).received == l.received
    ensures Fates(SendHand(l), r) == Fates(l, r) && SendHand(l).received == l.received
  {
    if l.inHand.Some? {
      EntryAddsFate(l.(inHand := None), fast, l.inHand.value, r);
      CountAppend(l.pieces, [l.inHand.value], r);
    }
  }

  lemma EntryIsBalanced(l: Ledger, fast: bool, req: BlockRequest, r: BlockRequest)
    requires Balanced(l, r)
    ensures var arrived := l.(received := l.received + [req]);
            && Balanced(Reject(arrived, fast, req), r)
            && Balanced(LetGo(arrived, req), r)
            && Balanced(Enqueue(arrived, req), r)
  {
    CountAppend(l.received, [req], r);
    EntryAddsFate(l.(received := l.received + [req]), fast, req, r);
  }

  lemma AdmitEntersOnce(s: State, l: Ledger, req: BlockRequest, pieceLength: Option<U32>, have: bool)
    ensures var after := Admit(s, l, req, pieceLength, have).ledger;
            after == Reject(l, s.fast, req) || after == LetGo(l, req) || after == Enqueue(l, req)
  {
  }

  lemma MessageConserves(s: State, e: Event, r: BlockRequest)
    requires Balanced(s.ledger, r) && (e.RequestArrives? || e.CancelArrives?)
    ensures Balanced(Next(s, e).ledger, r)
  {
    if e.parsed.Some? && !s.closed {
      var req := e.parsed.value;
      if e.RequestArrives? {
        EntryIsBalanced(s.ledger, s.fast, req, r);
        AdmitEntersOnce(s, s.ledger.(received := s.ledger.received + [req]), req, e.pieceLength, e.have);
      } else {
        CancelKeepsFates(s.ledger, req, r);
      }
    }
  }

  lemma QueueConserves(s: State, e: Event, r: BlockRequest)
    requires Balanced(s.ledger, r) && (e.UploaderRejects? || e.UploaderPops?)
    ensures Balanced(Next(s, e).ledger, r)
  {
    if e.UploaderRejects? {
      RejectQueueKeepsFates(s.ledger, s.fast, s.downloading, s.allowed, r);
    } else {
      PopKeepsFates(s.ledger, s.fast, s.choking, s.allowed, r);
    }
  }

  lemma HandCases(s: State, e: Event)
    requires e.ReadFails? || e.UploaderSends?
    ensures Next(s, e).ledger in {s.ledger, RejectHand(s.ledger, s.fast), SendHand(s.ledger)}
  {
  }

  lemma HandConserves(s: State, e: Event, r: BlockRequest)
    requires Balanced(s.ledger, r) && (e.ReadFails? || e.UploaderSends?)
    ensures Balanced(Next(s, e).ledger, r)
  {
    HandCases(s, e);
    HandKeepsFates(s.ledger, s.fast, r);
    assert Balanced(RejectHand(s.ledger, s.fast), r);
    assert Balanced(SendHand(s.ledger), r);
  }

  /** No event loses or duplicates a request. */
  lemma NextConserves(s: State, e: Event, r: BlockRequest)
    requires Balanced(s.ledger, r)
    ensures Balanced(Next(s, e).ledger, r)
  {
    if e.RequestArrives? || e.CancelArrives? {
      MessageConserves(s, e, r);
    } else if e.UploaderRejects? || e.UploaderPops? {
      QueueConserves(s, e, r);
    } else if e.ReadFails? || e.UploaderSends? {
      HandConserves(s, e, r);
    } else {
      assert Next(s, e).ledger == s.ledger;
    }
  }

  /** The queue bound, the storm limit, and who may go without an answer. */
  ghost predicate Bounded(s: State) {
    && |s.ledger.queue| <= MAX_UPLOAD_QUEUE
    && (!s.closed ==> s.chokedRequests <= MAX_CHOKED_REQUESTS)
    && (s.fast ==> |s.ledger.unanswered| <= if s.closed then 1 else 0)
    && (!s.fast ==> s.ledger.rejects == [])
  }

  lemma NextStaysBounded(s: State, e: Event)
    requires Bounded(s)
    ensures Bounded(Next(s, e)) && Next(s, e).fast == s.fast
  {
  }

  lemma {:induction false} RunConserves(s: State, events: seq<Event>, r: BlockRequest)
    requires Bounded(s) && Balanced(s.ledger, r)
    ensures Bounded(RunFrom(s, events)) && Balanced(RunFrom(s, events).ledger, r)
    ensures RunFrom(s, events).fast == s.fast
    decreases |events|
  {
    if events != [] {
      NextStaysBounded(s, events[0]);
      NextConserves(s, events[0], r);
      RunConserves(Next(s, events[0]), events[1..], r);
    }
  }

  /** The multiset of all fates. */
  ghost function Accounted(l: Ledger): multiset<BlockRequest> {
    multiset(l.pieces) + multiset(l.rejects) + multiset(l.cancelled) + multiset(l.unanswered) + multiset(l.queue)
    + (if l.inHand.Some? then multiset{l.inHand.value} else multiset{})
  }

  lemma FatesAreAccounted(l: Ledger, r: BlockRequest)
    ensures Fates(l, r) == Accounted(l)[r]
  {
    CountIsMultiplicity(l.pieces, r);
    CountIsMultiplicity(l.rejects, r);
    CountIsMultiplicity(l.cancelled, r);
    CountIsMultiplicity(l.unanswered, r);
    CountIsMultiplicity(l.queue, r);
  }

  /**
   Every run from a new connection with the fast extension. While the connection is open, the
   requests received are the pieces sent, the rejects sent, the cancelled ones, the queued
   ones and the one in hand, each counted once, and the queue holds at most eight. When it
   closes at most one request is left without an answer.
   */
  lemma EveryRequestAnsweredOnce(events: seq<Event>)
    ensures var s := RunFrom(Fresh(true), events);
            && multiset(s.ledger.received) == Accounted(s.ledger)
            && |s.ledger.unanswered| <= (if s.closed then 1 else 0)
            && |s.ledger.queue| <= 8
  {
    var l := RunFrom(Fresh(true), events).ledger;
    forall r: BlockRequest ensures multiset(l.received)[r] == Accounted(l)[r] {
      RunConserves(Fresh(true), events, r);
      CountIsMultiplicity(l.received, r);
      FatesAreAccounted(l, r);
    }
    RunConserves(Fresh(true), events, BlockRequest(0, 0, 0));
  }

  /** Without the fast extension nothing is ever rejected on the wire. */
  lemma NoRejectsWithoutFast(events: seq<Event>)
    ensures RunFrom(Fresh(false), events).ledger.rejects == []
  {
    RunConserves(Fresh(false), events, BlockRequest(0, 0, 0));
  }

  /** After the uploader has seen a choke, only allowed-fast requests are left in the queue. */
  lemma {:induction false} ChokeLeavesAllowed(queue: seq<BlockRequest>, allowed: set<U32>)
    ensures forall r :: r in Kept(queue, true, allowed) ==> r.index in allowed
    ensures Kept(queue, false, allowed) == []
  {
    if queue != [] {
      ChokeLeavesAllowed(queue[..|queue| - 1], allowed);
    }
  }

  // ---------------------------------------------------------------------------------------
  // Who is served

  /** The request is for a piece that is held, between 1 byte and 128 KiB long, and inside the piece. */
  predicate Servable(req: BlockRequest, pieceLength: Option<U32>, have: bool) {
    pieceLength.Some? && have && 1 <= req.length <= 131072 && req.begin + req.length <= pieceLength.value
  }

  /** The peer may ask for the piece now: it is unchoked, or the piece is allowed fast. */
  predicate MayAsk(s: State, req: BlockRequest) {
    !s.choking || (s.fast && req.index in s.allowed)
  }

  /**
   A request is queued, at the end, if and only if it can be served, the torrent runs, the peer
   may ask, and fewer than eight wait; otherwise the queue stays as it is.
   */
  lemma QueuedIff(s: State, req: BlockRequest, pieceLength: Option<U32>, have: bool)
    requires !s.closed
    ensures Next(s, RequestArrives(Some(req), pieceLength, have)).ledger.queue
            == s.ledger.queue
               + if Servable(req, pieceLength, have) && s.downloading && MayAsk(s, req) && |s.ledger.queue| < 8 then [req] else []
  {
  }

  /** With the fast extension a request that is not queued is rejected, unless it is for no piece of the torrent or out of bounds. */
  lemma RejectedIff(s: State, req: BlockRequest, pieceLength: Option<U32>, have: bool)
    requires !s.closed
    ensures Next(s, RequestArrives(Some(req), pieceLength, have)).ledger.rejects
            == s.ledger.rejects
               + if s.fast && pieceLength.Some? && (!have || Servable(req, pieceLength, have))
                    && !(have && s.downloading && MayAsk(s, req) && |s.ledger.queue| < 8)
                 then [req] else []
  {
  }

  /**
   A request closes the connection if and only if it is for no piece of the torrent, for a piece
   that is not held without the fast extension, out of bounds, or the ninth in a row while the
   peer may not ask.
   */
  lemma ClosedIff(s: State, req: BlockRequest, pieceLength: Option<U32>, have: bool)
    requires !s.closed
    ensures Next(s, RequestArrives(Some(req), pieceLength, have)).closed
            <==> || pieceLength.None?
                 || (!have && !s.fast)
                 || (have && !Servable(req, pieceLength, have))
                 || (Servable(req, pieceLength, have) && s.downloading && !MayAsk(s, req) && s.chokedRequests >= 8)
  {
  }

  /** The row of choked requests: one more while the peer may not ask, ended by one it may make. */
  lemma ChokedRow(s: State, req: BlockRequest, pieceLength: Option<U32>, have: bool)
    requires !s.closed
    ensures Next(s, RequestArrives(Some(req), pieceLength, have)).chokedRequests
            == if !(Servable(req, pieceLength, have) && s.downloading) then s.chokedRequests
               else if MayAsk(s, req) then 0
               else s.chokedRequests + 1
  {
  }

  /**
   Settings decide about the requests after them: unchoked the peer may ask, choked only for what is
   or becomes allowed fast, and a paused torrent serves nobody.
   */
  lemma SettingsDecide(s: State, req: BlockRequest, pieceLength: Option<U32>, have: bool, pieces: set<U32>)
    requires !s.closed && Servable(req, pieceLength, have) && |s.ledger.queue| < 8
    ensures var e, q := RequestArrives(Some(req), pieceLength, have), s.ledger.queue;
            && (s.downloading ==> Next(Next(s, SetChoking(false)), e).ledger.queue == q + [req])
            && (s.downloading ==>
                  Next(Next(s, SetChoking(true)), e).ledger.queue == q + if s.fast && req.index in s.allowed then [req] else [])
            && (s.downloading && s.fast && (req.index in pieces || req.index in s.allowed) ==>
                  Next(Next(s, AllowFast(pieces)), e).ledger.queue == q + [req])
            && Next(Next(s, SetDownloading(false)), e).ledger.queue == q
            && (!s.choking ==> Next(Next(s, SetDownloading(true)), e).ledger.queue == q + [req])
  {
  }

  lemma {:induction false} KeptIsSelect(queue: seq<BlockRequest>, keepAllowed: bool, allowed: set<U32>)
    ensures Kept(queue, keepAllowed, allowed) == Select(queue, (r: BlockRequest) => keepAllowed && r.index in allowed)
    ensures Refused(queue, keepAllowed, allowed) == Select(queue, (r: BlockRequest) => !(keepAllowed && r.index in allowed))
  {
    if queue != [] {
      var front, last := queue[..|queue| - 1], queue[|queue| - 1];
      KeptIsSelect(front, keepAllowed, allowed);
      SelectLast(front, last, (r: BlockRequest) => keepAllowed && r.index in allowed);
      SelectLast(front, last, (r: BlockRequest) => !(keepAllowed && r.index in allowed));
      assert queue == front + [last];
    }
  }

  lemma {:induction false} SelectNone<T>(s: seq<T>)
    ensures Select(s, _ => false) == [] && Select(s, _ => true) == s
  {
    if s != [] {
      SelectNone(s[1..]);
    }
  }

  /** A cancel removes every copy of its request and keeps the others in order. */
  lemma CancelExact(s: State, req: BlockRequest)
    requires !s.closed
    ensures var after := Next(s, CancelArrives(Some(req))).ledger;
            && after.queue == Select(s.ledger.queue, (r: BlockRequest) => r != req)
            && after.rejects == s.ledger.rejects && after.pieces == s.ledger.pieces && after.inHand == s.ledger.inHand
  {
    WithoutIsSelect(s.ledger.queue, req, (r: BlockRequest) => r != req);
  }

  lemma {:induction false} SelectAlike<T>(s: seq<T>, f: T -> bool, g: T -> bool)
    requires forall k :: 0 <= k < |s| ==> f(s[k]) == g(s[k])
    ensures Select(s, f) == Select(s, g)
  {
    if s != [] {
      SelectAlike(s[1..], f, g);
    }
  }

  /**
   What the uploader does with the queue before it takes a request: nothing while the torrent runs
   and the peer is unchoked; while it runs and chokes, the requests for allowed-fast pieces stay in
   order and the others are rejected in order; while it is paused, all are rejected. Without the
   fast extension the whole queue is let go instead.
   */
  lemma DrainExact(s: State)
    requires !s.closed
    ensures var after, l := Next(s, UploaderRejects).ledger, s.ledger;
            && after.pieces == l.pieces && after.inHand == l.inHand
            && (if s.downloading && !s.choking then after == l
                else if !s.fast then after.queue == [] && after.rejects == l.rejects && after.unanswered == l.unanswered + l.queue
                else if s.downloading then
                  && after.queue == Select(l.queue, (r: BlockRequest) => r.index in s.allowed)
                  && after.rejects == l.rejects + Select(l.queue, (r: BlockRequest) => r.index !in s.allowed)
                else after.queue == [] && after.rejects == l.rejects + l.queue)
  {
    var q := s.ledger.queue;
    KeptIsSelect(q, s.downloading, s.allowed);
    if s.downloading {
      SelectAlike(q, (r: BlockRequest) => s.downloading && r.index in s.allowed, (r: BlockRequest) => r.index in s.allowed);
      SelectAlike(q, (r: BlockRequest) => !(s.downloading && r.index in s.allowed), (r: BlockRequest) => r.index !in s.allowed);
    } else {
      SelectNone(q);
      SelectAlike(q, (r: BlockRequest) => s.downloading && r.index in s.allowed, _ => false);
      SelectAlike(q, (r: BlockRequest) => !(s.downloading && r.index in s.allowed), _ => true);
    }
  }

  /** The oldest request is taken in hand, unless a choke overtook it and its piece is not allowed fast. */
  lemma PopExact(s: State)
    requires !s.closed && s.ledger.queue != [] && s.ledger.inHand.None?
    ensures var after, l := Next(s, UploaderPops).ledger, s.ledger;
            && after.queue == l.queue[1..] && after.pieces == l.pieces
            && (if !s.choking || l.queue[0].index in s.allowed then after.inHand == Some(l.queue[0]) && after.rejects == l.rejects
                else after.inHand.None? && after.rejects == l.rejects + if s.fast then [l.queue[0]] else [])
  {
  }

  /** The request in hand is sent if the torrent still runs and the connection takes it; paused meanwhile, it is rejected. */
  lemma SendExact(s: State, delivered: bool)
    requires !s.closed && s.ledger.inHand.Some?
    ensures var after, l := Next(s, UploaderSends(delivered)), s.ledger;
            && after.ledger.queue == l.queue
            && (after.closed <==> s.downloading && !delivered)
            && after.ledger.pieces == l.pieces + (if s.downloading && delivered then [l.inHand.value] else [])
            && after.ledger.rejects == l.rejects + (if !s.downloading && s.fast then [l.inHand.value] else [])
            && (after.ledger.inHand.None? <==> !s.downloading || delivered)
  {
  }

  /** A failed read rejects the request in hand. */
  lemma ReadFailsExact(s: State)
    requires !s.closed && s.ledger.inHand.Some?
    ensures var after, l := Next(s, ReadFails), s.ledger;
            && !after.closed && after.ledger.inHand.None? && after.ledger.queue == l.queue && after.ledger.pieces == l.pieces
            && after.ledger.rejects == l.rejects + if s.fast then [l.inHand.value] else []
  {
  }

  /** A request that can be served, from a peer that may ask, of a torrent that runs, on an idle connection: it is sent. */
  lemma IdleConnectionServes(s: State, req: BlockRequest, pieceLength: Option<U32>, have: bool)
    requires !s.closed && s.downloading && s.ledger.queue == [] && s.ledger.inHand.None?
    requires Servable(req, pieceLength, have) && MayAsk(s, req)
    ensures var end := RunFrom(s, [RequestArrives(Some(req), pieceLength, have), UploaderPops, UploaderSends(true)]);
            end.ledger.pieces == s.ledger.pieces + [req] && end.ledger.queue == [] && end.ledger.inHand.None? && !end.closed
  {
    var e1, e2, e3 := RequestArrives(Some(req), pieceLength, have), UploaderPops, UploaderSends(true);
    var s1 := Next(s, e1);
    var s2 := Next(s1, e2);
    QueuedIff(s, req, pieceLength, have);
    ClosedIff(s, req, pieceLength, have);
    PopExact(s1);
    SendExact(s2, true);
    ThreeEvents(s, e1, e2, e3);
  }

  lemma ThreeEvents(s: State, a: Event, b: Event, c: Event)
    ensures RunFrom(s, [a, b, c]) == Next(Next(Next(s, a), b), c)
  {
    assert [a, b, c][1..] == [b, c] && [b, c][1..] == [c] && [c][1..] == [];
    assert RunFrom(Next(Next(s, a), b), [c]) == Next(Next(Next(s, a), b), c);
    assert RunFrom(Next(s, a), [b, c]) == RunFrom(Next(Next(s, a), b), [c]);
  }

  /** A block of 1 byte to 128 KiB whose end fits 32 bits. */
  predicate BlockSized(r: BlockRequest) {
    1 <= r.length <= 131072 && r.begin + r.length < 0x1_0000_0000
  }

  ghost predicate OnlyServable(l: Ledger) {
    && (forall k :: 0 <= k < |l.queue| ==> BlockSized(l.queue[k]))
    && (l.inHand.Some? ==> BlockSized(l.inHand.value))
    && (forall k :: 0 <= k < |l.pieces| ==> BlockSized(l.pieces[k]))
  }

  lemma {:induction false} SelectKeeps(s: seq<BlockRequest>, keep: BlockRequest -> bool)
    requires forall k :: 0 <= k < |s| ==> BlockSized(s[k])
    ensures forall k :: 0 <= k < |Select(s, keep)| ==> BlockSized(Select(s, keep)[k])
  {
    if s != [] {
      SelectKeeps(s[1..], keep);
    }
  }

  lemma NextServes(s: State, e: Event)
    requires OnlyServable(s.ledger)
    ensures OnlyServable(Next(s, e).ledger)
  {
    if !s.closed {
      if e.CancelArrives? && e.parsed.Some? {
        CancelExact(s, e.parsed.value);
        SelectKeeps(s.ledger.queue, (r: BlockRequest) => r != e.parsed.value);
      } else if e.UploaderRejects? {
        DrainExact(s);
        SelectKeeps(s.ledger.queue, (r: BlockRequest) => r.index in s.allowed);
      } else if e.RequestArrives? && e.parsed.Some? {
        QueuedIff(s, e.parsed.value, e.pieceLength, e.have);
      }
    }
  }

  /** In every run only blocks of 1 byte to 128 KiB are ever queued, taken in hand or sent. */
  lemma {:induction false} RunServes(s: State, events: seq<Event>)
    requires OnlyServable(s.ledger)
    ensures OnlyServable(RunFrom(s, events).ledger)
    decreases |events|
  {
    if events != [] {
      NextServes(s, events[0]);
      RunServes(Next(s, events[0]), events[1..]);
    }
  }

  // ---------------------------------------------------------------------------------------
  // The handler

  /** The fields of the handler that the upload side updates in place. */
  class PeerUploads {
    const fast: bool
    var downloading: bool
    var choking: bool
    var allowed: set<U32>
    var chokedRequests: nat
    var queue: seq<BlockRequest>
    var inHand: Option<BlockRequest>
    var pieces: seq<BlockRequest>
    var rejects: seq<BlockRequest>
    var closed: bool
    ghost var received: seq<BlockRequest>
    ghost var cancelled: seq<BlockRequest>
    ghost var unanswered: seq<BlockRequest>

    ghost function Account(): Ledger
      reads this
    {
      Ledger(received, queue, inHand, pieces, rejects, cancelled, unanswered)
    }

    ghost function View(): State
      reads this
    {
      State(fast, downloading, choking, allowed, chokedRequests, closed, Account())
    }

    constructor (fast: bool)
      ensures View() == Fresh(fast)
      ensures downloading && choking && allowed == {} && queue == [] && inHand == None && !closed
    {
      this.fast := fast;
      downloading, choking, allowed, chokedRequests := true, true, {}, 0;
      queue, inHand, pieces, rejects, closed := [], None, [], [], false;
      received, cancelled, unanswered := [], [], [];
    }

    method SendReject(req: BlockRequest)
      modifies `rejects, `unanswered
      ensures Account() == Reject(old(Account()), fast, req)
    {
      if !fast {
        unanswered := unanswered + [req];
        return;
      }
      rejects := rejects + [req];
    }

    method RejectUploadQueue(keepAllowed: bool)
      modifies `queue, `rejects, `unanswered
      ensures Account() == RejectQueue(old(Account()), fast, keepAllowed, allowed)
    {
      if !fast {
        unanswered := unanswered + queue;
        queue := [];
        return;
      }
      var all, keep := queue, [];
      ghost var n := 0;
      while queue != []
        invariant n <= |all| && queue == all[n..]
        invariant keep == Kept(all[..n], keepAllowed, allowed)
        invariant rejects == old(rejects) + Refused(all[..n], keepAllowed, allowed)
        invariant unanswered == old(unanswered)
        decreases |queue|
      {
        var req := queue[0];
        assert all[..n + 1][..n] == all[..n] && all[..n + 1][n] == req;
        queue := queue[1..];
        if keepAllowed && req.index in allowed {
          keep := keep + [req];
        } else {
          rejects := rejects + [req];
        }
        n := n + 1;
      }
      assert all[..n] == all;
      queue := keep;
    }

    method OnIncomingRequest(parsed: Option<BlockRequest>, pieceLength: Option<U32>, have: bool)
      requires !closed
      modifies `received, `unanswered, `rejects, `queue, `chokedRequests, `closed
      ensures View() == Next(old(View()), RequestArrives(parsed, pieceLength, have))
      ensures parsed.Some? ==>
                queue == old(queue)
                         + if Servable(parsed.value, pieceLength, have) && downloading && |old(queue)| < 8
                              && (!choking || (fast && parsed.value.index in allowed))
                           then [parsed.value] else []
    {
      if parsed.None? {
        closed := true;
        return;
      }
      var req := parsed.value;
      received := received + [req];
      if pieceLength.None? {
        unanswered := unanswered + [req];
        closed := true;
        return;
      }
      var error := ValidateRequest(req, pieceLength.value, have);
      if error == Some(MissingPiece) && fast {
        SendReject(req);
        return;
      }
      if error.Some? {
        unanswered := unanswered + [req];
        closed := true;
        return;
      }
      if !downloading {
        SendReject(req);
        return;
      }
      if choking && !(fast && req.index in allowed) {
        SendReject(req);
        chokedRequests := chokedRequests + 1;
        if chokedRequests > MAX_CHOKED_REQUESTS {
          closed := true;
        }
        return;
      }
      chokedRequests := 0;
      if |queue| >= MAX_UPLOAD_QUEUE {
        SendReject(req);
        return;
      }
      queue := queue + [req];
    }

    method OnCancel(parsed: Option<BlockRequest>)
      requires !closed
      modifies `queue, `cancelled
      ensures View() == Next(old(View()), CancelArrives(parsed))
    {
      if parsed.Some? {
        var req := parsed.value;
        cancelled := cancelled + Copies(queue, req);
        queue := Without(queue, req);
      }
    }

    /** The part of the uploader loop before it takes a request. */
    method UploaderReject()
      requires !closed
      modifies `queue, `rejects, `unanswered
      ensures View() == Next(old(View()), UploaderRejects)
    {
      if !downloading {
        RejectUploadQueue(false);
      } else if choking {
        RejectUploadQueue(true);
      }
    }

    method UploaderPop()
      requires !closed && inHand.None?
      modifies `queue, `inHand, `rejects, `unanswered
      ensures View() == Next(old(View()), UploaderPops)
    {
      if queue == [] {
        return;
      }
      var req := queue[0];
      queue := queue[1..];
      if choking && req.index !in allowed {
        SendReject(req);
        return;
      }
      inHand := Some(req);
    }

    method ReadFailed()
      requires !closed && inHand.Some?
      modifies `inHand, `rejects, `unanswered
      ensures View() == Next(old(View()), ReadFails)
    {
      SendReject(inHand.value);
      inHand := None;
    }

    /** The limiter let the block pass: send it, unless the torrent was paused meanwhile. */
    method SendPiece(delivered: bool)
      requires !closed && inHand.Some?
      modifies `inHand, `pieces, `rejects, `unanswered, `closed
      ensures View() == Next(old(View()), UploaderSends(delivered))
    {
      if !downloading {
        SendReject(inHand.value);
        inHand := None;
      } else if !delivered {
        closed := true;
      } else {
        pieces := pieces + [inHand.value];
        inHand := None;
      }
    }
  }
}
