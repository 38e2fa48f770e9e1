/**
 Peer wire messages and their framing: `serialize` and `read` of
 `crates/bit_rev/src/message.rs` and `decode_frame` of `crates/bit_rev/src/protocol.rs`
 (peer messages of BEP-0003, with the ids of BEP-0006 and BEP-0010).
 */
module Message {
  import opened Basics

  type U16 = n: nat | n < 0x1_0000
  type U32 = n: nat | n < 0x1_0000_0000

  /** Upper bound on a length prefix: 2 MiB. */
  const MAX_MESSAGE_LEN: nat := 2 * 1024 * 1024

  datatype BlockRequest = BlockRequest(index: U32, begin: U32, length: U32)

  datatype Message =
    | Choke
    | Unchoke
    | Interested
    | NotInterested
    | Have(piece: U32)
    | Bitfield(bits: seq<Byte>)
    | Request(payload: seq<Byte>)
    | Piece(index: U32, start: U32, length: U32, data: seq<Byte>)
    | Cancel(payload: seq<Byte>)
    | Port(port: U16)
    | SuggestPiece(piece: U32)
    | HaveAll
    | HaveNone
    | RejectRequest(req: BlockRequest)
    | AllowedFast(piece: U32)
    | Extended(extId: Byte, body: seq<Byte>)
    | HashRequest
    | Hashes(hashes: seq<Byte>)
    | HashReject
    | KeepAlive

  datatype DecodeError = Truncated | UnknownId(id: Byte) | InvalidLengthPrefix

  datatype Read = Decoded(msg: Message) | Undecodable(error: DecodeError)

  datatype Frame = KeepAliveFrame | MessageFrame(msg: Message) | UnknownFrame(id: Byte)

  datatype FrameError = FrameTruncated | MessageTooLarge(length: nat)

  datatype FrameResult = FrameOk(frame: Frame) | FrameErr(error: FrameError)

  // ---------------------------------------------------------------------------------------
  // Big-endian numbers

  function ToBe16(n: U16): (s: seq<Byte>) {
    var hi: nat, lo: nat := n / 0x100, n % 0x100;
    [hi, lo]
  }

  function FromBe16(s: seq<Byte>): U16
    requires |s| == 2
  {
    var hi: nat, lo: nat := s[0], s[1];
    hi * 0x100 + lo
  }

  function ToBe32(n: U32): (s: seq<Byte>)
    ensures |s| == 4
  {
    ToBe16(n / 0x1_0000) + ToBe16(n % 0x1_0000)
  }

  function FromBe32(s: seq<Byte>): U32
    requires |s| == 4
  {
    var hi: nat, lo: nat := FromBe16(s[..2]), FromBe16(s[2..]);
    hi * 0x1_0000 + lo
  }

  lemma Be32RoundTrip(n: U32)
    ensures FromBe32(ToBe32(n)) == n
  {
    var s := ToBe32(n);
    assert s[..2] == ToBe16(n / 0x1_0000) && s[2..] == ToBe16(n % 0x1_0000);
  }

  function ToPayload(r: BlockRequest): (s: seq<Byte>)
    ensures |s| == 12
  {
    ToBe32(r.index) + ToBe32(r.begin) + ToBe32(r.length)
  }

  function FromPayload(s: seq<Byte>): Option<BlockRequest> {
    if |s| < 12 then None
    else Some(BlockRequest(FromBe32(s[0..4]), FromBe32(s[4..8]), FromBe32(s[8..12])))
  }

  /** A block request survives the wire, whatever follows it. */
  lemma PayloadRoundTrip(r: BlockRequest, rest: seq<Byte>)
    ensures FromPayload(ToPayload(r) + rest) == Some(r)
  {
    var s := ToPayload(r) + rest;
    assert s[0..4] == ToBe32(r.index) && s[4..8] == ToBe32(r.begin) && s[8..12] == ToBe32(r.length);
    Be32RoundTrip(r.index);
    Be32RoundTrip(r.begin);
    Be32RoundTrip(r.length);
  }

  // ---------------------------------------------------------------------------------------
  // Encoding

  function IdOf(m: Message): Byte
    requires !m.KeepAlive?
  {
    match m
    case Choke => 0
    case Unchoke => 1
    case Interested => 2
    case NotInterested => 3
    case Have(_) => 4
    case Bitfield(_) => 5
    case Request(_) => 6
    case Piece(_, _, _, _) => 7
    case Cancel(_) => 8
    case Port(_) => 9
    case SuggestPiece(_) => 13
    case HaveAll => 14
    case HaveNone => 15
    case RejectRequest(_) => 16
    case AllowedFast(_) => 17
    case Extended(_, _) => 20
    case HashRequest => 21
    case Hashes(_) => 22
    case HashReject => 23
  }

  function PayloadOf(m: Message): seq<Byte> {
    match m
    case Have(piece) => ToBe32(piece)
    case Bitfield(bits) => bits
    case Request(payload) => payload
    case Piece(index, start, _, data) => ToBe32(index) + ToBe32(start) + data
    case Cancel(payload) => payload
    case Port(port) => ToBe16(port)
    case SuggestPiece(piece) => ToBe32(piece)
    case RejectRequest(req) => ToPayload(req)
    case AllowedFast(piece) => ToBe32(piece)
    case Extended(extId, body) => [extId] + body
    case Hashes(hashes) => hashes
    case _ => []
  }

  function Serialize(msg: Option<Message>): seq<Byte> {
    match msg
    case None => []
    case Some(KeepAlive) => [0, 0, 0, 0]
    case Some(m) =>
      var payload := PayloadOf(m);
      ToBe32((|payload| + 1) % U32_LIMIT) + [IdOf(m)] + payload
  }

  // ---------------------------------------------------------------------------------------
  // Decoding

  predicate KnownId(id: Byte) {
    id <= 9 || 13 <= id <= 17 || 20 <= id <= 23
  }

  /** The shortest payload an id may carry. */
  function MinPayload(id: Byte): nat {
    if id == 4 || id == 13 || id == 17 then 4
    else if id == 9 then 2
    else if id == 6 || id == 8 || id == 16 then 12
    else if id == 7 then 8
    else if id == 20 then 1
    else 0
  }

  /** `From<MessageInner>`. */
  function FromInner(id: Byte, payload: seq<Byte>): Message
    requires KnownId(id) && |payload| >= MinPayload(id)
  {
    if id == 0 then Choke
    else if id == 1 then Unchoke
    else if id == 2 then Interested
    else if id == 3 then NotInterested
    else if id == 4 then Have(FromBe32(payload[0..4]))
    else if id == 5 then Bitfield(payload)
    else if id == 6 then Request(payload[0..12])
    else if id == 7 then
      var data := payload[8..];
      Piece(FromBe32(payload[0..4]), FromBe32(payload[4..8]), |data| % U32_LIMIT, data)
    else if id == 8 then Cancel(payload[0..12])
    else if id == 9 then Port(FromBe16(payload[0..2]))
    else if id == 13 then SuggestPiece(FromBe32(payload[0..4]))
    else if id == 14 then HaveAll
    else if id == 15 then HaveNone
    else if id == 16 then RejectRequest(FromPayload(payload).value)
    else if id == 17 then AllowedFast(FromBe32(payload[0..4]))
    else if id == 20 then Extended(payload[0], payload[1..])
    else if id == 21 then HashRequest
    else if id == 22 then Hashes(payload)
    else HashReject
  }

  function ReadMessage(lengthBuf: seq<Byte>, messageBuf: seq<Byte>): Read {
    if |lengthBuf| != 4 then Undecodable(InvalidLengthPrefix)
    else
      var length := FromBe32(lengthBuf);
      if length == 0 then Decoded(KeepAlive)
      else if messageBuf == [] || |messageBuf| < length then Undecodable(Truncated)
      else
        var id, payload := messageBuf[0], messageBuf[1..length];
        if !KnownId(id) then Undecodable(UnknownId(id))
        else if |payload| < MinPayload(id) then Undecodable(Truncated)
        else Decoded(FromInner(id, payload))
  }

  function FrameFromParts(lengthBuf: seq<Byte>, messageBuf: seq<Byte>): FrameResult {
    match ReadMessage(lengthBuf, messageBuf)
    case Decoded(KeepAlive) => FrameOk(KeepAliveFrame)
    case Decoded(m) => FrameOk(MessageFrame(m))
    case Undecodable(UnknownId(id)) => FrameOk(UnknownFrame(id))
    case Undecodable(_) => FrameErr(FrameTruncated)
  }

  function DecodeFrame(buf: seq<Byte>): FrameResult {
    if |buf| < 4 then FrameErr(FrameTruncated)
    else
      var length := FromBe32(buf[0..4]);
      if length == 0 then FrameOk(KeepAliveFrame)
      else if length > MAX_MESSAGE_LEN then FrameErr(MessageTooLarge(length))
      else if |buf| < 4 + length then FrameErr(FrameTruncated)
      else FrameFromParts(buf[0..4], buf[4..4 + length])
  }

  // ---------------------------------------------------------------------------------------
  // The round trip

  /** The message says of itself what its bytes say. */
  predicate WellFormed(m: Message) {
    match m
    case Request(payload) => |payload| == 12
    case Cancel(payload) => |payload| == 12
    case Piece(_, _, length, data) => length == |data|
    case _ => true
  }

  predicate Fits(m: Message) {
    m.KeepAlive? || |PayloadOf(m)| + 1 <= MAX_MESSAGE_LEN
  }

  function FrameOf(m: Message): Frame {
    if m.KeepAlive? then KeepAliveFrame else MessageFrame(m)
  }

  lemma PayloadIsLongEnough(m: Message)
    requires !m.KeepAlive? && WellFormed(m)
    ensures KnownId(IdOf(m)) && |PayloadOf(m)| >= MinPayload(IdOf(m))
  {
  }

  lemma PieceParts(m: Message)
    requires m.Piece?
    ensures var p := PayloadOf(m);
            p[0..4] == ToBe32(m.index) && p[4..8] == ToBe32(m.start) && p[8..] == m.data
  {
  }

  lemma NumberInner(m: Message)
    requires m.Have? || m.SuggestPiece? || m.AllowedFast? || m.Port?
    ensures FromInner(IdOf(m), PayloadOf(m)) == m
  {
    var p := PayloadOf(m);
    if m.Port? {
      assert p[0..2] == p;
    } else {
      Be32RoundTrip(m.piece);
      assert p[0..4] == p;
    }
  }

  lemma RequestInner(m: Message)
    requires m.Request? || m.Cancel? || m.RejectRequest?
    requires WellFormed(m)
    ensures FromInner(IdOf(m), PayloadOf(m)) == m
  {
    var p := PayloadOf(m);
    assert p[0..12] == p;
    if m.RejectRequest? {
      PayloadRoundTrip(m.req, []);
      assert p + [] == p;
    }
  }

  lemma PieceInner(m: Message)
    requires m.Piece? && WellFormed(m) && |m.data| < U32_LIMIT
    ensures FromInner(IdOf(m), PayloadOf(m)) == m
  {
    PieceParts(m);
    Be32RoundTrip(m.index);
    Be32RoundTrip(m.start);
  }

  /** The payload of a well-formed message decodes to that message. */
  lemma InnerRoundTrip(m: Message)
    requires !m.KeepAlive? && WellFormed(m) && |PayloadOf(m)| < U32_LIMIT
    ensures KnownId(IdOf(m)) && |PayloadOf(m)| >= MinPayload(IdOf(m))
    ensures FromInner(IdOf(m), PayloadOf(m)) == m
  {
    PayloadIsLongEnough(m);
    if m.Have? || m.SuggestPiece? || m.AllowedFast? || m.Port? {
      NumberInner(m);
    } else if m.Request? || m.Cancel? || m.RejectRequest? {
      RequestInner(m);
    } else if m.Piece? {
      PieceInner(m);
    } else if m.Extended? {
      assert PayloadOf(m)[1..] == m.body;
    }
  }

  lemma ReadRoundTrip(m: Message)
    requires !m.KeepAlive? && WellFormed(m) && |PayloadOf(m)| + 1 < U32_LIMIT
    ensures FrameFromParts(ToBe32(|PayloadOf(m)| + 1), [IdOf(m)] + PayloadOf(m)) == FrameOk(MessageFrame(m))
  {
    var length := |PayloadOf(m)| + 1;
    Be32RoundTrip(length);
    InnerRoundTrip(m);
    var body := [IdOf(m)] + PayloadOf(m);
    assert body[1..length] == PayloadOf(m);
  }

  /** What the frame of a message looks like, with anything behind it. */
  lemma CutFrame(length: seq<Byte>, id: Byte, payload: seq<Byte>, rest: seq<Byte>)
    requires |length| == 4
    ensures var buf := length + [id] + payload + rest;
            && |buf| == 5 + |payload| + |rest|
            && buf[0..4] == length && buf[4] == id && buf[4..5 + |payload|] == [id] + payload
  {
  }

  lemma FrameParts(m: Message, rest: seq<Byte>)
    requires !m.KeepAlive?
    ensures var buf := Serialize(Some(m)) + rest;
            var length := (|PayloadOf(m)| + 1) % U32_LIMIT;
            && |buf| == 5 + |PayloadOf(m)| + |rest|
            && buf[0..4] == ToBe32(length) && FromBe32(buf[0..4]) == length
            && buf[4] == IdOf(m)
            && (|PayloadOf(m)| + 1 < U32_LIMIT ==> buf[4..4 + length] == [IdOf(m)] + PayloadOf(m))
  {
    var length := (|PayloadOf(m)| + 1) % U32_LIMIT;
    assert Serialize(Some(m)) + rest == ToBe32(length) + [IdOf(m)] + PayloadOf(m) + rest;
    Be32RoundTrip(length);
    CutFrame(ToBe32(length), IdOf(m), PayloadOf(m), rest);
  }

  lemma DecodeOneFrame(buf: seq<Byte>, length: nat)
    requires 4 + length <= |buf| && 0 < length <= MAX_MESSAGE_LEN && FromBe32(buf[0..4]) == length
    ensures DecodeFrame(buf) == FrameFromParts(buf[0..4], buf[4..4 + length])
  {
  }

  /** A well-formed message that fits is decoded from its own frame, whatever follows. */
  lemma FrameRoundTrip(m: Message, rest: seq<Byte>)
    requires WellFormed(m) && Fits(m)
    ensures DecodeFrame(Serialize(Some(m)) + rest) == FrameOk(FrameOf(m))
  {
    var buf := Serialize(Some(m)) + rest;
    if m.KeepAlive? {
      assert buf[0..4] == [0, 0, 0, 0] == ToBe32(0);
      Be32RoundTrip(0);
    } else {
      FrameParts(m, rest);
      ReadRoundTrip(m);
      DecodeOneFrame(buf, |PayloadOf(m)| + 1);
    }
  }

  /** A decoded message carries a payload of at most the maximum size and is well-formed. */
  lemma DecodedIsWellFormed(buf: seq<Byte>)
    ensures DecodeFrame(buf).FrameOk? && DecodeFrame(buf).frame.MessageFrame? ==>
              var m := DecodeFrame(buf).frame.msg;
              !m.KeepAlive? && WellFormed(m) && Fits(m)
  {
  }

  /** A message survives its frame if and only if it is well-formed and fits. */
  lemma FrameRoundTripIff(m: Message)
    ensures DecodeFrame(Serialize(Some(m))) == FrameOk(FrameOf(m)) <==> WellFormed(m) && Fits(m)
  {
    assert Serialize(Some(m)) + [] == Serialize(Some(m));
    if WellFormed(m) && Fits(m) {
      FrameRoundTrip(m, []);
    } else {
      DecodedIsWellFormed(Serialize(Some(m)));
    }
  }

  // ---------------------------------------------------------------------------------------
  // The bytes on the wire

  function BigEndian(a: int, b: int, c: int, d: int): int {
    16777216 * a + 65536 * b + 256 * c + d
  }

  /** Four bytes are a number with the highest byte first. */
  lemma Be32Value(s: seq<Byte>)
    requires |s| == 4
    ensures FromBe32(s) == BigEndian(s[0], s[1], s[2], s[3])
    ensures ToBe32(FromBe32(s)) == s
  {
    var a: nat, b: nat, c: nat, d: nat := s[0], s[1], s[2], s[3];
    var hi, lo := 256 * a + b, 256 * c + d;
    assert s[..2] == [s[0], s[1]] && s[2..] == [s[2], s[3]];
    assert FromBe32(s) == 65536 * hi + lo;
    assert FromBe32(s) / 65536 == hi && FromBe32(s) % 65536 == lo;
    assert ToBe16(hi) == [s[0], s[1]] && ToBe16(lo) == [s[2], s[3]];
  }

  /** The bytes of a small number. */
  lemma SmallBe32(n: Byte)
    ensures ToBe32(n) == [0, 0, 0, n]
  {
  }

  lemma Framed(m: Message, id: Byte, payload: seq<Byte>)
    requires !m.KeepAlive? && IdOf(m) == id && PayloadOf(m) == payload && |payload| + 1 < 0x1_0000_0000
    ensures Serialize(Some(m)) == ToBe32(|payload| + 1) + [id] + payload
  {
    assert (|payload| + 1) % U32_LIMIT == |payload| + 1;
  }

  lemma ShortFrame(m: Message, id: Byte, payload: seq<Byte>, length: Byte)
    requires !m.KeepAlive? && IdOf(m) == id && PayloadOf(m) == payload && |payload| + 1 == length
    ensures Serialize(Some(m)) == [0, 0, 0, length, id] + payload
  {
    Framed(m, id, payload);
    SmallBe32(length);
  }

  /** The frames without a payload: the length and the id, of BEP-0003, BEP-0006 and BEP-0052. */
  lemma BareFrames(m: Message)
    requires m in {Choke, Unchoke, Interested, NotInterested, HaveAll, HaveNone, HashRequest, HashReject}
    ensures Serialize(Some(m))
            == [0, 0, 0, 1,
                if m == Choke then 0 else if m == Unchoke then 1 else if m == Interested then 2 else if m == NotInterested then 3
                else if m == HaveAll then 14 else if m == HaveNone then 15 else if m == HashRequest then 21 else 23]
  {
    ShortFrame(m, IdOf(m), [], 1);
  }

  /** Without a message nothing goes out, and a keep-alive is a length of zero. */
  lemma EmptyFrames()
    ensures Serialize(None) == [] && Serialize(Some(KeepAlive)) == [0, 0, 0, 0]
  {
  }

  /** The frames of a fixed length: a piece, a port, or index, begin and length of a block. */
  lemma FixedFrames(n: U32, port: U16, r: BlockRequest)
    ensures Serialize(Some(Have(n))) == [0, 0, 0, 5, 4] + ToBe32(n)
    ensures Serialize(Some(SuggestPiece(n))) == [0, 0, 0, 5, 13] + ToBe32(n)
    ensures Serialize(Some(AllowedFast(n))) == [0, 0, 0, 5, 17] + ToBe32(n)
    ensures Serialize(Some(Port(port))) == [0, 0, 0, 3, 9] + [port / 256, port % 256]
    ensures Serialize(Some(RejectRequest(r))) == [0, 0, 0, 13, 16] + (ToBe32(r.index) + ToBe32(r.begin) + ToBe32(r.length))
  {
    ShortFrame(Have(n), 4, ToBe32(n), 5);
    ShortFrame(SuggestPiece(n), 13, ToBe32(n), 5);
    ShortFrame(AllowedFast(n), 17, ToBe32(n), 5);
    ShortFrame(Port(port), 9, [port / 256, port % 256], 3);
    ShortFrame(RejectRequest(r), 16, ToBe32(r.index) + ToBe32(r.begin) + ToBe32(r.length), 13);
  }

  /** A frame that carries bytes: its length, its id, the bytes. */
  lemma OpenFrames(bytes: seq<Byte>, ext: Byte, index: U32, start: U32, length: U32)
    requires |bytes| + 9 < 0x1_0000_0000
    ensures Serialize(Some(Bitfield(bytes))) == ToBe32(|bytes| + 1) + [5] + bytes
    ensures Serialize(Some(Request(bytes))) == ToBe32(|bytes| + 1) + [6] + bytes
    ensures Serialize(Some(Cancel(bytes))) == ToBe32(|bytes| + 1) + [8] + bytes
    ensures Serialize(Some(Hashes(bytes))) == ToBe32(|bytes| + 1) + [22] + bytes
    ensures Serialize(Some(Extended(ext, bytes))) == ToBe32(|bytes| + 2) + [20] + ([ext] + bytes)
    ensures Serialize(Some(Piece(index, start, length, bytes)))
            == ToBe32(|bytes| + 9) + [7] + (ToBe32(index) + ToBe32(start) + bytes)
  {
    Framed(Bitfield(bytes), 5, bytes);
    Framed(Request(bytes), 6, bytes);
    Framed(Cancel(bytes), 8, bytes);
    Framed(Hashes(bytes), 22, bytes);
    Framed(Extended(ext, bytes), 20, [ext] + bytes);
    Framed(Piece(index, start, length, bytes), 7, ToBe32(index) + ToBe32(start) + bytes);
  }

  /** No message has the id. */
  predicate NoSuchId(id: Byte) {
    10 <= id <= 12 || 18 <= id <= 19 || 24 <= id
  }

  /** The frame is too short for its id. */
  predicate TooShort(id: Byte, length: nat) {
    || (id in {4, 13, 17} && length < 5)
    || (id == 9 && length < 3)
    || (id in {6, 8, 16} && length < 13)
    || (id == 7 && length < 9)
    || (id == 20 && length < 2)
  }

  /**
   What becomes of a buffer: a keep-alive, a frame of more than 2 MiB refused by its length alone,
   a frame that is not there in full, an unknown id, a frame too short for its id, or a message.
   */
  lemma DecodeCases(buf: seq<Byte>)
    ensures |buf| < 4 ==> DecodeFrame(buf) == FrameErr(FrameTruncated)
    ensures |buf| >= 4 ==>
              var length := BigEndian(buf[0], buf[1], buf[2], buf[3]);
              if length == 0 then DecodeFrame(buf) == FrameOk(KeepAliveFrame)
              else if length > 2097152 then DecodeFrame(buf) == FrameErr(MessageTooLarge(length))
              else if |buf| < 4 + length then DecodeFrame(buf) == FrameErr(FrameTruncated)
              else if NoSuchId(buf[4]) then DecodeFrame(buf) == FrameOk(UnknownFrame(buf[4]))
              else if TooShort(buf[4], length) then DecodeFrame(buf) == FrameErr(FrameTruncated)
              else DecodeFrame(buf).FrameOk? && DecodeFrame(buf).frame.MessageFrame?
  {
    if |buf| >= 4 {
      Be32Value(buf[0..4]);
      var length := FromBe32(buf[0..4]);
      if 0 < length <= MAX_MESSAGE_LEN && |buf| >= 4 + length {
        var body := buf[4..4 + length];
        BodyCases(buf[0..4], body);
      }
    }
  }

  lemma BodyCases(prefix: seq<Byte>, body: seq<Byte>)
    requires |prefix| == 4 && body != [] && |body| == FromBe32(prefix)
    ensures if NoSuchId(body[0]) then FrameFromParts(prefix, body) == FrameOk(UnknownFrame(body[0]))
            else if TooShort(body[0], |body|) then FrameFromParts(prefix, body) == FrameErr(FrameTruncated)
            else FrameFromParts(prefix, body).FrameOk? && FrameFromParts(prefix, body).frame.MessageFrame?
  {
    var id, payload := body[0], body[1..|body|];
    assert KnownId(id) <==> !NoSuchId(id);
    assert KnownId(id) ==> (|payload| < MinPayload(id) <==> TooShort(id, |body|));
    if KnownId(id) && |payload| >= MinPayload(id) {
      assert !FromInner(id, payload).KeepAlive?;
    }
  }

  /** The bytes behind a payload of a fixed length are ignored. */
  lemma TrailingIsIgnored(id: Byte, payload: seq<Byte>, more: seq<Byte>)
    requires id in {0, 1, 2, 3, 4, 6, 8, 9, 13, 14, 15, 16, 17, 21, 23} && |payload| == MinPayload(id)
    ensures FromInner(id, payload + more) == FromInner(id, payload)
  {
    var all := payload + more;
    assert |payload| >= 4 ==> all[0..4] == payload[0..4];
    assert |payload| >= 2 ==> all[0..2] == payload[0..2];
    assert |payload| >= 12 ==> all[0..12] == payload[0..12] && all[4..8] == payload[4..8] && all[8..12] == payload[8..12];
  }

  // ---------------------------------------------------------------------------------------
  // Streams

  function Concat(ms: seq<Message>): seq<Byte> {
    if ms == [] then [] else Serialize(Some(ms[0])) + Concat(ms[1..])
  }

  /** Taking frames off the front of a buffer until it is used up. */
  function DecodeStream(buf: seq<Byte>): Option<seq<Frame>>
    decreases |buf|
  {
    if buf == [] then Some([])
    else
      match DecodeFrame(buf)
      case FrameErr(_) => None
      case FrameOk(frame) =>
        match DecodeStream(buf[4 + FromBe32(buf[0..4])..])
        case None => None
        case Some(more) => Some([frame] + more)
  }

  function Frames(ms: seq<Message>): seq<Frame> {
    if ms == [] then [] else [FrameOf(ms[0])] + Frames(ms[1..])
  }

  lemma FrameLength(m: Message, rest: seq<Byte>)
    requires WellFormed(m) && Fits(m)
    ensures var buf := Serialize(Some(m)) + rest;
            && |buf| >= 4
            && 4 + FromBe32(buf[0..4]) == |Serialize(Some(m))|
            && buf[4 + FromBe32(buf[0..4])..] == rest
  {
    var buf := Serialize(Some(m)) + rest;
    if m.KeepAlive? {
      assert buf[0..4] == ToBe32(0);
      Be32RoundTrip(0);
    } else {
      FrameParts(m, rest);
    }
  }

  /** Frames delimit themselves: the concatenated frames decode to exactly the messages sent. */
  lemma {:induction false} StreamRoundTrip(ms: seq<Message>)
    requires forall m :: m in ms ==> WellFormed(m) && Fits(m)
    ensures DecodeStream(Concat(ms)) == Some(Frames(ms))
  {
    if ms != [] {
      var rest := Concat(ms[1..]);
      FrameRoundTrip(ms[0], rest);
      FrameLength(ms[0], rest);
      StreamRoundTrip(ms[1..]);
    }
  }

  /** Distinct messages have distinct frames, so the list of messages is recovered. */
  lemma {:induction false} FramesAreInjective(a: seq<Message>, b: seq<Message>)
    requires Frames(a) == Frames(b)
    ensures a == b
    decreases |a|
  {
    if a == [] || b == [] {
    } else {
      assert Frames(a)[0] == FrameOf(a[0]) && Frames(b)[0] == FrameOf(b[0]);
      assert Frames(a)[1..] == Frames(a[1..]) && Frames(b)[1..] == Frames(b[1..]);
      FramesAreInjective(a[1..], b[1..]);
      assert a == [a[0]] + a[1..] && b == [b[0]] + b[1..];
    }
  }
}
