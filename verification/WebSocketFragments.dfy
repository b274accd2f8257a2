/** What arriving bytes do, told with the numbers of RFC 6455: fragmented messages, pings and pongs in between, close
    frames, unknown opcodes and lengths that are too long. */
module WebSocketFragments {
  import opened Wrappers
  import Bits
  import opened WebSocketFrames
  import opened WebSocketProtocol

  /** The bytes of the length of a message of `n` bytes; 128 more in the first one marks a masked frame. */
  function LengthBytes(n: nat, masked: bool): Bytes
    requires n < 0x8000_0000_0000_0000
  {
    var mark: nat := if masked then 128 else 0;
    if n < 126 then [(mark + n) as byte]
    else if n < 65536 then [(mark + 126) as byte, (n / 256) as byte, (n % 256) as byte]
    else
      [(mark + 127) as byte, (n / 0x100_0000_0000_0000) as byte, (n / 0x1_0000_0000_0000 % 256) as byte,
       (n / 0x100_0000_0000 % 256) as byte, (n / 0x1_0000_0000 % 256) as byte, (n / 0x100_0000 % 256) as byte,
       (n / 0x1_0000 % 256) as byte, (n / 0x100 % 256) as byte, (n % 256) as byte]
  }

  /** Sixteen times eight for the last frame of a message, the opcode, the length, the key of a masked frame, and the
      payload, combined with the key byte by byte. */
  function Raw(fin: bool, op: Opcode, key: Option<Bytes>, payload: Bytes): Bytes
    requires |payload| < 0x8000_0000_0000_0000 && (key.Some? ==> |key.value| == 4)
  {
    [(if fin then 128 else 0) + op] + LengthBytes(|payload|, key.Some?)
    + (match key case Some(k) => k + Masked(payload, k) case None => payload)
  }

  lemma TwoByteLength(n: nat)
    requires 126 <= n < 65536
    ensures [(n / 256) as byte, (n % 256) as byte] == BigEndian(n, 2) && FromBigEndian(BigEndian(n, 2)) == n
  {
    PowersOf256();
    TwoBytes(n);
    BigEndianRoundTrip(n, 2);
  }

  lemma TopByte(n: nat)
    requires n < 0x8000_0000_0000_0000
    ensures n / 0x100_0000_0000_0000 < 128 && ByteAt(n, 0x100_0000_0000_0000) as nat == n / 0x100_0000_0000_0000
  {
  }

  lemma EightByteLength(n: nat)
    requires n < 0x8000_0000_0000_0000
    ensures FromBigEndian(BigEndian(n, 8)) == n
    ensures BigEndian(n, 8) ==
      [(n / 0x100_0000_0000_0000) as byte, (n / 0x1_0000_0000_0000 % 256) as byte, (n / 0x100_0000_0000 % 256) as byte,
       (n / 0x1_0000_0000 % 256) as byte, (n / 0x100_0000 % 256) as byte, (n / 0x1_0000 % 256) as byte,
       (n / 0x100 % 256) as byte, (n % 256) as byte]
  {
    PowersOf256();
    TopByte(n);
    EightBytes(n);
    BigEndianRoundTrip(n, 8);
  }

  /** The first byte of the length and the others are what the reader expects. */
  predicate IsLength(first: byte, more: Bytes, n: nat, masked: bool) {
    IsMasked(first) == masked && |more| == KeyStart(first) - 2 && DataLength(first, more) == n
  }

  lemma FieldOf(field: nat, masked: bool) returns (first: byte)
    requires field < 128
    ensures first as nat == (if masked then 128 else 0) + field && IsMasked(first) == masked && N0(first) == field
  {
    first := ((if masked then 128 else 0) + field) as byte;
  }

  lemma LengthIsRead(n: nat, masked: bool) returns (first: byte, more: Bytes)
    requires n < 0x8000_0000_0000_0000
    ensures LengthBytes(n, masked) == [first] + more && IsLength(first, more, n, masked)
  {
    if n < 126 {
      first := FieldOf(n, masked);
      more := [];
    } else if n < 65536 {
      first := FieldOf(126, masked);
      TwoByteLength(n);
      more := BigEndian(n, 2);
    } else {
      first := FieldOf(127, masked);
      EightByteLength(n);
      more := BigEndian(n, 8);
    }
  }

  lemma RawParses(fin: bool, op: Opcode, key: Option<Bytes>, payload: Bytes, frame: Bytes)
    requires |payload| < 0x8000_0000_0000_0000 && (key.Some? ==> |key.value| == 4)
    requires frame == Raw(fin, op, key, payload)
    ensures ParseFrame(frame) == Frame(fin, op, payload, |frame|)
  {
    var b0: byte := (if fin then 128 else 0) + op;
    var first, more := LengthIsRead(|payload|, key.Some?);
    match key
    case Some(k) =>
      UnmaskMasked(payload, k);
      Associated(b0, first, more, k, Masked(payload, k));
      PartsParse(b0, first, more, k, Masked(payload, k), frame);
    case None =>
      Associated(b0, first, more, [], payload);
      PartsParse(b0, first, more, [], payload, frame);
  }

  lemma Associated(b0: byte, first: byte, more: Bytes, key: Bytes, data: Bytes)
    ensures [b0] + ([first] + more) + (key + data) == [b0, first] + more + key + data
    ensures key == [] ==> [b0] + ([first] + more) + data == [b0, first] + more + key + data
  {
  }

  lemma SentLength(n: nat, useMask: bool)
    requires n < 0x8000_0000_0000_0000
    ensures [LengthByte(LengthField(n), useMask)] + ExtendedLength(n) == LengthBytes(n, useMask)
  {
    if 126 <= n < 65536 {
      TwoByteLength(n);
    } else if n >= 65536 {
      EightByteLength(n);
    }
  }

  lemma HeaderParts(b0: byte, b1: byte, more: Bytes, key: Bytes, body: Bytes)
    ensures ([b0, b1] + more + key) + body == [b0] + ([b1] + more) + (key + body)
  {
  }

  /** What is sent is a final frame, masked with the fixed key 12 34 56 78 or not at all. */
  lemma SentFrame(op: Opcode, message: Bytes, useMask: bool)
    requires |message| < 0x8000_0000_0000_0000
    ensures EncodeFrame(op, message, useMask)
         == Raw(true, op, if useMask then Some([0x12, 0x34, 0x56, 0x78]) else None, message)
  {
    var n := |message|;
    var more, key, body := ExtendedLength(n), Key(useMask), Body(message, useMask);
    SentLength(n, useMask);
    HeaderParts(0x80 + op, LengthByte(LengthField(n), useMask), more, key, body);
    assert key == (if useMask then [0x12, 0x34, 0x56, 0x78] else []) && [] + message == message;
  }

  /** Masking flips those bits of byte `j` that are set in byte `j % 4` of the key. */
  lemma MaskingFlipsBits(data: Bytes, key: Bytes, j: nat, i: nat)
    requires |key| == 4 && j < |data| && i < 8
    ensures Bits.Bit(Masked(data, key)[j] as nat, i)
         == if Bits.Bit(key[j % 4] as nat, i) == 1 then 1 - Bits.Bit(data[j] as nat, i) else Bits.Bit(data[j] as nat, i)
  {
    Bits.XorBit(data[j] as nat, key[j % 4] as nat, 8, i);
  }

  // ---------------------------------------------------------------------------------------------
  // One frame
  // ---------------------------------------------------------------------------------------------

  /** An endpoint that has read all its bytes and holds these fragments. */
  predicate Waits(e: Endpoint, received: Bytes) {
    e.inbox.rxbuf == [] && !e.inbox.bad && e.inbox.received == received
  }

  /** One frame is handled by its opcode and its bytes are dropped. */
  lemma {:induction false} RawIsHandled(e: Endpoint, fin: bool, op: Opcode, key: Option<Bytes>, payload: Bytes)
    requires e.inbox.rxbuf == [] && !e.inbox.bad
    requires |payload| < 0x8000_0000_0000_0000 && (key.Some? ==> |key.value| == 4)
    ensures Dispatch(Feed(e, Raw(fin, op, key, payload))) == Handle(e, fin, op, payload)
  {
    var frame := Raw(fin, op, key, payload);
    RawParses(fin, op, key, payload, frame);
    assert [] + frame == frame;
    OnlyFrame(Feed(e, frame), e, frame, fin, op, payload);
  }

  lemma {:induction false} OnlyFrame(fed: Endpoint, e: Endpoint, frame: Bytes, fin: bool, op: Opcode, payload: Bytes)
    requires e.inbox.rxbuf == [] && !e.inbox.bad && fed == e.(inbox := e.inbox.(rxbuf := frame))
    requires ParseFrame(frame) == Frame(fin, op, payload, |frame|)
    ensures Dispatch(fed) == Handle(e, fin, op, payload)
  {
    var next := Drop(Handle(fed, fin, op, payload), |frame|);
    assert next == Handle(e, fin, op, payload);
    NothingToDispatch(next);
  }

  /** The effect of one frame, by the number of its opcode: 0, 1 and 2 carry data, 9 is a ping and is answered by a
      pong (10) with the same payload, 10 is ignored, and every other one closes. */
  lemma {:induction false} FrameEffect(e: Endpoint, fin: bool, op: Opcode, key: Option<Bytes>, payload: Bytes,
                                       received: Bytes)
    requires Waits(e, received) && e.ready == Open
    requires |payload| < 0x8000_0000_0000_0000 && (key.Some? ==> |key.value| == 4)
    ensures Dispatch(Feed(e, Raw(fin, op, key, payload))) ==
      if op == 0 || op == 1 || op == 2 then
        if fin then e.(inbox := Inbox([], [], false, e.inbox.delivered + [received + payload]))
        else e.(inbox := Inbox([], received + payload, false, e.inbox.delivered))
      else if op == 9 then e.(queued := e.queued + [Data(10, payload)])
      else if op == 10 then e
      else e.(ready := Closing, queued := e.queued + [CloseRequest])
  {
    RawIsHandled(e, fin, op, key, payload);
  }

  // ---------------------------------------------------------------------------------------------
  // Fragmented messages
  // ---------------------------------------------------------------------------------------------

  /** What may come between the first and the last frame of a message. */
  datatype Part =
    | Ping(fin: bool, key: Option<Bytes>, payload: Bytes)
    | Pong(fin: bool, key: Option<Bytes>, payload: Bytes)
    | More(key: Option<Bytes>, payload: Bytes)

  predicate PartOk(part: Part) {
    |part.payload| < 0x8000_0000_0000_0000 && (part.key.Some? ==> |part.key.value| == 4)
  }

  function PartBytes(part: Part): Bytes
    requires PartOk(part)
  {
    match part
    case Ping(fin, key, payload) => Raw(fin, 9, key, payload)
    case Pong(fin, key, payload) => Raw(fin, 10, key, payload)
    case More(key, payload) => Raw(false, 0, key, payload)
  }

  function PartsBytes(parts: seq<Part>): Bytes
    requires forall part :: part in parts ==> PartOk(part)
  {
    if parts == [] then [] else PartsBytes(parts[..|parts| - 1]) + PartBytes(parts[|parts| - 1])
  }

  /** The payloads of the continuation frames. */
  function Fragments(parts: seq<Part>): Bytes {
    if parts == [] then []
    else
      var last := parts[|parts| - 1];
      Fragments(parts[..|parts| - 1]) + if last.More? then last.payload else []
  }

  /** One pong for each ping, with its payload. */
  function Answers(parts: seq<Part>): seq<Outgoing> {
    if parts == [] then []
    else
      var last := parts[|parts| - 1];
      Answers(parts[..|parts| - 1]) + if last.Ping? then [Data(10, last.payload)] else []
  }

  lemma {:induction false} OnePartArrives(e: Endpoint, part: Part, received: Bytes)
    requires PartOk(part) && Waits(e, received) && e.ready == Open
    ensures Dispatch(Feed(e, PartBytes(part))) ==
      match part
      case Ping(_, _, payload) => e.(queued := e.queued + [Data(10, payload)])
      case Pong(_, _, _) => e
      case More(_, payload) => e.(inbox := Inbox([], received + payload, false, e.inbox.delivered))
  {
    match part
    case Ping(fin, key, payload) => FrameEffect(e, fin, 9, key, payload, received);
    case Pong(fin, key, payload) => FrameEffect(e, fin, 10, key, payload, received);
    case More(key, payload) => FrameEffect(e, false, 0, key, payload, received);
  }

  lemma {:induction false} PartsArrive(e: Endpoint, parts: seq<Part>, received: Bytes)
    requires (forall part :: part in parts ==> PartOk(part)) && Waits(e, received) && e.ready == Open
    ensures Dispatch(Feed(e, PartsBytes(parts)))
         == e.(inbox := Inbox([], received + Fragments(parts), false, e.inbox.delivered),
               queued := e.queued + Answers(parts))
    decreases |parts|
  {
    if parts == [] {
      assert e.inbox.rxbuf + [] == [] && received + [] == received && e.queued + [] == e.queued;
      NothingToDispatch(e);
    } else {
      var init, last := parts[..|parts| - 1], parts[|parts| - 1];
      var middle := e.(inbox := Inbox([], received + Fragments(init), false, e.inbox.delivered),
                       queued := e.queued + Answers(init));
      PartsArrive(e, init, received);
      OnePartArrives(middle, last, received + Fragments(init));
      ArrivalIndependence(e, PartsBytes(init), PartBytes(last));
      Grouped(received, Fragments(init), if last.More? then last.payload else []);
      Grouped(e.queued, Answers(init), if last.Ping? then [Data(10, last.payload)] else []);
    }
  }

  lemma Grouped<T>(a: seq<T>, b: seq<T>, c: seq<T>)
    ensures (a + b) + c == a + (b + c) && a + [] == a
  {
  }

  /** A text (1) or binary (2) message in any number of fragments, masked or not, with pings and pongs in between,
      is delivered as the concatenation of its fragments; each ping is answered in order, and nothing else changes. */
  lemma {:induction false} FragmentedMessageArrives(e: Endpoint, op: Opcode, key: Option<Bytes>, first: Bytes,
                                                    parts: seq<Part>, lastKey: Option<Bytes>, last: Bytes)
    requires Waits(e, []) && e.ready == Open && (op == 1 || op == 2)
    requires |first| < 0x8000_0000_0000_0000 && (key.Some? ==> |key.value| == 4)
    requires forall part :: part in parts ==> PartOk(part)
    requires |last| < 0x8000_0000_0000_0000 && (lastKey.Some? ==> |lastKey.value| == 4)
    ensures Dispatch(Feed(e, Raw(false, op, key, first) + PartsBytes(parts) + Raw(true, 0, lastKey, last)))
         == e.(inbox := Inbox([], [], false, e.inbox.delivered + [first + Fragments(parts) + last]),
               queued := e.queued + Answers(parts))
  {
    var a, b, c := Raw(false, op, key, first), PartsBytes(parts), Raw(true, 0, lastKey, last);
    var begun := e.(inbox := Inbox([], first, false, e.inbox.delivered));
    var middle := begun.(inbox := Inbox([], first + Fragments(parts), false, e.inbox.delivered),
                         queued := e.queued + Answers(parts));
    assert [] + first == first;
    FrameEffect(e, false, op, key, first, []);
    PartsArrive(begun, parts, first);
    FrameEffect(middle, true, 0, lastKey, last, first + Fragments(parts));
    ArrivalIndependence(e, a, b);
    ArrivalIndependence(e, a + b, c);
  }

  // ---------------------------------------------------------------------------------------------
  // Frames that cannot be read
  // ---------------------------------------------------------------------------------------------

  /** A length of eight bytes with the top bit set closes the connection, and nothing is read any more. */
  lemma {:induction false} TooLongCloses(e: Endpoint, bytes: Bytes)
    requires e.inbox.rxbuf == [] && !e.inbox.bad && e.ready == Open
    requires |bytes| >= 10 && bytes[1] % 128 == 127 && bytes[2] >= 128 && (bytes[1] >= 128 ==> |bytes| >= 14)
    ensures Dispatch(Feed(e, bytes))
         == e.(inbox := e.inbox.(rxbuf := bytes, bad := true), ready := Closing, queued := e.queued + [CloseRequest])
  {
    assert [] + bytes == bytes;
    TopBitIsLarge(bytes[2..10]);
  }

  lemma {:induction false} TopBitIsLarge(s: Bytes)
    requires |s| == 8 && s[0] >= 128
    ensures FromBigEndian(s) >= 0x8000_0000_0000_0000
  {
    FirstByteCounts(s, 8);
    PowersOf256();
    assert Pow256(8) == 256 * Pow256(7);
  }

  lemma {:induction false} FirstByteCounts(s: Bytes, n: nat)
    requires |s| == n > 0
    ensures FromBigEndian(s) >= s[0] as nat * Pow256(n - 1)
    decreases n
  {
    if n > 1 {
      FirstByteCounts(s[..n - 1], n - 1);
      assert Pow256(n - 1) == 256 * Pow256(n - 2);
    } else {
      assert s[..0] == [];
    }
  }
}
