/** The client's WebSocket endpoint: buffers that its methods update in place, tied to the functions of
    WebSocketProtocol.  The callback and the socket are logs: `delivered` and `sent`. */
module WebSocketClient {
  import opened WebSocketFrames
  import opened WebSocketProtocol

  /** What `recv` returns: bytes, "would block", or zero or another error. */
  datatype Recv = Got(bytes: Bytes) | RecvWouldBlock | RecvEnded

  /** What `send` returns: a count, or "would block". */
  datatype Sent = Took(ret: int) | SendWouldBlock

  /** The bytes of a series of receives up to the one that stops it, and whether that one ended the connection. */
  function Received(recvs: seq<Recv>): (Bytes, bool) {
    if recvs == [] || recvs[0].RecvWouldBlock? then ([], false)
    else if recvs[0].RecvEnded? then ([], true)
    else
      var (rest, ended) := Received(recvs[1..]);
      (recvs[0].bytes + rest, ended)
  }

  /** How many of `n` pending bytes a series of sends takes, and whether one of them failed. */
  function Taken(n: nat, sends: seq<Sent>): (t: (nat, bool))
    ensures t.0 <= n
    decreases |sends|
  {
    if n == 0 || sends == [] || sends[0].SendWouldBlock? then (0, false)
    else if sends[0].ret <= 0 then (0, true)
    else
      var k := if sends[0].ret <= n then sends[0].ret else n;
      var (rest, failed) := Taken(n - k, sends[1..]);
      (k + rest, failed)
  }

  /** The frame at the front of the receive buffer: not all there, with a bad length, or whole. */
  datatype FrontOfBuffer =
    | NotYet
    | BadLength
    | Whole(fin: bool, opcode: Opcode, mask: bool, key: Bytes, start: nat, n: nat)

  function Payload(buf: Bytes, h: FrontOfBuffer): Bytes
    requires h.Whole? && |h.key| == 4 && h.start + h.n <= |buf|
  {
    var data := buf[h.start..h.start + h.n];
    if h.mask then Masked(data, h.key) else data
  }

  function WithBuffer(e: Endpoint, rxbuf: Bytes): Endpoint {
    e.(inbox := e.inbox.(rxbuf := rxbuf))
  }

  lemma FedEndpoint(e: Endpoint, bytes: Bytes, e': Endpoint)
    requires e'.inbox == Inbox(e.inbox.rxbuf + bytes, e.inbox.received, e.inbox.bad, e.inbox.delivered) &&
      e'.queued == e.queued
    ensures e' == Feed(e, bytes).(ready := e'.ready)
  {
  }

  lemma {:induction false} DispatchStep(e: Endpoint, h: FrontOfBuffer, next: Endpoint)
    requires !e.inbox.bad && h.Whole? && |h.key| == 4 && h.start + h.n <= |e.inbox.rxbuf|
    requires ParseFrame(e.inbox.rxbuf) == Frame(h.fin, h.opcode, Payload(e.inbox.rxbuf, h), h.start + h.n)
    requires next == Drop(Handle(e, h.fin, h.opcode, Payload(e.inbox.rxbuf, h)), h.start + h.n)
    ensures Dispatch(e) == Dispatch(next)
  {
  }

  lemma MaskedTail(b: Bytes, c: Bytes, message: Bytes, offset: nat)
    requires offset <= |b| == |c| && b[offset..] == message && forall k :: 0 <= k < offset ==> c[k] == b[k]
    requires forall k :: offset <= k < |b| ==> c[k] == Xor(b[k], MASKING_KEY[(k - offset) % 4])
    ensures c == b[..offset] + Masked(message, MASKING_KEY)
  {
    forall k | 0 <= k < |message|
      ensures c[offset + k] == Masked(message, MASKING_KEY)[k]
    {
      assert message[k] == b[offset + k];
    }
  }

  lemma {:induction false} QueueGrows(sent: Bytes, txbuf: Bytes, queued: seq<Outgoing>, ready: Ready, ready': Ready,
                                      o: Outgoing, useMask: bool)
    requires sent + txbuf == Wire(queued, useMask) && WellQueued(queued, ready)
    requires MaySend(ready) && Sendable(o) && (o.CloseRequest? ==> !MaySend(ready'))
    ensures sent + (txbuf + Encode(o, useMask)) == Wire(queued + [o], useMask)
    ensures WellQueued(queued + [o], ready')
  {
    WireSnoc(queued, o, useMask);
    Associate(sent, txbuf, Encode(o, useMask));
    WellQueuedIsSendable(queued, ready);
    QueueOneMore(queued, o);
  }

  lemma Associate(a: Bytes, b: Bytes, c: Bytes)
    ensures a + (b + c) == a + b + c
  {
  }

  lemma KeepsQueue(sent: Bytes, txbuf: Bytes, n: nat, queued: seq<Outgoing>, ready: Ready, ready': Ready)
    requires n <= |txbuf| && WellQueued(queued, ready) && (ready' == ready || ready' == Closed)
    ensures sent + txbuf[..n] + txbuf[n..] == sent + txbuf
    ensures WellQueued(queued, ready')
  {
  }

  class WebSocket {
    const useMask: bool
    var rxbuf: Bytes
    var txbuf: Bytes
    var receivedData: Bytes
    var readyState: Ready
    var isRxBad: bool
    var delivered: seq<Bytes>
    var sent: Bytes
    ghost var queued: seq<Outgoing>

    ghost function State(): Endpoint
      reads this
    {
      Endpoint(Inbox(rxbuf, receivedData, isRxBad, delivered), queued, readyState)
    }

    /** The bytes the socket took and those still waiting are exactly the queued frames in order; at most
        one of these is a close frame, and nothing follows it. */
    ghost predicate Valid()
      reads this
    {
      sent + txbuf == Wire(queued, useMask) && WellQueued(queued, readyState)
    }

    constructor (useMask: bool)
      ensures Valid() && State() == Endpoint(Inbox([], [], false, []), [], Open)
      ensures this.useMask == useMask && sent == txbuf == []
    {
      this.useMask := useMask;
      rxbuf, txbuf, receivedData, readyState, isRxBad := [], [], [], Open, false;
      delivered, sent, queued := [], [], [];
    }

    /** Puts one frame into the transmit buffer, unless the connection is closing. */
    method SendData(op: Opcode, message: Bytes)
      requires Valid() && |message| < TWO_TO_THE_63
      requires op == TEXT_FRAME || op == BINARY_FRAME || op == PING || op == PONG
      modifies this`txbuf, this`queued
      ensures Valid() && State() == Send(old(State()), op, message)
      ensures txbuf == if MaySend(readyState) then old(txbuf) + EncodeFrame(op, message, useMask) else old(txbuf)
    {
      if readyState == Closing || readyState == Closed {
        return;
      }
      QueueGrows(sent, txbuf, queued, readyState, readyState, Data(op, message), useMask);
      AppendFrame(op, message);
      queued := queued + [Data(op, message)];
    }

    method AppendFrame(op: Opcode, message: Bytes)
      modifies this`txbuf
      ensures txbuf == old(txbuf) + EncodeFrame(op, message, useMask)
    {
      var header := FrameHeader(op, |message|);
      ghost var start := txbuf;
      txbuf := txbuf + header;
      txbuf := txbuf + message;
      if useMask {
        MaskTail(message, |txbuf| - |message|);
      }
      Associate(start, header, Body(message, useMask));
    }

    /** Masks the message that ends the transmit buffer, in place. */
    method MaskTail(ghost message: Bytes, offset: nat)
      requires offset <= |txbuf| && txbuf[offset..] == message
      modifies this`txbuf
      ensures txbuf == old(txbuf)[..offset] + Masked(message, MASKING_KEY)
    {
      ghost var start := txbuf;
      var n := |txbuf| - offset;
      var i := 0;
      while i != n
        invariant i <= n && |txbuf| == offset + n
        invariant forall k :: 0 <= k < offset ==> txbuf[k] == start[k]
        invariant forall k :: offset <= k < offset + i ==> txbuf[k] == Xor(start[k], MASKING_KEY[(k - offset) % 4])
        invariant forall k :: offset + i <= k < offset + n ==> txbuf[k] == start[k]
      {
        txbuf := txbuf[offset + i := Xor(txbuf[offset + i], MASKING_KEY[i % 4])];
        i := i + 1;
      }
      MaskedTail(start, txbuf, message, offset);
    }

    /** The header bytes, written one by one into a zeroed buffer of the right size. */
    method FrameHeader(op: Opcode, n: nat) returns (header: Bytes)
      ensures header == Header(op, n, useMask)
    {
      var h := new byte[HeaderSize(n, useMask)](_ => 0);
      h[0] := WithHighBit(op);
      h[1] := LengthField(n) as byte;
      if useMask {
        h[1] := WithHighBit(h[1]);
      }
      var i := PutLength(h, n);
      if useMask {
        PutKey(h, i);
      }
      assert h[i..] == Key(useMask);
      header := h[..];
      assert header == h[..i] + h[i..];
    }

    /** Writes the extended length after the first two bytes of a header, and tells where it ends. */
    method PutLength(h: array<byte>, n: nat) returns (end: nat)
      requires h.Length >= HeaderSize(n, false)
      modifies h
      ensures end == HeaderSize(n, false) && h[..end] == old(h[..2]) + ExtendedLength(n)
    {
      end := 2;
      if n >= 0x1_0000 {
        h[2], h[3], h[4], h[5] := ByteAt(n, 0x100_0000_0000_0000), ByteAt(n, 0x1_0000_0000_0000),
          ByteAt(n, 0x100_0000_0000), ByteAt(n, 0x1_0000_0000);
        h[6], h[7], h[8], h[9] := ByteAt(n, 0x100_0000), ByteAt(n, 0x1_0000), ByteAt(n, 0x100), ByteAt(n, 1);
        end := 10;
        EightBytes(n);
        assert h[2..10] == BigEndian(n, 8);
      } else if n >= 126 {
        h[2], h[3] := ByteAt(n, 0x100), ByteAt(n, 1);
        end := 4;
        TwoBytes(n);
        assert h[2..4] == BigEndian(n, 2);
      }
      assert h[..end] == h[..2] + h[2..end];
    }

    method PutKey(h: array<byte>, i: nat)
      requires i + 4 == h.Length
      modifies h
      ensures h[..] == old(h[..i]) + MASKING_KEY
    {
      h[i], h[i + 1], h[i + 2], h[i + 3] := MASKING_KEY[0], MASKING_KEY[1], MASKING_KEY[2], MASKING_KEY[3];
    }

    method SendText(message: Bytes)
      requires Valid() && |message| < TWO_TO_THE_63
      modifies this`txbuf, this`queued
      ensures Valid() && State() == Send(old(State()), 0x1, message)
    {
      SendData(TEXT_FRAME, message);
    }

    method SendBinary(message: Bytes)
      requires Valid() && |message| < TWO_TO_THE_63
      modifies this`txbuf, this`queued
      ensures Valid() && State() == Send(old(State()), 0x2, message)
    {
      SendData(BINARY_FRAME, message);
    }

    method SendPing()
      requires Valid()
      modifies this`txbuf, this`queued
      ensures Valid() && State() == Send(old(State()), 0x9, [])
    {
      SendData(PING, []);
    }

    /** Starts the closing handshake, once. */
    method CloseConnection()
      requires Valid()
      modifies this`txbuf, this`queued, this`readyState
      ensures Valid() && State() == Close(old(State()))
      ensures txbuf == old(txbuf) + if old(readyState) == Closing || old(readyState) == Closed then []
                                    else [0x88, 0x80, 0x00, 0x00, 0x00, 0x00]
    {
      if readyState == Closing || readyState == Closed {
        return;
      }
      QueueGrows(sent, txbuf, queued, readyState, Closing, CloseRequest, useMask);
      readyState := Closing;
      txbuf := txbuf + CLOSE_FRAME;
      queued := queued + [CloseRequest];
    }

    /** Decodes the header at the front of the receive buffer without consuming it. */
    method PeekFrame() returns (h: FrontOfBuffer)
      ensures h.NotYet? ==> ParseFrame(rxbuf).Incomplete?
      ensures h.BadLength? ==> ParseFrame(rxbuf).TooLong?
      ensures h.Whole? ==> |h.key| == 4 && h.n < TWO_TO_THE_63 && h.start + h.n <= |rxbuf|
      ensures h.Whole? ==> ParseFrame(rxbuf) == Frame(h.fin, h.opcode, Payload(rxbuf, h), h.start + h.n)
    {
      if |rxbuf| < 2 {
        return NotYet;
      }
      var fin := HighBit(rxbuf[0]);
      var opcode := LowFour(rxbuf[0]);
      var mask := HighBit(rxbuf[1]);
      var n0Byte := LowSeven(rxbuf[1]);
      var n0 := n0Byte as nat;
      var headerSize := 2 + (if n0 == 126 then 2 else 0) + (if n0 == 127 then 8 else 0) + (if mask then 4 else 0);
      if |rxbuf| < headerSize {
        return NotYet;
      }
      var i, n := 2, n0;
      if n0 == 126 {
        i := 4;
        n := FromBigEndian(rxbuf[2..4]);
      } else if n0 == 127 {
        i := 10;
        n := FromBigEndian(rxbuf[2..10]);
        if n >= TWO_TO_THE_63 {
          return BadLength;
        }
      }
      var key := if mask then rxbuf[i..i + 4] else [0, 0, 0, 0];
      if |rxbuf| < headerSize + n {
        return NotYet;
      }
      PayloadIsShort(rxbuf);
      return Whole(fin, opcode, mask, key, headerSize, n);
    }

    /** Reads every complete frame in the receive buffer. */
    method DispatchBinary()
      requires Valid()
      modifies this`rxbuf, this`txbuf, this`receivedData, this`readyState, this`isRxBad, this`delivered, this`queued
      ensures Valid() && State() == Dispatch(old(State()))
    {
      if isRxBad {
        return;
      }
      while true
        invariant Valid() && !isRxBad
        invariant Dispatch(State()) == Dispatch(old(State()))
        decreases |rxbuf|
      {
        var h := PeekFrame();
        if h.NotYet? {
          return;
        }
        if h.BadLength? {
          isRxBad := true;
          CloseConnection();
          return;
        }
        ghost var before := State();
        TakeFrame(h);
        DispatchStep(before, h, State());
      }
    }

    /** Handles the frame at the front of the buffer and drops its bytes. */
    method TakeFrame(h: FrontOfBuffer)
      requires Valid() && h.Whole? && h.start + h.n <= |rxbuf| && |h.key| == 4 && h.n < TWO_TO_THE_63
      requires h.start + h.n > 0
      modifies this`rxbuf, this`txbuf, this`receivedData, this`readyState, this`delivered, this`queued
      ensures Valid() && |rxbuf| < |old(rxbuf)|
      ensures State() == Drop(Handle(old(State()), h.fin, h.opcode, Payload(old(rxbuf), h)), h.start + h.n)
    {
      HandleFrame(h);
      rxbuf := rxbuf[h.start + h.n..];
    }

    /** Unmasks `n` bytes of the receive buffer in place. */
    method Unmask(start: nat, n: nat, key: Bytes)
      requires start + n <= |rxbuf| && |key| == 4
      modifies this`rxbuf
      ensures rxbuf == old(rxbuf)[..start] + Masked(old(rxbuf)[start..start + n], key) + old(rxbuf)[start + n..]
      ensures rxbuf[start..start + n] == Masked(old(rxbuf)[start..start + n], key)
      ensures rxbuf[start + n..] == old(rxbuf)[start + n..]
    {
      var i := 0;
      while i != n
        invariant i <= n && |rxbuf| == |old(rxbuf)|
        invariant forall k :: start <= k < start + i ==> rxbuf[k] == Xor(old(rxbuf)[k], key[(k - start) % 4])
        invariant forall k :: 0 <= k < |rxbuf| && !(start <= k < start + i) ==> rxbuf[k] == old(rxbuf)[k]
      {
        rxbuf := rxbuf[start + i := Xor(rxbuf[start + i], key[i % 4])];
        i := i + 1;
      }
      assert rxbuf[..start] == old(rxbuf)[..start];
      assert rxbuf[start..start + n] == Masked(old(rxbuf)[start..start + n], key);
      assert rxbuf[start + n..] == old(rxbuf)[start + n..];
      assert rxbuf == rxbuf[..start] + rxbuf[start..start + n] + rxbuf[start + n..];
    }

    /** What one complete frame at the front of the buffer makes the endpoint do. */
    method HandleFrame(h: FrontOfBuffer)
      requires Valid() && h.Whole? && h.start + h.n <= |rxbuf| && |h.key| == 4 && h.n < TWO_TO_THE_63
      modifies this`rxbuf, this`txbuf, this`receivedData, this`readyState, this`delivered, this`queued
      ensures Valid() && |rxbuf| == |old(rxbuf)| && rxbuf[h.start + h.n..] == old(rxbuf)[h.start + h.n..]
      ensures State() == WithBuffer(Handle(old(State()), h.fin, h.opcode, Payload(old(rxbuf), h)), rxbuf)
    {
      if IsDataOpcode(h.opcode) {
        HandleData(h);
      } else if h.opcode == PING {
        HandlePing(h);
      } else if h.opcode == PONG {
      } else {
        CloseConnection();
      }
    }

    /** A ping is answered with its own payload. */
    method HandlePing(h: FrontOfBuffer)
      requires Valid() && h.Whole? && h.start + h.n <= |rxbuf| && |h.key| == 4 && h.n < TWO_TO_THE_63
      modifies this`rxbuf, this`txbuf, this`queued
      ensures Valid() && |rxbuf| == |old(rxbuf)| && rxbuf[h.start + h.n..] == old(rxbuf)[h.start + h.n..]
      ensures State() == WithBuffer(Send(old(State()), PONG, Payload(old(rxbuf), h)), rxbuf)
    {
      ghost var payload := Payload(rxbuf, h);
      if h.mask {
        Unmask(h.start, h.n, h.key);
      }
      assert rxbuf[h.start..h.start + h.n] == payload;
      SendData(PONG, rxbuf[h.start..h.start + h.n]);
    }

    method HandleData(h: FrontOfBuffer)
      requires h.Whole? && h.start + h.n <= |rxbuf| && |h.key| == 4
      modifies this`rxbuf, this`receivedData, this`delivered
      ensures |rxbuf| == |old(rxbuf)| && rxbuf[h.start + h.n..] == old(rxbuf)[h.start + h.n..]
      ensures var received := old(receivedData) + Payload(old(rxbuf), h);
        && receivedData == (if h.fin then [] else received)
        && delivered == (if h.fin then old(delivered) + [received] else old(delivered))
    {
      if h.mask {
        Unmask(h.start, h.n, h.key);
      }
      receivedData := receivedData + rxbuf[h.start..h.start + h.n];
      if h.fin {
        delivered := delivered + [receivedData];
        receivedData := [];
      }
    }

    /** Moves bytes between the socket and the buffers, and notices the end of the connection. */
    method Poll(recvs: seq<Recv>, sends: seq<Sent>)
      requires Valid()
      modifies this`rxbuf, this`txbuf, this`sent, this`readyState
      ensures Valid()
      ensures old(readyState) == Closed ==> State() == old(State()) && txbuf == old(txbuf) && sent == old(sent)
      ensures old(readyState) != Closed ==>
        var (bytes, ended) := Received(recvs);
        var (n, failed) := Taken(|old(txbuf)|, sends);
        && State() == Feed(old(State()), bytes).(ready := readyState)
        && sent == old(sent) + old(txbuf)[..n] && txbuf == old(txbuf)[n..]
        && readyState == if ended || failed || (old(readyState) == Closing && txbuf == []) then Closed
          else old(readyState)
    {
      if readyState == Closed {
        return;
      }
      ReceiveAvailable(recvs);
      SendPending(sends);
      if txbuf == [] && readyState == Closing {
        readyState := Closed;
      }
      FedEndpoint(old(State()), Received(recvs).0, State());
      KeepsQueue(old(sent), old(txbuf), Taken(|old(txbuf)|, sends).0, queued, old(readyState), readyState);
    }

    method ReceiveAvailable(recvs: seq<Recv>)
      modifies this`rxbuf, this`readyState
      ensures rxbuf == old(rxbuf) + Received(recvs).0
      ensures readyState == if Received(recvs).1 then Closed else old(readyState)
    {
      var i := 0;
      while i < |recvs|
        invariant i <= |recvs| && readyState == old(readyState)
        invariant rxbuf + Received(recvs[i..]).0 == old(rxbuf) + Received(recvs).0
        invariant Received(recvs[i..]).1 == Received(recvs).1
      {
        ghost var rest := recvs[i..];
        assert rest[1..] == recvs[i + 1..];
        match recvs[i] {
          case RecvWouldBlock =>
            return;
          case RecvEnded =>
            readyState := Closed;
            return;
          case Got(bytes) =>
            assert rxbuf + bytes + Received(rest[1..]).0 == rxbuf + (bytes + Received(rest[1..]).0);
            rxbuf := rxbuf + bytes;
        }
        i := i + 1;
      }
    }

    method SendPending(sends: seq<Sent>)
      modifies this`txbuf, this`sent, this`readyState
      ensures var (n, failed) := Taken(|old(txbuf)|, sends);
        && sent == old(sent) + old(txbuf)[..n] && txbuf == old(txbuf)[n..]
        && readyState == if failed then Closed else old(readyState)
    {
      var i := 0;
      ghost var done, rest := 0, sends;
      while txbuf != [] && i < |sends|
        invariant i <= |sends| && rest == sends[i..] && done <= |old(txbuf)| && readyState == old(readyState)
        invariant sent == old(sent) + old(txbuf)[..done] && txbuf == old(txbuf)[done..]
        invariant Taken(|old(txbuf)|, sends) == (done + Taken(|txbuf|, rest).0, Taken(|txbuf|, rest).1)
      {
        assert rest[0] == sends[i] && rest[1..] == sends[i + 1..];
        match sends[i] {
          case SendWouldBlock =>
            return;
          case Took(ret) =>
            if ret <= 0 {
              readyState := Closed;
              return;
            }
            var k := if ret <= |txbuf| then ret else |txbuf|;
            TakenTogether(old(sent), old(txbuf), done, k);
            sent := sent + txbuf[..k];
            txbuf := txbuf[k..];
            done := done + k;
        }
        i, rest := i + 1, rest[1..];
      }
    }

    lemma TakenTogether(sent: Bytes, pending: Bytes, done: nat, k: nat)
      requires done + k <= |pending|
      ensures (sent + pending[..done]) + pending[done..][..k] == sent + pending[..done + k]
      ensures pending[done..][k..] == pending[done + k..]
    {
    }
  }

  /** What a fresh peer has delivered, after any part of the bytes that a valid endpoint has sent reached
      it in any pieces, is a prefix of the text and binary messages queued on that endpoint. */
  lemma {:induction false} PeerReceives(sent: Bytes, txbuf: Bytes, queued: seq<Outgoing>, ready: Ready, useMask: bool,
    peer: Endpoint, events: seq<Event>, onTheWay: Bytes)
    requires sent + txbuf == Wire(queued, useMask) && WellQueued(queued, ready)
    requires peer.inbox == Inbox([], [], false, []) && Arrived(events) + onTheWay == sent
    ensures Run(peer, events).inbox.delivered <= Messages(queued)
    ensures onTheWay + txbuf == [] ==> Dispatch(Run(peer, events)).inbox.delivered == Messages(queued)
  {
    WellQueuedIsSendable(queued, ready);
    Associate(Arrived(events), onTheWay, txbuf);
    EndToEnd(peer, events, onTheWay + txbuf, queued, useMask);
  }
}
