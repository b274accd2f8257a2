/** What a WebSocket endpoint does with the bytes that arrive and with the frames it is asked to queue,
    as functions on its state; and what two endpoints do together. */
module WebSocketProtocol {
  import opened WebSocketFrames

  datatype Ready = Closing | Closed | Connecting | Open

  /** A frame put into the transmit buffer. */
  datatype Outgoing = Data(op: Opcode, message: Bytes) | CloseRequest

  /** The receiving side: bytes not yet read, the fragments of an unfinished message, whether a bad
      length was seen, and the messages handed to the callback so far. */
  datatype Inbox = Inbox(rxbuf: Bytes, received: Bytes, bad: bool, delivered: seq<Bytes>)

  /** `queued` lists every frame ever put into the transmit buffer. */
  datatype Endpoint = Endpoint(inbox: Inbox, queued: seq<Outgoing>, ready: Ready)

  function Feed(e: Endpoint, bytes: Bytes): Endpoint {
    e.(inbox := e.inbox.(rxbuf := e.inbox.rxbuf + bytes))
  }

  predicate MaySend(ready: Ready) { ready != Closing && ready != Closed }

  function Send(e: Endpoint, op: Opcode, message: Bytes): Endpoint {
    if MaySend(e.ready) then e.(queued := e.queued + [Data(op, message)]) else e
  }

  function Close(e: Endpoint): Endpoint {
    if MaySend(e.ready) then e.(ready := Closing, queued := e.queued + [CloseRequest]) else e
  }

  predicate IsDataOpcode(op: Opcode) { op == TEXT_FRAME || op == BINARY_FRAME || op == CONTINUATION }

  /** The effect of one complete frame, before its bytes are dropped from the buffer. */
  function Handle(e: Endpoint, fin: bool, op: Opcode, payload: Bytes): Endpoint {
    if IsDataOpcode(op) then
      var received := e.inbox.received + payload;
      if fin then e.(inbox := e.inbox.(received := [], delivered := e.inbox.delivered + [received]))
      else e.(inbox := e.inbox.(received := received))
    else if op == PING then Send(e, PONG, payload)
    else if op == PONG then e
    else Close(e)
  }

  function Drop(e: Endpoint, n: nat): Endpoint
    requires n <= |e.inbox.rxbuf|
  {
    e.(inbox := e.inbox.(rxbuf := e.inbox.rxbuf[n..]))
  }

  /** Reads frames from the buffer until it holds no complete frame. */
  function Dispatch(e: Endpoint): (e': Endpoint)
    decreases |e.inbox.rxbuf|
  {
    if e.inbox.bad then e
    else
      match ParseFrame(e.inbox.rxbuf)
      case Incomplete => e
      case TooLong => Close(e.(inbox := e.inbox.(bad := true)))
      case Frame(fin, op, payload, size) => Dispatch(Drop(Handle(e, fin, op, payload), size))
  }

  // ---------------------------------------------------------------------------------------------
  // Dispatching does not depend on how the bytes arrive
  // ---------------------------------------------------------------------------------------------

  lemma {:induction false} DispatchInTwoParts(e: Endpoint, b: Bytes)
    ensures Dispatch(Feed(Dispatch(e), b)) == Dispatch(Feed(e, b))
    decreases |e.inbox.rxbuf|
  {
    if !e.inbox.bad && !ParseFrame(e.inbox.rxbuf).Incomplete? {
      ParseFrameExtends(e.inbox.rxbuf, b);
      match ParseFrame(e.inbox.rxbuf)
      case TooLong =>
      case Frame(fin, op, payload, size) =>
        var next := Drop(Handle(e, fin, op, payload), size);
        assert (e.inbox.rxbuf + b)[size..] == e.inbox.rxbuf[size..] + b;
        assert Drop(Handle(Feed(e, b), fin, op, payload), size) == Feed(next, b);
        DispatchInTwoParts(next, b);
    }
  }

  /** Dispatching after `a` and again after `b` is dispatching once on both: the same callbacks, queued
      pongs, partial message, remaining bytes and state. */
  lemma ArrivalIndependence(e: Endpoint, a: Bytes, b: Bytes)
    ensures Dispatch(Feed(Dispatch(Feed(e, a)), b)) == Dispatch(Feed(e, a + b))
  {
    DispatchInTwoParts(Feed(e, a), b);
    FeedTwice(e, a, b);
  }

  lemma FeedTwice(e: Endpoint, a: Bytes, b: Bytes)
    ensures Feed(Feed(e, a), b) == Feed(e, a + b)
  {
    assert e.inbox.rxbuf + a + b == e.inbox.rxbuf + (a + b);
  }

  function Flatten(chunks: seq<Bytes>): Bytes {
    if chunks == [] then [] else chunks[0] + Flatten(chunks[1..])
  }

  function DispatchEach(e: Endpoint, chunks: seq<Bytes>): Endpoint
    decreases |chunks|
  {
    if chunks == [] then e else DispatchEach(Dispatch(Feed(e, chunks[0])), chunks[1..])
  }

  lemma {:induction false} ChunkIndependence(e: Endpoint, chunks: seq<Bytes>)
    requires chunks != []
    ensures DispatchEach(e, chunks) == Dispatch(Feed(e, Flatten(chunks)))
    decreases |chunks|
  {
    if |chunks| == 1 {
      assert chunks[0] + Flatten(chunks[1..]) == chunks[0];
    } else {
      ChunkIndependence(Dispatch(Feed(e, chunks[0])), chunks[1..]);
      ArrivalIndependence(e, chunks[0], Flatten(chunks[1..]));
    }
  }

  // ---------------------------------------------------------------------------------------------
  // What one endpoint queues, another one receives
  // ---------------------------------------------------------------------------------------------

  function Encode(o: Outgoing, useMask: bool): Bytes {
    match o
    case Data(op, message) => EncodeFrame(op, message, useMask)
    case CloseRequest => CLOSE_FRAME
  }

  function Wire(queued: seq<Outgoing>, useMask: bool): Bytes {
    if queued == [] then [] else Wire(queued[..|queued| - 1], useMask) + Encode(queued[|queued| - 1], useMask)
  }

  /** The frames that an endpoint ever queues: whole text and binary messages, pings, pongs, close. */
  predicate Sendable(o: Outgoing) {
    match o
    case Data(op, message) => (op == TEXT_FRAME || op == BINARY_FRAME || op == PING || op == PONG) &&
      |message| < TWO_TO_THE_63
    case CloseRequest => true
  }

  /** The effect of a queued frame on the endpoint that receives it. */
  function Receive(e: Endpoint, o: Outgoing): Endpoint {
    match o
    case Data(op, message) => Handle(e, true, op, message)
    case CloseRequest => Close(e)
  }

  function ReceiveAll(e: Endpoint, queued: seq<Outgoing>): Endpoint {
    if queued == [] then e else Receive(ReceiveAll(e, queued[..|queued| - 1]), queued[|queued| - 1])
  }

  lemma OneFrameArrives(e: Endpoint, o: Outgoing, useMask: bool)
    requires e.inbox.rxbuf == [] && !e.inbox.bad && Sendable(o)
    ensures Dispatch(Feed(e, Encode(o, useMask))) == Receive(e, o)
  {
    match o
    case Data(op, message) =>
      FrameRoundTrip(op, message, useMask, []);
      OneFrameDispatched(e, Encode(o, useMask), op, message);
    case CloseRequest =>
      CloseFrameReads([]);
      OneFrameDispatched(e, CLOSE_FRAME, CLOSE, []);
  }

  /** A buffer that holds just one final frame is handled and emptied. */
  lemma {:induction false} OneFrameDispatched(e: Endpoint, bytes: Bytes, op: Opcode, payload: Bytes)
    requires e.inbox.rxbuf == [] && !e.inbox.bad
    requires ParseFrame(bytes + []) == Frame(true, op, payload, |bytes|)
    ensures Dispatch(Feed(e, bytes)) == Handle(e, true, op, payload)
  {
    assert [] + bytes == bytes == bytes + [];
    HandledAndEmptied(Feed(e, bytes), e, bytes, op, payload);
  }

  lemma {:induction false} HandledAndEmptied(fed: Endpoint, e: Endpoint, bytes: Bytes, op: Opcode, payload: Bytes)
    requires e.inbox.rxbuf == [] && !e.inbox.bad && fed == e.(inbox := e.inbox.(rxbuf := bytes))
    requires ParseFrame(bytes) == Frame(true, op, payload, |bytes|)
    ensures Dispatch(fed) == Handle(e, true, op, payload)
  {
    var next := Drop(Handle(fed, true, op, payload), |bytes|);
    assert next == Handle(e, true, op, payload);
    NothingToDispatch(next);
  }

  lemma {:induction false} NothingToDispatch(e: Endpoint)
    requires |e.inbox.rxbuf| < 2
    ensures Dispatch(e) == e
  {
  }

  /** A fresh receiver that dispatches on the bytes of a whole queue handles exactly its frames in order
      and keeps no bytes back. */
  lemma {:induction false} QueueArrives(e: Endpoint, queued: seq<Outgoing>, useMask: bool)
    requires e.inbox.rxbuf == [] && !e.inbox.bad
    requires forall o :: o in queued ==> Sendable(o)
    ensures Dispatch(Feed(e, Wire(queued, useMask))) == ReceiveAll(e, queued)
    ensures ReceiveAll(e, queued).inbox.rxbuf == [] && !ReceiveAll(e, queued).inbox.bad
    decreases |queued|
  {
    if queued == [] {
      assert e.inbox.rxbuf + [] == [];
    } else {
      var init, last := queued[..|queued| - 1], queued[|queued| - 1];
      QueueArrives(e, init, useMask);
      OneFrameArrives(ReceiveAll(e, init), last, useMask);
      ArrivalIndependence(e, Wire(init, useMask), Encode(last, useMask));
    }
  }

  /** The text and binary messages of a queue. */
  function Messages(queued: seq<Outgoing>): seq<Bytes> {
    if queued == [] then []
    else
      var init, last := Messages(queued[..|queued| - 1]), queued[|queued| - 1];
      if last.Data? && IsDataOpcode(last.op) then init + [last.message] else init
  }

  lemma {:induction false} MessagesAreDelivered(e: Endpoint, queued: seq<Outgoing>)
    requires e.inbox.received == [] && forall o :: o in queued ==> Sendable(o)
    ensures ReceiveAll(e, queued).inbox.delivered == e.inbox.delivered + Messages(queued)
    ensures ReceiveAll(e, queued).inbox.received == []
    decreases |queued|
  {
    if queued == [] {
      assert e.inbox.delivered + [] == e.inbox.delivered;
    } else {
      var init, last := queued[..|queued| - 1], queued[|queued| - 1];
      MessagesAreDelivered(e, init);
      if last.Data? && IsDataOpcode(last.op) {
        assert [] + last.message == last.message;
        assert e.inbox.delivered + Messages(init) + [last.message] == e.inbox.delivered + Messages(queued);
      }
    }
  }

  // ---------------------------------------------------------------------------------------------
  // Runs: arrivals, dispatches and the endpoint's own sends in any order
  // ---------------------------------------------------------------------------------------------

  datatype Event = Arrive(bytes: Bytes) | DispatchNow | SendNow(op: Opcode, message: Bytes) | CloseNow

  function Apply(e: Endpoint, event: Event): Endpoint {
    match event
    case Arrive(bytes) => Feed(e, bytes)
    case DispatchNow => Dispatch(e)
    case SendNow(op, message) => Send(e, op, message)
    case CloseNow => Close(e)
  }

  function Run(e: Endpoint, events: seq<Event>): Endpoint {
    if events == [] then e else Apply(Run(e, events[..|events| - 1]), events[|events| - 1])
  }

  function Arrived(events: seq<Event>): Bytes {
    if events == [] then []
    else
      var init, last := Arrived(events[..|events| - 1]), events[|events| - 1];
      if last.Arrive? then init + last.bytes else init
  }

  /** What arrives and is delivered does not depend on what the endpoint itself has queued. */
  lemma {:induction false} InboxIsIndependent(e: Endpoint, e': Endpoint)
    requires e.inbox == e'.inbox
    ensures Dispatch(e).inbox == Dispatch(e').inbox
    decreases |e.inbox.rxbuf|
  {
    if !e.inbox.bad && ParseFrame(e.inbox.rxbuf).Frame? {
      var Frame(fin, op, payload, size) := ParseFrame(e.inbox.rxbuf);
      InboxIsIndependent(Drop(Handle(e, fin, op, payload), size), Drop(Handle(e', fin, op, payload), size));
    }
  }

  lemma {:induction false} DispatchTwice(e: Endpoint)
    ensures Dispatch(Dispatch(e)) == Dispatch(e)
  {
    DispatchInTwoParts(e, []);
    assert e.inbox.rxbuf + [] == e.inbox.rxbuf && Dispatch(e).inbox.rxbuf + [] == Dispatch(e).inbox.rxbuf;
    assert Feed(e, []) == e && Feed(Dispatch(e), []) == Dispatch(e);
  }

  /** At any point of any run, dispatching leaves the inbox that one dispatch on all the bytes leaves. */
  lemma {:induction false} RunInbox(e: Endpoint, events: seq<Event>)
    ensures Dispatch(Run(e, events)).inbox == Dispatch(Feed(e, Arrived(events))).inbox
    decreases |events|
  {
    if events == [] {
      assert e.inbox.rxbuf + [] == e.inbox.rxbuf;
    } else {
      var init, last := events[..|events| - 1], events[|events| - 1];
      var before, whole := Run(e, init), Feed(e, Arrived(init));
      RunInbox(e, init);
      match last
      case Arrive(bytes) =>
        DispatchInTwoParts(before, bytes);
        DispatchInTwoParts(whole, bytes);
        InboxIsIndependent(Feed(Dispatch(before), bytes), Feed(Dispatch(whole), bytes));
        FeedTwice(e, Arrived(init), bytes);
      case DispatchNow =>
        DispatchTwice(before);
      case SendNow(op, message) =>
        InboxIsIndependent(Send(before, op, message), before);
      case CloseNow =>
        InboxIsIndependent(Close(before), before);
    }
  }

  lemma {:induction false} DispatchOnlyDelivers(e: Endpoint)
    ensures e.inbox.delivered <= Dispatch(e).inbox.delivered
    decreases |e.inbox.rxbuf|
  {
    if !e.inbox.bad && ParseFrame(e.inbox.rxbuf).Frame? {
      var Frame(fin, op, payload, size) := ParseFrame(e.inbox.rxbuf);
      DispatchOnlyDelivers(Drop(Handle(e, fin, op, payload), size));
    }
  }

  /** A fresh endpoint that has received any prefix of a peer's bytes, in any pieces and between any
      dispatches and sends of its own, has delivered a prefix of the peer's messages; and all of them
      once everything has arrived and a dispatch has run. */
  lemma {:induction false} EndToEnd(e: Endpoint, events: seq<Event>, rest: Bytes, queued: seq<Outgoing>, useMask: bool)
    requires e.inbox == Inbox([], [], false, [])
    requires forall o :: o in queued ==> Sendable(o)
    requires Arrived(events) + rest == Wire(queued, useMask)
    ensures Run(e, events).inbox.delivered <= Messages(queued)
    ensures rest == [] ==> Dispatch(Run(e, events)).inbox == Inbox([], [], false, Messages(queued))
  {
    var all := events + [Arrive(rest)];
    assert all[..|all| - 1] == events;
    RunInbox(e, all);
    QueueArrives(e, queued, useMask);
    MessagesAreDelivered(e, queued);
    assert [] + Messages(queued) == Messages(queued);
    DispatchOnlyDelivers(Run(e, all));
    if rest == [] {
      RunInbox(e, events);
      assert Arrived(events) + rest == Arrived(events);
    }
  }

  // ---------------------------------------------------------------------------------------------
  // The queue: at most one close frame, and nothing after it
  // ---------------------------------------------------------------------------------------------

  ghost predicate AllData(queued: seq<Outgoing>) {
    forall o :: o in queued ==> o.Data? && Sendable(o)
  }

  /** Data frames only; or data frames and then one close frame, on an endpoint that sends no more. */
  ghost predicate WellQueued(queued: seq<Outgoing>, ready: Ready) {
    || AllData(queued)
    || (!MaySend(ready) && queued != [] && queued[|queued| - 1].CloseRequest? && AllData(queued[..|queued| - 1]))
  }

  lemma WellQueuedIsSendable(queued: seq<Outgoing>, ready: Ready)
    requires WellQueued(queued, ready)
    ensures forall o :: o in queued ==> Sendable(o)
    ensures MaySend(ready) ==> AllData(queued)
  {
    if queued != [] {
      assert queued == queued[..|queued| - 1] + [queued[|queued| - 1]];
    }
  }

  lemma QueueOneMore(queued: seq<Outgoing>, o: Outgoing)
    requires AllData(queued)
    ensures o.Data? && Sendable(o) ==> AllData(queued + [o])
    ensures o.CloseRequest? ==> forall ready :: !MaySend(ready) ==> WellQueued(queued + [o], ready)
  {
    assert (queued + [o])[..|queued|] == queued;
  }

  lemma {:induction false} PayloadIsShort(buf: Bytes)
    requires ParseFrame(buf).Frame?
    ensures |ParseFrame(buf).payload| < TWO_TO_THE_63
    ensures |ParseFrame(buf).payload| == DataLength(buf[1], buf[2..KeyStart(buf[1])])
  {
    var b1 := buf[1];
    var extended := buf[2..KeyStart(b1)];
    if N0(b1) == 126 {
      assert extended[..1][..0] == [];
      assert FromBigEndian(extended[..1]) == extended[0] as nat;
    }
  }

  lemma HandleKeepsQueue(e: Endpoint, fin: bool, op: Opcode, payload: Bytes)
    requires WellQueued(e.queued, e.ready) && |payload| < TWO_TO_THE_63
    ensures WellQueued(Handle(e, fin, op, payload).queued, Handle(e, fin, op, payload).ready)
    ensures e.queued <= Handle(e, fin, op, payload).queued
  {
    if MaySend(e.ready) {
      WellQueuedIsSendable(e.queued, e.ready);
      QueueOneMore(e.queued, Data(PONG, payload));
      QueueOneMore(e.queued, CloseRequest);
    }
  }

  lemma {:induction false} DispatchKeepsQueue(e: Endpoint)
    requires WellQueued(e.queued, e.ready)
    ensures WellQueued(Dispatch(e).queued, Dispatch(e).ready)
    ensures e.queued <= Dispatch(e).queued
    decreases |e.inbox.rxbuf|
  {
    if !e.inbox.bad && ParseFrame(e.inbox.rxbuf).TooLong? && MaySend(e.ready) {
      WellQueuedIsSendable(e.queued, e.ready);
      QueueOneMore(e.queued, CloseRequest);
    }
    if !e.inbox.bad && ParseFrame(e.inbox.rxbuf).Frame? {
      var Frame(fin, op, payload, size) := ParseFrame(e.inbox.rxbuf);
      PayloadIsShort(e.inbox.rxbuf);
      HandleKeepsQueue(e, fin, op, payload);
      DispatchKeepsQueue(Drop(Handle(e, fin, op, payload), size));
    }
  }

  lemma {:induction false} WireSnoc(queued: seq<Outgoing>, o: Outgoing, useMask: bool)
    ensures Wire(queued + [o], useMask) == Wire(queued, useMask) + Encode(o, useMask)
  {
    assert (queued + [o])[..|queued|] == queued;
  }
}
