/** Writer, broker and reader: every change of the writer's store reaches the reader's store in order. */
module Replication {
  import opened Wrappers
  import opened JsonText
  import opened JsonGrammar
  import opened RelayMessages

  type Store = map<string, string>

  /** Whether the writer asks the broker and waits for its reply, or pushes into the broker's sink. */
  datatype Mode = Asking | Pushing

  /** Queues hold messages, the oldest first. `pending` is a change that is saved but not yet sent. `log` and
      `applied` are the history of the two stores. */
  datatype State = State(
    writerStore: Store, readerStore: Store, pending: Option<Op>,
    produced: seq<string>, toBroker: seq<string>, replies: seq<string>, published: seq<string>, waiting: bool,
    log: seq<Op>, applied: seq<Op>)

  datatype Step =
    | Save(op: Op)
    | Send(fields: seq<Field>)
    | WriterForwards
    | WriterGetsReply
    | BrokerForwards
    | ReaderReads

  const PRESENCE: string := "reportwriter"
  const BROKER_OK: string := "brokerok"

  /** In asking mode the writer first reports its presence, and the broker treats that like any other message. */
  function Start(mode: Mode, store: Store): State {
    State(store, store, None, [], if mode.Asking? then [Encoded(PRESENCE +
      ['\0'])] else [], [], [], mode.Asking?, [], [])
  }

  function Apply(store: Store, op: Op): Store {
    match op
    case Put(key, value) => store[key := value]
    case Remove(key) => store - {key}
  }

  function Replay(store: Store, ops: seq<Op>): Store {
    if ops == [] then store else Apply(Replay(store, ops[..|ops| - 1]), ops[|ops| - 1])
  }

  predicate Enabled(mode: Mode, s: State, step: Step) {
    match step
    case Save(op) => s.pending.None?
    case Send(fields) =>
      s.pending.Some? && Carries(fields, s.pending.value)
      && Printable(Object(fields)) && |RequestText(fields)| < Power256(OFFSET)
    case WriterForwards => !s.waiting && s.produced != [] && IsMessage(s.produced[0])
    case WriterGetsReply => s.waiting && s.replies != []
    case BrokerForwards => s.toBroker != [] && IsMessage(s.toBroker[0])
    case ReaderReads => s.published != [] && IsMessage(s.published[0])
  }

  /** What one message does to the reader. */
  function Read(s: State, data: string): State {
    match SaveOf(data)
    case Applied(op) => s.(readerStore := Apply(s.readerStore, op), applied := s.applied + [op])
    case _ => s
  }

  function Next(mode: Mode, s: State, step: Step): State
    requires Enabled(mode, s, step)
  {
    match step
    case Save(op) => s.(writerStore := Apply(s.writerStore, op), log := s.log + [op], pending := Some(op))
    case Send(fields) => s.(produced := s.produced + [Encoded(RequestText(fields))], pending := None)
    case WriterForwards =>
      s.(produced := s.produced[1..], toBroker := s.toBroker + [Encoded(Decoded(s.produced[0]))],
        waiting := mode.Asking?)
    case WriterGetsReply => s.(replies := s.replies[1..], waiting := false)
    case BrokerForwards =>
      s.(toBroker := s.toBroker[1..], published := s.published + [Encoded(Decoded(s.toBroker[0]))],
         replies := s.replies + if mode.Asking? then [Encoded(BROKER_OK + ['\0'])] else [])
    case ReaderReads => Read(s.(published := s.published[1..]), Decoded(s.published[0]))
  }

  function Run(mode: Mode, store: Store, steps: seq<Step>): State {
    if steps == [] then Start(mode, store)
    else
      var s := Run(mode, store, steps[..|steps| - 1]);
      var step := steps[|steps| - 1];
      if Enabled(mode, s, step) then Next(mode, s, step) else s
  }

  // ---------------------------------------------------------------------------------------------
  // What every step keeps
  // ---------------------------------------------------------------------------------------------

  /** A message that is relayed unchanged and that the reader can save. */
  predicate Good(m: string) {
    IsMessage(m) && Encoded(Decoded(m)) == m && !SaveOf(Decoded(m)).Threw?
  }

  predicate AllGood(queue: seq<string>) {
    forall i :: 0 <= i < |queue| ==> Good(queue[i])
  }

  function OpsOf(m: string): seq<Op> {
    if !IsMessage(m) then []
    else
      match SaveOf(Decoded(m))
      case Applied(op) => [op]
      case _ => []
  }

  /** The operations that a queue carries. */
  function Carried(queue: seq<string>): seq<Op> {
    if queue == [] then [] else OpsOf(queue[0]) + Carried(queue[1..])
  }

  function PendingOps(pending: Option<Op>): seq<Op> {
    match pending case Some(op) => [op] case None => []
  }

  /** Everything on its way from the writer's store to the reader's. */
  function InFlight(s: State): seq<Op> {
    Carried(s.published) + Carried(s.toBroker) + Carried(s.produced) + PendingOps(s.pending)
  }

  ghost predicate LinksOk(mode: Mode, s: State) {
    && AllGood(s.produced) && AllGood(s.toBroker) && AllGood(s.published)
    && (s.waiting ==> mode.Asking?)
    && (mode.Asking? ==> |s.toBroker| + |s.replies| == if s.waiting then 1 else 0)
  }

  ghost predicate StoresOk(store: Store, s: State) {
    && s.applied + InFlight(s) == s.log
    && s.writerStore == Replay(store, s.log) && s.readerStore == Replay(store, s.applied)
  }

  lemma {:induction false} CarriedFirst(m: string, queue: seq<string>)
    ensures Carried([m] + queue) == OpsOf(m) + Carried(queue)
  {
    assert ([m] + queue)[1..] == queue;
  }

  lemma {:induction false} CarriedTogether(p: seq<string>, q: seq<string>)
    ensures Carried(p + q) == Carried(p) + Carried(q)
    decreases |p|
  {
    if p == [] {
      assert p + q == q;
    } else {
      var m, rest := p[0], p[1..];
      assert p == [m] + rest && p + q == [m] + (rest + q);
      CarriedFirst(m, rest);
      CarriedFirst(m, rest + q);
      CarriedTogether(rest, q);
      Between(OpsOf(m), Carried(rest), Carried(q));
    }
  }

  lemma CarriedOne(m: string)
    ensures Carried([m]) == OpsOf(m)
  {
    assert [m][1..] == [];
  }

  lemma PresenceIsGood()
    ensures Good(Encoded(PRESENCE + ['\0'])) && OpsOf(Encoded(PRESENCE + ['\0'])) == []
  {
    var text := PRESENCE + ['\0'];
    assert Power256(OFFSET) > 100;
    RelayRoundTrip(text);
    CStrOfText(PRESENCE);
    NotJson(text);
  }

  lemma NotJson(text: string)
    requires text != "" && text[0] == 'r'
    ensures Parse(text).None?
  {
  }

  lemma RequestIsGood(fields: seq<Field>, op: Op)
    requires Carries(fields, op) && Printable(Object(fields)) && |RequestText(fields)| < Power256(OFFSET)
    ensures Good(Encoded(RequestText(fields))) && OpsOf(Encoded(RequestText(fields))) == [op]
  {
    RelayRoundTrip(RequestText(fields));
    RequestIsSaved(fields, op);
  }

  lemma {:induction false} ReplayOne(store: Store, ops: seq<Op>, op: Op)
    ensures Replay(store, ops + [op]) == Apply(Replay(store, ops), op)
  {
    assert (ops + [op])[..|ops|] == ops;
  }

  lemma StartIsOk(mode: Mode, store: Store)
    ensures LinksOk(mode, Start(mode, store)) && StoresOk(store, Start(mode, store))
  {
    PresenceIsGood();
    CarriedOne(Encoded(PRESENCE + ['\0']));
  }

  lemma OneMoreGood(mode: Mode, s: State, fields: seq<Field>)
    requires Enabled(mode, s, Send(fields)) && AllGood(s.produced)
    ensures AllGood(s.produced + [Encoded(RequestText(fields))])
  {
    RequestIsGood(fields, s.pending.value);
  }

  lemma LinksStayOk(mode: Mode, s: State, step: Step)
    requires LinksOk(mode, s) && Enabled(mode, s, step)
    ensures LinksOk(mode, Next(mode, s, step))
  {
    if step.Send? {
      OneMoreGood(mode, s, step.fields);
    }
  }

  lemma SaveFlows(mode: Mode, store: Store, s: State, op: Op)
    requires StoresOk(store, s) && s.pending.None?
    ensures StoresOk(store, Next(mode, s, Save(op)))
  {
    ReplayOne(store, s.log, op);
    var t := Next(mode, s, Save(op));
    assert t.published == s.published && t.toBroker == s.toBroker && t.produced == s.produced;
    OneMorePending(s, t, op);
    LogGrows(s.applied, InFlight(s), op);
  }

  lemma OneMorePending(s: State, t: State, op: Op)
    requires t.published == s.published && t.toBroker == s.toBroker && t.produced == s.produced
    requires s.pending == None && t.pending == Some(op)
    ensures InFlight(t) == InFlight(s) + [op]
  {
  }

  lemma LogGrows(a: seq<Op>, b: seq<Op>, op: Op)
    ensures a + (b + [op]) == (a + b) + [op]
  {
  }

  lemma SendFlows(mode: Mode, s: State, fields: seq<Field>)
    requires Enabled(mode, s, Send(fields))
    ensures InFlight(Next(mode, s, Send(fields))) == InFlight(s)
  {
    var m := Encoded(RequestText(fields));
    RequestIsGood(fields, s.pending.value);
    CarriedTogether(s.produced, [m]);
    CarriedOne(m);
    NothingPending(Carried(s.published) + Carried(s.toBroker), Carried(s.produced), OpsOf(m));
  }

  lemma NothingPending(a: seq<Op>, b: seq<Op>, c: seq<Op>)
    ensures a + (b + c) + [] == a + b + c
  {
  }

  /** Moving the oldest message of one queue to the end of the one before it changes nothing. */
  lemma {:induction false} MoveFlows(p: seq<string>, q: seq<string>)
    requires q != []
    ensures Carried(p + [q[0]]) + Carried(q[1..]) == Carried(p) + Carried(q)
  {
    CarriedTogether(p, [q[0]]);
    CarriedOne(q[0]);
    Between(Carried(p), OpsOf(q[0]), Carried(q[1..]));
  }

  lemma Between(a: seq<Op>, b: seq<Op>, c: seq<Op>)
    ensures (a + b) + c == a + (b + c)
  {
  }

  lemma WriterFlows(mode: Mode, s: State)
    requires LinksOk(mode, s) && Enabled(mode, s, WriterForwards)
    ensures InFlight(Next(mode, s, WriterForwards)) == InFlight(s)
  {
    MoveFlows(s.toBroker, s.produced);
    var t := Next(mode, s, WriterForwards);
    assert t.toBroker == s.toBroker + [s.produced[0]];
    Regroup4(Carried(s.published), Carried(t.toBroker), Carried(t.produced), PendingOps(s.pending));
    Regroup4(Carried(s.published), Carried(s.toBroker), Carried(s.produced), PendingOps(s.pending));
  }

  lemma BrokerFlows(mode: Mode, s: State)
    requires LinksOk(mode, s) && Enabled(mode, s, BrokerForwards)
    ensures InFlight(Next(mode, s, BrokerForwards)) == InFlight(s)
  {
    MoveFlows(s.published, s.toBroker);
    var t := Next(mode, s, BrokerForwards);
    assert t.published == s.published + [s.toBroker[0]];
  }

  lemma Regroup4(a: seq<Op>, b: seq<Op>, c: seq<Op>, d: seq<Op>)
    ensures a + b + c + d == a + (b + c) + d
  {
  }

  /** The reader has taken these operations off the links. */
  predicate Takes(s: State, t: State, ops: seq<Op>) {
    && |ops| <= 1 && t.applied == s.applied + ops && t.log == s.log && t.writerStore == s.writerStore
    && t.readerStore == if ops == [] then s.readerStore else Apply(s.readerStore, ops[0])
  }

  lemma ReadsOps(s: State, m: string)
    requires IsMessage(m)
    ensures Takes(s, Read(s, Decoded(m)), OpsOf(m))
    ensures InFlight(Read(s, Decoded(m))) == InFlight(s)
  {
  }

  lemma FirstFlows(s: State)
    requires s.published != []
    ensures InFlight(s) == OpsOf(s.published[0]) + InFlight(s.(published := s.published[1..]))
  {
    FirstOfFive(OpsOf(s.published[0]), Carried(s.published[1..]), Carried(s.toBroker), Carried(s.produced),
      PendingOps(s.pending));
  }

  lemma FirstOfFive(a: seq<Op>, b: seq<Op>, c: seq<Op>, d: seq<Op>, e: seq<Op>)
    ensures (a + b) + c + d + e == a + (b + c + d + e)
  {
  }

  lemma TakenIsOk(store: Store, s: State, t: State, ops: seq<Op>)
    requires StoresOk(store, s) && Takes(s, t, ops) && InFlight(s) == ops + InFlight(t)
    ensures StoresOk(store, t)
  {
    Between(s.applied, ops, InFlight(t));
    if ops == [] {
      assert t.applied == s.applied;
    } else {
      ReplayOne(store, s.applied, ops[0]);
      assert ops == [ops[0]];
    }
  }

  lemma ReaderFlows(mode: Mode, store: Store, s: State)
    requires StoresOk(store, s) && Enabled(mode, s, ReaderReads)
    ensures StoresOk(store, Next(mode, s, ReaderReads))
  {
    ReadsOps(s.(published := s.published[1..]), s.published[0]);
    FirstFlows(s);
    TakenIsOk(store, s, Next(mode, s, ReaderReads), OpsOf(s.published[0]));
  }

  lemma StoresStayOk(mode: Mode, store: Store, s: State, step: Step)
    requires LinksOk(mode, s) && StoresOk(store, s) && Enabled(mode, s, step)
    ensures StoresOk(store, Next(mode, s, step))
  {
    match step
    case Save(op) => SaveFlows(mode, store, s, op);
    case Send(fields) => SendFlows(mode, s, fields);
    case WriterForwards => WriterFlows(mode, s);
    case BrokerForwards => BrokerFlows(mode, s);
    case ReaderReads => ReaderFlows(mode, store, s);
    case WriterGetsReply =>
  }

  lemma {:induction false} RunIsOk(mode: Mode, store: Store, steps: seq<Step>)
    ensures LinksOk(mode, Run(mode, store, steps)) && StoresOk(store, Run(mode, store, steps))
  {
    if steps == [] {
      StartIsOk(mode, store);
    } else {
      var s, step := Run(mode, store, steps[..|steps| - 1]), steps[|steps| - 1];
      RunIsOk(mode, store, steps[..|steps| - 1]);
      if Enabled(mode, s, step) {
        LinksStayOk(mode, s, step);
        StoresStayOk(mode, store, s, step);
      }
    }
  }

  // ---------------------------------------------------------------------------------------------
  // The two stores
  // ---------------------------------------------------------------------------------------------

  /** In every reachable state the reader's store is the replay of a prefix of the writer's log, and what is in
      flight is the rest of it; so nothing is lost, doubled or reordered. */
  lemma {:induction false} ReaderFollowsWriter(mode: Mode, store: Store, steps: seq<Step>)
    ensures var s := Run(mode, store, steps);
      var n := |s.applied|;
      n <= |s.log| && s.readerStore == Replay(store, s.log[..n]) && InFlight(s) == s.log[n..] &&
        s.writerStore == Replay(store, s.log)
  {
    RunIsOk(mode, store, steps);
    var s := Run(mode, store, steps);
    assert s.log[..|s.applied|] == s.applied && s.log[|s.applied|..] == InFlight(s);
  }

  /** Every message carries one change. */
  predicate AllRequests(queue: seq<string>) {
    forall i :: 0 <= i < |queue| ==> Good(queue[i]) && |OpsOf(queue[i])| == 1
  }

  predicate OnlyRequests(s: State) {
    && AllRequests(s.produced) && AllRequests(s.toBroker) && AllRequests(s.published)
    && s.replies == [] && !s.waiting
  }

  function Counted(s: State): nat {
    |s.applied| + |s.published| + |s.toBroker| + |s.produced| + if s.pending.Some? then 1 else 0
  }

  lemma OneRequest(m: string)
    requires Good(m) && |OpsOf(m)| == 1
    ensures IsMessage(m) && SaveOf(Decoded(m)).Applied? && Encoded(Decoded(m)) == m
  {
  }

  lemma MessageMoves(p: seq<string>, q: seq<string>)
    requires AllRequests(p) && AllRequests(q) && q != []
    ensures AllRequests(p + [q[0]]) && AllRequests(q[1..])
  {
  }

  lemma OneMoreRequest(s: State, fields: seq<Field>)
    requires Enabled(Pushing, s, Send(fields)) && AllRequests(s.produced)
    ensures AllRequests(s.produced + [Encoded(RequestText(fields))])
  {
    RequestIsGood(fields, s.pending.value);
  }

  ghost predicate PushingOk(s: State) {
    OnlyRequests(s) && |s.log| == Counted(s)
  }

  lemma PushingForwards(s: State)
    requires Enabled(Pushing, s, WriterForwards) && PushingOk(s)
    ensures PushingOk(Next(Pushing, s, WriterForwards))
  {
    OneRequest(s.produced[0]);
    MessageMoves(s.toBroker, s.produced);
  }

  lemma PushingPublishes(s: State)
    requires Enabled(Pushing, s, BrokerForwards) && PushingOk(s)
    ensures PushingOk(Next(Pushing, s, BrokerForwards))
  {
    OneRequest(s.toBroker[0]);
    MessageMoves(s.published, s.toBroker);
  }

  lemma PushingReads(s: State)
    requires Enabled(Pushing, s, ReaderReads) && PushingOk(s)
    ensures PushingOk(Next(Pushing, s, ReaderReads))
  {
    OneRequest(s.published[0]);
    MessageMoves([], s.published);
  }

  lemma PushingStep(s: State, step: Step)
    requires Enabled(Pushing, s, step) && PushingOk(s)
    ensures PushingOk(Next(Pushing, s, step))
  {
    match step
    case Send(fields) => OneMoreRequest(s, fields);
    case WriterForwards => PushingForwards(s);
    case BrokerForwards => PushingPublishes(s);
    case ReaderReads => PushingReads(s);
    case _ =>
  }

  /** A broker that is pushed to is sent nothing but the writer's changes, and never replies. */
  lemma {:induction false} PushingSendsOnlyChanges(store: Store, steps: seq<Step>)
    ensures var s := Run(Pushing, store, steps); OnlyRequests(s) && |s.log| == Counted(s)
    decreases |steps|
  {
    if steps != [] {
      var s, step := Run(Pushing, store, steps[..|steps| - 1]), steps[|steps| - 1];
      PushingSendsOnlyChanges(store, steps[..|steps| - 1]);
      if Enabled(Pushing, s, step) {
        PushingStep(s, step);
      }
    }
  }

  /** The last operation on a key. */
  function LastOn(ops: seq<Op>, key: string): Option<Op> {
    if ops == [] then None
    else if ops[|ops| - 1].key == key then Some(ops[|ops| - 1])
    else LastOn(ops[..|ops| - 1], key)
  }

  /** What a store holds for a key after some operations: what the last one on the key says, or what it held. */
  ghost predicate HoldsAfter(now: Store, before: Store, ops: seq<Op>, key: string) {
    match LastOn(ops, key)
    case Some(Put(_, value)) => key in now && now[key] == value
    case Some(Remove(_)) => key !in now
    case None => if key in before then key in now && now[key] == before[key] else key !in now
  }

  lemma {:induction false} ReplayHolds(store: Store, ops: seq<Op>, key: string)
    ensures HoldsAfter(Replay(store, ops), store, ops, key)
  {
    if ops != [] {
      ReplayHolds(store, ops[..|ops| - 1], key);
    }
  }

  /** In every reachable state the reader's store holds, for each key, what the last applied operation on it says; the
      applied operations are the first of the writer's log, and the writer's store holds what the whole log says. */
  lemma {:induction false} StoresHoldTheLog(mode: Mode, store: Store, steps: seq<Step>, key: string)
    ensures var s := Run(mode, store, steps);
      var n := |s.applied|;
      n <= |s.log| && HoldsAfter(s.readerStore, store, s.log[..n], key) && HoldsAfter(s.writerStore, store, s.log, key)
  {
    ReaderFollowsWriter(mode, store, steps);
    var s := Run(mode, store, steps);
    ReplayHolds(store, s.log[..|s.applied|], key);
    ReplayHolds(store, s.log, key);
  }

  predicate Quiet(s: State) {
    s.pending.None? && s.produced == [] && s.toBroker == [] && s.published == []
  }

  /** With empty queues between requests the two stores are equal. */
  lemma {:induction false} QuietStoresAreEqual(mode: Mode, store: Store, steps: seq<Step>)
    requires Quiet(Run(mode, store, steps))
    ensures Run(mode, store, steps).readerStore == Run(mode, store, steps).writerStore
  {
    RunIsOk(mode, store, steps);
    var s := Run(mode, store, steps);
    assert s.applied + InFlight(s) == s.applied;
  }

  /** The steps that bring messages on: forwarding, replying and reading. */
  predicate Delivers(step: Step) {
    !step.Save? && !step.Send?
  }

  function StepsToGo(s: State): nat {
    5 * |s.produced| + 3 * |s.toBroker| + |s.published| + |s.replies|
  }

  /** Every step that brings messages on brings the queues closer to being empty. */
  lemma EveryDeliveryCounts(mode: Mode, s: State, step: Step)
    requires LinksOk(mode, s) && Delivers(step) && Enabled(mode, s, step)
    ensures StepsToGo(Next(mode, s, step)) < StepsToGo(s) && Next(mode, s, step).pending == s.pending
  {
    match step
    case WriterForwards =>
    case WriterGetsReply =>
    case BrokerForwards =>
    case ReaderReads =>
  }

  /** Only deliveries happen, each of them possible when its turn comes. */
  ghost predicate Delivering(mode: Mode, store: Store, steps: seq<Step>, more: seq<Step>) {
    forall k :: 0 <= k < |more| ==> Delivers(more[k]) && Enabled(mode, Run(mode, store, steps + more[..k]), more[k])
  }

  lemma {:induction false} DeliveringBefore(mode: Mode, store: Store, steps: seq<Step>, more: seq<Step>)
    requires more != [] && Delivering(mode, store, steps, more)
    ensures Delivering(mode, store, steps, more[..|more| - 1])
  {
    var less := more[..|more| - 1];
    forall k | 0 <= k < |less|
      ensures Delivers(less[k]) && Enabled(mode, Run(mode, store, steps + less[..k]), less[k])
    {
      assert less[..k] == more[..k];
    }
  }

  lemma {:induction false} LastStepOf(mode: Mode, store: Store, steps: seq<Step>, more: seq<Step>, s: State)
    requires more != [] && s == Run(mode, store, steps + more[..|more| - 1]) && Enabled(mode, s, more[|more| - 1])
    ensures Run(mode, store, steps + more) == Next(mode, s, more[|more| - 1])
  {
    var all := steps + more;
    assert all[..|all| - 1] == steps + more[..|more| - 1];
  }

  /** However the deliveries are ordered, there are at most as many as there are steps to go. */
  lemma {:induction false} DeliveriesEnd(mode: Mode, store: Store, steps: seq<Step>, more: seq<Step>)
    requires Delivering(mode, store, steps, more)
    ensures |more| + StepsToGo(Run(mode, store, steps + more)) <= StepsToGo(Run(mode, store, steps))
    ensures Run(mode, store, steps + more).pending == Run(mode, store, steps).pending
    decreases |more|
  {
    if more == [] {
      assert steps + more == steps;
    } else {
      var n := |more| - 1;
      DeliveringBefore(mode, store, steps, more);
      DeliveriesEnd(mode, store, steps, more[..n]);
      RunIsOk(mode, store, steps + more[..n]);
      EveryDeliveryCounts(mode, Run(mode, store, steps + more[..n]), more[n]);
      LastStepOf(mode, store, steps, more, Run(mode, store, steps + more[..n]));
    }
  }

  /** As long as a message is on its way, one of the three programs can go on. */
  lemma DeliveryGoesOn(mode: Mode, store: Store, steps: seq<Step>) returns (step: Step)
    requires var s := Run(mode, store, steps); s.pending.None? && !Quiet(s)
    ensures Delivers(step) && Enabled(mode, Run(mode, store, steps), step)
  {
    RunIsOk(mode, store, steps);
    var s := Run(mode, store, steps);
    if s.published != [] {
      step := ReaderReads;
    } else if s.toBroker != [] {
      step := BrokerForwards;
    } else if s.waiting {
      step := WriterGetsReply;
    } else {
      step := WriterForwards;
    }
  }

  /** Between requests, deliveries in any order that go on for as long as one is possible end with equal
      stores. */
  lemma {:induction false} DeliveredStoresAreEqual(mode: Mode, store: Store, steps: seq<Step>, more: seq<Step>)
    requires Run(mode, store, steps).pending.None? && Delivering(mode, store, steps, more)
    requires forall step :: Delivers(step) ==> !Enabled(mode, Run(mode, store, steps + more), step)
    ensures Run(mode, store, steps + more).readerStore == Run(mode, store, steps + more).writerStore
  {
    DeliveriesEnd(mode, store, steps, more);
    if !Quiet(Run(mode, store, steps + more)) {
      var step := DeliveryGoesOn(mode, store, steps + more);
      assert false;
    }
    QuietStoresAreEqual(mode, store, steps + more);
  }
}
