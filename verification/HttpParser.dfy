/** The parser that runs over a buffer: it takes body bytes by the run, and hands them on from a mark. */
module HttpParser {
  import opened Wrappers
  import opened HttpBody

  /** A callback: a piece of the body, or the end of the message. */
  datatype Call = OnBody(bytes: string) | OnMessageComplete

  function Flatten(calls: seq<Call>): seq<Out> {
    if calls == [] then []
    else
      var last := calls[|calls| - 1];
      Flatten(calls[..|calls| - 1]) + match last case OnBody(bytes) => Bytes(bytes) case OnMessageComplete => [Complete]
  }

  lemma {:induction false} FlattenOne(calls: seq<Call>, call: Call)
    ensures Flatten(calls + [call]) == Flatten(calls) +
      match call case OnBody(bytes) => Bytes(bytes) case OnMessageComplete => [Complete]
  {
    assert (calls + [call])[..|calls|] == calls;
  }

  /** The position of a mark in the buffer, if it is set. */
  type Mark = Option<nat>

  predicate MarkOk(mark: Mark, p: nat) {
    mark.Some? ==> mark.value <= p
  }

  /** The bytes from the mark to the cursor, which no callback has been given yet. */
  function Held(data: string, mark: Mark, p: nat): string
    requires p <= |data| && MarkOk(mark, p)
  {
    if mark.Some? then data[mark.value..p] else ""
  }

  /** What is still to come when these bytes are held and the cursor stands at `p`. */
  ghost function Ahead(m: Message, f: Fields, data: string, mark: Mark, p: nat): Result
    requires p <= |data| && MarkOk(mark, p)
  {
    After(Bytes(Held(data, mark, p)), Machine(m, f, data[p..]))
  }

  /** A mark is left only where data has just been read. */
  predicate MarkFits(f: Fields, mark: Mark, p: nat, len: nat) {
    mark.Some? ==>
      || f.state.ChunkDataAlmostDone?
      || (p == len && (f.state.ChunkData? || f.state.BodyIdentity? || f.state.BodyIdentityEof?))
  }

  /** A response whose status allows a body. */
  predicate MayHaveBody(message: Message) {
    !message.isRequest && !(100 <= message.statusCode < 200) && message.statusCode != 204 && message.statusCode != 304
  }

  /** Whether a body follows the headers: not after the reply to a HEAD request or an upgrade, and not without
      chunks when the length is given as 0, or is missing from a message whose end the headers tell. */
  predicate HasBody(message: Message, contentLength: nat) {
    && !message.skipBody
    && (message.chunked || (contentLength != 0 && (contentLength == 0xFFFF_FFFF_FFFF_FFFF ==> MayHaveBody(message))))
  }

  /** A body without chunks and without a length goes on to the end of the connection. */
  predicate EndsWithConnection(message: Message, contentLength: nat) {
    !message.chunked && contentLength == NO_LENGTH
  }

  class Parser {
    const message: Message
    var state: Phase
    var nread: nat
    var contentLength: nat
    var trailing: bool
    var errno: Errno

    function Now(): Fields
      reads this
    {
      Fields(state, nread, contentLength, trailing, errno)
    }

    /** The end of the headers: which body follows. `contentLength` is what the headers gave. */
    constructor (message: Message, contentLength: nat)
      requires contentLength <= NO_LENGTH
      ensures this.message == message && Wf(message, Now()) && errno.Ok? && nread == 0 && !trailing
      ensures this.contentLength == contentLength
      ensures InBody(Now()) <==> HasBody(message, contentLength)
      ensures state.ChunkSizeStart? <==> HasBody(message, contentLength) && message.chunked
      ensures state.BodyIdentityEof? <==> HasBody(message, contentLength) && EndsWithConnection(message, contentLength)
      ensures state.BodyIdentity? <==>
        HasBody(message, contentLength) && !message.chunked && !EndsWithConnection(message, contentLength)
      ensures !HasBody(message, contentLength) ==> state == NextMessage(message, Now())
      ensures !HasBody(message, contentLength) && message.major == 1 && message.minor == 1 ==>
        state == if message.connectionClose then Dead else NewMessage
      ensures !HasBody(message, contentLength) && message.major == 1 && message.minor == 0 ==>
        state == if message.connectionKeepAlive then NewMessage else Dead
    {
      var next := if ShouldKeepAlive(message, contentLength) then NewMessage else Dead;
      this.message := message;
      nread, this.contentLength, trailing, errno := 0, contentLength, false, Ok;
      if message.skipBody {
        state := next;
      } else if message.chunked {
        state := ChunkSizeStart;
      } else if contentLength == 0 {
        state := next;
      } else if contentLength != NO_LENGTH {
        state := BodyIdentity;
      } else if message.isRequest || !NeedsEof(message, contentLength) {
        state := next;
      } else {
        state := BodyIdentityEof;
      }
    }

    method Fail(e: Errno)
      modifies this
      ensures Now() == old(Now()).(errno := e)
    {
      errno := e;
    }

    /** The states of the chunk size line. */
    method SizeLineByte(ch: char)
      requires Wf(message, Now()) && InBody(Now()) && ParsingHeader(state)
      modifies this
      ensures match OneByte(message, old(Now()), ch)
              case Failed(e) => Now() == FailedFields(old(Now()), e)
              case Moved(g, outs) => Now() == g && outs == []
    {
      nread := nread + 1;
      if nread > MAX_HEADER_SIZE {
        Fail(HeaderOverflow);
        return;
      }
      assert message.chunked;
      match state
      case ChunkSizeStart =>
        assert nread == 1;
        if Unhex(ch) == -1 {
          Fail(InvalidChunkSize);
        } else {
          contentLength, state := Unhex(ch), ChunkSize;
        }
      case ChunkSize =>
        if ch == '\r' {
          state := ChunkSizeAlmostDone;
        } else if Unhex(ch) == -1 {
          if ch == ';' || ch == ' ' {
            state := ChunkParameters;
          } else {
            Fail(InvalidChunkSize);
          }
        } else {
          var t := (contentLength * 16 + Unhex(ch)) % WIDTH;
          if (NO_LENGTH - 16) / 16 < contentLength {
            Fail(InvalidContentLength);
          } else {
            contentLength := t;
          }
        }
      case ChunkParameters =>
        if ch == '\r' {
          state := ChunkSizeAlmostDone;
        }
      case ChunkSizeAlmostDone =>
        if ch != '\n' {
          Fail(Strict);
        } else {
          nread := 0;
          if contentLength == 0 {
            trailing, state := true, Trailer;
          } else {
            state := ChunkData;
          }
        }
    }

    /** The data of a chunk, as much of it as is there. */
    method ChunkDataRun(data: string, p: nat) returns (next: nat)
      requires Wf(message, Now()) && InBody(Now()) && state.ChunkData? && p < |data|
      modifies this
      ensures p < next <= |data| && Wf(message, Now()) && errno.Ok? &&
        (state.ChunkDataAlmostDone? || (state.ChunkData? && next == |data|))
      ensures Machine(message, old(Now()), data[p..]) ==
        After(Bytes(data[p..next]), Machine(message, Now(), data[next..]))
    {
      ghost var f := Now();
      var to_read := if contentLength < |data| - p then contentLength else |data| - p;
      assert message.chunked && contentLength != 0 && contentLength != NO_LENGTH;
      contentLength := contentLength - to_read;
      next := p + to_read;
      if contentLength == 0 {
        state := ChunkDataAlmostDone;
      }
      RunTaken(message, f, data, p, next, Now());
    }

    /** A body of known length, as much of it as is there; its last byte is looked at again for the end. */
    method BodyIdentityRun(data: string, p: nat) returns (next: nat, calls: seq<Call>)
      requires Wf(message, Now()) && InBody(Now()) && state.BodyIdentity? && p < |data|
      modifies this
      ensures p < next <= |data| && Wf(message, Now()) && errno.Ok?
      ensures if state.BodyIdentity? then next == |data| && calls == []
        else calls == [OnBody(data[p..next]), OnMessageComplete]
      ensures !state.BodyIdentity? ==> !InBody(Now())
      ensures Machine(message, old(Now()), data[p..]) ==
        if state.BodyIdentity? then Ahead(message, Now(), data, Some(p), next)
        else After(Bytes(data[p..next]) + [Complete], Machine(message, Now(), data[next..]))
    {
      ghost var f := Now();
      var to_read := if contentLength < |data| - p then contentLength else |data| - p;
      assert contentLength != 0 && contentLength != NO_LENGTH;
      contentLength := contentLength - to_read;
      next := p + to_read;
      calls := [];
      if contentLength == 0 {
        state := MessageDone;
        calls := [OnBody(data[p..next])];
        state := if ShouldKeepAlive(message, contentLength) then NewMessage else Dead;
        calls := calls + [OnMessageComplete];
      }
      RunTaken(message, f, data, p, next, Now());
    }

    method ChunkEndByte(ch: char)
      requires Wf(message, Now()) && InBody(Now()) &&
        (state.ChunkDataAlmostDone? || state.ChunkDataDone? || state.MessageDone?)
      modifies this
      ensures match OneByte(message, old(Now()), ch)
              case Failed(e) => Now() == FailedFields(old(Now()), e)
              case Moved(g, outs) => Now() == g && outs == if old(state).MessageDone? then [Complete] else []
    {
      if state.ChunkDataAlmostDone? {
        assert message.chunked && contentLength == 0;
        if ch != '\r' {
          Fail(Strict);
        } else {
          state := ChunkDataDone;
        }
      } else if state.ChunkDataDone? {
        assert message.chunked;
        if ch != '\n' {
          Fail(Strict);
        } else {
          nread := 0;
          state := ChunkSizeStart;
        }
      } else {
        state := if ShouldKeepAlive(message, contentLength) then NewMessage else Dead;
      }
    }

    /** One round of the loop: a byte, or a run of body bytes. */
    method OneRound(data: string, p: nat, mark: Mark) returns (next: nat, newMark: Mark, calls: seq<Call>)
      requires Wf(message, Now()) && InBody(Now()) && p < |data| && MarkOk(mark, p) && MarkFits(Now(), mark, p, |data|)
      modifies this
      ensures errno.Ok? ==>
        p < next <= |data| && MarkOk(newMark, next) && MarkFits(Now(), newMark, next, |data|) && Wf(message, Now())
      ensures errno.Ok? ==>
        Ahead(message, old(Now()), data, mark, p) == After(Flatten(calls), Ahead(message, Now(), data, newMark, next))
      ensures !errno.Ok? ==> next == p && newMark == mark && calls == []
      ensures !errno.Ok? ==> Machine(message, old(Now()), data[p..]) == Result(Now(), [], data[p..])
    {
      ghost var f := Now();
      next, newMark, calls := p + 1, mark, [];
      if ParsingHeader(state) || state.ChunkDataAlmostDone? || state.ChunkDataDone? || state.MessageDone? {
        next, newMark, calls := ByteRound(data, p, mark);
      } else if state.ChunkData? {
        newMark := Some(p);
        next := ChunkDataRun(data, p);
        NothingHeld(Ahead(message, Now(), data, newMark, next));
      } else if state.BodyIdentity? {
        next, calls := BodyIdentityRun(data, p);
        newMark := if state.BodyIdentity? then Some(p) else None;
        CallsTold(data[p..next], Machine(message, Now(), data[next..]));
        NothingHeld(Ahead(message, Now(), data, newMark, next));
      } else {
        newMark := Some(p);
        next := |data|;
        EofRun(message, f, data[p..]);
        assert data[p..next] == data[p..];
        NothingHeld(Ahead(message, Now(), data, newMark, next));
      }
    }

    /** A round that takes one byte. */
    method ByteRound(data: string, p: nat, mark: Mark) returns (next: nat, newMark: Mark, calls: seq<Call>)
      requires Wf(message, Now()) && InBody(Now()) && p < |data| && MarkOk(mark, p) && MarkFits(Now(), mark, p, |data|)
      requires ParsingHeader(state) || state.ChunkDataAlmostDone? || state.ChunkDataDone? || state.MessageDone?
      modifies this
      ensures errno.Ok? ==> next == p + 1 && newMark == None && Wf(message, Now())
      ensures errno.Ok? ==>
        Ahead(message, old(Now()), data, mark, p) == After(Flatten(calls), Ahead(message, Now(), data, newMark, next))
      ensures !errno.Ok? ==> next == p && newMark == mark && calls == []
      ensures !errno.Ok? ==> Machine(message, old(Now()), data[p..]) == Result(Now(), [], data[p..])
    {
      ghost var f := Now();
      next, newMark, calls := p + 1, mark, [];
      ByteKeepsWf(message, f, data[p]);
      if ParsingHeader(state) {
        SizeLineByte(data[p]);
      } else {
        if state.MessageDone? {
          calls := [OnMessageComplete];
        }
        ChunkEndByte(data[p]);
      }
      if !errno.Ok? {
        next, calls := p, [];
        return;
      }
      if mark.Some? {
        calls := [OnBody(data[mark.value..p])];
        newMark := None;
      }
      ByteTaken(message, f, data, mark, p, Now(), calls);
    }

    /** The loop over the buffer. */
    method Rounds(data: string) returns (p: nat, mark: Mark, calls: seq<Call>)
      requires Wf(message, Now()) && InBody(Now())
      modifies this
      ensures p <= |data| && MarkOk(mark, p)
      ensures errno.Ok? ==> Wf(message, Now()) && Machine(message, Now(), data[p..]) == Result(Now(), [], data[p..])
      ensures errno.Ok? ==>
        Machine(message, old(Now()), data) == After(Flatten(calls), Ahead(message, Now(), data, mark, p))
      ensures !errno.Ok? ==> exists held ::
        Machine(message, old(Now()), data) == Result(Now(), Flatten(calls) + held, data[p..])
    {
      ghost var f := Now();
      p, mark, calls := 0, None, [];
      assert data[0..] == data;
      NothingHeld(Machine(message, f, data));
      NothingHeld(Ahead(message, f, data, None, 0));
      while p < |data| && InBody(Now())
        invariant p <= |data| && errno.Ok? && Wf(message, Now())
        invariant MarkOk(mark, p) && MarkFits(Now(), mark, p, |data|)
        invariant Machine(message, f, data) == After(Flatten(calls), Ahead(message, Now(), data, mark, p))
      {
        var next, newMark, told;
        next, newMark, told := OneRound(data, p, mark);
        if !errno.Ok? {
          ErrorIsLast(calls, Held(data, mark, p), Now(), data[p..]);
          return;
        }
        FlattenTogether(calls, told);
        AfterAfter(Flatten(calls), Flatten(told), Ahead(message, Now(), data, newMark, next));
        p, mark, calls := next, newMark, calls + told;
      }
    }

    /** Parses one piece of input; an empty piece is the end of the connection. */
    method Execute(data: string) returns (read: nat, calls: seq<Call>)
      requires Wf(message, Now()) && InBody(Now())
      modifies this
      ensures data == "" ==> calls == (if old(state).BodyIdentityEof? then [OnMessageComplete] else [])
      ensures data == "" ==> Now() == if old(state).BodyIdentityEof? then old(Now())
        else old(Now()).(errno := InvalidEofState)
      ensures data != "" ==> var r := Machine(message, old(Now()), data);
        Now() == r.f && read + |r.unread| == |data| &&
          (if errno.Ok? then Flatten(calls) == r.outs else Flatten(calls) <= r.outs)
      ensures errno.Ok? ==> Wf(message, Now())
    {
      if data == "" {
        if state.BodyIdentityEof? {
          return 0, [OnMessageComplete];
        }
        Fail(InvalidEofState);
        return 1, [];
      }
      var p, mark;
      p, mark, calls := Rounds(data);
      if errno.Ok? {
        LastHeld(calls, Held(data, mark, p), Now(), data[p..]);
        if mark.Some? {
          calls := calls + [OnBody(data[mark.value..p])];
        }
      }
      read := p;
    }
  }

  /** Two parsers in the same state, one given the bytes in one piece and the other in two: they end in the same
      state with the same number of bytes read, and they report the same; only after an error
      one of the reports may be a front of the other. */
  method ExecuteSplit(one: Parser, two: Parser, a: string, b: string)
    returns (read: nat, calls: seq<Call>, readSplit: nat, callsSplit: seq<Call>)
    requires one != two && one.message == two.message && one.Now() == two.Now()
    requires Wf(one.message, one.Now()) && InBody(one.Now()) && a != "" && b != ""
    modifies one, two
    ensures one.Now() == two.Now() && read == readSplit
    ensures one.errno.Ok? ==> Flatten(calls) == Flatten(callsSplit)
    ensures Flatten(calls) <= Flatten(callsSplit) || Flatten(callsSplit) <= Flatten(calls)
  {
    ghost var m, f := one.message, one.Now();
    SplitInvariance(m, f, a, b);
    read, calls := one.Execute(a + b);
    readSplit, callsSplit := two.Execute(a);
    if InBody(two.Now()) {
      ghost var r, first := Machine(m, f, a), callsSplit;
      MachineStops(m, f, a);
      var more, last := two.Execute(b);
      readSplit, callsSplit := readSplit + more, callsSplit + last;
      FlattenTogether(first, last);
      PrefixAfter(r.outs, Flatten(last), Machine(m, r.f, b).outs);
    }
    PrefixesOfOne(Flatten(calls), Flatten(callsSplit), Machine(m, f, a + b).outs);
  }

  lemma PrefixesOfOne(a: seq<Out>, b: seq<Out>, whole: seq<Out>)
    requires a <= whole && b <= whole
    ensures a <= b || b <= a
  {
    if |a| <= |b| {
      assert a == whole[..|a|] == b[..|a|];
    }
  }

  lemma PrefixAfter(a: seq<Out>, b: seq<Out>, c: seq<Out>)
    requires b <= c
    ensures a + b <= a + c
  {
  }

  lemma {:induction false} ErrorIsLast(calls: seq<Call>, held: string, f: Fields, unread: string)
    ensures After(Flatten(calls), After(Bytes(held), Result(f, [], unread))) ==
      Result(f, Flatten(calls) + Bytes(held), unread)
  {
    assert Bytes(held) + [] == Bytes(held);
  }

  lemma {:induction false} LastHeld(calls: seq<Call>, held: string, f: Fields, unread: string)
    ensures After(Flatten(calls), After(Bytes(held), Result(f, [], unread))) ==
      Result(f, Flatten(calls + [OnBody(held)]), unread)
    ensures held == "" ==> Flatten(calls + [OnBody(held)]) == Flatten(calls)
  {
    FlattenOne(calls, OnBody(held));
    assert Bytes(held) + [] == Bytes(held) && Bytes("") == [];
  }

  lemma {:induction false} FlattenTogether(a: seq<Call>, b: seq<Call>)
    ensures Flatten(a + b) == Flatten(a) + Flatten(b)
  {
    if b == [] {
      assert a + b == a;
    } else {
      var n := |b| - 1;
      assert a + b == (a + b[..n]) + [b[n]];
      FlattenOne(a + b[..n], b[n]);
      FlattenOne(b[..n], b[n]);
      assert b == b[..n] + [b[n]];
      FlattenTogether(a, b[..n]);
    }
  }

  lemma NothingHeld(r: Result)
    ensures After([], r) == r && After(Bytes(""), r) == r && After(Flatten([]), r) == r
  {
    assert [] + r.outs == r.outs && Bytes("") == [];
  }

  lemma CallsTold(s: string, r: Result)
    ensures Flatten([OnBody(s), OnMessageComplete]) == Bytes(s) + [Complete]
    ensures After(Bytes(""), r) == r
  {
    assert [OnBody(s), OnMessageComplete] == ([] + [OnBody(s)]) + [OnMessageComplete];
    FlattenOne([] + [OnBody(s)], OnMessageComplete);
    FlattenOne([], OnBody(s));
    NothingHeld(r);
  }

  lemma {:induction false} EofRun(m: Message, f: Fields, s: string)
    requires f.errno.Ok? && f.state.BodyIdentityEof?
    ensures Machine(m, f, s) == Result(f, Bytes(s), "")
    decreases |s|
  {
    if s != "" {
      EofRun(m, f, s[1..]);
      assert Bytes(s) == [Byte(s[0])] + Bytes(s[1..]);
    }
  }

  /** One byte has been taken; the bytes that were held have been handed on. */
  lemma {:induction false} ByteTaken(m: Message, f: Fields, data: string, mark: Mark, p: nat, g: Fields,
                                     calls: seq<Call>)
    requires p < |data| && InBody(f) && MarkOk(mark, p) && (mark.Some? ==> !f.state.MessageDone?)
    requires OneByte(m, f, data[p]) == Moved(g, if f.state.MessageDone? then [Complete] else [])
    requires calls == if mark.Some? then [OnBody(data[mark.value..p])]
      else if f.state.MessageDone? then [OnMessageComplete] else []
    ensures Ahead(m, f, data, mark, p) == After(Flatten(calls), Ahead(m, g, data, None, p + 1))
  {
    MachineStep(m, f, data, p, g, if f.state.MessageDone? then [Complete] else []);
    if mark.Some? {
      HeldIsTold(Held(data, mark, p), Machine(m, g, data[p + 1..]));
    } else {
      NothingWasHeld(f.state.MessageDone?, Machine(m, g, data[p + 1..]));
    }
  }

  lemma HeldIsTold(held: string, rest: Result)
    ensures After(Bytes(held), After([], rest)) == After(Flatten([OnBody(held)]), After(Bytes(""), rest))
  {
    FlattenOne([], OnBody(held));
    assert [] + [OnBody(held)] == [OnBody(held)];
    NothingHeld(rest);
  }

  lemma NothingWasHeld(complete: bool, rest: Result)
    ensures After(Bytes(""), After(if complete then [Complete] else [], rest))
         == After(Flatten(if complete then [OnMessageComplete] else []), After(Bytes(""), rest))
  {
    FlattenOne([], OnMessageComplete);
    assert [] + [OnMessageComplete] == [OnMessageComplete];
    NothingHeld(rest);
    NothingHeld(After([Complete], rest));
  }

  lemma {:induction false} MachineStep(m: Message, f: Fields, data: string, p: nat, g: Fields, outs: seq<Out>)
    requires p < |data| && InBody(f) && OneByte(m, f, data[p]) == Moved(g, outs)
    ensures Machine(m, f, data[p..]) == After(outs, Machine(m, g, data[p + 1..]))
  {
    assert data[p..][1..] == data[p + 1..];
  }

  /** Taking a run of body bytes at once is the same as taking them one by one. */
  lemma RunTaken(m: Message, f: Fields, data: string, p: nat, next: nat, g: Fields)
    requires f.errno.Ok? && p < next <= |data| && next - p <= f.contentLength
    requires f.state.ChunkData? || f.state.BodyIdentity?
    requires var h := f.(contentLength := f.contentLength - (next - p));
      g == if h.contentLength > 0 then h
           else h.(state := if f.state.ChunkData? then ChunkDataAlmostDone else NextMessage(m, h))
    ensures Machine(m, f, data[p..]) == After(
      if g.contentLength == 0 && f.state.BodyIdentity? then Bytes(data[p..next]) + [Complete] else Bytes(data[p..next]),
      Machine(m, g, data[next..]))
  {
    var s := data[p..next];
    if g.contentLength > 0 {
      DataRun(m, f, s);
    } else {
      DataRunEnds(m, f, s);
    }
    assert data[p..] == s + data[next..];
    SplitInvariance(m, f, s, data[next..]);
  }
}
