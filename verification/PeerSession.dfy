/** `PeerSession`: a write loop behind a bounded channel at one end of the connection, a read
    loop in front of a bounded channel at the other. The step system describes one direction
    of two sessions back to back; the other direction is the same with the roles exchanged. */
module PeerSession {
  import opened Protocol
  import opened Codec
  import opened Connection

  const OUTBOUND_CAPACITY: nat := 256

  /** `accepted` and `received` record what was put on `outbound` and what the application
      took from `inbound`. */
  datatype State = State(
    accepted: seq<Message>,
    outbound: seq<Message>,
    writing: Option<Message>,
    writerRuns: bool,
    link: Link,
    arrived: Option<Message>,
    readerRuns: bool,
    inbound: seq<Message>,
    received: seq<Message>)

  datatype Step =
    | Accept(m: Message)   // `outbound.send` completes
    | TakeOutbound         // the write loop receives a message
    | WriteOut             // and encodes it onto the connection
    | FailWrite            // or meets an I/O error
    | Transfer(n: nat)     // `n` bytes cross the connection
    | ReadFrame            // the read loop decodes once
    | PassOn               // and hands the message to `inbound`
    | CloseInbound         // or finds the receiver gone, or the peer disconnected
    | TakeInbound          // the application receives a message

  predicate Enabled(s: State, step: Step, inboundCapacity: nat) {
    match step
    case Accept(_) => s.writerRuns && |s.outbound| < OUTBOUND_CAPACITY
    case TakeOutbound => s.writerRuns && s.writing.None? && s.outbound != []
    case WriteOut => s.writerRuns && s.writing.Some?
    case FailWrite => s.writerRuns
    case Transfer(n) => n <= |s.link.wire|
    case ReadFrame => s.readerRuns && s.arrived.None?
    case PassOn => s.readerRuns && s.arrived.Some? && |s.inbound| < inboundCapacity
    case CloseInbound => s.readerRuns
    case TakeInbound => s.inbound != []
  }

  function AfterWrite(s: State): State
    requires s.writing.Some?
  {
    var m := s.writing.value;
    if Fits(m) then s.(link := Write(s.link, m), writing := None)
    else s.(writerRuns := false)   // the encoder rejects it; the loop ends
  }

  function AfterRead(s: State): State {
    var l := Read(s.link);
    if l.broken then s.(link := l, readerRuns := false)
    else if |l.decoded| > |s.link.decoded| then s.(link := l, arrived := Some(l.decoded[|l.decoded| - 1]))
    else s.(link := l)
  }

  function Next(s: State, step: Step, inboundCapacity: nat): State {
    if !Enabled(s, step, inboundCapacity) then s else
      match step
      case Accept(m) => s.(accepted := s.accepted + [m], outbound := s.outbound + [m])
      case TakeOutbound => s.(writing := Some(s.outbound[0]), outbound := s.outbound[1..])
      case WriteOut => AfterWrite(s)
      case FailWrite => s.(writerRuns := false)
      case Transfer(n) => s.(link := Connection.Deliver(s.link, n))
      case ReadFrame => AfterRead(s)
      case PassOn => s.(inbound := s.inbound + [s.arrived.value], arrived := None)
      case CloseInbound => s.(readerRuns := false)
      case TakeInbound => s.(received := s.received + [s.inbound[0]], inbound := s.inbound[1..])
  }

  const INIT := State([], [], None, true, FRESH, None, true, [], [])

  function Run(steps: seq<Step>, inboundCapacity: nat): State {
    if steps == [] then INIT
    else Next(Run(steps[..|steps| - 1], inboundCapacity), steps[|steps| - 1], inboundCapacity)
  }

  function Opt(m: Option<Message>): seq<Message> {
    match m
    case None => []
    case Some(m) => [m]
  }

  /** Both ends keep their messages in order: the sender's end is what was written, what is
      being written and what waits; the receiver's is what was taken, what waits and what has
      just arrived. */
  predicate Inv(s: State) {
    && Faithful(s.link)
    && s.link.sent + Opt(s.writing) + s.outbound == s.accepted
    && s.received + s.inbound + Opt(s.arrived) == s.link.decoded
    && |s.outbound| <= OUTBOUND_CAPACITY
  }

  lemma WriteKeepsInv(s: State)
    requires Inv(s) && s.writing.Some?
    ensures Inv(AfterWrite(s))
  {
    hide Fits, FrameOf, Faithful;
    if Fits(s.writing.value) {
      WriteInv(s.link, s.writing.value);
    }
  }

  lemma {:induction false} ReadKeepsInv(s: State)
    requires Inv(s) && s.arrived.None?
    ensures Inv(AfterRead(s))
  {
    hide Fits, Faithful, Read;
    ReadInv(s.link);
    ReadKeepsSent(s.link);
    NeverBroken(s.link);
    NeverBroken(Read(s.link));
    assert s.received + s.inbound + [] == s.received + s.inbound;
  }

  lemma ReadKeepsSent(l: Link)
    ensures Read(l).sent == l.sent
  {
    hide Fits, DecodeStep;
  }

  lemma NeverBroken(l: Link)
    requires Faithful(l)
    ensures !l.broken && |l.decoded| <= |l.sent|
  {
  }

  lemma {:induction false} StepKeepsInv(s: State, step: Step, inboundCapacity: nat)
    requires Inv(s)
    ensures Inv(Next(s, step, inboundCapacity))
  {
    hide Fits, AfterWrite, AfterRead, Faithful;
    if Enabled(s, step, inboundCapacity) {
      match step
      case WriteOut => WriteKeepsInv(s);
      case Transfer(n) => DeliverInv(s.link, n);
      case ReadFrame => ReadKeepsInv(s);
      case _ =>
    }
  }

  lemma {:induction false} RunKeepsInv(steps: seq<Step>, inboundCapacity: nat)
    ensures Inv(Run(steps, inboundCapacity))
    decreases |steps|
  {
    hide Fits, Next, DecodeStep;
    if steps != [] {
      RunKeepsInv(steps[..|steps| - 1], inboundCapacity);
      StepKeepsInv(Run(steps[..|steps| - 1], inboundCapacity), steps[|steps| - 1], inboundCapacity);
    }
  }

  /** A sender has to wait exactly while 256 messages wait before it, or for ever once the write
      loop has ended; a reader, while the application's channel is full. */
  lemma BackPressure(steps: seq<Step>, inboundCapacity: nat, m: Message)
    ensures var s := Run(steps, inboundCapacity);
            && |s.outbound| <= 256
            && (Enabled(s, Accept(m), inboundCapacity) <==> s.writerRuns && |s.outbound| < 256)
            && (Enabled(s, PassOn, inboundCapacity) <==>
                s.readerRuns && s.arrived.Some? && |s.inbound| < inboundCapacity)
  {
    hide Fits, Run, EncodeAll, Faithful;
    RunKeepsInv(steps, inboundCapacity);
  }

  /** Any number of bytes can cross, a running loop can be stopped by a failure or by the other
      end going away, and the application can take what has arrived whenever it likes. */
  lemma AnythingCanHappen(s: State, n: nat, inboundCapacity: nat)
    ensures Enabled(s, Transfer(n), inboundCapacity) <==> n <= |s.link.wire|
    ensures s.writerRuns ==> Next(s, FailWrite, inboundCapacity) == s.(writerRuns := false)
    ensures s.readerRuns ==> Next(s, CloseInbound, inboundCapacity) == s.(readerRuns := false)
    ensures s.inbound != [] ==>
              Next(s, TakeInbound, inboundCapacity)
              == s.(received := s.received + [s.inbound[0]], inbound := s.inbound[1..])
  {
    hide Fits, FrameOf;
  }

  /** Whatever the interleaving, the cutting of the stream, the messages and the failures, the
      application receives a prefix of what the other side accepted. */
  lemma Fifo(steps: seq<Step>, inboundCapacity: nat)
    ensures var s := Run(steps, inboundCapacity); s.received <= s.accepted
  {
    hide Fits, Run, EncodeAll;
    RunKeepsInv(steps, inboundCapacity);
    var s := Run(steps, inboundCapacity);
    assert s.received <= s.link.decoded <= s.link.sent;
  }

  /** The connection is drained and the application has taken everything that arrived. */
  predicate IsDrained(s: State) {
    s.link.wire == [] && DecodeStep(s.link.rx).NeedMore? && s.arrived.None? && s.inbound == []
  }

  /** The writer has nothing to do, or its message is one the encoder rejects. */
  predicate WriterIsDone(s: State) {
    if s.writing.Some? then !Fits(s.writing.value) else s.outbound == []
  }

  /** Nothing is lost in between: when neither loop can do anything more, the application has
      received exactly the accepted messages before the first one the encoder rejects, which
      stays in the writer's hand for ever with all that follow it. Without such a message that
      is everything accepted. */
  lemma {:induction false} Complete(steps: seq<Step>, inboundCapacity: nat)
    ensures var s := Run(steps, inboundCapacity);
            IsDrained(s) && WriterIsDone(s) ==>
              && s.received == Sendables(s.accepted)
              && (s.writing.None? <==> s.received == s.accepted)
  {
    hide Fits, Run, EncodeAll, DecodeStep, Sendables;
    RunKeepsInv(steps, inboundCapacity);
    var s := Run(steps, inboundCapacity);
    if IsDrained(s) && WriterIsDone(s) {
      DrainedLink(s.link);
      assert s.received == s.link.sent;
      SendablesOfSent(s.link.sent, Opt(s.writing) + s.outbound);
      assert s.accepted == s.link.sent + (Opt(s.writing) + s.outbound);
      if s.writing.None? { assert s.accepted == s.link.sent + []; }
    }
  }

  /** Messages that fit are all written; the first one behind them that does not ends that. */
  lemma {:induction false} SendablesOfSent(sent: seq<Sendable>, rest: seq<Message>)
    requires rest == [] || !Fits(rest[0])
    ensures Sendables(sent + rest) == sent
  {
    hide Fits;
    if sent != [] {
      assert (sent + rest)[0] == sent[0] && (sent + rest)[1..] == sent[1..] + rest;
      assert Fits(sent[0]);
      SendablesOfSent(sent[1..], rest);
    } else {
      assert sent + rest == rest;
    }
  }

  // ---- The two loops -----------------------------------------------------------------------------

  /** The messages before the first one that the encoder rejects. */
  function Sendables(ms: seq<Message>): seq<Sendable> {
    if ms == [] || !Fits(ms[0]) then [] else [ms[0]] + Sendables(ms[1..])
  }

  /** The write loop over the messages its channel yields: it writes their frames in order and
      ends at the first message that does not fit. */
  method WriteLoop(ms: seq<Message>, sink: BytesMut) returns (error: Option<ProtocolError>)
    modifies sink
    ensures sink.data == old(sink.data) + EncodeAll(Sendables(ms))
    ensures error.Some? <==> Sendables(ms) != ms
  {
    hide Fits, FrameOf, Sendables, EncodeAll;
    var i := 0;
    while i < |ms|
      invariant i <= |ms|
      invariant Sendables(ms) == ms[..i] + Sendables(ms[i..])
      invariant sink.data + EncodeAll(Sendables(ms[i..])) == old(sink.data) + EncodeAll(Sendables(ms))
    {
      SendablesStep(ms[i..]);
      assert ms[i..][0] == ms[i] && ms[i..][1..] == ms[i + 1..];
      var r := EncodeTo(ms[i], sink);
      if r.Err? { return Some(r.error); }
      assert ms[..i] + [ms[i]] == ms[..i + 1];
      i := i + 1;
    }
    SendablesStep(ms[i..]);
    assert ms[..i] == ms;
    return None;
  }

  lemma SendablesStep(ms: seq<Message>)
    ensures ms == [] || !Fits(ms[0]) ==> Sendables(ms) == [] && EncodeAll(Sendables(ms)) == []
    ensures ms != [] && Fits(ms[0]) ==>
              && Sendables(ms) == [ms[0]] + Sendables(ms[1..])
              && EncodeAll(Sendables(ms)) == FrameOf(ms[0]) + EncodeAll(Sendables(ms[1..]))
  {
    hide Fits, FrameOf;
    if ms != [] && Fits(ms[0]) {
      assert Sendables(ms)[1..] == Sendables(ms[1..]);
    }
  }

  /** The receiving end of `inbound`: it takes `room` more messages before it is dropped. */
  class Inbound {
    var items: seq<Message>
    var room: nat

    constructor (room: nat)
      ensures items == [] && this.room == room
    {
      items, this.room := [], room;
    }

    method Send(m: Message) returns (ok: bool)
      modifies this
      ensures ok == (old(room) > 0)
      ensures items == if ok then old(items) + [m] else old(items)
      ensures room == if ok then old(room) - 1 else 0
    {
      ok := room > 0;
      if ok { items, room := items + [m], room - 1; }
    }
  }

  function Take(ms: seq<Message>, n: nat): seq<Message> { if n < |ms| then ms[..n] else ms }

  /** The read loop over what is buffered: it hands on the decoded messages in order until the
      buffer needs more bytes (`Ok`), or decoding fails or the receiver is gone (`Err`). */
  method ReadBuffered(buf: BytesMut, inbound: Inbound) returns (r: Result<(), ()>)
    modifies buf, inbound
    ensures var p := Drain(old(buf.data));
            && inbound.items == old(inbound.items) + Take(p.msgs, old(inbound.room))
            && (r.Ok? <==> p.error.None? && |p.msgs| <= old(inbound.room))
            && (r.Ok? ==> buf.data == p.buffer && inbound.room == old(inbound.room) - |p.msgs|)
  {
    hide DecodeStep, Drain, Take, Fits;
    ghost var room := inbound.room;
    ghost var whole := Drain(buf.data);
    ghost var seen: seq<Message>, todo: seq<Message> := [], whole.msgs;
    while true
      invariant todo == Drain(buf.data).msgs && whole.msgs == seen + todo
      invariant whole.error == Drain(buf.data).error && whole.buffer == Drain(buf.data).buffer
      invariant inbound.items == old(inbound.items) + seen
      invariant inbound.room == room - |seen|
      decreases |buf.data|
    {
      DrainOnce(buf.data);
      var r := Decode(buf);
      match r
      case Ok(Some(m)) =>
        var ok := inbound.Send(m);
        if !ok {
          TakeAppend(seen, todo, room);
          TakeNone(todo);
          return Err(());
        }
        todo := Drain(buf.data).msgs;
        Regroup(seen, m, todo);
        HandOver(old(inbound.items), seen, m);
        seen := seen + [m];
      case Ok(None) => assert seen + todo == seen; TakeAll(seen, room); return Ok(());
      case Err(_) => assert seen + todo == seen; TakeAll(seen, room); return Err(());
    }
  }

  lemma HandOver(before: seq<Message>, seen: seq<Message>, m: Message)
    ensures (before + seen) + [m] == before + (seen + [m])
  {
  }

  /** The read loop over a stream that arrives in `chunks`: the application gets the messages
      of the whole stream in order, up to the first error and as many as it has room for. */
  method ReadLoop(chunks: seq<seq<u8>>, inbound: Inbound)
    modifies inbound
    ensures inbound.items == old(inbound.items) + Take(Drain(Concat(chunks)).msgs, old(inbound.room))
  {
    hide DecodeStep, Drain, Take;
    EmptyNeedsMore();
    assert chunks[..0] == [] && Concat(chunks[..0]) == [];
    hide Concat;
    var buf := new BytesMut();
    for i := 0 to |chunks|
      invariant var p := Drain(Concat(chunks[..i]));
                && p.error.None? && p.buffer == buf.data
                && inbound.items == old(inbound.items) + p.msgs
                && inbound.room == old(inbound.room) - |p.msgs|
    {
      OneChunk(chunks, i, old(inbound.room));
      buf.ExtendFromSlice(chunks[i]);
      var r := ReadBuffered(buf, inbound);
      if r.Err? { return; }
    }
    assert chunks[..|chunks|] == chunks;
    TakeAll(Drain(Concat(chunks)).msgs, old(inbound.room));
  }

  /** What the next chunk adds: either the loop goes on and has handed over the new messages, or
      it ends and nothing that follows could still be handed over. */
  lemma OneChunk(chunks: seq<seq<u8>>, i: nat, room: nat)
    requires i < |chunks|
    requires var p := Drain(Concat(chunks[..i])); p.error.None? && |p.msgs| <= room
    ensures var p := Drain(Concat(chunks[..i]));
            var q := Drain(p.buffer + chunks[i]);
            if q.error.None? && |q.msgs| <= room - |p.msgs|
            then Drain(Concat(chunks[..i + 1])) == Progress(p.msgs + Take(q.msgs, room - |p.msgs|), None, q.buffer)
                 && Take(q.msgs, room - |p.msgs|) == q.msgs
            else Take(Drain(Concat(chunks)).msgs, room) == p.msgs + Take(q.msgs, room - |p.msgs|)
  {
    hide DecodeStep, Drain, Concat;
    var done := Concat(chunks[..i]);
    var q := Drain(Drain(done).buffer + chunks[i]);
    DrainAppend(done, chunks[i]);
    ConcatSnoc(chunks, i);
    TakeAppend(Drain(done).msgs, q.msgs, room);
    NoRoomForMore(chunks, i + 1, room);
  }

  lemma TakeNone(ms: seq<Message>)
    ensures Take(ms, 0) == []
  {
  }

  lemma TakeAll(ms: seq<Message>, n: nat)
    ensures |ms| <= n ==> Take(ms, n) == ms
  {
  }

  /** After an error, or once the room is used up, nothing that follows is handed on. */
  lemma {:induction false} NoRoomForMore(chunks: seq<seq<u8>>, n: nat, room: nat)
    requires n <= |chunks|
    ensures var p := Drain(Concat(chunks[..n]));
            p.error.Some? || |p.msgs| > room ==>
              Take(Drain(Concat(chunks)).msgs, room) == Take(p.msgs, room)
  {
    hide DecodeStep, Drain, Concat;
    var upto, rest := Concat(chunks[..n]), Concat(chunks[n..]);
    ConcatSplit(chunks, n);
    DrainAppend(upto, rest);
    if Drain(upto).error.None? && |Drain(upto).msgs| > room {
      TakeAppend(Drain(upto).msgs, Drain(Drain(upto).buffer + rest).msgs, room);
    }
  }

  lemma TakeAppend(a: seq<Message>, b: seq<Message>, n: nat)
    ensures |a| <= n ==> Take(a + b, n) == a + Take(b, n - |a|)
    ensures |a| > n ==> Take(a + b, n) == Take(a, n)
  {
  }

  /** The loops at the two ends agree: any chunking of what the write loop wrote is read as the
      messages it wrote, in order, with nothing left over; those are a prefix of its input. */
  lemma {:induction false} LoopsAgree(ms: seq<Message>, chunks: seq<seq<u8>>)
    requires Concat(chunks) == EncodeAll(Sendables(ms))
    ensures FeedAll(START, chunks) == Progress(Sendables(ms), None, [])
    ensures Sendables(ms) <= ms
  {
    hide Fits, FrameOf, DecodeStep, Drain;
    var sendable := Sendables(ms);
    ChunkingIndependence(chunks);
    StreamRoundTrip(sendable, []);
    EmptyNeedsMore();
    assert EncodeAll(sendable) + [] == EncodeAll(sendable);
    assert sendable + [] == sendable;
    SendablesPrefix(ms);
  }

  lemma {:induction false} SendablesPrefix(ms: seq<Message>)
    ensures Sendables(ms) <= ms
    ensures Sendables(ms) == ms || !Fits(ms[|Sendables(ms)|])
  {
    hide Fits;
    if ms != [] && Fits(ms[0]) { SendablesPrefix(ms[1..]); }
  }
}
