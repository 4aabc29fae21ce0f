/** One sharing session as a step system: the hook thread, the bounded queue, the drain loop
    of `handle_peer` with its second look at the grab flag, the wire, and the client's
    inject loop. A run is any sequence of steps; a step that is not enabled does nothing, so
    every interleaving and every cutting of the byte stream is a run. */
module Session {
  import opened Protocol
  import opened Codec
  import opened Capture
  import opened Keycode
  import opened Sinks
  import opened Traces
  import opened Connection

  /** A captured message, the callback it comes from with the position known before it, and
      what the callback did: `kept` unless the channel was full or closed, `swallowed` when the
      local applications did not see the event, `toggles` the number of hotkey presses before
      it. `id` is its position among all captured messages. */
  datatype Item = Item(
    id: nat, msg: Sendable, swallowed: bool, kept: bool, toggles: nat,
    last: Option<Point>, event: HookInput)

  /** A received message after the drain loop tested the flag. */
  datatype Tested = Tested(item: Item, forwarded: bool, toggles: nat)

  datatype Client = AwaitHello | Injecting | Gone

  datatype State = State(
    // hook thread
    lastPos: Option<Point>,
    grabbed: bool,
    // server loop
    queue: seq<Item>,
    inHand: Option<Item>,
    running: bool,
    open: bool,
    // connection and client
    link: Link,
    client: Client,
    handled: seq<Message>,
    // history; `wrapsX` and `wrapsY` count the moves that leave the range of `i32` upward minus
    // those that leave it downward, `unsent` the events kept from the local applications
    // for which there is no message
    firstPos: Option<Point>,
    wrapsX: int,
    wrapsY: int,
    unsent: nat,
    toggles: nat,
    log: seq<Item>,
    tested: seq<Tested>)

  datatype Step =
    | Hook(e: HookInput)   // one callback of the hook thread
    | Recv                 // `cap_rx.recv()` yields a message
    | Test                 // the flag is loaded; the message is sent or dropped
    | Stop                 // a send or read failed, or the peer left: the server loop breaks
    | Close                // the session returns, and with it goes the channel
    | Move(n: nat)         // `n` more bytes reach the client
    | Decode               // the client decodes once and acts on the message
    | Leave                // the client times out, fails to acknowledge or loses the connection

  const ACK: Sendable := HelloAck(true, None)

  /** A `Hello` that passes the client's version check. */
  predicate IsGoodHello(m: Message) { m.Hello? && m.hello.protocolVersion == PROTOCOL_VERSION }

  /** The server has just finished its half of the handshake. */
  function Init(hello: Sendable): State {
    State(None, false, [], None, true, true,
          Write(Write(FRESH, hello), ACK), AwaitHello, [],
          None, 0, 0, 0, 0, [], [])
  }

  predicate Enabled(s: State, step: Step) {
    match step
    case Hook(_) => true
    case Recv => s.running && s.inHand.None? && s.queue != []
    case Test => s.running && s.inHand.Some?
    case Stop => s.running && s.inHand.None?
    case Close => !s.running && s.open
    case Move(n) => n <= |s.link.wire|
    case Decode => !s.client.Gone?
    case Leave => !s.client.Gone?
  }

  predicate Accepts(s: State) { s.open && |s.queue| < QUEUE_CAPACITY }

  function NewItem(s: State, e: HookInput): (item: Option<Item>)
    ensures item.Some? ==>
              && item.value.id == |s.log| && item.value.kept == Accepts(s)
              && item.value.toggles == s.toggles && item.value.swallowed == s.grabbed
              && item.value.last == s.lastPos && item.value.event == e && !IsHotkey(e)
              && Captured(s.lastPos, e) == Some(item.value.msg)
  {
    match Captured(s.lastPos, e)
    case None => None
    case Some(m) =>
      CapturedFits(s.lastPos, e);
      Some(Item(|s.log|, m, Swallowed(s.grabbed, e), Accepts(s), s.toggles, s.lastPos, e))
  }

  predicate InI32(x: int) { -0x8000_0000 <= x < 0x8000_0000 }

  function At(p: Point, a: Axis): i32 { if a.AxisX? then p.x else p.y }

  /** How far the cursor moved in one callback, once a position is known. */
  function Moved(last: Option<Point>, e: HookInput, a: Axis): int {
    if IsMove(e) && last.Some? then At(e.pt, a) - At(last.value, a) else 0
  }

  /** How often 2^32 has to be taken off a distance to bring it into the range of `i32`. */
  function Wraps(moved: int): int {
    if moved >= 0x8000_0000 then 1 else if moved < -0x8000_0000 then -1 else 0
  }

  /** A callback whose event neither machine gets to see: it is swallowed, and there is no
      message for it. */
  predicate IsUnsent(s: State, e: HookInput) {
    Swallowed(s.grabbed, e) && NewItem(s, e).None? && !IsHotkey(e)
  }

  function AfterHook(s: State, e: HookInput): State {
    var item := NewItem(s, e);
    s.(lastPos := NextPos(s.lastPos, e),
       grabbed := NextGrab(s.grabbed, e),
       queue := if item.Some? && item.value.kept then s.queue + [item.value] else s.queue,
       firstPos := if s.firstPos.None? then NextPos(s.lastPos, e) else s.firstPos,
       wrapsX := s.wrapsX + Wraps(Moved(s.lastPos, e, AxisX)),
       wrapsY := s.wrapsY + Wraps(Moved(s.lastPos, e, AxisY)),
       unsent := if IsUnsent(s, e) then s.unsent + 1 else s.unsent,
       toggles := if IsHotkey(e) then s.toggles + 1 else s.toggles,
       log := if item.Some? then s.log + [item.value] else s.log)
  }

  function AfterTest(s: State): State
    requires s.inHand.Some?
  {
    var item := s.inHand.value;
    s.(inHand := None,
       tested := s.tested + [Tested(item, s.grabbed, s.toggles)],
       link := if s.grabbed then Write(s.link, item.msg) else s.link)
  }

  /** What the client does with a decoded message. */
  function AfterMessage(s: State, m: Message): State {
    match s.client
    case AwaitHello =>
      s.(client := if IsGoodHello(m) then Injecting else Gone)
    case Injecting => s.(handled := s.handled + [m])
    case Gone => s
  }

  function AfterDecode(s: State): State {
    var l := Read(s.link);
    if l.broken then s.(link := l, client := Gone)
    else if |l.decoded| > |s.link.decoded| then AfterMessage(s.(link := l), l.decoded[|l.decoded| - 1])
    else s.(link := l)
  }

  function Next(s: State, step: Step): State {
    if !Enabled(s, step) then s else
      match step
      case Hook(e) => AfterHook(s, e)
      case Recv => s.(inHand := Some(s.queue[0]), queue := s.queue[1..])
      case Test => AfterTest(s)
      case Stop => s.(running := false)
      case Close => s.(open := false)
      case Move(n) => s.(link := Deliver(s.link, n))
      case Decode => AfterDecode(s)
      case Leave => s.(client := Gone)
  }

  /** Nothing outside the two programs is held back: a callback can come at any time, any number of
      the bytes under way can arrive, the client can leave while it is there, and the server
      loop can end between two messages. The channel takes messages until it closes after that. */
  lemma AnythingCanHappen(s: State, e: HookInput, n: nat)
    ensures Enabled(s, Hook(e)) && (Enabled(s, Step.Move(n)) <==> n <= |s.link.wire|)
    ensures n <= |s.link.wire| ==>
              Next(s, Step.Move(n)) == s.(link := s.link.(rx := s.link.rx + s.link.wire[..n], wire := s.link.wire[n..]))
    ensures !s.client.Gone? ==> Enabled(s, Decode) && Enabled(s, Leave) && Next(s, Leave) == s.(client := Gone)
    ensures s.running && s.inHand.None? ==> Enabled(s, Stop) && Next(s, Stop) == s.(running := false)
    ensures !s.running && s.open ==> Enabled(s, Close) && Next(s, Close) == s.(open := false)
    ensures NewItem(s, e).Some? ==>
              Next(s, Hook(e)).queue == s.queue + (if s.open && |s.queue| < 256 then [NewItem(s, e).value] else [])
  {
    hide Fits, IsHotkey, Captured;
  }

  function Run(hello: Sendable, steps: seq<Step>): State {
    if steps == [] then Init(hello)
    else Next(Run(hello, steps[..|steps| - 1]), steps[|steps| - 1])
  }

  // ---- Views of the history -------------------------------------------------------------

  function Kept(log: seq<Item>): seq<Item> {
    if log == [] then [] else
      Kept(log[..|log| - 1]) + (if log[|log| - 1].kept then [log[|log| - 1]] else [])
  }

  function Dropped(log: seq<Item>): seq<Item> {
    if log == [] then [] else
      Dropped(log[..|log| - 1]) + (if log[|log| - 1].kept then [] else [log[|log| - 1]])
  }

  function Items(tested: seq<Tested>): (items: seq<Item>)
    ensures |items| == |tested|
  {
    if tested == [] then [] else Items(tested[..|tested| - 1]) + [tested[|tested| - 1].item]
  }

  /** The messages whose second look at the flag came out as `on`. */
  function Routed(tested: seq<Tested>, on: bool): seq<Item> {
    if tested == [] then [] else
      var t := tested[|tested| - 1];
      Routed(tested[..|tested| - 1], on) + (if t.forwarded == on then [t.item] else [])
  }

  function Forwarded(tested: seq<Tested>): seq<Item> { Routed(tested, true) }
  function Discarded(tested: seq<Tested>): seq<Item> { Routed(tested, false) }

  function Messages(items: seq<Item>): seq<Sendable> {
    seq(|items|, i requires 0 <= i < |items| => items[i].msg)
  }

  function InHand(s: State): seq<Item> {
    match s.inHand
    case None => []
    case Some(item) => [item]
  }

  function InFlight(s: State): seq<Item> { InHand(s) + s.queue }

  function HotkeyPresses(steps: seq<Step>): nat {
    if steps == [] then 0 else
      HotkeyPresses(steps[..|steps| - 1])
      + (if steps[|steps| - 1].Hook? && IsHotkey(steps[|steps| - 1].e) then 1 else 0)
  }

  // ---- Invariants --------------------------------------------------------------------------

  /** FIFO: what the hook got into the channel is, in order, what was tested, what is in
      hand and what is still queued. */
  predicate InvQueue(s: State) {
    && |s.queue| <= QUEUE_CAPACITY
    && (!s.running ==> s.inHand.None?)
    && Kept(s.log) == Items(s.tested) + InFlight(s)
    && (forall i :: 0 <= i < |s.log| ==> s.log[i].id == i)
  }

  /** The message is the one its callback yields. */
  predicate IsGenuine(item: Item) { Captured(item.last, item.event) == Some(item.msg) }

  predicate InvEvents(s: State) { forall i :: 0 <= i < |s.log| ==> IsGenuine(s.log[i]) }

  predicate Odd(n: nat) { n % 2 == 1 }

  predicate InvFlag(s: State) {
    && s.grabbed == Odd(s.toggles)
    && (s.toggles == 0 ==> s.unsent == 0)
    && (forall i :: 0 <= i < |s.log| ==> s.log[i].swallowed == Odd(s.log[i].toggles) && s.log[i].toggles <= s.toggles)
    && (forall i :: 0 <= i < |s.tested| ==>
          && s.tested[i].forwarded == Odd(s.tested[i].toggles)
          && s.tested[i].item.swallowed == Odd(s.tested[i].item.toggles)
          && s.tested[i].item.toggles <= s.tested[i].toggles)
    && (forall i :: 0 <= i < |InFlight(s)| ==>
          && InFlight(s)[i].toggles <= s.toggles
          && InFlight(s)[i].swallowed == Odd(InFlight(s)[i].toggles))
  }

  predicate InvLink(s: State, hello: Sendable) {
    && IsGoodHello(hello)
    && Faithful(s.link)
    && s.link.sent == [hello, ACK] + Messages(Forwarded(s.tested))
    && s.handled == (if s.link.decoded == [] then [] else s.link.decoded[1..])
    && (s.client.AwaitHello? ==> s.link.decoded == [])
    && (s.client.Injecting? ==> s.link.decoded != [])
  }

  // ---- Preservation -------------------------------------------------------------------------

  lemma KeptSnoc(log: seq<Item>, item: Item)
    ensures Kept(log + [item]) == if item.kept then Kept(log) + [item] else Kept(log)
  {
    hide Fits;
    assert (log + [item])[..|log|] == log;
  }

  lemma QueueAfterHook(s: State, e: HookInput)
    requires InvQueue(s)
    ensures InvQueue(AfterHook(s, e))
  {
    hide Fits, NewItem, NextPos, NextGrab, IsUnsent, IsHotkey, Captured, Kept, Items, Moved, Wraps;
    var s' := AfterHook(s, e);
    match NewItem(s, e)
    case None => assert InFlight(s') == InFlight(s);
    case Some(item) =>
      KeptSnoc(s.log, item);
      if item.kept {
        assert InFlight(s') == InFlight(s) + [item];
        assert Items(s.tested) + InFlight(s') == Items(s.tested) + InFlight(s) + [item];
      } else {
        assert InFlight(s') == InFlight(s);
      }
  }

  lemma QueueAfterTest(s: State)
    requires InvQueue(s) && s.inHand.Some?
    ensures InvQueue(AfterTest(s))
  {
    hide Fits, Write, Kept;
    var s' := AfterTest(s);
    assert s'.tested[..|s'.tested| - 1] == s.tested;
    assert InFlight(s) == [s.inHand.value] + InFlight(s');
  }

  lemma {:induction false} QueueStep(s: State, step: Step)
    requires InvQueue(s)
    ensures InvQueue(Next(s, step))
  {
    hide Fits, AfterHook, AfterTest, AfterDecode, Deliver, Kept, Items;
    if Enabled(s, step) {
      match step
      case Hook(e) => QueueAfterHook(s, e);
      case Test => QueueAfterTest(s);
      case Decode => DecodeFrame(s); assert InFlight(Next(s, step)) == InFlight(s);
      case _ => assert InFlight(Next(s, step)) == InFlight(s);
    }
  }

  /** The client's steps leave the server alone. */
  lemma DecodeFrame(s: State)
    ensures var s' := AfterDecode(s);
            && s' == s.(link := s'.link, client := s'.client, handled := s'.handled)
            && s'.link.sent == s.link.sent
  {
    hide Fits, DecodeStep;
  }

  /** A hook step is one call of the mouse or keyboard callback of `HookThread`: it leaves the
      flag, the position and the channel as the callback leaves them. */
  lemma HookIsCallback(s: State, e: HookInput)
    ensures var s' := AfterHook(s, e);
            && s'.grabbed == NextGrab(s.grabbed, e) && s'.lastPos == NextPos(s.lastPos, e)
            && Messages(s'.queue) == Offer(Messages(s.queue), !s.open, Captured(s.lastPos, e))
            && (NewItem(s, e).Some? ==> NewItem(s, e).value.swallowed == Swallowed(s.grabbed, e))
  {
    hide Fits, Captured, IsUnsent, Wraps, Moved;
  }

  /** What a callback does to the flag and to the messages on their way. */
  lemma HookEffect(s: State, e: HookInput)
    ensures var s', item := AfterHook(s, e), NewItem(s, e);
            && s'.tested == s.tested && s'.running == s.running && s'.client == s.client && s'.handled == s.handled
            && InFlight(s') == InFlight(s) + (if item.Some? && item.value.kept then [item.value] else [])
            && s'.log == s.log + (if item.Some? then [item.value] else [])
            && s'.grabbed == (if IsHotkey(e) then !s.grabbed else s.grabbed)
            && s'.toggles == (if IsHotkey(e) then s.toggles + 1 else s.toggles)
            && (!s.grabbed ==> s'.unsent == s.unsent)
  {
    hide Fits, NewItem, NextPos, IsHotkey, Captured, Moved, Wraps;
    var s' := AfterHook(s, e);
    assert NewItem(s, e).None? ==> s'.log == s.log + [] && InFlight(s') == InFlight(s) + [];
  }

  lemma {:induction false} FlagAfterHook(s: State, e: HookInput)
    requires InvFlag(s)
    ensures InvFlag(AfterHook(s, e))
  {
    hide Fits, AfterHook, NewItem, IsHotkey, InFlight;
    HookEffect(s, e);
    assert NewItem(s, e).Some? ==> var item := NewItem(s, e).value;
             item.swallowed == s.grabbed && item.toggles == s.toggles && !IsHotkey(e);
  }

  lemma EventsStep(s: State, step: Step)
    requires InvEvents(s)
    ensures InvEvents(Next(s, step))
  {
    hide Fits, AfterHook, AfterTest, AfterDecode, Deliver, Captured;
    if Enabled(s, step) {
      match step
      case Hook(e) =>
        HookEffect(s, e);
        hide NewItem;
        assert NewItem(s, e).Some? ==> IsGenuine(NewItem(s, e).value);
      case Test => TestKeepsHook(s);
      case Decode => DecodeFrame(s);
      case _ =>
    }
  }

  lemma FlagAfterTest(s: State)
    requires InvFlag(s) && s.inHand.Some?
    ensures InvFlag(AfterTest(s))
  {
    hide Fits, Write;
    var s' := AfterTest(s);
    assert InFlight(s) == [s.inHand.value] + InFlight(s');
    assert InFlight(s)[0] == s.inHand.value;
    assert forall i :: 0 <= i < |InFlight(s')| ==> InFlight(s')[i] == InFlight(s)[i + 1];
  }

  /** What the flag's invariant speaks about. */
  lemma FlagFrame(s: State, s': State)
    requires InvFlag(s)
    requires s'.grabbed == s.grabbed && s'.toggles == s.toggles && s'.unsent == s.unsent && s'.log == s.log
    requires s'.tested == s.tested && InFlight(s') == InFlight(s)
    ensures InvFlag(s')
  {
    hide Fits, InFlight, Odd;
  }

  lemma FlagStep(s: State, step: Step)
    requires InvFlag(s)
    ensures InvFlag(Next(s, step))
  {
    hide Fits, AfterHook, AfterTest, AfterDecode, Deliver, InvFlag;
    if Enabled(s, step) {
      match step
      case Hook(e) => FlagAfterHook(s, e);
      case Test => FlagAfterTest(s);
      case Decode => DecodeFrame(s); FlagFrame(s, Next(s, step));
      case _ => assert InFlight(Next(s, step)) == InFlight(s); FlagFrame(s, Next(s, step));
    }
  }

  lemma LinkAfterTest(s: State, hello: Sendable)
    requires InvLink(s, hello) && s.inHand.Some?
    ensures InvLink(AfterTest(s), hello) && AfterTest(s).client == s.client
  {
    hide Fits, FrameOf, EncodeAll, Faithful;
    var s' := AfterTest(s);
    assert s'.tested[..|s'.tested| - 1] == s.tested;
    if s.grabbed {
      WriteInv(s.link, s.inHand.value.msg);
      assert Messages(Forwarded(s'.tested)) == Messages(Forwarded(s.tested)) + [s.inHand.value.msg];
    }
  }

  lemma {:induction false} LinkAfterDecode(s: State, hello: Sendable)
    requires InvLink(s, hello) && !s.client.Gone?
    ensures InvLink(AfterDecode(s), hello) && !AfterDecode(s).client.Gone?
  {
    hide Fits, Read, Messages, Forwarded, EncodeAll;
    ReadInv(s.link);
    DecodeFrame(s);
    var l := Read(s.link);
    if l != s.link {
      assert l.decoded[|l.decoded| - 1] == Pending(s.link)[0] == s.link.sent[|s.link.decoded|];
    }
  }

  lemma {:induction false} LinkStep(s: State, step: Step, hello: Sendable)
    requires InvLink(s, hello)
    ensures InvLink(Next(s, step), hello)
    ensures Next(s, step).client.Gone? ==> s.client.Gone? || step.Leave?
  {
    hide Fits, AfterTest, AfterDecode, NewItem, IsHotkey, NextPos, NextGrab, IsUnsent;
    hide EncodeAll, Forwarded, Messages;
    if Enabled(s, step) {
      match step
      case Test => LinkAfterTest(s, hello);
      case Move(n) => DeliverInv(s.link, n);
      case Decode => LinkAfterDecode(s, hello);
      case _ =>
    }
  }

  // ---- Misrouting -------------------------------------------------------------------------------

  /** Messages in flight whose callback saw another flag than `now`. */
  function Stale(items: seq<Item>, now: bool): nat {
    if items == [] then 0 else (if items[0].swallowed != now then 1 else 0) + Stale(items[1..], now)
  }

  /** Events that reached both machines or neither. */
  function Misrouted(tested: seq<Tested>): nat {
    if tested == [] then 0 else
      var t := tested[|tested| - 1];
      Misrouted(tested[..|tested| - 1]) + (if t.item.swallowed != t.forwarded then 1 else 0)
  }

  // The channel's capacity and the one message received but not yet tested.
  const MAX_IN_FLIGHT: nat := QUEUE_CAPACITY + 1

  /** Each toggle can spoil no more messages than can be in flight. */
  predicate InvMisrouted(s: State) {
    Misrouted(s.tested) + Stale(InFlight(s), s.grabbed) <= MAX_IN_FLIGHT * s.toggles
  }

  lemma {:induction false} StaleAppend(a: seq<Item>, b: seq<Item>, now: bool)
    ensures Stale(a + b, now) == Stale(a, now) + Stale(b, now)
  {
    if a == [] {
      assert a + b == b;
    } else {
      assert (a + b)[0] == a[0] && (a + b)[1..] == a[1..] + b;
      StaleAppend(a[1..], b, now);
    }
  }

  lemma {:induction false} StaleFlip(items: seq<Item>, now: bool)
    ensures Stale(items, now) + Stale(items, !now) == |items|
  {
    if items != [] { StaleFlip(items[1..], now); }
  }

  lemma InFlightFits(s: State)
    requires InvQueue(s)
    ensures |InFlight(s)| <= MAX_IN_FLIGHT
    ensures !s.running ==> |InFlight(s)| <= QUEUE_CAPACITY
  {
    hide Fits, Kept, Items, IsGenuine;
  }

  lemma {:induction false} MisroutedAfterHook(s: State, e: HookInput)
    requires InvQueue(s) && InvMisrouted(s)
    ensures InvMisrouted(AfterHook(s, e))
  {
    hide Fits, AfterHook, NewItem, IsHotkey, InFlight, InvQueue;
    HookEffect(s, e);
    InFlightFits(s);
    var item := NewItem(s, e);
    if item.Some? && item.value.kept {
      StaleAppend(InFlight(s), [item.value], s.grabbed);
      assert [item.value][1..] == [];
    } else {
      assert InFlight(s) + [] == InFlight(s);
      if IsHotkey(e) { StaleFlip(InFlight(s), s.grabbed); }
    }
  }

  /** A stale message is misrouted by its test, and only then. */
  lemma MisroutedAfterTest(s: State)
    requires s.inHand.Some?
    ensures Misrouted(AfterTest(s).tested) + Stale(InFlight(AfterTest(s)), s.grabbed)
            == Misrouted(s.tested) + Stale(InFlight(s), s.grabbed)
  {
    hide Fits, Write;
    var s' := AfterTest(s);
    assert s'.tested[..|s'.tested| - 1] == s.tested;
    assert InFlight(s) == [s.inHand.value] + InFlight(s');
    StaleAppend([s.inHand.value], InFlight(s'), s.grabbed);
  }

  lemma {:induction false} MisroutedStep(s: State, step: Step)
    requires InvQueue(s) && InvMisrouted(s)
    ensures InvMisrouted(Next(s, step))
  {
    hide Fits, AfterHook, AfterTest, AfterDecode, Deliver, Kept, Items, Misrouted;
    if Enabled(s, step) {
      match step
      case Hook(e) => MisroutedAfterHook(s, e);
      case Test => MisroutedAfterTest(s); TestKeepsHook(s);
      case Decode => DecodeFrame(s); assert InFlight(Next(s, step)) == InFlight(s);
      case _ => assert InFlight(Next(s, step)) == InFlight(s);
    }
  }

  // ---- Motion --------------------------------------------------------------------------------------

  function WrapsOf(s: State, a: Axis): int { if a.AxisX? then s.wrapsX else s.wrapsY }

  /** The captured deltas and what was lost by wrapping add up to the path of the cursor. */
  predicate InvMotion(s: State) {
    && (s.firstPos.None? <==> s.lastPos.None?)
    && forall a: Axis :: Sum(Messages(s.log), a) + 0x1_0000_0000 * WrapsOf(s, a) == Travelled(s, a)
  }

  lemma MessagesAppend(x: seq<Item>, y: seq<Item>, a: Axis)
    ensures Messages(x + y) == Messages(x) + Messages(y)
    ensures Sum(Messages(x + y), a) == Sum(Messages(x), a) + Sum(Messages(y), a)
  {
    hide Fits;
    assert Messages(x + y) == Messages(x) + Messages(y);
    TotalAppend<Message>(Delta(a), Messages(x), Messages(y));
  }

  function NewDelta(s: State, e: HookInput, a: Axis): int {
    match NewItem(s, e)
    case Some(item) => Delta(a)(item.msg)
    case None => 0
  }

  /** Neither difference of a move leaves the range of `i32`. */
  predicate MoveIsExact(last: Option<Point>, e: HookInput) {
    IsMove(e) && last.Some? ==> InI32(e.pt.x - last.value.x) && InI32(e.pt.y - last.value.y)
  }

  /** The delta of one callback against the distance the cursor moved: they agree on both axes
      if and only if no difference leaves the range of `i32`, and else are 2^32 apart. */
  lemma {:induction false} CapturedDelta(s: State, e: HookInput)
    ensures forall a: Axis ::
              NewDelta(s, e, a) + 0x1_0000_0000 * Wraps(Moved(s.lastPos, e, a)) == Moved(s.lastPos, e, a)
    ensures MoveIsExact(s.lastPos, e) <==> forall a: Axis :: NewDelta(s, e, a) == Moved(s.lastPos, e, a)
  {
    hide Fits, VkToEvdev;
    hide NewDelta;
    forall a: Axis
      ensures NewDelta(s, e, a) + 0x1_0000_0000 * Wraps(Moved(s.lastPos, e, a)) == Moved(s.lastPos, e, a)
    {
      CapturedDeltaOn(s, e, a);
    }
    if forall a: Axis :: NewDelta(s, e, a) == Moved(s.lastPos, e, a) {
      assert NewDelta(s, e, AxisX) == Moved(s.lastPos, e, AxisX);
      assert NewDelta(s, e, AxisY) == Moved(s.lastPos, e, AxisY);
    }
  }

  lemma CapturedDeltaOn(s: State, e: HookInput, a: Axis)
    ensures NewDelta(s, e, a) + 0x1_0000_0000 * Wraps(Moved(s.lastPos, e, a)) == Moved(s.lastPos, e, a)
  {
    hide Fits, WrapI32, Wraps;
    DeltaIsWrapped(s, e, a);
    WrapTakesOff(if IsMove(e) && s.lastPos.Some? then Moved(s.lastPos, e, a) else 0);
  }

  lemma DeltaIsWrapped(s: State, e: HookInput, a: Axis)
    ensures NewDelta(s, e, a) == if IsMove(e) && s.lastPos.Some? then WrapI32(Moved(s.lastPos, e, a)) else 0
  {
    hide Fits, VkToEvdev, WrapI32;
  }

  lemma WrapTakesOff(moved: int)
    requires -0x1_0000_0000 < moved < 0x1_0000_0000
    ensures WrapI32(moved) + 0x1_0000_0000 * Wraps(moved) == moved && Wraps(0) == 0
  {
  }

  function Travelled(s: State, a: Axis): int
    requires s.firstPos.None? <==> s.lastPos.None?
  {
    if s.lastPos.None? then 0 else At(s.lastPos.value, a) - At(s.firstPos.value, a)
  }

  lemma MovedAdvances(s: State, e: HookInput, a: Axis)
    requires s.firstPos.None? <==> s.lastPos.None?
    ensures var s' := AfterHook(s, e);
            && (s'.firstPos.None? <==> s'.lastPos.None?)
            && Travelled(s', a) == Travelled(s, a) + Moved(s.lastPos, e, a)
            && WrapsOf(s', a) == WrapsOf(s, a) + Wraps(Moved(s.lastPos, e, a))
  {
    hide Fits, NewItem, NextGrab, IsHotkey, IsUnsent, Wraps;
  }

  lemma MotionAfterHook(s: State, e: HookInput)
    requires InvMotion(s)
    ensures InvMotion(AfterHook(s, e))
  {
    hide Fits, NewItem, NextGrab, IsHotkey, IsUnsent, IsMove, Sum, Wraps, Moved;
    var s' := AfterHook(s, e);
    var item := NewItem(s, e);
    MovedAdvances(s, e, AxisX);
    forall a: Axis
      ensures Sum(Messages(s'.log), a) + 0x1_0000_0000 * WrapsOf(s', a) == Travelled(s', a)
    {
      if item.Some? {
        MessagesAppend(s.log, [item.value], a);
        SumOne(item.value, a);
      }
      assert Sum(Messages(s'.log), a) == Sum(Messages(s.log), a) + NewDelta(s, e, a);
      CapturedDeltaOn(s, e, a);
      MovedAdvances(s, e, a);
    }
  }

  lemma SumOne(item: Item, a: Axis)
    ensures Sum(Messages([item]), a) == Delta(a)(item.msg)
  {
    hide Fits;
    assert Messages([item]) == [item.msg];
    TotalOne<Message>(Delta(a), item.msg);
  }

  lemma {:induction false} MotionStep(s: State, step: Step)
    requires InvMotion(s)
    ensures InvMotion(Next(s, step))
  {
    hide Fits, AfterHook, AfterTest, AfterDecode, Deliver;
    if Enabled(s, step) {
      match step
      case Hook(e) => MotionAfterHook(s, e);
      case Test => TestKeepsHook(s);
      case Decode => DecodeFrame(s);
      case _ =>
    }
  }

  lemma TestKeepsHook(s: State)
    requires s.inHand.Some?
    ensures var s' := AfterTest(s);
            && s'.lastPos == s.lastPos && s'.firstPos == s.firstPos && s'.log == s.log
            && s'.wrapsX == s.wrapsX && s'.wrapsY == s.wrapsY && s'.unsent == s.unsent
            && s'.grabbed == s.grabbed && s'.toggles == s.toggles && s'.running == s.running && s'.open == s.open
  {
    hide Fits, Write;
  }
}
