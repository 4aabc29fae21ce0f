/** What holds in every state of every run of a sharing session. */
module SessionResults {
  import opened Protocol
  import opened Codec
  import opened Capture
  import opened Inject
  import opened Sinks
  import opened Traces
  import opened Connection
  import opened Session

  // ---- All invariants, in every reachable state -----------------------------------------

  lemma InitInv(hello: Sendable)
    requires IsGoodHello(hello)
    ensures InvLink(Init(hello), hello)
  {
    hide Fits, FrameOf, DecodeStep;
    var l1 := Write(FRESH, hello);
    assert Faithful(FRESH);
    WriteInv(FRESH, hello);
    WriteInv(l1, ACK);
    assert Messages(Forwarded([])) == [];
    assert Init(hello).link.sent == [hello, ACK] + [];
  }

  lemma {:induction false} RunInv(hello: Sendable, steps: seq<Step>)
    requires IsGoodHello(hello)
    ensures var s := Run(hello, steps);
            && InvQueue(s) && InvFlag(s) && InvLink(s, hello) && InvMisrouted(s) && InvMotion(s) && InvEvents(s)
            && s.toggles == HotkeyPresses(steps)
            && (s.client.Gone? ==> Leave in steps)
    decreases |steps|
  {
    hide Fits, Next, FrameOf, DecodeStep;
    if steps == [] {
      InitInv(hello);
    } else {
      var before, step := steps[..|steps| - 1], steps[|steps| - 1];
      RunInv(hello, before);
      var s := Run(hello, before);
      QueueStep(s, step);
      EventsStep(s, step);
      FlagStep(s, step);
      LinkStep(s, step, hello);
      MisroutedStep(s, step);
      MotionStep(s, step);
      TogglesStep(s, step);
    }
  }

  lemma TogglesStep(s: State, step: Step)
    ensures Next(s, step).toggles == s.toggles + if step.Hook? && IsHotkey(step.e) then 1 else 0
  {
    hide Fits, NewItem, IsHotkey, NextPos, NextGrab, MoveIsExact, Write, Read, Deliver;
    if step.Decode? { DecodeFrame(s); }
  }

  // ---- End to end -----------------------------------------------------------------------

  /** The items appear in capture order, each one taken from the log, all before `bound`. */
  predicate InCaptureOrder(items: seq<Item>, log: seq<Item>, bound: nat)
    requires bound <= |log|
  {
    && (forall i :: 0 <= i < |items| ==> items[i].id < bound && log[items[i].id] == items[i])
    && (forall i, j :: 0 <= i < j < |items| ==> items[i].id < items[j].id)
  }

  lemma {:induction false} KeptInOrder(log: seq<Item>, n: nat)
    requires n <= |log| && forall i :: 0 <= i < |log| ==> log[i].id == i
    ensures InCaptureOrder(Kept(log[..n]), log, n)
  {
    hide Fits;
    if n > 0 {
      KeptInOrder(log, n - 1);
      assert log[..n][..n - 1] == log[..n - 1];
    }
  }

  lemma {:induction false} RoutedInOrder(tested: seq<Tested>, on: bool, log: seq<Item>, bound: nat)
    requires bound <= |log| && InCaptureOrder(Items(tested), log, bound)
    ensures InCaptureOrder(Routed(tested, on), log, bound)
  {
    hide Fits;
    if tested != [] {
      var before, t := tested[..|tested| - 1], tested[|tested| - 1];
      var items := Items(tested);
      assert items[|items| - 1] == t.item;
      assert forall i :: 0 <= i < |Items(before)| ==> items[i] == Items(before)[i];
      RoutedInOrder(before, on, log, t.item.id);
    }
  }

  lemma ForwardedInOrder(s: State)
    requires InvQueue(s)
    ensures InCaptureOrder(Forwarded(s.tested), s.log, |s.log|)
  {
    hide Fits, Routed, Kept, Items;
    KeptInOrder(s.log, |s.log|);
    assert s.log[..|s.log|] == s.log;
    assert forall i :: 0 <= i < |s.tested| ==> Items(s.tested)[i] == Kept(s.log)[i];
    RoutedInOrder(s.tested, true, s.log, |s.log|);
  }

  /** In every reachable state the client has handled a prefix of the acknowledgement
      followed by the forwarded messages; those are captured messages in capture order; the
      client has met no decoding error, and no message made it leave. */
  lemma {:induction false} EndToEndPrefix(hello: Sendable, steps: seq<Step>)
    requires IsGoodHello(hello)
    ensures var s := Run(hello, steps);
            && s.handled <= [ACK] + Messages(Forwarded(s.tested))
            && InCaptureOrder(Forwarded(s.tested), s.log, |s.log|)
            && !s.link.broken && (s.client.Gone? ==> Leave in steps)
  {
    hide Fits, EncodeAll, FrameOf, Run, InCaptureOrder, Forwarded, Messages, InvQueue;
    RunInv(hello, steps);
    var s := Run(hello, steps);
    ForwardedInOrder(s);
    if s.link.decoded != [] {
      assert s.handled == s.link.decoded[1..] <= s.link.sent[1..];
      assert s.link.sent[1..] == [ACK] + Messages(Forwarded(s.tested));
    }
  }

  /** Nothing is queued, in hand, on the wire or still decodable. */
  predicate UsedUp(s: State) {
    InFlight(s) == [] && s.link.wire == [] && DecodeStep(s.link.rx).NeedMore?
  }

  /** Nothing is lost on the way: once the queue, the hand, the wire and the receive buffer
      are used up, the client has handled the acknowledgement and every message that was
      forwarded, and every message the channel took has been tested. */
  lemma {:induction false} EndToEndComplete(hello: Sendable, steps: seq<Step>)
    requires IsGoodHello(hello)
    ensures var s := Run(hello, steps);
            UsedUp(s) ==> s.handled == [ACK] + Messages(Forwarded(s.tested)) && Kept(s.log) == Items(s.tested)
  {
    hide Fits, EncodeAll, FrameOf, Next, Run, DecodeStep, HotkeyPresses, Kept, Forwarded, Messages, Items;
    hide InvFlag, InvMotion, InvMisrouted;
    RunInv(hello, steps);
    var s := Run(hello, steps);
    if UsedUp(s) {
      DrainedLink(s.link);
      assert Items(s.tested) + [] == Items(s.tested);
      assert s.link.sent[1..] == [ACK] + Messages(Forwarded(s.tested));
    }
  }

  // ---- Every run can be completed ---------------------------------------------------------------

  lemma RunSnoc(hello: Sendable, steps: seq<Step>, step: Step)
    ensures Run(hello, steps + [step]) == Next(Run(hello, steps), step)
    ensures HotkeyPresses(steps + [step]) == HotkeyPresses(steps) + if step.Hook? && IsHotkey(step.e) then 1 else 0
  {
    hide Next, Init, IsHotkey, Fits;
    assert (steps + [step])[..|steps|] == steps;
  }

  /** Nothing is in flight. */
  predicate IsEmpty(s: State) { s.running && s.inHand.None? && s.queue == [] }

  /** The server can always go on until nothing is in flight; every stale message in flight
      then counts as misrouted. */
  lemma {:induction false} TestAll(hello: Sendable, steps: seq<Step>) returns (all: seq<Step>)
    requires Run(hello, steps).running
    ensures var s, s' := Run(hello, steps), Run(hello, all);
            && IsEmpty(s') && Misrouted(s'.tested) == Misrouted(s.tested) + Stale(InFlight(s), s.grabbed)
            && HotkeyPresses(all) == HotkeyPresses(steps) && steps <= all
            && s'.client == s.client && s'.log == s.log && s'.open == s.open
    decreases |InFlight(Run(hello, steps))|, Run(hello, steps).inHand.None?
  {
    hide Fits, Run, HotkeyPresses, Misrouted, IsHotkey, AfterHook, AfterDecode, Write;
    var s := Run(hello, steps);
    if s.inHand.Some? {
      RunSnoc(hello, steps, Test);
      MisroutedAfterTest(s);
      assert |InFlight(AfterTest(s))| < |InFlight(s)|;
      TestKeepsHook(s);
      all := TestAll(hello, steps + [Test]);
    } else if s.queue != [] {
      RunSnoc(hello, steps, Recv);
      assert InFlight(Next(s, Recv)) == InFlight(s);
      all := TestAll(hello, steps + [Recv]);
    } else {
      all := steps;
    }
  }

  /** Decoding a frame uses up bytes and never makes the client leave. */
  lemma DecodeOnce(s: State, hello: Sendable)
    requires InvLink(s, hello) && !s.client.Gone? && !DecodeStep(s.link.rx).NeedMore?
    ensures var s' := Next(s, Decode);
            && |s'.link.rx| < |s.link.rx| && s'.link.wire == s.link.wire && !s'.client.Gone?
            && s' == s.(link := s'.link, client := s'.client, handled := s'.handled)
  {
    hide Fits, DecodeStep, Read, Messages, Forwarded, EncodeAll;
    LinkAfterDecode(s, hello);
    DecodeFrame(s);
    ReadShrinks(s.link);
  }

  lemma {:induction false} DecodeAll(hello: Sendable, steps: seq<Step>) returns (all: seq<Step>)
    requires IsGoodHello(hello) && !Run(hello, steps).client.Gone? && Run(hello, steps).link.wire == []
    ensures var s, s' := Run(hello, steps), Run(hello, all);
            && s'.link.wire == [] && DecodeStep(s'.link.rx).NeedMore? && !s'.client.Gone?
            && s' == s.(link := s'.link, client := s'.client, handled := s'.handled)
            && HotkeyPresses(all) == HotkeyPresses(steps) && steps <= all
    decreases |Run(hello, steps).link.rx|
  {
    hide Fits, Run, HotkeyPresses, Next, DecodeStep, InvLink, InvQueue, InvFlag, InvMotion, InvMisrouted, InvEvents;
    var s := Run(hello, steps);
    if DecodeStep(s.link.rx).NeedMore? {
      all := steps;
    } else {
      RunInv(hello, steps);
      DecodeOnce(s, hello);
      RunSnoc(hello, steps, Decode);
      all := DecodeAll(hello, steps + [Decode]);
    }
  }

  /** Whatever has happened, a session whose client is still there, and whose server loop has not
      ended with messages in flight, can go on until everything is used up. */
  lemma {:induction false} CanComplete(hello: Sendable, steps: seq<Step>) returns (more: seq<Step>)
    requires IsGoodHello(hello) && !Run(hello, steps).client.Gone?
    requires Run(hello, steps).running || InFlight(Run(hello, steps)) == []
    ensures var s, s' := Run(hello, steps), Run(hello, more);
            && steps <= more && HotkeyPresses(more) == HotkeyPresses(steps)
            && UsedUp(s') && !s'.client.Gone? && s'.running == s.running && s'.open == s.open && s'.log == s.log
            && Misrouted(s'.tested) == Misrouted(s.tested) + Stale(InFlight(s), s.grabbed)
  {
    hide Fits, Run, HotkeyPresses, Misrouted, DecodeStep, Deliver, AfterHook, AfterTest, AfterDecode;
    var s := Run(hello, steps);
    more := steps;
    if s.running { more := TestAll(hello, steps); }
    var quiet := Run(hello, more);
    assert InFlight(quiet) == [];
    var n := |quiet.link.wire|;
    RunSnoc(hello, more, Step.Move(n));
    DeliverAll(quiet.link);
    var moved := Run(hello, more + [Step.Move(n)]);
    assert moved == quiet.(link := Deliver(quiet.link, n));
    more := DecodeAll(hello, more + [Step.Move(n)]);
    assert InFlight(Run(hello, more)) == [];
  }

  lemma DeliverAll(l: Link)
    ensures Deliver(l, |l.wire|).wire == []
  {
    hide Fits;
  }

  lemma StartOfRun(hello: Sendable)
    ensures Run(hello, []) == Init(hello) && HotkeyPresses([]) == 0
    ensures var s := Init(hello);
            && IsEmpty(s) && s.open && !s.grabbed && s.tested == [] && s.log == [] && !s.client.Gone?
            && s.handled == []
  {
    hide Fits;
  }

  // ---- The grab flag ----------------------------------------------------------------------

  /** The flag is the parity of the hotkey presses so far. */
  lemma {:induction false} FlagIsParity(hello: Sendable, steps: seq<Step>)
    requires IsGoodHello(hello)
    ensures Run(hello, steps).grabbed <==> HotkeyPresses(steps) % 2 == 1
  {
    hide Fits, Run, InvQueue, InvLink, InvMisrouted, InvMotion, InFlight;
    RunInv(hello, steps);
  }

  /** No event disappears silently: every captured message was refused by the full or closed
      channel, or was tested, or is in flight, in capture order and never twice. */
  lemma {:induction false} EveryEventAccounted(hello: Sendable, steps: seq<Step>)
    requires IsGoodHello(hello)
    ensures var s := Run(hello, steps);
            && Kept(s.log) == Items(s.tested) + InFlight(s)
            && InCaptureOrder(Kept(s.log), s.log, |s.log|)
            && |Dropped(s.log)| + |s.tested| + |InFlight(s)| == |s.log|
            && |InFlight(s)| <= 257
  {
    hide Fits, Run, InvLink, InvFlag, InvMotion, InvMisrouted, InCaptureOrder;
    RunInv(hello, steps);
    var s := Run(hello, steps);
    KeptInOrder(s.log, |s.log|);
    assert s.log[..|s.log|] == s.log;
    KeptOrDropped(s.log);
  }

  lemma {:induction false} KeptOrDropped(log: seq<Item>)
    ensures |Kept(log)| + |Dropped(log)| == |log|
  {
    if log != [] { KeptOrDropped(log[..|log| - 1]); }
  }

  // ---- Displacement ---------------------------------------------------------------------------------

  lemma {:induction false} SumOfLog(log: seq<Item>, a: Axis)
    ensures Sum(Messages(log), a) == Sum(Messages(Kept(log)), a) + Sum(Messages(Dropped(log)), a)
  {
    hide Fits, Sum;
    if log == [] {
      assert Messages(log) == [] && Sum([], a) == 0 by { SumOfNothing(a); }
    } else {
      var before, last := log[..|log| - 1], [log[|log| - 1]];
      SumOfLog(before, a);
      assert log == before + last;
      MessagesAppend(before, last, a);
      MessagesAppend(Kept(before), if last[0].kept then last else [], a);
      MessagesAppend(Dropped(before), if last[0].kept then [] else last, a);
      SumOfNothing(a);
    }
  }

  lemma SumOfNothing(a: Axis)
    ensures Messages([]) == [] && Sum([], a) == 0
  {
  }

  lemma {:induction false} SumOfTested(tested: seq<Tested>, a: Axis)
    ensures Sum(Messages(Items(tested)), a)
            == Sum(Messages(Forwarded(tested)), a) + Sum(Messages(Discarded(tested)), a)
  {
    hide Fits, Sum;
    SumOfNothing(a);
    if tested != [] {
      var before, t := tested[..|tested| - 1], tested[|tested| - 1];
      SumOfTested(before, a);
      MessagesAppend(Items(before), [t.item], a);
      MessagesAppend(Forwarded(before), if t.forwarded then [t.item] else [], a);
      MessagesAppend(Discarded(before), if t.forwarded then [] else [t.item], a);
    }
  }

  /** The motion of everything sent is the motion handled plus the motion still under way. */
  lemma {:induction false} SumOfLink(s: State, hello: Sendable, a: Axis)
    requires InvLink(s, hello)
    ensures Sum(Messages(Forwarded(s.tested)), a) == Sum(s.handled, a) + Sum(Pending(s.link), a)
  {
    hide Fits, EncodeAll, FrameOf, Forwarded, Messages;
    var sent: seq<Message>, decoded := s.link.sent, s.link.decoded;
    TotalAppend<Message>(Delta(a), [hello, ACK], Messages(Forwarded(s.tested)));
    assert Sum([hello, ACK], a) == Delta(a)(hello) + Sum([hello, ACK][1..], a) == 0;
    assert sent == decoded + Pending(s.link);
    TotalAppend<Message>(Delta(a), decoded, Pending(s.link));
    if decoded != [] {
      assert decoded == [sent[0]] + s.handled;
      assert Sum(decoded, a) == Delta(a)(sent[0]) + Sum(s.handled, a);
      assert Delta(a)(hello) == 0;
    }
  }

  /** The motion written to the client's device and all motion that has not got there. */
  function Accounted(s: State, a: Axis): int
    requires |s.link.decoded| <= |s.link.sent|
  {
    Total(LinuxMotion(a), LinuxEventsOf(s.handled))
    + Sum(Pending(s.link), a)
    + Sum(Messages(InHand(s)), a)
    + Sum(Messages(s.queue), a)
    + Sum(Messages(Discarded(s.tested)), a)
    + Sum(Messages(Dropped(s.log)), a)
  }

  /** Conservation of motion: what the client's device was moved by, plus what is on the wire
      or in the receive buffer, in the server's hand, queued, discarded while not grabbed and
      dropped at a full queue, is the path of the server's cursor less 2^32 for every move
      that left the range of `i32` upward and plus 2^32 for every one that left it downward.
      It is the path itself if and only if there are as many of one kind as of the other. */
  lemma {:induction false} Displacement(hello: Sendable, steps: seq<Step>, a: Axis)
    requires IsGoodHello(hello)
    ensures var s := Run(hello, steps);
            && (s.firstPos.None? <==> s.lastPos.None?) && |s.link.decoded| <= |s.link.sent|
            && Accounted(s, a) + 0x1_0000_0000 * WrapsOf(s, a) == Travelled(s, a)
            && (Accounted(s, a) == Travelled(s, a) <==> WrapsOf(s, a) == 0)
  {
    hide Fits, Run, EncodeAll, FrameOf, Sum, Messages, Kept, Dropped, Items, Forwarded, Discarded;
    RunInv(hello, steps);
    var s := Run(hello, steps);
    SinksMoveAlike(s.handled, a);
    SumOfLink(s, hello, a);
    SumOfTested(s.tested, a);
    MessagesAppend(InHand(s), s.queue, a);
    MessagesAppend(Items(s.tested), InFlight(s), a);
    SumOfLog(s.log, a);
  }

  function MoveTo(x: i32): HookInput { Mouse(HC_ACTION, WM_MOUSEMOVE, Point(x, 0), 0) }

  /** One move across the whole range is enough to break conservation, and the way back mends
      it: the number of such moves each way decides, not whether there was any. */
  lemma WrappedMoves(hello: Sendable)
    requires IsGoodHello(hello)
    ensures var out := [Hook(MoveTo(-0x8000_0000)), Hook(MoveTo(0x7FFF_FFFF))];
            var back := out + [Hook(MoveTo(-0x8000_0000))];
            var s, s' := Run(hello, out), Run(hello, back);
            && (s.firstPos.None? <==> s.lastPos.None?) && |s.link.decoded| <= |s.link.sent|
            && (s'.firstPos.None? <==> s'.lastPos.None?) && |s'.link.decoded| <= |s'.link.sent|
            && Accounted(s, AxisX) == -1 && Travelled(s, AxisX) == 0xFFFF_FFFF
            && Accounted(s', AxisX) == 0 == Travelled(s', AxisX)
  {
    hide Fits, Run, Init, Next, Accounted, IsHotkey, HotkeyPresses, MoveTo, EncodeAll, FrameOf;
    var left, right := Hook(MoveTo(-0x8000_0000)), Hook(MoveTo(0x7FFF_FFFF));
    StartOfRun(hello);
    NoPositionYet(hello);
    RunSnoc(hello, [], left);
    MoveEffect(Init(hello), -0x8000_0000);
    assert [] + [left] == [left];
    RunSnoc(hello, [left], right);
    MoveEffect(Run(hello, [left]), 0x7FFF_FFFF);
    assert [left] + [right] == [left, right];
    RunSnoc(hello, [left, right], left);
    MoveEffect(Run(hello, [left, right]), -0x8000_0000);
    Displacement(hello, [left, right], AxisX);
    Displacement(hello, [left, right] + [left], AxisX);
  }

  lemma MoveEffect(s: State, x: i32)
    ensures var s' := Next(s, Hook(MoveTo(x)));
            && s'.lastPos == Some(Point(x, 0))
            && s'.firstPos == (if s.firstPos.None? then Some(Point(x, 0)) else s.firstPos)
            && s'.wrapsX == s.wrapsX + if s.lastPos.Some? then Wraps(x - s.lastPos.value.x) else 0
  {
    hide Fits, NewItem, IsUnsent, IsHotkey;
  }

  lemma NoPositionYet(hello: Sendable)
    ensures var s := Init(hello); s.lastPos == None && s.firstPos == None && s.wrapsX == 0
  {
  }

  // ---- The client's device ------------------------------------------------------------------------

  function EventsOf(items: seq<Item>): seq<HookInput> {
    seq(|items|, i requires 0 <= i < |items| => items[i].event)
  }

  /** The forwarded items whose messages the client has handled. */
  function Arrived(s: State): (arrived: seq<Item>)
    ensures arrived <= Forwarded(s.tested)
  {
    var n := |s.handled| - 1;
    if 0 <= n <= |Forwarded(s.tested)| then Forwarded(s.tested)[..n] else []
  }

  lemma {:induction false} HandledIsArrived(hello: Sendable, steps: seq<Step>)
    requires IsGoodHello(hello)
    ensures var s := Run(hello, steps);
            && (s.handled == [] ==> Arrived(s) == [])
            && (s.handled != [] ==> s.handled == [ACK] + Messages(Arrived(s)))
            && (forall item :: item in Arrived(s) ==> IsGenuine(item))
            && (UsedUp(s) ==> Arrived(s) == Forwarded(s.tested))
  {
    hide Fits, Run, Forwarded, UsedUp, IsGenuine, InCaptureOrder;
    EndToEndPrefix(hello, steps);
    EndToEndComplete(hello, steps);
    var s := Run(hello, steps);
    var f := Forwarded(s.tested);
    ForwardedAreGenuine(hello, steps);
    if s.handled != [] {
      assert Messages(Arrived(s)) == Messages(f)[..|s.handled| - 1];
      assert ([ACK] + Messages(f))[..|s.handled|] == [ACK] + Messages(f)[..|s.handled| - 1];
    }
  }

  lemma {:induction false} ForwardedAreGenuine(hello: Sendable, steps: seq<Step>)
    requires IsGoodHello(hello)
    ensures forall item :: item in Forwarded(Run(hello, steps).tested) ==> IsGenuine(item)
  {
    hide Fits, Run, Forwarded, IsGenuine, InvQueue, InvLink, InvFlag, InvMotion, InvMisrouted, HotkeyPresses;
    RunInv(hello, steps);
    ForwardedInOrder(Run(hello, steps));
  }

  lemma {:induction false} GenuineTrace<T>(
      h: Message -> seq<T>, g: HookInput -> seq<T>, items: seq<Item>)
    requires forall l: Option<Point>, e: HookInput :: FlatMap(h, Offered(Captured(l, e))) == g(e)
    requires forall item :: item in items ==> IsGenuine(item)
    ensures FlatMap<Message, T>(h, Messages(items)) == FlatMap(g, EventsOf(items))
  {
    hide Fits, Captured;
    if items != [] {
      var item, tail := items[0], items[1..];
      GenuineTrace(h, g, tail);
      assert IsGenuine(item) && Offered(Captured(item.last, item.event)) == [item.msg];
      FlatMapOne<Message, T>(h, item.msg);
      FlatMapOne(g, item.event);
      assert h(item.msg) == FlatMap<Message, T>(h, Offered(Captured(item.last, item.event))) == g(item.event);
      FlatMapAppend<Message, T>(h, [item.msg], Messages(tail));
      FlatMapAppend(g, [item.event], EventsOf(tail));
      assert Messages(items) == [item.msg] + Messages(tail) && EventsOf(items) == [item.event] + EventsOf(tail);
    } else {
      assert Messages(items) == [] && EventsOf(items) == [];
    }
  }

  /** Whatever is observed of the client's device event by event is what the forwarded events
      that have arrived stand for, in order. */
  lemma {:induction false} DeviceTrace<T>(
      f: InputEvent -> seq<T>, h: Message -> seq<T>, g: HookInput -> seq<T>, hello: Sendable, steps: seq<Step>)
    requires IsGoodHello(hello)
    requires forall m: Message :: h(m) == FlatMap(f, LinuxEvents(m))
    requires forall l: Option<Point>, e: HookInput :: FlatMap(h, Offered(Captured(l, e))) == g(e)
    ensures var s := Run(hello, steps);
            FlatMap(f, LinuxEventsOf(s.handled)) == FlatMap(g, EventsOf(Arrived(s)))
  {
    hide Fits, Run, Captured, Arrived, UsedUp, IsGenuine, Messages;
    var s := Run(hello, steps);
    HandledIsArrived(hello, steps);
    FlatMapFuse(LinuxEvents, f, h, s.handled);
    GenuineTrace(h, g, Arrived(s));
    if s.handled != [] {
      FlatMapAppend<Message, T>(h, [ACK], Messages(Arrived(s)));
      FlatMapOne<Message, T>(h, ACK);
      assert LinuxEvents(ACK) == [] && h(ACK) == FlatMap(f, []) == [];
      assert FlatMap<Message, T>(h, s.handled) == [] + FlatMap<Message, T>(h, Messages(Arrived(s)));
    } else {
      assert EventsOf(Arrived(s)) == [];
    }
  }

  lemma {:induction false} OnlyOrdinary(hello: Sendable, steps: seq<Step>)
    requires IsGoodHello(hello)
    ensures forall d :: d in LinuxEventsOf(Run(hello, steps).handled) ==> IsOrdinary(d)
  {
    hide Fits, Run, Arrived, UsedUp, IsOrdinary, IsGenuine, LinuxEvents, Messages;
    HandledIsArrived(hello, steps);
    var s := Run(hello, steps);
    if s.handled != [] {
      FlatMapAppend<Message, InputEvent>(LinuxEvents, [ACK], Messages(Arrived(s)));
      FlatMapOne<Message, InputEvent>(LinuxEvents, ACK);
      AckIsSilent();
      AllOrdinary(Arrived(s));
    }
  }

  lemma AckIsSilent()
    ensures LinuxEvents(ACK) == []
  {
  }

  lemma {:induction false} AllOrdinary(items: seq<Item>)
    requires forall item :: item in items ==> IsGenuine(item)
    ensures forall d :: d in FlatMap<Message, InputEvent>(LinuxEvents, Messages(items)) ==> IsOrdinary(d)
  {
    hide Fits, Captured, LinuxEvents, IsOrdinary;
    if items == [] {
      assert Messages(items) == [];
    } else {
      var item, tail := items[0], items[1..];
      assert IsGenuine(item);
      AllOrdinary(tail);
      CapturedIsOrdinary(item.last, item.event);
      assert Messages(items) == [item.msg] + Messages(tail);
      FlatMapAppend<Message, InputEvent>(LinuxEvents, [item.msg], Messages(tail));
      FlatMapOne<Message, InputEvent>(LinuxEvents, item.msg);
    }
  }

  /** In every state of every session the keys and buttons the client's device was given are
      those of the forwarded events that have arrived, translated and in order; and it holds
      exactly the translations of the mapped keys that those events leave held. Apart from
      those and from motion it was given nothing. */
  lemma {:induction false} SessionKeys(hello: Sendable, steps: seq<Step>)
    requires IsGoodHello(hello)
    ensures var s := Run(hello, steps);
            var es := EventsOf(Arrived(s));
            var keys := FlatMap(LinuxKey, LinuxEventsOf(s.handled));
            && keys == FlatMap(ToEvdev, FlatMap(SourceKey, es))
            && Held({}, keys) == EvdevImage(Held({}, FlatMap(SourceKey, es)))
            && FlatMap(LinuxButton, LinuxEventsOf(s.handled)) == FlatMap(SourceButton, es)
            && FlatMap(LinuxWheel, LinuxEventsOf(s.handled)) == FlatMap(SourceWheel, es)
            && forall d :: d in LinuxEventsOf(s.handled) ==> IsOrdinary(d)
  {
    hide Fits, Run, Captured, Arrived, LinuxEvents, SourceKey, SourceButton, SourceWheel, ToEvdev, EvdevImage;
    forall l: Option<Point>, e: HookInput
      ensures FlatMap(LinuxKeysOf, Offered(Captured(l, e))) == SourceAsEvdev(e)
      ensures FlatMap(LinuxButtonsOf, Offered(Captured(l, e))) == SourceButton(e)
      ensures FlatMap(LinuxWheelOf, Offered(Captured(l, e))) == SourceWheel(e)
    {
      KeyOfCallback(l, e);
      ButtonOfCallback(l, e);
      WheelOfCallback(l, e);
    }
    OnlyOrdinary(hello, steps);
    DeviceTrace(LinuxKey, LinuxKeysOf, SourceAsEvdev, hello, steps);
    DeviceTrace(LinuxButton, LinuxButtonsOf, SourceButton, hello, steps);
    DeviceTrace(LinuxWheel, LinuxWheelOf, SourceWheel, hello, steps);
    var es := EventsOf(Arrived(Run(hello, steps)));
    FlatMapFuse(SourceKey, ToEvdev, SourceAsEvdev, es);
    HeldImage({}, FlatMap(SourceKey, es));
    NothingHeld();
  }
}
