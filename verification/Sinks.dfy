/** What a whole run of hook callbacks does to a machine that receives the captured messages:
    its pointer, its wheel, its keys and its buttons. */
module Sinks {
  import opened Protocol
  import opened Keycode
  import opened Capture
  import opened Inject
  import opened Traces

  // ---- Runs of callbacks ---------------------------------------------------------------------

  function Offered(m: Option<Message>): seq<Message> {
    match m
    case Some(m) => [m]
    case None => []
  }

  /** The messages a run of callbacks offers to the channel. */
  function CapturedAll(last: Option<Point>, es: seq<HookInput>): seq<Message>
    decreases |es|
  {
    if es == [] then [] else
      Offered(Captured(last, es[0])) + CapturedAll(NextPos(last, es[0]), es[1..])
  }

  /** What holds of every single callback holds of every run of them. */
  lemma {:induction false} TraceOfRun<T>(
    f: Message -> seq<T>, g: HookInput -> seq<T>, last: Option<Point>, es: seq<HookInput>)
    requires forall l: Option<Point>, e: HookInput :: FlatMap(f, Offered(Captured(l, e))) == g(e)
    ensures FlatMap(f, CapturedAll(last, es)) == FlatMap(g, es)
    decreases |es|
  {
    hide Captured, NextPos;
    if es != [] {
      FlatMapAppend(f, Offered(Captured(last, es[0])), CapturedAll(NextPos(last, es[0]), es[1..]));
      TraceOfRun(f, g, NextPos(last, es[0]), es[1..]);
    }
  }

  lemma {:induction false} TotalOfRun(f: Message -> int, g: HookInput -> int, last: Option<Point>, es: seq<HookInput>)
    requires forall l: Option<Point>, e: HookInput :: Total(f, Offered(Captured(l, e))) == g(e)
    ensures Total(f, CapturedAll(last, es)) == Total(g, es)
    decreases |es|
  {
    hide Captured, NextPos;
    if es != [] {
      TotalAppend(f, Offered(Captured(last, es[0])), CapturedAll(NextPos(last, es[0]), es[1..]));
      TotalOfRun(f, g, NextPos(last, es[0]), es[1..]);
    }
  }

  // ---- One message on either sink ---------------------------------------------------------------

  function MapRelative<T>(f: InputEvent -> seq<T>, code: u16, value: i32): seq<T> {
    if value == 0 then [] else f(InputEvent(RELATIVE, code, value))
  }

  lemma FlatMapLinux<T>(f: InputEvent -> seq<T>, m: Message)
    ensures FlatMap(f, LinuxEvents(m)) ==
            match m
            case MouseMove(dx, dy) => MapRelative(f, REL_X, dx) + MapRelative(f, REL_Y, dy)
            case MouseWheel(dx, dy) => MapRelative(f, REL_WHEEL, dy) + MapRelative(f, REL_HWHEEL, dx)
            case MouseClick(b, pressed) => f(Press(ButtonCode(b), pressed))
            case KeyEvent(k, pressed, _) => if k > 0xFFFF then [] else f(Press(k, pressed))
            case _ => []
  {
    match m
    case MouseMove(dx, dy) =>
      FlatMapAppend(f, Relative(REL_X, dx), Relative(REL_Y, dy));
      FlatMapOne(f, InputEvent(RELATIVE, REL_X, dx));
      FlatMapOne(f, InputEvent(RELATIVE, REL_Y, dy));
    case MouseWheel(dx, dy) =>
      FlatMapAppend(f, Relative(REL_WHEEL, dy), Relative(REL_HWHEEL, dx));
      FlatMapOne(f, InputEvent(RELATIVE, REL_WHEEL, dy));
      FlatMapOne(f, InputEvent(RELATIVE, REL_HWHEEL, dx));
    case MouseClick(b, pressed) => FlatMapOne(f, Press(ButtonCode(b), pressed));
    case KeyEvent(k, pressed, _) => if k <= 0xFFFF { FlatMapOne(f, Press(k, pressed)); }
    case _ =>
  }

  function AddRelative(f: InputEvent -> int, code: u16, value: i32): int {
    if value == 0 then 0 else f(InputEvent(RELATIVE, code, value))
  }

  lemma TotalLinux(f: InputEvent -> int, m: Message)
    ensures Total(f, LinuxEvents(m)) ==
            match m
            case MouseMove(dx, dy) => AddRelative(f, REL_X, dx) + AddRelative(f, REL_Y, dy)
            case MouseWheel(dx, dy) => AddRelative(f, REL_WHEEL, dy) + AddRelative(f, REL_HWHEEL, dx)
            case MouseClick(b, pressed) => f(Press(ButtonCode(b), pressed))
            case KeyEvent(k, pressed, _) => if k > 0xFFFF then 0 else f(Press(k, pressed))
            case _ => 0
  {
    match m
    case MouseMove(dx, dy) =>
      TotalAppend(f, Relative(REL_X, dx), Relative(REL_Y, dy));
      TotalOne(f, InputEvent(RELATIVE, REL_X, dx));
      TotalOne(f, InputEvent(RELATIVE, REL_Y, dy));
    case MouseWheel(dx, dy) =>
      TotalAppend(f, Relative(REL_WHEEL, dy), Relative(REL_HWHEEL, dx));
      TotalOne(f, InputEvent(RELATIVE, REL_WHEEL, dy));
      TotalOne(f, InputEvent(RELATIVE, REL_HWHEEL, dx));
    case MouseClick(b, pressed) => TotalOne(f, Press(ButtonCode(b), pressed));
    case KeyEvent(k, pressed, _) => if k <= 0xFFFF { TotalOne(f, Press(k, pressed)); }
    case _ =>
  }

  lemma OverWin<T>(f: WinInput -> seq<T>, g: WinInput -> int, m: Message)
    ensures |WinEvents(m)| <= 1
    ensures FlatMap(f, WinEvents(m)) == if WinEvents(m) == [] then [] else f(WinEvents(m)[0])
    ensures Total(g, WinEvents(m)) == if WinEvents(m) == [] then 0 else g(WinEvents(m)[0])
  {
    hide EvdevToVk;
    if WinEvents(m) != [] {
      assert WinEvents(m) == [WinEvents(m)[0]];
      FlatMapOne(f, WinEvents(m)[0]);
      TotalOne(g, WinEvents(m)[0]);
    }
  }

  // ---- Motion ----------------------------------------------------------------------------

  datatype Axis = AxisX | AxisY

  function Delta(a: Axis): Message -> int {
    (m: Message) => if !m.MouseMove? then 0 else if a.AxisX? then m.dx else m.dy
  }

  function Sum(ms: seq<Message>, a: Axis): int { Total(Delta(a), ms) }

  /** The relative motion one device event, or one `SendInput` record, stands for. */
  function LinuxMotion(a: Axis): InputEvent -> int {
    (e: InputEvent) => if e.kind == RELATIVE && e.code == (if a.AxisX? then REL_X else REL_Y) then e.value else 0
  }

  function WinMotion(a: Axis): WinInput -> int {
    (e: WinInput) => if e.MouseInput? && e.flag == Move then (if a.AxisX? then e.dx else e.dy) else 0
  }

  lemma MotionOfOne(m: Message, a: Axis)
    ensures Total(LinuxMotion(a), LinuxEvents(m)) == Delta(a)(m) == Total(WinMotion(a), WinEvents(m))
  {
    hide EvdevToVk;
    TotalLinux(LinuxMotion(a), m);
    OverWin(WinKey, WinMotion(a), m);
  }

  /** Both kinds of sink move by exactly the sum of the deltas they are sent. */
  lemma SinksMoveAlike(ms: seq<Message>, a: Axis)
    ensures Total(LinuxMotion(a), LinuxEventsOf(ms)) == Sum(ms, a) == Total(WinMotion(a), WinEventsOf(ms))
  {
    hide LinuxEvents, WinEvents;
    forall m: Message
      ensures Total(LinuxMotion(a), LinuxEvents(m)) == Delta(a)(m) == Total(WinMotion(a), WinEvents(m))
    {
      MotionOfOne(m, a);
    }
    TotalFuse(LinuxEvents, LinuxMotion(a), Delta(a), ms);
    TotalFuse(WinEvents, WinMotion(a), Delta(a), ms);
  }

  // ---- Wheel ----------------------------------------------------------------------------

  predicate IsWheel(e: HookInput) {
    e.Mouse? && e.mcode == HC_ACTION && Param(e.mparam) == WM_MOUSEWHEEL
  }

  /** What one callback scrolls on the source, in 120ths of a notch, and in whole notches. */
  function SourceScroll(e: HookInput): int { if IsWheel(e) then WheelDelta(e.mouseData) else 0 }
  function WholeNotches(e: HookInput): int { if IsWheel(e) then Notches(WheelDelta(e.mouseData)) else 0 }
  function WheelCount(e: HookInput): int { if IsWheel(e) then 1 else 0 }

  /** What a sink scrolls: Linux in notches, Windows in 120ths, as signed `mouseData`. */
  function LinuxScroll(e: InputEvent): int { if e.kind == RELATIVE && e.code == REL_WHEEL then e.value else 0 }
  function WinScroll(e: WinInput): int { if e.MouseInput? && e.flag == Wheel then WrapI32(e.mouseData) else 0 }

  function LinuxScrollOf(m: Message): int { Total(LinuxScroll, LinuxEvents(m)) }
  function WinScrollOf(m: Message): int { Total(WinScroll, WinEvents(m)) }
  function TimesDelta(e: HookInput): int { WHEEL_DELTA * WholeNotches(e) }

  lemma ScrollOfMessage(m: Message)
    ensures LinuxScrollOf(m) == if m.MouseWheel? then m.wdy else 0
    ensures WinScrollOf(m) == if m.MouseWheel? then WrapI32(m.wdy * WHEEL_DELTA) else 0
  {
    hide EvdevToVk;
    TotalLinux(LinuxScroll, m);
    OverWin(WinKey, WinScroll, m);
  }

  /** `dy * 120` never overflows for a captured message. */
  lemma ScrollOfCallback(last: Option<Point>, e: HookInput)
    ensures Total(LinuxScrollOf, Offered(Captured(last, e))) == WholeNotches(e)
    ensures Total(WinScrollOf, Offered(Captured(last, e))) == TimesDelta(e)
  {
    hide VkToEvdev, LinuxScrollOf, WinScrollOf;
    match Captured(last, e)
    case None =>
    case Some(m) =>
      ScrollOfMessage(m);
      TotalOne(LinuxScrollOf, m);
      TotalOne(WinScrollOf, m);
      if IsWheel(e) { NotchError(WheelDelta(e.mouseData)); }
  }

  /** For every run of hook callbacks, a Linux sink scrolls exactly the whole notches of each
      wheel event and never sideways, and a Windows sink the same amount in 120ths. */
  lemma SinksScrollAlike(last: Option<Point>, es: seq<HookInput>)
    ensures Total(LinuxScroll, LinuxEventsOf(CapturedAll(last, es))) == Total(WholeNotches, es)
    ensures Total(WinScroll, WinEventsOf(CapturedAll(last, es))) == WHEEL_DELTA * Total(WholeNotches, es)
    ensures FlatMap(LinuxSide, LinuxEventsOf(CapturedAll(last, es))) == []
  {
    hide LinuxEvents, WinEvents, Captured, IsWheel;
    forall l: Option<Point>, e: HookInput
      ensures FlatMap(LinuxSideOf, Offered(Captured(l, e))) == NoTurn(e)
    {
      SideOfCallback(l, e);
    }
    FlatMapFuse(LinuxEvents, LinuxSide, LinuxSideOf, CapturedAll(last, es));
    TraceOfRun(LinuxSideOf, NoTurn, last, es);
    NeverTurns(es);
    forall l: Option<Point>, e: HookInput
      ensures Total(LinuxScrollOf, Offered(Captured(l, e))) == WholeNotches(e)
      ensures Total(WinScrollOf, Offered(Captured(l, e))) == TimesDelta(e)
    {
      ScrollOfCallback(l, e);
    }
    var ms := CapturedAll(last, es);
    TotalFuse(LinuxEvents, LinuxScroll, LinuxScrollOf, ms);
    TotalFuse(WinEvents, WinScroll, WinScrollOf, ms);
    TotalOfRun(LinuxScrollOf, WholeNotches, last, es);
    TotalOfRun(WinScrollOf, TimesDelta, last, es);
    NotchesScale(es);
  }

  lemma {:induction false} NotchesScale(es: seq<HookInput>)
    ensures Total(TimesDelta, es) == WHEEL_DELTA * Total(WholeNotches, es)
  {
    hide IsWheel;
    if es != [] { NotchesScale(es[1..]); }
  }

  /** Truncation loses at most 119 120ths per wheel event, and nothing when every delta is a
      whole number of notches. */
  lemma {:induction false} WheelDrift(es: seq<HookInput>)
    ensures var drift := WHEEL_DELTA * Total(WholeNotches, es) - Total(SourceScroll, es);
            && -119 * Total(WheelCount, es) <= drift <= 119 * Total(WheelCount, es)
            && ((forall e :: e in es && IsWheel(e) ==> WheelDelta(e.mouseData) % WHEEL_DELTA == 0) ==> drift == 0)
  {
    if es != [] {
      if IsWheel(es[0]) { NotchError(WheelDelta(es[0].mouseData)); }
      WheelDrift(es[1..]);
    }
  }

  /** Turns of the horizontal wheel on the Linux device; no captured event is one. */
  function LinuxSide(e: InputEvent): seq<int> {
    if e.kind == RELATIVE && e.code == 6 then [e.value] else []
  }

  function LinuxSideOf(m: Message): seq<int> { FlatMap(LinuxSide, LinuxEvents(m)) }

  function NoTurn(e: HookInput): seq<int> { [] }

  lemma {:induction false} NeverTurns(es: seq<HookInput>)
    ensures FlatMap(NoTurn, es) == []
  {
    if es != [] { NeverTurns(es[1..]); }
  }

  lemma SideOfCallback(last: Option<Point>, e: HookInput)
    ensures FlatMap(LinuxSideOf, Offered(Captured(last, e))) == []
  {
    hide VkToEvdev, LinuxEvents;
    match Captured(last, e)
    case None =>
    case Some(m) =>
      FlatMapLinux(LinuxSide, m);
      FlatMapOne(LinuxSideOf, m);
  }

  /** The only events a captured message gives the Linux device are motion, turns of the wheel,
      and presses and releases of registered keys and buttons. */
  predicate IsOrdinary(e: InputEvent) {
    if e.kind == RELATIVE then e.code in {0, 1, 8} && e.value != 0
    else (1 <= e.code <= 248 || 0x110 <= e.code <= 0x112) && 0 <= e.value <= 1
  }

  lemma CapturedIsOrdinary(last: Option<Point>, e: HookInput)
    requires Captured(last, e).Some?
    ensures forall d :: d in LinuxEvents(Captured(last, e).value) ==> IsOrdinary(d)
  {
    hide VkToEvdev;
    if e.Keyboard? && VkToEvdev(e.vkCode).Some? { TablesAgree(e.vkCode); }
  }

  /** The wheel steps the Linux device is given, and those of one callback. */
  function LinuxWheel(e: InputEvent): seq<int> {
    if e.kind == RELATIVE && e.code == REL_WHEEL then [e.value] else []
  }

  function SourceWheel(e: HookInput): seq<int> { if WholeNotches(e) == 0 then [] else [WholeNotches(e)] }

  function LinuxWheelOf(m: Message): seq<int> { FlatMap(LinuxWheel, LinuxEvents(m)) }

  lemma WheelOfCallback(last: Option<Point>, e: HookInput)
    ensures FlatMap(LinuxWheelOf, Offered(Captured(last, e))) == SourceWheel(e)
  {
    hide VkToEvdev, LinuxEvents;
    match Captured(last, e)
    case None =>
    case Some(m) =>
      FlatMapLinux(LinuxWheel, m);
      FlatMapOne(LinuxWheelOf, m);
  }

  // ---- Keys ------------------------------------------------------------------------------

  /** A key or button with what happened to it. */
  type KeyChange = (int, bool)

  /** The key event of one callback, as the source machine sees it: the hotkey press itself
      never counts as a press of G. */
  function SourceKey(e: HookInput): seq<KeyChange> {
    if e.Keyboard? && e.kcode == HC_ACTION && !IsHotkey(e)
       && (IsPress(Param(e.kparam)) || IsRelease(Param(e.kparam)))
    then [(e.vkCode, IsPress(Param(e.kparam)))]
    else []
  }

  /** The keyboard (not mouse button) events that the Linux device passes on. The value 1 is a
      press, 0 a release, and any other, such as 2 for autorepeat, changes nothing. */
  function LinuxKey(e: InputEvent): seq<KeyChange> {
    if e.kind == KEY && IsRegistered(e.code) && e.code < 0x100 && 0 <= e.value <= 1
    then [(e.code, e.value == 1)] else []
  }

  function WinKey(e: WinInput): seq<KeyChange> {
    match e
    case KeyInput(vk, _, up) => [(vk, !up)]
    case _ => []
  }

  predicate IsVk(v: int) { 0 <= v < 0x1_0000_0000 }

  /** A key change under its evdev code; nothing for an unmapped key. */
  function ToEvdev(k: KeyChange): seq<KeyChange> {
    if IsVk(k.0) && VkToEvdev(k.0).Some? then [(VkToEvdev(k.0).value, k.1)] else []
  }

  predicate IsInvertible(v: int) {
    IsVk(v) && VkToEvdev(v).Some? && EvdevToVk(VkToEvdev(v).value).Some?
  }

  /** A key change that survives the trip to a Windows sink. */
  function Surviving(k: KeyChange): seq<KeyChange> { if IsInvertible(k.0) then [k] else [] }

  function LinuxKeysOf(m: Message): seq<KeyChange> { FlatMap(LinuxKey, LinuxEvents(m)) }
  function WinKeysOf(m: Message): seq<KeyChange> { FlatMap(WinKey, WinEvents(m)) }
  function SourceAsEvdev(e: HookInput): seq<KeyChange> { FlatMap(ToEvdev, SourceKey(e)) }
  function SourceSurviving(e: HookInput): seq<KeyChange> { FlatMap(Surviving, SourceKey(e)) }

  lemma LinuxKeyOfMessage(m: Message)
    ensures LinuxKeysOf(m) == if m.KeyEvent? && 1 <= m.keycode <= 248 then [(m.keycode, m.down)] else []
  {
    hide LinuxEvents;
    FlatMapLinux(LinuxKey, m);
  }

  lemma WinKeyOfMessage(m: Message)
    ensures WinKeysOf(m) == if m.KeyEvent? && m.keycode <= 0xFFFF && EvdevToVk(m.keycode).Some?
                            then [(EvdevToVk(m.keycode).value, m.down)] else []
  {
    hide EvdevToVk, IsExtendedVk, AsU32;
    OverWin(WinKey, WinScroll, m);
  }

  lemma {:induction false} KeyOfCallback(last: Option<Point>, e: HookInput)
    ensures FlatMap(LinuxKeysOf, Offered(Captured(last, e))) == SourceAsEvdev(e)
    ensures FlatMap(WinKeysOf, Offered(Captured(last, e))) == SourceSurviving(e)
  {
    hide VkToEvdev, EvdevToVk, PunctuationVk, LinuxKeysOf, WinKeysOf;
    if SourceKey(e) != [] {
      FlatMapOne(ToEvdev, SourceKey(e)[0]);
      FlatMapOne(Surviving, SourceKey(e)[0]);
      if VkToEvdev(e.vkCode).Some? { TablesAgree(e.vkCode); }
    }
    match Captured(last, e)
    case None =>
    case Some(m) =>
      LinuxKeyOfMessage(m);
      WinKeyOfMessage(m);
      FlatMapOne(LinuxKeysOf, m);
      FlatMapOne(WinKeysOf, m);
  }

  /** For every run of hook callbacks, a Linux sink sees exactly the source's key changes,
      translated and without the unmapped keys; a Windows sink sees exactly those of the keys
      that the inverse table knows, under their own codes. */
  lemma KeysFollow(last: Option<Point>, es: seq<HookInput>)
    ensures FlatMap(LinuxKey, LinuxEventsOf(CapturedAll(last, es))) == FlatMap(ToEvdev, FlatMap(SourceKey, es))
    ensures FlatMap(WinKey, WinEventsOf(CapturedAll(last, es))) == FlatMap(Surviving, FlatMap(SourceKey, es))
  {
    hide LinuxEvents, WinEvents, Captured, SourceKey, ToEvdev, Surviving;
    forall l: Option<Point>, e: HookInput
      ensures FlatMap(LinuxKeysOf, Offered(Captured(l, e))) == SourceAsEvdev(e)
      ensures FlatMap(WinKeysOf, Offered(Captured(l, e))) == SourceSurviving(e)
    {
      KeyOfCallback(l, e);
    }
    var ms := CapturedAll(last, es);
    FlatMapFuse(LinuxEvents, LinuxKey, LinuxKeysOf, ms);
    FlatMapFuse(WinEvents, WinKey, WinKeysOf, ms);
    TraceOfRun(LinuxKeysOf, SourceAsEvdev, last, es);
    TraceOfRun(WinKeysOf, SourceSurviving, last, es);
    FlatMapFuse(SourceKey, ToEvdev, SourceAsEvdev, es);
    FlatMapFuse(SourceKey, Surviving, SourceSurviving, es);
  }

  // ---- Held keys ---------------------------------------------------------------------------

  function Change(held: set<int>, k: KeyChange): set<int> {
    if k.1 then held + {k.0} else held - {k.0}
  }

  /** The keys held after a sequence of presses and releases. */
  function Held(before: set<int>, trace: seq<KeyChange>): set<int>
    decreases |trace|
  {
    if trace == [] then before else Held(Change(before, trace[0]), trace[1..])
  }

  lemma {:induction false} HeldAppend(before: set<int>, a: seq<KeyChange>, b: seq<KeyChange>)
    ensures Held(before, a + b) == Held(Held(before, a), b)
    decreases |a|
  {
    if a == [] {
      assert a + b == b;
    } else {
      assert (a + b)[0] == a[0] && (a + b)[1..] == a[1..] + b;
      HeldAppend(Change(before, a[0]), a[1..], b);
    }
  }

  /** The evdev codes of a set of virtual keys. */
  function EvdevImage(held: set<int>): set<int> {
    set v | v in held && IsVk(v) && VkToEvdev(v).Some? :: VkToEvdev(v).value
  }

  /** The held keys that a Windows sink can name. */
  function InvertibleIn(held: set<int>): set<int> { set v | v in held && IsInvertible(v) }

  lemma {:induction false} ImageOfChange(held: set<int>, k: KeyChange)
    ensures Held(EvdevImage(held), ToEvdev(k)) == EvdevImage(Change(held, k))
    ensures Held(InvertibleIn(held), Surviving(k)) == InvertibleIn(Change(held, k))
  {
    hide VkToEvdev, EvdevToVk;
    if IsVk(k.0) && VkToEvdev(k.0).Some? {
      forall a: u32 | VkToEvdev(a) == VkToEvdev(k.0) ensures a == k.0 {
        VkToEvdevInjective(a, k.0);
      }
      var code := VkToEvdev(k.0).value;
      assert EvdevImage(held + {k.0}) == EvdevImage(held) + {code};
      assert EvdevImage(held - {k.0}) == EvdevImage(held) - {code};
    }
  }

  lemma {:induction false} HeldImage(held: set<int>, trace: seq<KeyChange>)
    ensures Held(EvdevImage(held), FlatMap(ToEvdev, trace)) == EvdevImage(Held(held, trace))
    ensures Held(InvertibleIn(held), FlatMap(Surviving, trace)) == InvertibleIn(Held(held, trace))
    decreases |trace|
  {
    hide EvdevImage, InvertibleIn, ToEvdev, Surviving;
    if trace != [] {
      HeldAppend(EvdevImage(held), ToEvdev(trace[0]), FlatMap(ToEvdev, trace[1..]));
      HeldAppend(InvertibleIn(held), Surviving(trace[0]), FlatMap(Surviving, trace[1..]));
      ImageOfChange(held, trace[0]);
      HeldImage(Change(held, trace[0]), trace[1..]);
    }
  }

  /** For every run of hook callbacks, a Linux sink holds exactly the translations of the
      mapped keys the source holds, and a Windows sink exactly the keys the source holds that
      the inverse table knows: never a key the source is not holding. */
  lemma HeldKeysFollow(last: Option<Point>, es: seq<HookInput>)
    ensures var source := Held({}, FlatMap(SourceKey, es));
            && Held({}, FlatMap(LinuxKey, LinuxEventsOf(CapturedAll(last, es)))) == EvdevImage(source)
            && Held({}, FlatMap(WinKey, WinEventsOf(CapturedAll(last, es)))) == InvertibleIn(source)
  {
    hide VkToEvdev, EvdevToVk, ToEvdev, Surviving, SourceKey, IsInvertible;
    KeysFollow(last, es);
    HeldImage({}, FlatMap(SourceKey, es));
    NothingHeld();
  }

  lemma NothingHeld()
    ensures EvdevImage({}) == {} == InvertibleIn({})
  {
    hide VkToEvdev, IsInvertible;
  }

  // ---- Buttons -----------------------------------------------------------------------------

  /** The button event of one callback. Windows numbers the down, up and double-click messages
      of the left, right and middle button consecutively from 0x201; Linux numbers those
      buttons from 0x110. */
  function SourceButton(e: HookInput): seq<KeyChange> {
    if e.Mouse? && e.mcode == HC_ACTION && 0x201 <= Param(e.mparam) <= 0x208 && (Param(e.mparam) - 0x201) % 3 != 2
    then [(0x110 + (Param(e.mparam) - 0x201) / 3, (Param(e.mparam) - 0x201) % 3 == 0)]
    else []
  }

  /** The mouse button events that the Linux device passes on. */
  function LinuxButton(e: InputEvent): seq<KeyChange> {
    if e.kind == KEY && IsRegistered(e.code) && e.code >= 0x100 && 0 <= e.value <= 1
    then [(e.code, e.value == 1)] else []
  }

  /** The button events of a Windows sink, under the Linux numbers. */
  function WinButton(e: WinInput): seq<KeyChange> {
    if !e.MouseInput? then [] else
      match e.flag
      case LeftDown => [(0x110, true)] case LeftUp => [(0x110, false)]
      case RightDown => [(0x111, true)] case RightUp => [(0x111, false)]
      case MiddleDown => [(0x112, true)] case MiddleUp => [(0x112, false)]
      case _ => []
  }

  function LinuxButtonsOf(m: Message): seq<KeyChange> { FlatMap(LinuxButton, LinuxEvents(m)) }
  function WinButtonsOf(m: Message): seq<KeyChange> { FlatMap(WinButton, WinEvents(m)) }

  lemma LinuxButtonOfMessage(m: Message)
    ensures LinuxButtonsOf(m) ==
              if m.MouseClick? then [(ButtonCode(m.button), m.pressed)]
              else if m.KeyEvent? && 0x100 <= m.keycode <= 0x150 then [(m.keycode, m.down)] else []
  {
    hide LinuxEvents;
    FlatMapLinux(LinuxButton, m);
  }

  lemma WinButtonOfMessage(m: Message)
    ensures WinButtonsOf(m) ==
              if m.MouseClick? && ClickFlag(m.button, m.pressed).Some? then [(ButtonCode(m.button), m.pressed)] else []
  {
    hide EvdevToVk, IsExtendedVk, AsU32;
    OverWin(WinButton, WinScroll, m);
  }

  lemma {:induction false} ButtonOfCallback(last: Option<Point>, e: HookInput)
    ensures FlatMap(LinuxButtonsOf, Offered(Captured(last, e))) == SourceButton(e)
    ensures FlatMap(WinButtonsOf, Offered(Captured(last, e))) == SourceButton(e)
  {
    hide VkToEvdev, LinuxButtonsOf, WinButtonsOf;
    match Captured(last, e)
    case None =>
    case Some(m) =>
      LinuxButtonOfMessage(m);
      WinButtonOfMessage(m);
      FlatMapOne(LinuxButtonsOf, m);
      FlatMapOne(WinButtonsOf, m);
      if e.Keyboard? { TablesAgree(e.vkCode); }
  }

  /** For every run of hook callbacks, both kinds of sink see exactly the button presses and
      releases of the source. */
  lemma ButtonsFollow(last: Option<Point>, es: seq<HookInput>)
    ensures FlatMap(LinuxButton, LinuxEventsOf(CapturedAll(last, es))) == FlatMap(SourceButton, es)
    ensures FlatMap(WinButton, WinEventsOf(CapturedAll(last, es))) == FlatMap(SourceButton, es)
  {
    hide LinuxEvents, WinEvents, Captured, SourceButton;
    forall l: Option<Point>, e: HookInput
      ensures FlatMap(LinuxButtonsOf, Offered(Captured(l, e))) == SourceButton(e)
      ensures FlatMap(WinButtonsOf, Offered(Captured(l, e))) == SourceButton(e)
    {
      ButtonOfCallback(l, e);
    }
    var ms := CapturedAll(last, es);
    FlatMapFuse(LinuxEvents, LinuxButton, LinuxButtonsOf, ms);
    FlatMapFuse(WinEvents, WinButton, WinButtonsOf, ms);
    TraceOfRun(LinuxButtonsOf, SourceButton, last, es);
    TraceOfRun(WinButtonsOf, SourceButton, last, es);
  }
}
