/** The Windows capture backend: what one hook callback does with the shared state, and the
    hook thread that performs it. */
module Capture {
  import opened Protocol
  import opened Bincode
  import opened Codec
  import opened Keycode

  const HC_ACTION: i32 := 0
  const WM_KEYDOWN: u32 := 0x100
  const WM_KEYUP: u32 := 0x101
  const WM_SYSKEYDOWN: u32 := 0x104
  const WM_SYSKEYUP: u32 := 0x105
  const WM_MOUSEMOVE: u32 := 0x200
  const WM_LBUTTONDOWN: u32 := 0x201
  const WM_LBUTTONUP: u32 := 0x202
  const WM_RBUTTONDOWN: u32 := 0x204
  const WM_RBUTTONUP: u32 := 0x205
  const WM_MBUTTONDOWN: u32 := 0x207
  const WM_MBUTTONUP: u32 := 0x208
  const WM_MOUSEWHEEL: u32 := 0x20A
  const HOTKEY_VK: u32 := 0x47
  const WHEEL_DELTA: int := 120
  const QUEUE_CAPACITY: nat := 256

  datatype Point = Point(x: i32, y: i32)

  /** What Windows passes to a callback. A keyboard callback may sample the modifier keys
      twice: at the hotkey test and when it builds the message. */
  datatype HookInput =
    | Mouse(mcode: i32, mparam: u64, pt: Point, mouseData: u32)
    | Keyboard(kcode: i32, kparam: u64, vkCode: u32, atHotkey: KeyModifiers, atMessage: KeyModifiers)

  // ---- Wheel ------------------------------------------------------------------------

  /** `(mouseData >> 16) as u16 as i16` */
  function WheelDelta(mouseData: u32): i16 {
    var high := mouseData / 0x1_0000;
    if high < 0x8000 then high else high - 0x1_0000
  }

  /** Rust's `delta / 120`, which truncates toward zero. */
  function Notches(delta: i16): i32 {
    var d: int := delta;
    if d >= 0 then d / WHEEL_DELTA else -((-d) / WHEEL_DELTA)
  }

  // ---- Messages -----------------------------------------------------------------------

  function MouseMessage(last: Option<Point>, w: u32, pt: Point, mouseData: u32): Option<Message> {
    if w == WM_MOUSEMOVE then
      match last
      case None => None
      case Some(p) => Some(MouseMove(WrapI32(pt.x - p.x), WrapI32(pt.y - p.y)))
    else if w == WM_LBUTTONDOWN then Some(MouseClick(Left, true))
    else if w == WM_LBUTTONUP then Some(MouseClick(Left, false))
    else if w == WM_RBUTTONDOWN then Some(MouseClick(Right, true))
    else if w == WM_RBUTTONUP then Some(MouseClick(Right, false))
    else if w == WM_MBUTTONDOWN then Some(MouseClick(Middle, true))
    else if w == WM_MBUTTONUP then Some(MouseClick(Middle, false))
    else if w == WM_MOUSEWHEEL then Some(MouseWheel(0, Notches(WheelDelta(mouseData))))
    else None
  }

  function Param(p: u64): u32 { p % 0x1_0000_0000 }

  predicate IsPress(w: u32) { w == WM_KEYDOWN || w == WM_SYSKEYDOWN }
  predicate IsRelease(w: u32) { w == WM_KEYUP || w == WM_SYSKEYUP }

  function KeyMessage(w: u32, vk: u32, mods: KeyModifiers): Option<Message> {
    if !IsPress(w) && !IsRelease(w) then None else
      match VkToEvdev(vk)
      case None => None
      case Some(code) => Some(KeyEvent(code, IsPress(w), mods))
  }

  /** A press of Ctrl+Alt+Shift+G. */
  predicate IsHotkey(e: HookInput) {
    && e.Keyboard? && e.kcode == HC_ACTION
    && IsPress(Param(e.kparam)) && e.vkCode == HOTKEY_VK
    && e.atHotkey.ctrl && e.atHotkey.alt && e.atHotkey.shift
  }

  /** The message one callback offers to the channel. */
  function Captured(last: Option<Point>, e: HookInput): Option<Message> {
    match e
    case Mouse(code, p, pt, data) =>
      if code != HC_ACTION then None else MouseMessage(last, Param(p), pt, data)
    case Keyboard(code, p, vk, _, mods) =>
      if code != HC_ACTION || IsHotkey(e) then None else KeyMessage(Param(p), vk, mods)
  }

  predicate IsMove(e: HookInput) {
    e.Mouse? && e.mcode == HC_ACTION && Param(e.mparam) == WM_MOUSEMOVE
  }

  function NextPos(last: Option<Point>, e: HookInput): Option<Point> {
    if IsMove(e) then Some(e.pt) else last
  }

  function NextGrab(grabbed: bool, e: HookInput): bool {
    if IsHotkey(e) then !grabbed else grabbed
  }

  /** Whether the callback keeps the event from the local applications. */
  predicate Swallowed(grabbed: bool, e: HookInput) {
    match e
    case Mouse(code, _, _, _) => code == HC_ACTION && grabbed
    case Keyboard(code, _, _, _, _) => code == HC_ACTION && (IsHotkey(e) || grabbed)
  }

  // ---- The hook thread ------------------------------------------------------------------

  /** The sending half of the bounded channel and its contents. */
  class Channel {
    var items: seq<Message>
    var closed: bool

    constructor ()
      ensures items == [] && !closed
    {
      items, closed := [], false;
    }

    method TrySend(m: Message) returns (ok: bool)
      modifies this`items
      ensures ok == (!closed && |old(items)| < QUEUE_CAPACITY)
      ensures items == if ok then old(items) + [m] else old(items)
    {
      ok := !closed && |items| < QUEUE_CAPACITY;
      if ok { items := items + [m]; }
    }
  }

  function Offer(items: seq<Message>, closed: bool, m: Option<Message>): seq<Message> {
    if m.Some? && !closed && |items| < QUEUE_CAPACITY then items + [m.value] else items
  }

  class HookThread {
    const sender: Channel
    var grabbed: bool
    var lastMousePos: Option<Point>

    constructor ()
      ensures !grabbed && lastMousePos == None && fresh(sender) && sender.items == [] && !sender.closed
    {
      sender := new Channel();
      grabbed, lastMousePos := false, None;
    }

    method MouseHookProc(code: i32, wparam: u64, pt: Point, mouseData: u32) returns (swallow: bool)
      modifies this, sender
      ensures var e := Mouse(code, wparam, pt, mouseData);
              && swallow == Swallowed(old(grabbed), e)
              && grabbed == NextGrab(old(grabbed), e)
              && lastMousePos == NextPos(old(lastMousePos), e)
              && sender.items == Offer(old(sender.items), sender.closed, Captured(old(lastMousePos), e))
              && sender.closed == old(sender.closed)
      ensures grabbed == old(grabbed) && swallow == (code == 0 && old(grabbed))
      ensures code == 0 && wparam % 0x1_0000_0000 == 0x20A && !sender.closed && |old(sender.items)| < 256 ==>
                sender.items == old(sender.items) + [MouseWheel(0, Notches(WheelDelta(mouseData)))]
    {
      if code != HC_ACTION { return false; }
      var msg: Option<Message> := None;
      var w := Param(wparam);
      if w == WM_MOUSEMOVE {
        var last := lastMousePos;
        lastMousePos := Some(pt);
        if last.Some? {
          msg := Some(MouseMove(WrapI32(pt.x - last.value.x), WrapI32(pt.y - last.value.y)));
        }
      } else if w == WM_LBUTTONDOWN {
        msg := Some(MouseClick(Left, true));
      } else if w == WM_LBUTTONUP {
        msg := Some(MouseClick(Left, false));
      } else if w == WM_RBUTTONDOWN {
        msg := Some(MouseClick(Right, true));
      } else if w == WM_RBUTTONUP {
        msg := Some(MouseClick(Right, false));
      } else if w == WM_MBUTTONDOWN {
        msg := Some(MouseClick(Middle, true));
      } else if w == WM_MBUTTONUP {
        msg := Some(MouseClick(Middle, false));
      } else if w == WM_MOUSEWHEEL {
        msg := Some(MouseWheel(0, Notches(WheelDelta(mouseData))));
      }
      if msg.Some? {
        var _ := sender.TrySend(msg.value);
      }
      return grabbed;
    }

    method KbdHookProc(code: i32, wparam: u64, vkCode: u32, atHotkey: KeyModifiers, atMessage: KeyModifiers)
      returns (swallow: bool)
      modifies this, sender
      ensures var e := Keyboard(code, wparam, vkCode, atHotkey, atMessage);
              && swallow == Swallowed(old(grabbed), e)
              && grabbed == NextGrab(old(grabbed), e)
              && lastMousePos == NextPos(old(lastMousePos), e)
              && sender.items == Offer(old(sender.items), sender.closed, Captured(old(lastMousePos), e))
              && sender.closed == old(sender.closed)
      ensures var hotkey := code == 0 && wparam % 0x1_0000_0000 in {0x100, 0x104} && vkCode == 0x47
                            && atHotkey.shift && atHotkey.ctrl && atHotkey.alt;
              && (grabbed != old(grabbed) <==> hotkey)
              && swallow == (code == 0 && (old(grabbed) || hotkey))
              && (hotkey ==> sender.items == old(sender.items))
    {
      hide VkToEvdev;
      if code != HC_ACTION { return false; }
      var w := Param(wparam);
      var pressed := IsPress(w);
      var released := IsRelease(w);
      if pressed && vkCode == HOTKEY_VK {
        if atHotkey.ctrl && atHotkey.alt && atHotkey.shift {
          grabbed := !grabbed;
          return true;
        }
      }
      if pressed || released {
        var evdev := VkToEvdev(vkCode);
        if evdev.Some? {
          var _ := sender.TrySend(KeyEvent(evdev.value, pressed, atMessage));
        }
      }
      return grabbed;
    }
  }

  // ---- Properties of single messages -------------------------------------------------------

  /** No captured message is too large for the encoder. */
  lemma CapturedFits(last: Option<Point>, e: HookInput)
    requires Captured(last, e).Some?
    ensures Fits(Captured(last, e).value)
  {
    hide VkToEvdev, PutPair, PutClick, PutKey, PutUint;
    var m := Captured(last, e).value;
    UintAppend(Tag(m), U32_WIDTH, PutBody(m, []), []);
    match m
    case MouseMove(dx, dy) => PairAppend(dx, dy, [], []);
    case MouseWheel(dx, dy) => PairAppend(dx, dy, [], []);
    case MouseClick(b, p) => ClickAppend(b, p, [], []);
    case KeyEvent(k, d, mods) => KeyAppend(k, d, mods, [], []);
    case _ =>
  }

  /** The high word of `mouseData` is read as a signed delta, whatever the low word holds. */
  lemma WheelIsSigned(delta: i16, low: u16)
    ensures WheelDelta(delta % 0x1_0000 * 0x1_0000 + low) == delta
  {
    var high: int := delta % 0x1_0000;
    assert (high * 0x1_0000 + low) / 0x1_0000 == high;
  }

  /** The notches of one wheel callback: within 119 of the delta, never beyond it, and exact for
      whole notches only. */
  lemma NotchError(delta: i16)
    ensures -119 <= WHEEL_DELTA * Notches(delta) - delta <= 119
    ensures if delta >= 0 then 0 <= 120 * Notches(delta) <= delta else delta <= 120 * Notches(delta) <= 0
    ensures WHEEL_DELTA * Notches(delta) == delta <==> delta % 120 == 0
    ensures Notches(delta) * delta >= 0
    ensures -273 <= Notches(delta) <= 273
  {
    if Notches(delta) > 0 { assert delta > 0; }
    if Notches(delta) < 0 { assert delta < 0; }
  }

  /** A mouse callback in the numbers of the Windows messages: 0x200 is a move, 0x201 to 0x208 are
      the down, up and double-click messages of the left, right and middle button, 0x20A is the
      wheel. A move carries the distance to the last position, the first one no message; the
      wheel carries whole notches and nothing sideways; all else has no message. Nothing but a
      move changes the position, no mouse event the flag. */
  lemma {:induction false} MouseCallback(last: Option<Point>, grabbed: bool, e: HookInput)
    requires e.Mouse?
    ensures var w := e.mparam % 0x1_0000_0000;
            var m := Captured(last, e);
            && (m.Some? <==> e.mcode == 0 && ((w == 0x200 && last.Some?)
                                              || (0x201 <= w <= 0x208 && (w - 0x201) % 3 != 2) || w == 0x20A))
            && (m.Some? && w == 0x200 ==>
                  && m.value.MouseMove?
                  && (m.value.dx - (e.pt.x - last.value.x)) % 0x1_0000_0000 == 0
                  && (m.value.dy - (e.pt.y - last.value.y)) % 0x1_0000_0000 == 0)
            && (m.Some? && 0x201 <= w <= 0x208 ==>
                  m == Some(MouseClick([Left, Right, Middle][(w - 0x201) / 3], (w - 0x201) % 3 == 0)))
            && (m.Some? && w == 0x20A ==> m == Some(MouseWheel(0, Notches(WheelDelta(e.mouseData)))))
            && NextPos(last, e) == (if e.mcode == 0 && w == 0x200 then Some(e.pt) else last)
            && NextGrab(grabbed, e) == grabbed && Swallowed(grabbed, e) == (e.mcode == 0 && grabbed)
  {
  }

  /** A keyboard callback in numbers: 0x100 and 0x104 are presses, 0x101 and 0x105 releases. The
      flag changes exactly on a press of G, 0x47, with Shift, Ctrl and Alt down; that press is
      swallowed and never sent. Any other press or release of a mapped key is sent with its
      code and the modifiers of that moment, and swallowed while the flag is set. */
  lemma {:induction false} KeyboardCallback(last: Option<Point>, grabbed: bool, e: HookInput)
    requires e.Keyboard?
    ensures var w := e.kparam % 0x1_0000_0000;
            var hotkey := e.kcode == 0 && w in {0x100, 0x104} && e.vkCode == 0x47
                          && e.atHotkey.shift && e.atHotkey.ctrl && e.atHotkey.alt;
            && (NextGrab(grabbed, e) != grabbed <==> hotkey) && (IsHotkey(e) <==> hotkey)
            && Captured(last, e) == (if e.kcode == 0 && w in {0x100, 0x101, 0x104, 0x105} && !hotkey
                                        && VkToEvdev(e.vkCode).Some?
                                     then Some(KeyEvent(VkToEvdev(e.vkCode).value, w in {0x100, 0x104}, e.atMessage))
                                     else None)
            && Swallowed(grabbed, e) == (e.kcode == 0 && (grabbed || hotkey))
            && NextPos(last, e) == last
  {
    hide VkToEvdev;
  }
}
