/** The injection backends: what each message becomes on the receiving machine. */
module Inject {
  import opened Protocol
  import opened Keycode
  import opened Capture
  import opened Traces

  // ---- Linux ------------------------------------------------------------------------

  datatype EventType = KEY | RELATIVE

  datatype InputEvent = InputEvent(kind: EventType, code: u16, value: i32)

  const REL_X: u16 := 0
  const REL_Y: u16 := 1
  const REL_HWHEEL: u16 := 6
  const REL_WHEEL: u16 := 8

  function ButtonCode(b: MouseButton): u16 {
    match b
    case Left => 0x110
    case Right => 0x111
    case Middle => 0x112
    case Back => 0x113
    case Forward => 0x114
  }

  function Relative(code: u16, value: i32): seq<InputEvent> {
    if value == 0 then [] else [InputEvent(RELATIVE, code, value)]
  }

  function Press(code: u16, pressed: bool): InputEvent {
    InputEvent(KEY, code, if pressed then 1 else 0)
  }

  /** The device events of one message. */
  function LinuxEvents(m: Message): seq<InputEvent> {
    match m
    case MouseMove(dx, dy) => Relative(REL_X, dx) + Relative(REL_Y, dy)
    case MouseClick(b, pressed) => [Press(ButtonCode(b), pressed)]
    case MouseWheel(dx, dy) => Relative(REL_WHEEL, dy) + Relative(REL_HWHEEL, dx)
    case KeyEvent(k, pressed, _) => if k > 0xFFFF then [] else [Press(k, pressed)]
    case _ => []
  }

  function LinuxEventsOf(ms: seq<Message>): seq<InputEvent> { FlatMap(LinuxEvents, ms) }

  /** Keyboard codes 1 to 248 and mouse buttons 0x100 to 0x150; the kernel drops the rest. */
  predicate IsRegistered(c: u16) { 1 <= c <= 248 || 0x100 <= c <= 0x150 }

  /** The uinput device: the keys it registered and what was written to it. The device may
      fail any write: `fails(n)` says whether write number `n` does. */
  class LinuxInject {
    const fails: nat -> bool
    var keys: set<u16>
    var emitted: seq<InputEvent>
    var writes: nat

    constructor (fails: nat -> bool)
      ensures forall c: u16 :: c in keys <==> 1 <= c <= 248 || 0x100 <= c <= 0x150
      ensures emitted == [] && writes == 0 && this.fails == fails
    {
      var registered: set<u16> := {};
      for code: int := 1 to 249
        invariant forall c: u16 :: c in registered <==> 1 <= c < code
      {
        registered := registered + {code};
      }
      for code: int := 0x100 to 0x151
        invariant forall c: u16 :: c in registered <==> 1 <= c <= 248 || 0x100 <= c < code
      {
        registered := registered + {code};
      }
      keys, emitted, writes, this.fails := registered, [], 0, fails;
    }

    method Handle(msg: Message) returns (r: Result<(), ()>)
      modifies this`emitted, this`writes
      ensures r.Err? <==> LinuxEvents(msg) != [] && fails(old(writes))
      ensures emitted == if r.Ok? then old(emitted) + LinuxEvents(msg) else old(emitted)
      ensures writes == old(writes) + if LinuxEvents(msg) != [] then 1 else 0
    {
      var events: seq<InputEvent> := [];
      match msg {
      case MouseMove(dx, dy) =>
        if dx != 0 { events := events + [InputEvent(RELATIVE, REL_X, dx)]; }
        if dy != 0 { events := events + [InputEvent(RELATIVE, REL_Y, dy)]; }
      case MouseClick(button, pressed) =>
        events := events + [InputEvent(KEY, ButtonCode(button), if pressed then 1 else 0)];
      case MouseWheel(dx, dy) =>
        if dy != 0 { events := events + [InputEvent(RELATIVE, REL_WHEEL, dy)]; }
        if dx != 0 { events := events + [InputEvent(RELATIVE, REL_HWHEEL, dx)]; }
      case KeyEvent(keycode, pressed, _) =>
        if keycode > 0xFFFF { return Ok(()); }
        events := events + [InputEvent(KEY, keycode, if pressed then 1 else 0)];
      case _ => return Ok(());
      }
      if events != [] {
        writes := writes + 1;
        if fails(writes - 1) { return Err(()); }
        emitted := emitted + events;
      }
      return Ok(());
    }
  }

  // ---- Windows ------------------------------------------------------------------------

  datatype MouseFlag = Move | LeftDown | LeftUp | RightDown | RightUp | MiddleDown | MiddleUp | Wheel

  /** One `SendInput` record. A key is sent as the scan code of virtual key `vk`. */
  datatype WinInput =
    | MouseInput(flag: MouseFlag, dx: i32, dy: i32, mouseData: u32)
    | KeyInput(vk: u16, extended: bool, up: bool)

  predicate IsExtendedVk(vk: u16) {
    0x21 <= vk <= 0x28 || vk == 0x2D || vk == 0x2E || vk == 0x6F || vk == 0x0D
    || vk == 0xA3 || vk == 0xA5 || vk == 0x5B || vk == 0x5C
  }

  function ClickFlag(b: MouseButton, pressed: bool): Option<MouseFlag> {
    match b
    case Left => Some(if pressed then LeftDown else LeftUp)
    case Right => Some(if pressed then RightDown else RightUp)
    case Middle => Some(if pressed then MiddleDown else MiddleUp)
    case _ => None
  }

  /** `data as u32` */
  function AsU32(x: i32): u32 { if x < 0 then x + 0x1_0000_0000 else x }

  function WinEvents(m: Message): seq<WinInput> {
    match m
    case MouseMove(dx, dy) => [MouseInput(Move, dx, dy, 0)]
    case MouseClick(b, pressed) =>
      (match ClickFlag(b, pressed)
       case Some(flag) => [MouseInput(flag, 0, 0, 0)]
       case None => [])
    case MouseWheel(_, dy) => [MouseInput(Wheel, 0, 0, AsU32(WrapI32(dy * WHEEL_DELTA)))]
    case KeyEvent(k, pressed, _) =>
      if k > 0xFFFF then [] else
        (match EvdevToVk(k)
         case Some(vk) => [KeyInput(vk, IsExtendedVk(vk), !pressed)]
         case None => [])
    case _ => []
  }

  function WinEventsOf(ms: seq<Message>): seq<WinInput> { FlatMap(WinEvents, ms) }

  class WinInject {
    var sent: seq<WinInput>

    constructor ()
      ensures sent == []
    {
      sent := [];
    }

    /** The key sent is the one whose press the capture side reports as `code`; nothing is
        sent exactly when no key, or only a punctuation key, is reported so. */
    method SendKey(code: u16, pressed: bool)
      modifies this
      ensures forall vk: u16 :: VkToEvdev(vk) == Some(code) && !IsPunctuation(vk) ==>
                sent == old(sent) + [KeyInput(vk, IsExtendedVk(vk), !pressed)]
      ensures sent == old(sent) <==>
                forall vk: u32 :: VkToEvdev(vk) == Some(code) ==> IsPunctuation(vk)
    {
      hide EvdevToVk, VkToEvdev, IsPunctuation, IsExtendedVk;
      InverseOf(code);
      var vk := EvdevToVk(code);
      if vk == None { return; }
      sent := sent + [KeyInput(vk.value, IsExtendedVk(vk.value), !pressed)];
    }

    method Handle(msg: Message)
      modifies this
      ensures sent == old(sent) + WinEvents(msg)
    {
      hide EvdevToVk, VkToEvdev, IsPunctuation, IsExtendedVk;
      match msg
      case MouseMove(dx, dy) => sent := sent + [MouseInput(Move, dx, dy, 0)];
      case MouseClick(button, pressed) =>
        var flag := ClickFlag(button, pressed);
        if flag == None { return; }
        sent := sent + [MouseInput(flag.value, 0, 0, 0)];
      case MouseWheel(_, dy) =>
        sent := sent + [MouseInput(Wheel, 0, 0, AsU32(WrapI32(dy * WHEEL_DELTA)))];
      case KeyEvent(keycode, pressed, _) =>
        if keycode <= 0xFFFF {
          InverseOf(keycode);
          SendKey(keycode, pressed);
        }
      case _ =>
    }
  }

  // ---- In the numbers of the two systems --------------------------------------------------------

  /** The events of each message in the kernel's numbers, in order: relative axes 0 and 1 for
      motion, 8 for the wheel before 6 for the horizontal one, each only if it turns; buttons
      from 0x110; and, for a press and a release, the values 1 and 0. A key code that is too
      large, and every other message, gives no event. */
  lemma LinuxInNumbers(m: Message)
    ensures LinuxEvents(m) ==
              match m
              case MouseMove(dx, dy) =>
                (if dx == 0 then [] else [InputEvent(RELATIVE, 0, dx)])
                + (if dy == 0 then [] else [InputEvent(RELATIVE, 1, dy)])
              case MouseWheel(dx, dy) =>
                (if dy == 0 then [] else [InputEvent(RELATIVE, 8, dy)])
                + (if dx == 0 then [] else [InputEvent(RELATIVE, 6, dx)])
              case MouseClick(b, pressed) =>
                [InputEvent(KEY, if b.Left? then 0x110 else if b.Right? then 0x111 else if b.Middle? then 0x112
                                 else if b.Back? then 0x113 else 0x114, if pressed then 1 else 0)]
              case KeyEvent(k, pressed, _) =>
                if k >= 0x1_0000 then [] else [InputEvent(KEY, k, if pressed then 1 else 0)]
              case _ => []
  {
  }

  /** No relative event is empty, and a key event is a press or a release, as its message is:
      never an autorepeat. */
  lemma LinuxValues(m: Message)
    ensures forall e :: e in LinuxEvents(m) ==>
              if e.kind == KEY
              then e.value == (if (m.MouseClick? && m.pressed) || (m.KeyEvent? && m.down) then 1 else 0)
              else e.value != 0
    ensures forall e :: e in LinuxEvents(m) && e.kind == KEY ==> m.MouseClick? || m.KeyEvent?
  {
  }

  /** The records of each message: a field that a record does not use is zero, a wheel record
      carries 120 times the notches modulo 2^32, a key record the key with that code, down unless
      released. Buttons beyond the third, horizontal scrolling and unknown keys give none. */
  lemma {:induction false} WindowsInNumbers(m: Message)
    ensures match m
            case MouseMove(dx, dy) => WinEvents(m) == [MouseInput(Move, dx, dy, 0)]
            case MouseWheel(_, dy) =>
              && |WinEvents(m)| == 1 && WinEvents(m)[0].MouseInput?
              && (WinEvents(m)[0].mouseData - 120 * dy) % 0x1_0000_0000 == 0
              && WinEvents(m)[0] == MouseInput(Wheel, 0, 0, WinEvents(m)[0].mouseData)
            case MouseClick(b, pressed) =>
              WinEvents(m) == if b.Left? then [MouseInput(if pressed then LeftDown else LeftUp, 0, 0, 0)]
                              else if b.Right? then [MouseInput(if pressed then RightDown else RightUp, 0, 0, 0)]
                              else if b.Middle? then [MouseInput(if pressed then MiddleDown else MiddleUp, 0, 0, 0)]
                              else []
            case KeyEvent(k, pressed, _) =>
              && (WinEvents(m) == [] <==>
                  k >= 0x1_0000 || forall vk: u32 :: VkToEvdev(vk) == Some(k) ==> IsPunctuation(vk))
              && forall vk: u16 :: VkToEvdev(vk) == Some(k) && !IsPunctuation(vk) ==>
                   WinEvents(m) == [KeyInput(vk, IsExtendedVk(vk), !pressed)]
            case _ => WinEvents(m) == []
  {
    hide VkToEvdev, EvdevToVk, IsPunctuation, IsExtendedVk;
    if m.KeyEvent? && m.keycode <= 0xFFFF { InverseOf(m.keycode); }
    if m.MouseWheel? {
      var w: int := WrapI32(m.wdy * WHEEL_DELTA);
      var d: int := AsU32(w);
      assert (w - m.wdy * 120) % 0x1_0000_0000 == 0;
      assert d == w || d == w + 0x1_0000_0000;
      SameResidue(d, w, m.wdy * 120);
    }
  }

  lemma SameResidue(d: int, w: int, x: int)
    requires (w - x) % 0x1_0000_0000 == 0 && (d == w || d == w + 0x1_0000_0000)
    ensures (d - x) % 0x1_0000_0000 == 0
  {
  }

  /** Among the keys a Windows sink can name, the extended ones are Enter and those above the
      original keyboard's codes: the right-hand modifiers, the navigation keys and the two
      Windows keys. */
  lemma ExtendedKeys(code: u16)
    requires EvdevToVk(code).Some?
    ensures IsExtendedVk(EvdevToVk(code).value) <==> code == 28 || code > 88
  {
  }
}
