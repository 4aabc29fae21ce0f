/** The entities of the wire protocol: machine integers, texts and the `Message` type
    that every other module speaks about. */
module Protocol {

  // Rust's fixed-width integers. Arithmetic that can leave the range is wrapped explicitly.
  type u8 = x: int | 0 <= x < 0x100
  type u16 = x: int | 0 <= x < 0x1_0000
  type u32 = x: int | 0 <= x < 0x1_0000_0000
  type u64 = x: int | 0 <= x < 0x1_0000_0000_0000_0000
  type i16 = x: int | -0x8000 <= x < 0x8000
  type i32 = x: int | -0x8000_0000 <= x < 0x8000_0000

  /** `x as u32` reinterpreted as `i32`, and what a release build stores when an `i32`
      operation overflows. */
  function WrapI32(x: int): (r: i32)
    ensures (r - x) % 0x1_0000_0000 == 0
    ensures -0x8000_0000 <= x < 0x8000_0000 ==> r == x
  {
    var m := x % 0x1_0000_0000;
    if m < 0x8000_0000 then m else m - 0x1_0000_0000
  }

  datatype Option<+T> = None | Some(value: T)

  datatype Result<+T, +E> = Ok(value: T) | Err(error: E)

  // ---- Texts ---------------------------------------------------------------

  predicate IsTail(b: u8) { 0x80 <= b <= 0xBF }

  /** Length of the well-formed UTF-8 character at the head of `s`, or 0 when there is
      none (the syntax of section 4 of RFC 3629). */
  function Utf8CharLength(s: seq<u8>): (n: nat)
    requires s != []
    ensures n <= |s|
  {
    var b := s[0];
    if b <= 0x7F then 1
    else if 0xC2 <= b <= 0xDF then
      if |s| >= 2 && IsTail(s[1]) then 2 else 0
    else if 0xE0 <= b <= 0xEF then
      if |s| >= 3
         && (if b == 0xE0 then 0xA0 <= s[1] <= 0xBF
             else if b == 0xED then 0x80 <= s[1] <= 0x9F
             else IsTail(s[1]))
         && IsTail(s[2]) then 3 else 0
    else if 0xF0 <= b <= 0xF4 then
      if |s| >= 4
         && (if b == 0xF0 then 0x90 <= s[1] <= 0xBF
             else if b == 0xF4 then 0x80 <= s[1] <= 0x8F
             else IsTail(s[1]))
         && IsTail(s[2]) && IsTail(s[3]) then 4 else 0
    else 0
  }

  predicate ValidUtf8(s: seq<u8>) {
    s == [] || (Utf8CharLength(s) > 0 && ValidUtf8(s[Utf8CharLength(s)..]))
  }

  // A Rust allocation never exceeds isize::MAX bytes.
  const ISIZE_MAX: nat := 0x7FFF_FFFF_FFFF_FFFF

  /** `Vec<u8>` */
  type Bytes = s: seq<u8> | |s| <= ISIZE_MAX

  /** `String` */
  type Text = s: seq<u8> | |s| <= ISIZE_MAX && ValidUtf8(s)

  type Ascii = s: string | forall i :: 0 <= i < |s| ==> s[i] < 128 as char

  /** The bytes of an ASCII literal. */
  function AsciiBytes(s: Ascii): (r: seq<u8>)
    ensures |r| == |s| && ValidUtf8(r)
  {
    if s == "" then [] else
      var tail: Ascii := s[1..];
      var r := [s[0] as int] + AsciiBytes(tail);
      assert r[1..] == AsciiBytes(tail);
      r
  }

  // ---- Messages --------------------------------------------------------------

  const PROTOCOL_VERSION: u16 := 1

  type Uuid = s: seq<u8> | |s| == 16 witness seq(16, _ => 0)

  datatype ScreenInfo = ScreenInfo(width: u32, height: u32)

  datatype Hello = HelloFields(protocolVersion: u16, peerId: Uuid, hostname: Text, screen: ScreenInfo)

  datatype MouseButton = Left | Right | Middle | Back | Forward

  datatype KeyModifiers = KeyModifiers(shift: bool, ctrl: bool, alt: bool, meta: bool)

  datatype Message =
    | Hello(hello: Hello)
    | HelloAck(accepted: bool, reason: Option<Text>)
    | EnterScreen(ex: i32, ey: i32)
    | LeaveScreen
    | MouseMove(dx: i32, dy: i32)
    | MouseWarp(x: i32, y: i32)
    | MouseClick(button: MouseButton, pressed: bool)  // `Message::MouseButton`
    | MouseWheel(wdx: i32, wdy: i32)
    | KeyEvent(keycode: u32, down: bool, modifiers: KeyModifiers)
    | ClipboardUpdate(mime: Text, data: Bytes)
    | Ping(nonce: u64)
    | Pong(pnonce: u64)

  datatype ProtocolError =
    | Io
    | Encode
    | FrameTooLarge(size: nat)
    | VersionMismatch(peer: u16, ours: u16)
}
