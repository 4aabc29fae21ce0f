/** The bytes that go over the wire, message by message, written out without the encoder: a peer
    that knows only this format understands every frame. */
module Wire {
  import opened Protocol
  import opened Bincode

  // Little-endian integers; negative ones in two's complement.
  function Le16(n: u16): seq<u8> { [n % 256, n / 256] }

  function Le32(n: u32): seq<u8> { [n % 256, n / 256 % 256, n / 0x1_0000 % 256, n / 0x100_0000] }

  function Le64(n: u64): seq<u8> {
    [n % 256, n / 256 % 256, n / 0x1_0000 % 256, n / 0x100_0000 % 256,
     n / 0x1_0000_0000 % 256, n / 0x100_0000_0000 % 256, n / 0x1_0000_0000_0000 % 256, n / 0x100_0000_0000_0000]
  }

  function LeSigned(x: i32): seq<u8> { Le32(x % 0x1_0000_0000) }

  function Bit(b: bool): seq<u8> { [if b then 1 else 0] }

  /** A byte string or text behind its length. */
  function Prefixed(b: Bytes): seq<u8> { Le64(|b|) + b }

  // ---- Integers --------------------------------------------------------------------------

  lemma PutOneMore(n: nat, k: nat, rest: seq<u8>)
    ensures PutUint(n, k + 1, rest) == [n % 256] + PutUint(n / 256, k, rest)
    ensures PutUint(n, 0, rest) == rest
  {
  }

  lemma PutFour(n: nat, k: nat, rest: seq<u8>)
    ensures PutUint(n, k + 4, rest)
            == [n % 256, n / 256 % 256, n / 0x1_0000 % 256, n / 0x100_0000 % 256]
               + PutUint(n / 0x1_0000_0000, k, rest)
  {
    hide PutUint;
    PutOneMore(n, k + 3, rest);
    PutOneMore(n / 256, k + 2, rest);
    PutOneMore(n / 256 / 256, k + 1, rest);
    PutOneMore(n / 256 / 256 / 256, k, rest);
    Quarters(n);
  }

  lemma Quarters(n: nat)
    ensures n / 256 / 256 == n / 0x1_0000
    ensures n / 256 / 256 / 256 == n / 0x100_0000
    ensures n / 256 / 256 / 256 / 256 == n / 0x1_0000_0000
  {
  }

  lemma U16Bytes(n: u16, rest: seq<u8>)
    ensures PutU16(n, rest) == Le16(n) + rest
  {
    hide PutUint;
    PutOneMore(n, 1, rest);
    PutOneMore(n / 256, 0, rest);
    PutOneMore(n / 256 / 256, 0, rest);
  }

  lemma U32Bytes(n: u32, rest: seq<u8>)
    ensures PutU32(n, rest) == Le32(n) + rest
  {
    hide PutUint;
    PutFour(n, 0, rest);
    PutOneMore(n, 0, rest);
    PutOneMore(n / 0x1_0000_0000, 0, rest);
  }

  lemma U64Bytes(n: u64, rest: seq<u8>)
    ensures PutU64(n, rest) == Le64(n) + rest
  {
    hide PutUint;
    PutFour(n, 4, rest);
    PutFour(n / 0x1_0000_0000, 0, rest);
    PutOneMore(n / 0x1_0000_0000 / 0x1_0000_0000, 0, rest);
    UpperQuarters(n);
  }

  lemma UpperQuarters(n: u64)
    ensures var high: nat := n / 0x1_0000_0000;
            && high / 256 == n / 0x100_0000_0000 && high / 0x1_0000 == n / 0x1_0000_0000_0000
            && high / 0x100_0000 == n / 0x100_0000_0000_0000
            && high / 0x100_0000 % 256 == high / 0x100_0000 && high / 0x1_0000_0000 == 0
  {
  }

  // ---- Fields --------------------------------------------------------------------------------

  lemma I32Bytes(x: i32, rest: seq<u8>)
    ensures PutI32(x, rest) == LeSigned(x) + rest
  {
    hide PutU32, Le32;
    U32Bytes(if x < 0 then x + 0x1_0000_0000 else x, rest);
  }

  lemma PrefixedBytes(b: Bytes, rest: seq<u8>)
    ensures PutBytes(b, rest) == Prefixed(b) + rest
  {
    hide PutU64, Le64, ValidUtf8;
    U64Bytes(|b|, b + rest);
    assert Le64(|b|) + (b + rest) == Le64(|b|) + b + rest;
  }

  /** Numbers of the mouse buttons, in declaration order. */
  function ButtonNumber(b: MouseButton): u32 {
    if b.Left? then 0 else if b.Right? then 1 else if b.Middle? then 2 else if b.Back? then 3 else 4
  }

  function HelloBytes(h: Hello): seq<u8> {
    Le16(h.protocolVersion) + Prefixed(h.peerId) + Prefixed(h.hostname) + Le32(h.screen.width) + Le32(h.screen.height)
  }

  lemma HelloFields(h: Hello)
    ensures PutHello(h, []) == HelloBytes(h)
  {
    hide PutU16, PutBytes, PutU32, Le16, Le32, Prefixed, ValidUtf8;
    var height := Le32(h.screen.height);
    U32Bytes(h.screen.height, []);
    assert height + [] == height;
    U32Bytes(h.screen.width, height);
    PrefixedBytes(h.hostname, Le32(h.screen.width) + height);
    PrefixedBytes(h.peerId, Prefixed(h.hostname) + (Le32(h.screen.width) + height));
    U16Bytes(h.protocolVersion, Prefixed(h.peerId) + (Prefixed(h.hostname) + (Le32(h.screen.width) + height)));
  }

  function AckBytes(accepted: bool, reason: Option<Text>): seq<u8> {
    Bit(accepted) + match reason
                    case None => [0]
                    case Some(t) => [1] + Prefixed(t)
  }

  lemma AckFields(accepted: bool, reason: Option<Text>)
    ensures PutAck(accepted, reason, []) == AckBytes(accepted, reason)
  {
    hide PutBytes, Prefixed, ValidUtf8;
    match reason
    case None =>
    case Some(t) => PrefixedBytes(t, []); assert Prefixed(t) + [] == Prefixed(t);
  }

  lemma PairFields(a: i32, b: i32)
    ensures PutPair(a, b, []) == LeSigned(a) + LeSigned(b)
  {
    hide PutI32, LeSigned;
    I32Bytes(b, []);
    assert LeSigned(b) + [] == LeSigned(b);
    I32Bytes(a, LeSigned(b));
  }

  lemma ClickFields(b: MouseButton, pressed: bool)
    ensures PutClick(b, pressed, []) == Le32(ButtonNumber(b)) + Bit(pressed)
  {
    hide PutU32, Le32;
    U32Bytes(ButtonTag(b), Bit(pressed));
    assert PutBool(pressed, []) == Bit(pressed);
  }

  lemma KeyFields(keycode: u32, down: bool, mods: KeyModifiers)
    ensures PutKey(keycode, down, mods, [])
            == Le32(keycode) + Bit(down) + Bit(mods.shift) + Bit(mods.ctrl) + Bit(mods.alt) + Bit(mods.meta)
  {
    hide PutU32, Le32;
    U32Bytes(keycode, PutBool(down, PutModifiers(mods, [])));
  }

  lemma ClipboardFields(mime: Text, data: Bytes)
    ensures PutClipboard(mime, data, []) == Prefixed(mime) + Prefixed(data)
  {
    hide PutBytes, Prefixed, ValidUtf8;
    PrefixedBytes(data, []);
    assert Prefixed(data) + [] == Prefixed(data);
    PrefixedBytes(mime, Prefixed(data));
  }

  // ---- Messages ---------------------------------------------------------------------------------

  lemma Tagged(m: Message)
    ensures Serialize(m) == Le32(Tag(m)) + PutBody(m, [])
  {
    hide PutBody, PutU32, Le32;
    U32Bytes(Tag(m), PutBody(m, []));
  }

  lemma NumberBytes(k: u8)
    ensures Le32(k) == [k, 0, 0, 0]
  {
  }

  lemma {:induction false} BodyFormat(m: Message)
    ensures PutBody(m, []) ==
              match m
              case Hello(h) => HelloBytes(h)
              case HelloAck(accepted, reason) => AckBytes(accepted, reason)
              case EnterScreen(x, y) => LeSigned(x) + LeSigned(y)
              case LeaveScreen => []
              case MouseMove(dx, dy) => LeSigned(dx) + LeSigned(dy)
              case MouseWarp(x, y) => LeSigned(x) + LeSigned(y)
              case MouseClick(b, pressed) => Le32(ButtonNumber(b)) + Bit(pressed)
              case MouseWheel(dx, dy) => LeSigned(dx) + LeSigned(dy)
              case KeyEvent(keycode, down, mods) =>
                Le32(keycode) + Bit(down) + Bit(mods.shift) + Bit(mods.ctrl) + Bit(mods.alt) + Bit(mods.meta)
              case ClipboardUpdate(mime, data) => Prefixed(mime) + Prefixed(data)
              case Ping(nonce) => Le64(nonce)
              case Pong(nonce) => Le64(nonce)
  {
    hide PutHello, PutAck, PutPair, PutClick, PutKey, PutClipboard, PutU64;
    hide HelloBytes, AckBytes, LeSigned, Le32, Le64, Prefixed, Bit, ButtonNumber, ValidUtf8;
    match m
    case Hello(h) => HelloFields(h);
    case HelloAck(accepted, reason) => AckFields(accepted, reason);
    case EnterScreen(x, y) => PairFields(x, y);
    case LeaveScreen =>
    case MouseMove(dx, dy) => PairFields(dx, dy);
    case MouseWarp(x, y) => PairFields(x, y);
    case MouseClick(b, pressed) => ClickFields(b, pressed);
    case MouseWheel(dx, dy) => PairFields(dx, dy);
    case KeyEvent(keycode, down, mods) => KeyFields(keycode, down, mods);
    case ClipboardUpdate(mime, data) => ClipboardFields(mime, data);
    case Ping(nonce) => U64Bytes(nonce, []); assert Le64(nonce) + [] == Le64(nonce);
    case Pong(nonce) => U64Bytes(nonce, []); assert Le64(nonce) + [] == Le64(nonce);
  }

  /** The format of every message: four bytes with its position in the declaration, then its
      fields in order. */
  lemma {:induction false} WireFormat(m: Message)
    ensures Serialize(m) ==
              match m
              case Hello(h) => [0, 0, 0, 0] + HelloBytes(h)
              case HelloAck(accepted, reason) => [1, 0, 0, 0] + AckBytes(accepted, reason)
              case EnterScreen(x, y) => [2, 0, 0, 0] + (LeSigned(x) + LeSigned(y))
              case LeaveScreen => [3, 0, 0, 0]
              case MouseMove(dx, dy) => [4, 0, 0, 0] + (LeSigned(dx) + LeSigned(dy))
              case MouseWarp(x, y) => [5, 0, 0, 0] + (LeSigned(x) + LeSigned(y))
              case MouseClick(b, pressed) => [6, 0, 0, 0] + (Le32(ButtonNumber(b)) + Bit(pressed))
              case MouseWheel(dx, dy) => [7, 0, 0, 0] + (LeSigned(dx) + LeSigned(dy))
              case KeyEvent(keycode, down, mods) =>
                [8, 0, 0, 0] + (Le32(keycode) + Bit(down)
                                + Bit(mods.shift) + Bit(mods.ctrl) + Bit(mods.alt) + Bit(mods.meta))
              case ClipboardUpdate(mime, data) => [9, 0, 0, 0] + (Prefixed(mime) + Prefixed(data))
              case Ping(nonce) => [10, 0, 0, 0] + Le64(nonce)
              case Pong(nonce) => [11, 0, 0, 0] + Le64(nonce)
  {
    hide Serialize, PutBody, Le32, HelloBytes, AckBytes, LeSigned, Le64, Prefixed, Bit, ButtonNumber, ValidUtf8;
    Tagged(m);
    BodyFormat(m);
    NumberBytes(Tag(m));
  }
}
