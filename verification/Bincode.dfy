/** The bincode 1.3 encoding of `Message`: fixed-width little-endian integers, u32 variant
    tags in declaration order, u64 length prefixes, one-byte `bool` and `Option` tags.

    `PutX(v, rest)` is the encoding of `v` followed by `rest`; `ParseX` reads a `v` off the
    front of its input. Each `ParseX` promises that what it accepts is canonical: the input
    is exactly the encoding of the value it returns followed by what it left. */
module Bincode {
  import opened Protocol

  datatype Parse<+T> = Bad | Got(value: T, rest: seq<u8>) {
    predicate IsFailure() { Bad? }
    function PropagateFailure<U>(): Parse<U> requires Bad? { Bad }
    function Extract(): (T, seq<u8>) requires Got? { (value, rest) }
  }

  // ---- Integers ----------------------------------------------------------------

  function Pow256(k: nat): (p: nat)
    ensures p > 0
  {
    if k == 0 then 1 else 256 * Pow256(k - 1)
  }

  /** `n` as `k` little-endian bytes, followed by `rest`. */
  function PutUint(n: nat, k: nat, rest: seq<u8>): seq<u8> {
    if k == 0 then rest else [n % 256] + PutUint(n / 256, k - 1, rest)
  }

  function ParseUint(k: nat, s: seq<u8>): (p: Parse<nat>)
    ensures p.Got? ==> p.value < Pow256(k) && s == PutUint(p.value, k, p.rest)
  {
    if k == 0 then Got(0, s)
    else if s == [] then Bad
    else
      var (high, rest) :- ParseUint(k - 1, s[1..]);
      Got(s[0] + 256 * high, rest)
  }

  lemma {:induction false} UintRoundTrip(n: nat, k: nat, rest: seq<u8>)
    requires n < Pow256(k)
    ensures ParseUint(k, PutUint(n, k, rest)) == Got(n, rest)
  {
    if k > 0 {
      UintRoundTrip(n / 256, k - 1, rest);
      assert PutUint(n, k, rest)[1..] == PutUint(n / 256, k - 1, rest);
    }
  }

  lemma {:induction false} UintAppend(n: nat, k: nat, r1: seq<u8>, r2: seq<u8>)
    ensures PutUint(n, k, r1) + r2 == PutUint(n, k, r1 + r2)
    ensures |PutUint(n, k, r1)| == k + |r1|
  {
    if k > 0 {
      UintAppend(n / 256, k - 1, r1, r2);
    }
  }

  lemma {:induction false} DivideTwice(n: nat, p: nat)
    requires p > 0
    ensures n / (256 * p) == n / 256 / p
  {
    var q, r := n / 256 / p, n / 256 % p;
    assert n / 256 == p * q + r;
    var low := 256 * r + n % 256;
    assert n == (256 * p) * q + low && 0 <= low < 256 * p;
    QuotientIsUnique(n, 256 * p, q, low);
  }

  lemma {:induction false} QuotientIsUnique(n: nat, d: nat, q: nat, r: nat)
    requires d > 0 && n == d * q + r && r < d
    ensures n / d == q
  {
    var q', r' := n / d, n % d;
    assert n == d * q' + r' && 0 <= r' < d;
    assert d * (q' - q) == d * q' - d * q && d * (q - q') == d * q - d * q';
    if q < q' {
      AtLeastOnce(d, q' - q);
    } else if q' < q {
      AtLeastOnce(d, q - q');
    }
  }

  lemma AtLeastOnce(d: nat, x: nat)
    requires x >= 1
    ensures d * x >= d
  {
  }

  /** Byte `i` has weight `256^i`. */
  lemma {:induction false} UintIsLittleEndian(n: nat, k: nat, rest: seq<u8>, i: nat)
    requires i < k
    ensures |PutUint(n, k, rest)| == k + |rest| && PutUint(n, k, rest)[i] == n / Pow256(i) % 256
  {
    UintAppend(n, k, rest, []);
    if i > 0 {
      UintIsLittleEndian(n / 256, k - 1, rest, i - 1);
      DivideTwice(n, Pow256(i - 1));
    }
  }

  // Widths in bytes.
  const U16_WIDTH: nat := 2
  const U32_WIDTH: nat := 4
  const U64_WIDTH: nat := 8

  lemma WidthOfUints()
    ensures Pow256(U16_WIDTH) == 0x1_0000
    ensures Pow256(U32_WIDTH) == 0x1_0000_0000
    ensures Pow256(U64_WIDTH) == 0x1_0000_0000_0000_0000
  {
    assert Pow256(3) == 0x100_0000;
    assert Pow256(5) == 0x100_0000_0000;
    assert Pow256(6) == 0x1_0000_0000_0000;
    assert Pow256(7) == 0x100_0000_0000_0000;
  }

  function PutU16(x: u16, rest: seq<u8>): seq<u8> { PutUint(x, U16_WIDTH, rest) }
  function PutU32(x: u32, rest: seq<u8>): seq<u8> { PutUint(x, U32_WIDTH, rest) }
  function PutU64(x: u64, rest: seq<u8>): seq<u8> { PutUint(x, U64_WIDTH, rest) }

  /** Two's complement. */
  function PutI32(x: i32, rest: seq<u8>): seq<u8> {
    PutU32(if x < 0 then x + 0x1_0000_0000 else x, rest)
  }

  function ParseU16(s: seq<u8>): (p: Parse<u16>)
    ensures p.Got? ==> s == PutU16(p.value, p.rest)
  {
    WidthOfUints();
    var (n, rest) :- ParseUint(U16_WIDTH, s);
    Got(n, rest)
  }

  function ParseU32(s: seq<u8>): (p: Parse<u32>)
    ensures p.Got? ==> s == PutU32(p.value, p.rest)
  {
    WidthOfUints();
    var (n, rest) :- ParseUint(U32_WIDTH, s);
    Got(n, rest)
  }

  function ParseU64(s: seq<u8>): (p: Parse<u64>)
    ensures p.Got? ==> s == PutU64(p.value, p.rest)
  {
    WidthOfUints();
    var (n, rest) :- ParseUint(U64_WIDTH, s);
    Got(n, rest)
  }

  function ParseI32(s: seq<u8>): (p: Parse<i32>)
    ensures p.Got? ==> s == PutI32(p.value, p.rest)
  {
    var (n, rest) :- ParseU32(s);
    Got(if n < 0x8000_0000 then n else n - 0x1_0000_0000, rest)
  }

  // ---- Bytes, texts, tags --------------------------------------------------------

  function PutBytes(b: Bytes, rest: seq<u8>): seq<u8> { PutU64(|b|, b + rest) }

  function ParseBytes(s: seq<u8>): (p: Parse<Bytes>)
    ensures p.Got? ==> s == PutBytes(p.value, p.rest)
  {
    var (n, r) :- ParseU64(s);
    // A slice of the input is itself an allocation, so the cap on lengths never bites.
    if n <= |r| && n <= ISIZE_MAX then
      assert r == r[..n] + r[n..];
      Got(r[..n], r[n..])
    else Bad
  }

  function ParseText(s: seq<u8>): (p: Parse<Text>)
    ensures p.Got? ==> s == PutBytes(p.value, p.rest)
  {
    var (b, rest) :- ParseBytes(s);
    if ValidUtf8(b) then Got(b, rest) else Bad
  }

  function ParseUuid(s: seq<u8>): (p: Parse<Uuid>)
    ensures p.Got? ==> s == PutBytes(p.value, p.rest)
  {
    var (b, rest) :- ParseBytes(s);
    if |b| == 16 then Got(b, rest) else Bad
  }

  function PutBool(b: bool, rest: seq<u8>): seq<u8> { [if b then 1 else 0] + rest }

  function ParseBool(s: seq<u8>): (p: Parse<bool>)
    ensures p.Got? ==> s == PutBool(p.value, p.rest)
  {
    if s != [] && s[0] <= 1 then Got(s[0] == 1, s[1..]) else Bad
  }

  function PutOptionText(o: Option<Text>, rest: seq<u8>): seq<u8> {
    match o
    case None => PutBool(false, rest)
    case Some(t) => PutBool(true, PutBytes(t, rest))
  }

  function ParseOptionText(s: seq<u8>): (p: Parse<Option<Text>>)
    ensures p.Got? ==> s == PutOptionText(p.value, p.rest)
  {
    var (some, r) :- ParseBool(s);
    if !some then Got(None, r) else
      var (t, rest) :- ParseText(r);
      Got(Some(t), rest)
  }

  function ButtonTag(b: MouseButton): u32 {
    match b
    case Left => 0 case Right => 1 case Middle => 2 case Back => 3 case Forward => 4
  }

  function ParseButton(s: seq<u8>): (p: Parse<MouseButton>)
    ensures p.Got? ==> s == PutU32(ButtonTag(p.value), p.rest)
  {
    var (tag, rest) :- ParseU32(s);
    if tag == 0 then Got(Left, rest)
    else if tag == 1 then Got(Right, rest)
    else if tag == 2 then Got(Middle, rest)
    else if tag == 3 then Got(Back, rest)
    else if tag == 4 then Got(Forward, rest)
    else Bad
  }

  // ---- Records ---------------------------------------------------------------------

  function PutScreen(c: ScreenInfo, rest: seq<u8>): seq<u8> {
    PutU32(c.width, PutU32(c.height, rest))
  }

  function ParseScreen(s: seq<u8>): (p: Parse<ScreenInfo>)
    ensures p.Got? ==> s == PutScreen(p.value, p.rest)
  {
    var (w, r) :- ParseU32(s);
    var (h, rest) :- ParseU32(r);
    Got(ScreenInfo(w, h), rest)
  }

  function PutHello(h: Hello, rest: seq<u8>): seq<u8> {
    PutU16(h.protocolVersion, PutBytes(h.peerId, PutBytes(h.hostname, PutScreen(h.screen, rest))))
  }

  function ParseHello(s: seq<u8>): (p: Parse<Hello>)
    ensures p.Got? ==> s == PutHello(p.value, p.rest)
  {
    var (version, r) :- ParseU16(s);
    var (id, r) :- ParseUuid(r);
    var (host, r) :- ParseText(r);
    var (screen, rest) :- ParseScreen(r);
    Got(HelloFields(version, id, host, screen), rest)
  }

  function PutModifiers(m: KeyModifiers, rest: seq<u8>): seq<u8> {
    PutBool(m.shift, PutBool(m.ctrl, PutBool(m.alt, PutBool(m.meta, rest))))
  }

  function ParseModifiers(s: seq<u8>): (p: Parse<KeyModifiers>)
    ensures p.Got? ==> s == PutModifiers(p.value, p.rest)
  {
    var (shift, r) :- ParseBool(s);
    var (ctrl, r) :- ParseBool(r);
    var (alt, r) :- ParseBool(r);
    var (meta, rest) :- ParseBool(r);
    Got(KeyModifiers(shift, ctrl, alt, meta), rest)
  }

  function PutPair(a: i32, b: i32, rest: seq<u8>): seq<u8> { PutI32(a, PutI32(b, rest)) }

  function ParsePair(s: seq<u8>): (p: Parse<(i32, i32)>)
    ensures p.Got? ==> s == PutPair(p.value.0, p.value.1, p.rest)
  {
    var (a, r) :- ParseI32(s);
    var (b, rest) :- ParseI32(r);
    Got((a, b), rest)
  }

  // ---- Variants with more than one field ----------------------------------------------

  function PutAck(accepted: bool, reason: Option<Text>, rest: seq<u8>): seq<u8> {
    PutBool(accepted, PutOptionText(reason, rest))
  }

  function ParseAck(s: seq<u8>): (p: Parse<Message>)
    ensures p.Got? ==> p.value.HelloAck? && s == PutAck(p.value.accepted, p.value.reason, p.rest)
  {
    var (accepted, r) :- ParseBool(s);
    var (reason, rest) :- ParseOptionText(r);
    Got(HelloAck(accepted, reason), rest)
  }

  function PutClick(b: MouseButton, pressed: bool, rest: seq<u8>): seq<u8> {
    PutU32(ButtonTag(b), PutBool(pressed, rest))
  }

  function ParseClick(s: seq<u8>): (p: Parse<Message>)
    ensures p.Got? ==> p.value.MouseClick? && s == PutClick(p.value.button, p.value.pressed, p.rest)
  {
    var (b, r) :- ParseButton(s);
    var (pressed, rest) :- ParseBool(r);
    Got(MouseClick(b, pressed), rest)
  }

  function PutKey(keycode: u32, down: bool, mods: KeyModifiers, rest: seq<u8>): seq<u8> {
    PutU32(keycode, PutBool(down, PutModifiers(mods, rest)))
  }

  function ParseKey(s: seq<u8>): (p: Parse<Message>)
    ensures p.Got? ==> p.value.KeyEvent? && s == PutKey(p.value.keycode, p.value.down, p.value.modifiers, p.rest)
  {
    var (keycode, r) :- ParseU32(s);
    var (down, r) :- ParseBool(r);
    var (mods, rest) :- ParseModifiers(r);
    Got(KeyEvent(keycode, down, mods), rest)
  }

  function PutClipboard(mime: Text, data: Bytes, rest: seq<u8>): seq<u8> {
    PutBytes(mime, PutBytes(data, rest))
  }

  function ParseClipboard(s: seq<u8>): (p: Parse<Message>)
    ensures p.Got? ==> p.value.ClipboardUpdate? && s == PutClipboard(p.value.mime, p.value.data, p.rest)
  {
    var (mime, r) :- ParseText(s);
    var (data, rest) :- ParseBytes(r);
    Got(ClipboardUpdate(mime, data), rest)
  }

  // ---- Messages ----------------------------------------------------------------------

  function Tag(m: Message): u32 {
    match m
    case Hello(_) => 0
    case HelloAck(_, _) => 1
    case EnterScreen(_, _) => 2
    case LeaveScreen => 3
    case MouseMove(_, _) => 4
    case MouseWarp(_, _) => 5
    case MouseClick(_, _) => 6
    case MouseWheel(_, _) => 7
    case KeyEvent(_, _, _) => 8
    case ClipboardUpdate(_, _) => 9
    case Ping(_) => 10
    case Pong(_) => 11
  }

  function PutBody(m: Message, rest: seq<u8>): seq<u8> {
    match m
    case Hello(h) => PutHello(h, rest)
    case HelloAck(a, reason) => PutAck(a, reason, rest)
    case EnterScreen(x, y) => PutPair(x, y, rest)
    case LeaveScreen => rest
    case MouseMove(dx, dy) => PutPair(dx, dy, rest)
    case MouseWarp(x, y) => PutPair(x, y, rest)
    case MouseClick(b, p) => PutClick(b, p, rest)
    case MouseWheel(dx, dy) => PutPair(dx, dy, rest)
    case KeyEvent(k, d, mods) => PutKey(k, d, mods, rest)
    case ClipboardUpdate(mime, data) => PutClipboard(mime, data, rest)
    case Ping(n) => PutU64(n, rest)
    case Pong(n) => PutU64(n, rest)
  }

  function PutMessage(m: Message, rest: seq<u8>): seq<u8> {
    PutU32(Tag(m), PutBody(m, rest))
  }

  /** Reads the fields of variant number `tag`. */
  function ParseBody(tag: u32, s: seq<u8>): Parse<Message> {
    if tag == 0 then
      var (h, rest) :- ParseHello(s); Got(Message.Hello(h), rest)
    else if tag == 1 then ParseAck(s)
    else if tag == 2 then
      var (p, rest) :- ParsePair(s); Got(EnterScreen(p.0, p.1), rest)
    else if tag == 3 then Got(LeaveScreen, s)
    else if tag == 4 then
      var (p, rest) :- ParsePair(s); Got(MouseMove(p.0, p.1), rest)
    else if tag == 5 then
      var (p, rest) :- ParsePair(s); Got(MouseWarp(p.0, p.1), rest)
    else if tag == 6 then ParseClick(s)
    else if tag == 7 then
      var (p, rest) :- ParsePair(s); Got(MouseWheel(p.0, p.1), rest)
    else if tag == 8 then ParseKey(s)
    else if tag == 9 then ParseClipboard(s)
    else if tag == 10 then
      var (n, rest) :- ParseU64(s); Got(Ping(n), rest)
    else if tag == 11 then
      var (n, rest) :- ParseU64(s); Got(Pong(n), rest)
    else Bad
  }

  function ParseMessage(s: seq<u8>): Parse<Message> {
    var (tag, r) :- ParseU32(s);
    ParseBody(tag, r)
  }

  /** `bincode::serialize` */
  function Serialize(m: Message): seq<u8> { PutMessage(m, []) }

  /** `bincode::deserialize`, which tolerates trailing bytes. */
  function Deserialize(s: seq<u8>): Option<Message> {
    match ParseMessage(s)
    case Bad => None
    case Got(m, _) => Some(m)
  }

  // ---- Canonical form --------------------------------------------------------------------

  lemma BodyCanonical(tag: u32, s: seq<u8>)
    requires ParseBody(tag, s).Got?
    ensures var p := ParseBody(tag, s); Tag(p.value) == tag && s == PutBody(p.value, p.rest)
  {
    hide ParseHello, ParseAck, ParseClick, ParseKey, ParseClipboard, ParsePair, ParseU64;
    hide PutHello, PutAck, PutClick, PutKey, PutClipboard, PutPair, PutU64;
  }

  lemma MessageCanonical(s: seq<u8>)
    requires ParseMessage(s).Got?
    ensures var p := ParseMessage(s); s == PutMessage(p.value, p.rest)
  {
    hide ParseBody, PutBody, PutU32;
    var head := ParseU32(s);
    BodyCanonical(head.value, head.rest);
  }

  // ---- Round trip -----------------------------------------------------------------------

  lemma U16RoundTrip(x: u16, rest: seq<u8>)
    ensures ParseU16(PutU16(x, rest)) == Got(x, rest)
  {
    WidthOfUints();
    UintRoundTrip(x, U16_WIDTH, rest);
  }

  lemma U32RoundTrip(x: u32, rest: seq<u8>)
    ensures ParseU32(PutU32(x, rest)) == Got(x, rest)
  {
    WidthOfUints();
    UintRoundTrip(x, U32_WIDTH, rest);
  }

  lemma U64RoundTrip(x: u64, rest: seq<u8>)
    ensures ParseU64(PutU64(x, rest)) == Got(x, rest)
  {
    WidthOfUints();
    UintRoundTrip(x, U64_WIDTH, rest);
  }

  lemma {:induction false} BytesRoundTrip(b: Bytes, rest: seq<u8>)
    ensures ParseBytes(PutBytes(b, rest)) == Got(b, rest)
    ensures ValidUtf8(b) ==> ParseText(PutBytes(b, rest)) == Got(b, rest)
    ensures |b| == 16 ==> ParseUuid(PutBytes(b, rest)) == Got(b, rest)
  {
    U64RoundTrip(|b|, b + rest);
    assert (b + rest)[..|b|] == b && (b + rest)[|b|..] == rest;
  }

  lemma PairRoundTrip(a: i32, b: i32, rest: seq<u8>)
    ensures ParsePair(PutPair(a, b, rest)) == Got((a, b), rest)
  {
    U32RoundTrip(if b < 0 then b + 0x1_0000_0000 else b, rest);
    U32RoundTrip(if a < 0 then a + 0x1_0000_0000 else a, PutI32(b, rest));
  }

  lemma HelloRoundTrip(h: Hello, rest: seq<u8>)
    ensures ParseHello(PutHello(h, rest)) == Got(h, rest)
  {
    U32RoundTrip(h.screen.height, rest);
    U32RoundTrip(h.screen.width, PutU32(h.screen.height, rest));
    var r := PutScreen(h.screen, rest);
    BytesRoundTrip(h.hostname, r);
    BytesRoundTrip(h.peerId, PutBytes(h.hostname, r));
    U16RoundTrip(h.protocolVersion, PutBytes(h.peerId, PutBytes(h.hostname, r)));
  }

  lemma BoolRoundTrip(b: bool, rest: seq<u8>)
    ensures ParseBool(PutBool(b, rest)) == Got(b, rest)
  {
    assert PutBool(b, rest)[1..] == rest;
  }

  lemma OptionTextRoundTrip(o: Option<Text>, rest: seq<u8>)
    ensures ParseOptionText(PutOptionText(o, rest)) == Got(o, rest)
  {
    match o
    case None => BoolRoundTrip(false, rest);
    case Some(t) =>
      BytesRoundTrip(t, rest);
      BoolRoundTrip(true, PutBytes(t, rest));
  }

  lemma KeyRoundTrip(k: u32, d: bool, mods: KeyModifiers, rest: seq<u8>)
    ensures ParseKey(PutKey(k, d, mods, rest)) == Got(KeyEvent(k, d, mods), rest)
  {
    BoolRoundTrip(mods.meta, rest);
    var r1 := PutBool(mods.meta, rest);
    BoolRoundTrip(mods.alt, r1);
    var r2 := PutBool(mods.alt, r1);
    BoolRoundTrip(mods.ctrl, r2);
    var r3 := PutBool(mods.ctrl, r2);
    BoolRoundTrip(mods.shift, r3);
    var r4 := PutBool(mods.shift, r3);
    assert ParseModifiers(r4) == Got(mods, rest);
    BoolRoundTrip(d, r4);
    U32RoundTrip(k, PutBool(d, r4));
  }

  lemma ClickRoundTrip(b: MouseButton, p: bool, rest: seq<u8>)
    ensures ParseClick(PutClick(b, p, rest)) == Got(MouseClick(b, p), rest)
  {
    BoolRoundTrip(p, rest);
    U32RoundTrip(ButtonTag(b), PutBool(p, rest));
  }

  lemma AckRoundTrip(a: bool, reason: Option<Text>, rest: seq<u8>)
    ensures ParseAck(PutAck(a, reason, rest)) == Got(HelloAck(a, reason), rest)
  {
    OptionTextRoundTrip(reason, rest);
    BoolRoundTrip(a, PutOptionText(reason, rest));
  }

  lemma ClipboardRoundTrip(mime: Text, data: Bytes, rest: seq<u8>)
    ensures ParseClipboard(PutClipboard(mime, data, rest)) == Got(ClipboardUpdate(mime, data), rest)
  {
    BytesRoundTrip(data, rest);
    BytesRoundTrip(mime, PutBytes(data, rest));
  }

  lemma BodyRoundTrip(m: Message, rest: seq<u8>)
    ensures ParseBody(Tag(m), PutBody(m, rest)) == Got(m, rest)
  {
    hide ParseHello, ParseAck, ParseClick, ParseKey, ParseClipboard, ParsePair, ParseU64;
    hide PutHello, PutAck, PutClick, PutKey, PutClipboard, PutPair, PutU64;
    match m
    case Hello(h) => HelloRoundTrip(h, rest);
    case HelloAck(a, reason) => AckRoundTrip(a, reason, rest);
    case EnterScreen(x, y) => PairRoundTrip(x, y, rest);
    case LeaveScreen =>
    case MouseMove(dx, dy) => PairRoundTrip(dx, dy, rest);
    case MouseWarp(x, y) => PairRoundTrip(x, y, rest);
    case MouseClick(b, p) => ClickRoundTrip(b, p, rest);
    case MouseWheel(dx, dy) => PairRoundTrip(dx, dy, rest);
    case KeyEvent(k, d, mods) => KeyRoundTrip(k, d, mods, rest);
    case ClipboardUpdate(mime, data) => ClipboardRoundTrip(mime, data, rest);
    case Ping(n) => U64RoundTrip(n, rest);
    case Pong(n) => U64RoundTrip(n, rest);
  }

  lemma MessageRoundTrip(m: Message, rest: seq<u8>)
    ensures ParseMessage(PutMessage(m, rest)) == Got(m, rest)
  {
    U32RoundTrip(Tag(m), PutBody(m, rest));
    BodyRoundTrip(m, rest);
  }

  // ---- Self-delimitation --------------------------------------------------------------------

  lemma BytesAppend(b: Bytes, r1: seq<u8>, r2: seq<u8>)
    ensures PutBytes(b, r1) + r2 == PutBytes(b, r1 + r2)
  {
    hide PutUint, ValidUtf8;
    UintAppend(|b|, U64_WIDTH, b + r1, r2);
    assert b + r1 + r2 == b + (r1 + r2);
  }

  lemma PairAppend(a: i32, b: i32, r1: seq<u8>, r2: seq<u8>)
    ensures PutPair(a, b, r1) + r2 == PutPair(a, b, r1 + r2)
    ensures |PutPair(a, b, r1)| == 8 + |r1|
  {
    UintAppend(if b < 0 then b + 0x1_0000_0000 else b, U32_WIDTH, r1, r2);
    UintAppend(if a < 0 then a + 0x1_0000_0000 else a, U32_WIDTH, PutI32(b, r1), r2);
  }

  lemma HelloAppend(h: Hello, r1: seq<u8>, r2: seq<u8>)
    ensures PutHello(h, r1) + r2 == PutHello(h, r1 + r2)
  {
    UintAppend(h.screen.height, U32_WIDTH, r1, r2);
    UintAppend(h.screen.width, U32_WIDTH, PutU32(h.screen.height, r1), r2);
    var r := PutScreen(h.screen, r1);
    BytesAppend(h.hostname, r, r2);
    BytesAppend(h.peerId, PutBytes(h.hostname, r), r2);
    UintAppend(h.protocolVersion, U16_WIDTH, PutBytes(h.peerId, PutBytes(h.hostname, r)), r2);
  }

  lemma KeyAppend(k: u32, d: bool, mods: KeyModifiers, r1: seq<u8>, r2: seq<u8>)
    ensures PutKey(k, d, mods, r1) + r2 == PutKey(k, d, mods, r1 + r2)
    ensures |PutKey(k, d, mods, r1)| == 9 + |r1|
  {
    assert PutModifiers(mods, r1) + r2 == PutModifiers(mods, r1 + r2);
    var r := PutBool(d, PutModifiers(mods, r1));
    assert r + r2 == PutBool(d, PutModifiers(mods, r1 + r2));
    UintAppend(k, U32_WIDTH, r, r2);
  }

  lemma ClickAppend(b: MouseButton, p: bool, r1: seq<u8>, r2: seq<u8>)
    ensures PutClick(b, p, r1) + r2 == PutClick(b, p, r1 + r2)
    ensures |PutClick(b, p, r1)| == 5 + |r1|
  {
    assert PutBool(p, r1) + r2 == PutBool(p, r1 + r2);
    UintAppend(ButtonTag(b), U32_WIDTH, PutBool(p, r1), r2);
  }

  lemma AckAppend(a: bool, reason: Option<Text>, r1: seq<u8>, r2: seq<u8>)
    ensures PutAck(a, reason, r1) + r2 == PutAck(a, reason, r1 + r2)
  {
    if reason.Some? { BytesAppend(reason.value, r1, r2); }
    assert PutOptionText(reason, r1) + r2 == PutOptionText(reason, r1 + r2);
  }

  lemma ClipboardAppend(mime: Text, data: Bytes, r1: seq<u8>, r2: seq<u8>)
    ensures PutClipboard(mime, data, r1) + r2 == PutClipboard(mime, data, r1 + r2)
  {
    BytesAppend(data, r1, r2);
    BytesAppend(mime, PutBytes(data, r1), r2);
  }

  lemma BodyAppend(m: Message, r1: seq<u8>, r2: seq<u8>)
    ensures PutBody(m, r1) + r2 == PutBody(m, r1 + r2)
  {
    match m
    case Hello(h) => HelloAppend(h, r1, r2);
    case HelloAck(a, reason) => AckAppend(a, reason, r1, r2);
    case EnterScreen(x, y) => PairAppend(x, y, r1, r2);
    case LeaveScreen =>
    case MouseMove(dx, dy) => PairAppend(dx, dy, r1, r2);
    case MouseWarp(x, y) => PairAppend(x, y, r1, r2);
    case MouseClick(b, p) => ClickAppend(b, p, r1, r2);
    case MouseWheel(dx, dy) => PairAppend(dx, dy, r1, r2);
    case KeyEvent(k, d, mods) => KeyAppend(k, d, mods, r1, r2);
    case ClipboardUpdate(mime, data) => ClipboardAppend(mime, data, r1, r2);
    case Ping(n) => UintAppend(n, U64_WIDTH, r1, r2);
    case Pong(n) => UintAppend(n, U64_WIDTH, r1, r2);
  }

  lemma MessageAppend(m: Message, rest: seq<u8>)
    ensures PutMessage(m, rest) == Serialize(m) + rest
  {
    assert [] + rest == rest;
    BodyAppend(m, [], rest);
    UintAppend(Tag(m), U32_WIDTH, PutBody(m, []), rest);
  }

  // ---- Main results ------------------------------------------------------------------------

  /** Serializing and deserializing gives the message back, whatever follows it. */
  lemma SerializeRoundTrip(m: Message, trailing: seq<u8>)
    ensures Deserialize(Serialize(m) + trailing) == Some(m)
  {
    MessageRoundTrip(m, trailing);
    MessageAppend(m, trailing);
  }

  /** Whatever `Deserialize` accepts starts with the one encoding of the message it returns:
      no message has two encodings, and re-encoding never grows a payload. */
  lemma CanonicalPayload(payload: seq<u8>)
    requires Deserialize(payload).Some?
    ensures Serialize(Deserialize(payload).value) <= payload
  {
    hide ParseBody, PutBody;
    var p := ParseMessage(payload);
    MessageCanonical(payload);
    MessageAppend(p.value, p.rest);
  }

  /** `Deserialize` accepts exactly the encodings, with anything behind them. */
  lemma DeserializesExactly(s: seq<u8>, m: Message)
    ensures Deserialize(s) == Some(m) <==> Serialize(m) <= s
  {
    hide Serialize, Deserialize;
    if Deserialize(s).Some? { CanonicalPayload(s); }
    if Serialize(m) <= s {
      var rest := s[|Serialize(m)|..];
      assert s == Serialize(m) + rest;
      SerializeRoundTrip(m, rest);
    }
  }

  /** No encoding is a prefix of another one. */
  lemma PrefixFree(a: Message, b: Message)
    requires Serialize(a) <= Serialize(b)
    ensures a == b
  {
    hide Serialize, Deserialize;
    var rest := Serialize(b)[|Serialize(a)|..];
    assert Serialize(b) == Serialize(a) + rest;
    SerializeRoundTrip(a, rest);
    SerializeRoundTrip(b, []);
    assert Serialize(b) + [] == Serialize(b);
  }
}
