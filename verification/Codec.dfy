/** Length-prefixed framing: `MessageCodec` over a growing buffer, the loop that drains it,
    and what they mean for a byte stream cut into arbitrary chunks. */
module Codec {
  import opened Protocol
  import opened Bincode

  const MAX_FRAME_BYTES: nat := 16 * 1024 * 1024

  // ---- Frames ------------------------------------------------------------------

  /** The header: `n` as four big-endian bytes. */
  function PutLength(n: u32): (s: seq<u8>)
    ensures |s| == 4
  {
    var n1: nat := n / 0x100;
    var n2: nat := n1 / 0x100;
    [n2 / 0x100, n2 % 0x100, n1 % 0x100, n % 0x100]
  }

  function GetLength(s: seq<u8>): u32
    requires |s| >= 4
  {
    var b0: int, b1: int, b2: int, b3: int := s[0], s[1], s[2], s[3];
    ((b0 * 0x100 + b1) * 0x100 + b2) * 0x100 + b3
  }

  predicate Fits(m: Message) { |Serialize(m)| <= MAX_FRAME_BYTES }

  function FrameOf(m: Sendable): seq<u8> {
    PutLength(|Serialize(m)|) + Serialize(m)
  }

  /** A message the encoder accepts. */
  type Sendable = m: Message | Fits(m) witness LeaveScreen

  function EncodeAll(ms: seq<Sendable>): seq<u8> {
    if ms == [] then [] else FrameOf(ms[0]) + EncodeAll(ms[1..])
  }

  // ---- One decoding step ------------------------------------------------------------

  /** What one call of `decode` finds at the head of the buffer, and the buffer it leaves. */
  datatype Outcome =
    | NeedMore
    | Frame(msg: Message, rest: seq<u8>)
    | Fail(error: ProtocolError, left: seq<u8>)

  function DecodeStep(s: seq<u8>): (o: Outcome)
    ensures o.Frame? ==> |o.rest| <= |s| - 4
  {
    if |s| < 4 then NeedMore else
      var len := GetLength(s);
      if len > MAX_FRAME_BYTES then Fail(FrameTooLarge(len), s)
      else if |s| < 4 + len then NeedMore
      else match Deserialize(s[4..4 + len])
        case Some(m) => Frame(m, s[4 + len..])
        case None => Fail(Encode, s[4 + len..])
  }

  // ---- The codec over its buffer -------------------------------------------------------

  function Max(a: nat, b: nat): nat { if a < b then b else a }

  /** The part of `BytesMut` the codec uses. `requested` is the largest total size any
      `Reserve` has asked the allocator for. */
  class BytesMut {
    var data: seq<u8>
    var requested: nat

    constructor ()
      ensures data == [] && requested == 0
    {
      data, requested := [], 0;
    }

    method Reserve(additional: nat)
      modifies this`requested
      ensures requested == Max(old(requested), |data| + additional)
    {
      if |data| + additional > requested { requested := |data| + additional; }
    }

    method Advance(n: nat)
      requires n <= |data|
      modifies this`data
      ensures data == old(data)[n..]
    {
      data := data[n..];
    }

    method SplitTo(n: nat) returns (head: seq<u8>)
      requires n <= |data|
      modifies this`data
      ensures head == old(data)[..n] && data == old(data)[n..]
    {
      head, data := data[..n], data[n..];
    }

    method ExtendFromSlice(s: seq<u8>)
      modifies this`data
      ensures data == old(data) + s
    {
      data := data + s;
    }
  }

  /** `Decoder::decode`. When a frame is incomplete it makes room for all of it, and however long
      a frame the header announces, it never asks for more than a maximal frame's worth of
      memory. */
  method Decode(src: BytesMut) returns (r: Result<Option<Message>, ProtocolError>)
    modifies src
    ensures match DecodeStep(old(src.data))
            case NeedMore => r == Ok(None) && src.data == old(src.data)
            case Frame(m, rest) => r == Ok(Some(m)) && src.data == rest
            case Fail(e, left) => r == Err(e) && src.data == left
    ensures |src.data| >= 4 && GetLength(src.data) > 0x100_0000 && src.data == old(src.data) ==>
              r == Err(FrameTooLarge(GetLength(src.data)))
    ensures src.requested == if r == Ok(None) && |src.data| >= 4
                             then Max(old(src.requested), 4 + GetLength(src.data)) else old(src.requested)
    ensures src.requested <= Max(old(src.requested), 4 + MAX_FRAME_BYTES)
  {
    if |src.data| < 4 { return Ok(None); }
    var len := GetLength(src.data);
    if len > MAX_FRAME_BYTES { return Err(FrameTooLarge(len)); }
    if |src.data| < 4 + len {
      src.Reserve(4 + len - |src.data|);
      return Ok(None);
    }
    src.Advance(4);
    var payload := src.SplitTo(len);
    assert payload == old(src.data)[4..4 + len] && src.data == old(src.data)[4 + len..];
    match Deserialize(payload)
    case Some(m) => return Ok(Some(m));
    case None => return Err(Encode);
  }

  /** `Encoder::encode`: appends exactly one frame, or rejects the message and leaves the
      buffer alone. */
  method EncodeTo(item: Message, dst: BytesMut) returns (r: Result<(), ProtocolError>)
    modifies dst
    ensures Fits(item) ==> r == Ok(()) && dst.data == old(dst.data) + FrameOf(item)
    ensures !Fits(item) ==> r == Err(FrameTooLarge(|Serialize(item)|)) && dst.data == old(dst.data)
    ensures dst.requested == if Fits(item) then Max(old(dst.requested), |dst.data|) else old(dst.requested)
  {
    hide Serialize;
    var payload := Serialize(item);
    if |payload| > MAX_FRAME_BYTES { return Err(FrameTooLarge(|payload|)); }
    dst.Reserve(4 + |payload|);
    dst.ExtendFromSlice(PutLength(|payload|));
    dst.ExtendFromSlice(payload);
    assert old(dst.data) + PutLength(|payload|) + payload == old(dst.data) + FrameOf(item);
    return Ok(());
  }

  // ---- Draining a buffer ----------------------------------------------------------------

  /** What a read loop has produced: the messages in order, the error that ended it if any,
      and the bytes still buffered. */
  datatype Progress = Progress(msgs: seq<Message>, error: Option<ProtocolError>, buffer: seq<u8>)

  const START := Progress([], None, [])

  /** Decode until `None` or an error. */
  function Drain(s: seq<u8>): (p: Progress)
    ensures p.error.None? ==> DecodeStep(p.buffer).NeedMore?
    decreases |s|
  {
    match DecodeStep(s)
    case NeedMore => Progress([], None, s)
    case Fail(e, left) => Progress([], Some(e), left)
    case Frame(m, rest) =>
      var p := Drain(rest);
      Progress([m] + p.msgs, p.error, p.buffer)
  }

  /** A chunk arrives: append it and drain. The loop is over once an error was seen. */
  function Feed(p: Progress, chunk: seq<u8>): Progress {
    if p.error.Some? then p else
      var d := Drain(p.buffer + chunk);
      Progress(p.msgs + d.msgs, d.error, d.buffer)
  }

  function FeedAll(p: Progress, chunks: seq<seq<u8>>): Progress
    decreases |chunks|
  {
    if chunks == [] then p else FeedAll(Feed(p, chunks[0]), chunks[1..])
  }

  function Concat(chunks: seq<seq<u8>>): seq<u8> {
    if chunks == [] then [] else chunks[0] + Concat(chunks[1..])
  }

  /** `Framed`'s read half with the loop around it: `source.next()` until nothing more
      can be decoded. */
  class FrameReader {
    const buf: BytesMut
    var msgs: seq<Message>
    var error: Option<ProtocolError>

    constructor ()
      ensures fresh(buf) && Seen() == START && buf.requested == 0
    {
      buf := new BytesMut();
      msgs, error := [], None;
    }

    function Seen(): Progress
      reads this, buf
    {
      Progress(msgs, error, buf.data)
    }

    /** Bytes held after an error-free drain, and bytes asked for, stay below one maximal
        frame, whatever the peer sends. */
    method Receive(chunk: seq<u8>)
      modifies this, buf
      ensures Seen() == Feed(old(Seen()), chunk)
      ensures buf.requested <= Max(old(buf.requested), 4 + MAX_FRAME_BYTES)
      ensures error.None? ==> |buf.data| < 4 + MAX_FRAME_BYTES
    {
      hide DecodeStep;
      if error.Some? { return; }
      buf.ExtendFromSlice(chunk);
      ghost var whole := Drain(buf.data);
      ghost var before := msgs;
      var more := true;
      while more
        invariant error.None?
        invariant before + whole.msgs == msgs + Drain(buf.data).msgs
        invariant whole.error == Drain(buf.data).error && whole.buffer == Drain(buf.data).buffer
        invariant !more ==> DecodeStep(buf.data).NeedMore?
        invariant buf.requested <= Max(old(buf.requested), 4 + MAX_FRAME_BYTES)
        decreases more, |buf.data|
      {
        var r := Decode(buf);
        match r
        case Ok(Some(m)) => msgs := msgs + [m];
        case Ok(None) => more := false;
        case Err(e) => error := Some(e); return;
      }
      StepAccounts(buf.data);
    }
  }

  // ---- A step is stable under more input ---------------------------------------------------

  /** The first header byte is the most significant one. */
  lemma LengthRoundTrip(n: u32, rest: seq<u8>)
    ensures var s := PutLength(n);
            n == s[0] as int * 0x100_0000 + s[1] as int * 0x1_0000 + s[2] as int * 0x100 + s[3] as int
    ensures GetLength(PutLength(n) + rest) == n
  {
    var n1: nat := n / 0x100;
    var n2: nat := n1 / 0x100;
    assert n == n1 * 0x100 + n % 0x100 && n1 == n2 * 0x100 + n1 % 0x100 && n2 == n2 / 0x100 * 0x100 + n2 % 0x100;
  }

  lemma EmptyNeedsMore()
    ensures DecodeStep([]) == NeedMore && Drain([]) == START
  {
  }

  /** More input never changes what was already decided. */
  lemma StepStable(s: seq<u8>, more: seq<u8>)
    ensures match DecodeStep(s)
            case NeedMore => true
            case Frame(m, rest) => DecodeStep(s + more) == Frame(m, rest + more)
            case Fail(e, left) => DecodeStep(s + more) == Fail(e, left + more)
  {
    hide Deserialize;
    if |s| >= 4 {
      var len := GetLength(s);
      assert GetLength(s + more) == len;
      if len <= MAX_FRAME_BYTES && |s| >= 4 + len {
        assert (s + more)[4..4 + len] == s[4..4 + len];
        assert (s + more)[4 + len..] == s[4 + len..] + more;
      }
    }
  }

  lemma {:induction false} FrameDecodes(m: Sendable, rest: seq<u8>)
    ensures DecodeStep(FrameOf(m) + rest) == Frame(m, rest)
  {
    hide Serialize, Deserialize, PutLength, GetLength;
    var s := FrameOf(m) + rest;
    var len := |Serialize(m)|;
    assert s == PutLength(len) + (Serialize(m) + rest);
    LengthRoundTrip(len, Serialize(m) + rest);
    assert s[4..4 + len] == Serialize(m) && s[4 + len..] == rest;
    SerializeRoundTrip(m, []);
    assert Serialize(m) + [] == Serialize(m);
  }

  /** Every buffer with a whole header is the header of some length and what follows it. */
  lemma HeaderIsLength(s: seq<u8>)
    requires |s| >= 4
    ensures s == PutLength(GetLength(s)) + s[4..]
  {
    var b0: int, b1: int, b2: int, b3: int := s[0], s[1], s[2], s[3];
    var n: nat := GetLength(s);
    assert n == ((b0 * 0x100 + b1) * 0x100 + b2) * 0x100 + b3;
    assert n / 0x100 == (b0 * 0x100 + b1) * 0x100 + b2;
    assert n / 0x100 / 0x100 == b0 * 0x100 + b1;
    assert PutLength(n) == s[..4];
  }

  /** A header that announces more than 16 MiB is rejected at once, whatever has arrived behind
      it, and nothing is consumed. */
  lemma OverlongHeader(n: u32, more: seq<u8>)
    requires n > 0x100_0000
    ensures DecodeStep(PutLength(n) + more) == Fail(FrameTooLarge(n), PutLength(n) + more)
  {
    hide Deserialize, GetLength, PutLength;
    LengthRoundTrip(n, more);
  }

  /** A shorter frame is waited for until all of it has arrived. */
  lemma IncompleteFrame(n: u32, part: seq<u8>)
    requires |part| < n <= 0x100_0000
    ensures DecodeStep(PutLength(n) + part) == NeedMore
  {
    hide Deserialize, GetLength, PutLength;
    LengthRoundTrip(n, part);
  }

  /** A complete frame is consumed whole and yields what its payload deserializes to: a message,
      or an error that leaves exactly the bytes behind the frame. */
  lemma CompleteFrame(payload: seq<u8>, more: seq<u8>)
    requires |payload| <= 0x100_0000
    ensures DecodeStep(PutLength(|payload|) + payload + more) ==
              match Deserialize(payload)
              case Some(m) => Frame(m, more)
              case None => Fail(Encode, more)
  {
    hide Deserialize, GetLength, PutLength;
    var s := PutLength(|payload|) + payload + more;
    assert s == PutLength(|payload|) + (payload + more);
    LengthRoundTrip(|payload|, payload + more);
    assert s[4..4 + |payload|] == payload && s[4 + |payload|..] == more;
  }

  /** The two ends agree on the cap: a message's frame is one the decoder takes if and only if
      the encoder accepts the message. */
  lemma {:induction false} EncodableIffDecodable(m: Message, more: seq<u8>)
    requires |Serialize(m)| < 0x1_0000_0000
    ensures Fits(m) <==> DecodeStep(PutLength(|Serialize(m)|) + Serialize(m) + more) == Frame(m, more)
  {
    hide Serialize, Deserialize, GetLength, PutLength, DecodeStep;
    var payload := Serialize(m);
    SerializeRoundTrip(m, []);
    assert payload + [] == payload;
    if |payload| <= 0x100_0000 {
      CompleteFrame(payload, more);
    } else {
      OverlongHeader(|payload|, payload + more);
      assert PutLength(|payload|) + payload + more == PutLength(|payload|) + (payload + more);
    }
  }

  lemma {:induction false} EncodeAllAppend(a: seq<Sendable>, b: seq<Sendable>)
    ensures EncodeAll(a + b) == EncodeAll(a) + EncodeAll(b)
  {
    hide Fits, FrameOf, EncodeAll;
    EncodeAllOnce(a);
    if a == [] {
      assert a + b == b;
    } else {
      var ab := a + b;
      EncodeAllAppend(a[1..], b);
      EncodeAllOnce(ab);
      assert ab[0] == a[0] && ab[1..] == a[1..] + b;
    }
  }

  lemma {:induction false} EncodeAllOnce(ms: seq<Sendable>)
    ensures EncodeAll(ms) == if ms == [] then [] else FrameOf(ms[0]) + EncodeAll(ms[1..])
  {
    hide Fits, FrameOf;
  }

  /** One more message read is one less to come. */
  lemma Regroup(seen: seq<Message>, m: Message, todo: seq<Message>)
    ensures seen + ([m] + todo) == (seen + [m]) + todo
  {
  }

  lemma {:induction false} ConcatSplit(chunks: seq<seq<u8>>, n: nat)
    requires n <= |chunks|
    ensures Concat(chunks) == Concat(chunks[..n]) + Concat(chunks[n..])
  {
    if n == 0 {
      assert chunks[..0] == [] && chunks[0..] == chunks;
    } else {
      ConcatSplit(chunks[1..], n - 1);
      assert chunks[1..][..n - 1] == chunks[..n][1..] && chunks[1..][n - 1..] == chunks[n..];
      assert chunks[..n] == [chunks[0]] + chunks[..n][1..];
    }
  }

  lemma ConcatSnoc(chunks: seq<seq<u8>>, i: nat)
    requires i < |chunks|
    ensures Concat(chunks[..i + 1]) == Concat(chunks[..i]) + chunks[i]
  {
    var upto := chunks[..i + 1];
    ConcatSplit(upto, i);
    assert upto[..i] == chunks[..i] && upto[i..] == [chunks[i]];
    assert Concat([chunks[i]]) == chunks[i] + Concat([]);
  }

  // ---- Main results ---------------------------------------------------------------------------

  lemma {:induction false} DrainOnce(s: seq<u8>)
    ensures Drain(s) ==
              match DecodeStep(s)
              case NeedMore => Progress([], None, s)
              case Fail(e, left) => Progress([], Some(e), left)
              case Frame(m, rest) => Progress([m] + Drain(rest).msgs, Drain(rest).error, Drain(rest).buffer)
  {
    hide DecodeStep;
  }

  lemma {:induction false} DrainAppend(s: seq<u8>, more: seq<u8>)
    ensures var d := Drain(s);
            if d.error.Some? then
              Drain(s + more) == Progress(d.msgs, d.error, d.buffer + more)
            else
              var d' := Drain(d.buffer + more);
              Drain(s + more) == Progress(d.msgs + d'.msgs, d'.error, d'.buffer)
    decreases |s|
  {
    hide DecodeStep, Drain;
    StepStable(s, more);
    DrainOnce(s);
    DrainOnce(s + more);
    match DecodeStep(s)
    case NeedMore => assert [] + Drain(s + more).msgs == Drain(s + more).msgs;
    case Fail(e, left) =>
    case Frame(m, rest) =>
      DrainAppend(rest, more);
      var d := Drain(rest);
      if d.error.None? {
        var d' := Drain(d.buffer + more);
        assert [m] + (d.msgs + d'.msgs) == ([m] + d.msgs) + d'.msgs;
      }
  }

  lemma {:induction false} FeedAllIsDrain(sofar: seq<u8>, chunks: seq<seq<u8>>)
    ensures var fed := FeedAll(Drain(sofar), chunks);
            var batch := Drain(sofar + Concat(chunks));
            && fed.msgs == batch.msgs && fed.error == batch.error
            && (fed.error.None? ==> fed.buffer == batch.buffer)
    decreases |chunks|
  {
    hide Drain;
    if chunks == [] {
      assert sofar + [] == sofar;
    } else {
      DrainAppend(sofar, chunks[0]);
      assert sofar + Concat(chunks) == (sofar + chunks[0]) + Concat(chunks[1..]);
      if Drain(sofar).error.None? {
        assert Feed(Drain(sofar), chunks[0]) == Drain(sofar + chunks[0]);
        FeedAllIsDrain(sofar + chunks[0], chunks[1..]);
      } else {
        FeedStops(Drain(sofar), chunks);
        DrainAppend(sofar, Concat(chunks));
      }
    }
  }

  lemma {:induction false} FeedStops(p: Progress, chunks: seq<seq<u8>>)
    requires p.error.Some?
    ensures FeedAll(p, chunks) == p
  {
    if chunks != [] { FeedStops(p, chunks[1..]); }
  }

  /** However the stream is cut into chunks, the read loop yields the same messages, the
      same first error and, without an error, the same leftover as one pass over the whole. */
  lemma {:induction false} ChunkingIndependence(chunks: seq<seq<u8>>)
    ensures var fed := FeedAll(START, chunks);
            var batch := Drain(Concat(chunks));
            && fed.msgs == batch.msgs && fed.error == batch.error
            && (fed.error.None? ==> fed.buffer == batch.buffer)
  {
    hide DecodeStep, Drain;
    EmptyNeedsMore();
    FeedAllIsDrain([], chunks);
    assert [] + Concat(chunks) == Concat(chunks);
  }

  /** After an error nothing that follows changes what was read. */
  lemma {:induction false} StopsHere(chunks: seq<seq<u8>>, n: nat)
    requires n <= |chunks| && Drain(Concat(chunks[..n])).error.Some?
    ensures var upto, whole := Drain(Concat(chunks[..n])), Drain(Concat(chunks));
            whole.error == upto.error && whole.msgs == upto.msgs
  {
    hide DecodeStep, Drain, Concat;
    ConcatSplit(chunks, n);
    DrainAppend(Concat(chunks[..n]), Concat(chunks[n..]));
  }

  /** Frames are self-delimiting: after any list of messages that fit, decoding continues
      with exactly the bytes that followed them. */
  lemma {:induction false} StreamRoundTrip(ms: seq<Sendable>, suffix: seq<u8>)
    ensures var d := Drain(suffix);
            Drain(EncodeAll(ms) + suffix) == Progress(ms + d.msgs, d.error, d.buffer)
  {
    hide DecodeStep, FrameOf, Fits, Serialize;
    if ms == [] {
      assert [] + suffix == suffix;
      assert ms + Drain(suffix).msgs == Drain(suffix).msgs;
    } else {
      StreamRoundTrip(ms[1..], suffix);
      var rest := EncodeAll(ms[1..]) + suffix;
      assert EncodeAll(ms) + suffix == FrameOf(ms[0]) + rest;
      FrameDecodes(ms[0], rest);
      assert [ms[0]] + (ms[1..] + Drain(suffix).msgs) == ms + Drain(suffix).msgs;
    }
  }

  /** A stream of frames cut off anywhere decodes without error to a prefix of its messages:
      a reader that has seen only part of the bytes has seen nothing wrong. */
  lemma {:induction false} TruncatedStream(ms: seq<Sendable>, n: nat)
    requires n <= |EncodeAll(ms)|
    ensures var d := Drain(EncodeAll(ms)[..n]); d.error.None? && d.msgs <= ms
  {
    hide DecodeStep, Drain, EncodeAll, FrameOf, Fits;
    var all := EncodeAll(ms);
    assert all == all[..n] + all[n..] == all + [];
    EmptyNeedsMore();
    StreamRoundTrip(ms, []);
    DrainAppend(all[..n], all[n..]);
    assert Drain(all).error.None? && Drain(all).msgs == ms + [] == ms;
  }

  /** A stream is a sequence of frames when each piece is a header announcing exactly the
      payload behind it, and the payload is one that `deserialize` accepts. */
  predicate IsFrameFor(piece: seq<u8>, m: Message) {
    && 4 <= |piece| <= 4 + MAX_FRAME_BYTES
    && GetLength(piece) == |piece| - 4
    && Deserialize(piece[4..]) == Some(m)
  }

  lemma StepAccounts(s: seq<u8>)
    ensures match DecodeStep(s)
            case NeedMore => |s| < 4 + MAX_FRAME_BYTES
            case Frame(m, rest) =>
              && |rest| < |s|
              && s == s[..|s| - |rest|] + rest
              && IsFrameFor(s[..|s| - |rest|], m)
              && Fits(m) && |FrameOf(m)| <= |s| - |rest|
            case Fail(_, _) => true
  {
    hide Deserialize, Serialize;
    match DecodeStep(s)
    case Frame(m, rest) =>
      var piece := s[..4 + GetLength(s)];
      assert GetLength(piece) == GetLength(s);
      assert piece[4..] == s[4..4 + GetLength(s)];
      CanonicalPayload(piece[4..]);
    case _ =>
  }

  /** Whatever frame the decoder accepts, encoding its message again gives a frame that is no
      longer and that decodes to the same message with the same bytes behind it. */
  lemma Reencoding(s: seq<u8>)
    requires DecodeStep(s).Frame?
    ensures var o := DecodeStep(s);
            && Fits(o.msg) && |FrameOf(o.msg) + o.rest| <= |s|
            && DecodeStep(FrameOf(o.msg) + o.rest) == o
  {
    hide DecodeStep, FrameOf, Fits, IsFrameFor;
    var o := DecodeStep(s);
    StepAccounts(s);
    FrameDecodes(o.msg, o.rest);
  }

  /** Byte accounting, against a definition that does not mention the decoder: what was read
      is the concatenation of one well-formed frame per message, in order, and the bytes
      still buffered; each frame is at least as long as the message's own encoding. */
  lemma {:induction false} DrainAccounts(s: seq<u8>) returns (pieces: seq<seq<u8>>)
    requires Drain(s).error.None?
    ensures |pieces| == |Drain(s).msgs|
    ensures forall i :: 0 <= i < |pieces| ==> IsFrameFor(pieces[i], Drain(s).msgs[i])
    ensures forall i :: 0 <= i < |pieces| ==>
              Fits(Drain(s).msgs[i]) && |FrameOf(Drain(s).msgs[i])| <= |pieces[i]|
    ensures s == Concat(pieces) + Drain(s).buffer
    ensures |Drain(s).buffer| < 4 + MAX_FRAME_BYTES
    decreases |s|
  {
    hide DecodeStep, IsFrameFor, Fits, FrameOf;
    match DecodeStep(s)
    case NeedMore => pieces := []; StepAccounts(s); assert s == [] + s;
    case Frame(m, rest) =>
      StepAccounts(s);
      var tail := DrainAccounts(rest);
      var piece := s[..|s| - |rest|];
      var left := Drain(rest).buffer;
      pieces := [piece] + tail;
      assert pieces[0] == piece && pieces[1..] == tail;
      assert s == piece + rest == piece + (Concat(tail) + left) == (piece + Concat(tail)) + left;
  }
}
