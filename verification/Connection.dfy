/** One direction of a connection: frames written at one end, a FIFO byte stream that is
    delivered in pieces of any size, and a framed reader at the other end. */
module Connection {
  import opened Protocol
  import opened Codec

  /** `sent` and `decoded` record every message written to and read from the link;
      `wire` holds bytes written but not delivered, `rx` bytes delivered but not decoded. */
  datatype Link = Link(
    sent: seq<Sendable>,
    wire: seq<u8>,
    rx: seq<u8>,
    decoded: seq<Message>,
    broken: bool)

  const FRESH := Link([], [], [], [], false)

  function Write(l: Link, m: Sendable): Link {
    l.(sent := l.sent + [m], wire := l.wire + FrameOf(m))
  }

  /** The next `n` bytes reach the reader's buffer. */
  function Deliver(l: Link, n: nat): Link
    requires n <= |l.wire|
  {
    l.(rx := l.rx + l.wire[..n], wire := l.wire[n..])
  }

  /** The reader calls `decode` once; a decoding error ends its loop. */
  function Read(l: Link): Link {
    if l.broken then l else
      match DecodeStep(l.rx)
      case NeedMore => l
      case Frame(m, rest) => l.(rx := rest, decoded := l.decoded + [m])
      case Fail(_, left) => l.(rx := left, broken := true)
  }

  /** The messages written but not yet decoded. */
  function Pending(l: Link): seq<Sendable>
    requires |l.decoded| <= |l.sent|
  {
    l.sent[|l.decoded|..]
  }

  /** What was decoded is a prefix of what was written, the bytes in between are exactly
      the encoding of the messages in between, and no decoding error has occurred. */
  predicate Faithful(l: Link) {
    && l.decoded <= l.sent
    && l.rx + l.wire == EncodeAll(Pending(l))
    && !l.broken
  }

  lemma WriteInv(l: Link, m: Sendable)
    requires Faithful(l)
    ensures Faithful(Write(l, m))
    ensures Pending(Write(l, m)) == Pending(l) + [m]
  {
    hide FrameOf, DecodeStep, Fits;
    var l' := Write(l, m);
    assert l'.sent[|l'.decoded|..] == Pending(l) + [m];
    EncodeAllAppend(Pending(l), [m]);
    assert EncodeAll([m]) == FrameOf(m) + EncodeAll([]);
    assert EncodeAll([m]) == FrameOf(m);
    assert l'.rx + l'.wire == (l.rx + l.wire) + FrameOf(m);
  }

  lemma DeliverInv(l: Link, n: nat)
    requires Faithful(l) && n <= |l.wire|
    ensures Faithful(Deliver(l, n))
    ensures Pending(Deliver(l, n)) == Pending(l)
  {
    hide FrameOf, DecodeStep, Fits;
    var l' := Deliver(l, n);
    assert l.wire == l.wire[..n] + l.wire[n..];
    assert l'.rx + l'.wire == l.rx + l.wire;
  }

  /** Reading either does nothing or decodes exactly the next message that was written. */
  lemma {:induction false} ReadInv(l: Link)
    requires Faithful(l)
    ensures Faithful(Read(l))
    ensures Read(l) == l
            || (Pending(l) != [] && Read(l).decoded == l.decoded + [Pending(l)[0]]
                && Pending(Read(l)) == Pending(l)[1..])
  {
    hide FrameOf, DecodeStep, Fits;
    var next := Pending(l);
    StepStable(l.rx, l.wire);
    if next == [] {
      assert l.rx == [];
      EmptyNeedsMore();
    } else {
      FrameDecodes(next[0], EncodeAll(next[1..]));
      match DecodeStep(l.rx)
      case Frame(m, rest) =>
        var l' := Read(l);
        assert m == next[0] && rest + l.wire == EncodeAll(next[1..]);
        assert l'.decoded == l.sent[..|l.decoded| + 1];
        assert Pending(l') == next[1..];
      case _ =>
    }
  }

  /** As long as a frame is complete, reading uses up bytes. */
  lemma ReadShrinks(l: Link)
    requires Faithful(l) && !DecodeStep(l.rx).NeedMore?
    ensures |Read(l).rx| < |l.rx| && Read(l).wire == l.wire
  {
    hide FrameOf, DecodeStep, Fits, EncodeAll;
    ReadInv(l);
    StepAccounts(l.rx);
    assert !DecodeStep(l.rx).Fail?;
  }

  /** Once everything was delivered and the reader asks for more, everything was decoded. */
  lemma DrainedLink(l: Link)
    requires Faithful(l) && l.wire == [] && DecodeStep(l.rx).NeedMore?
    ensures l.decoded == l.sent
  {
    hide FrameOf, DecodeStep, Fits;
    var next := Pending(l);
    assert l.rx + [] == l.rx;
    if next != [] {
      FrameDecodes(next[0], EncodeAll(next[1..]));
    }
  }
}
