/** The client's inject loop in `handle_peer`, as the loop it is. */
module Client {
  import opened Protocol
  import opened Codec
  import opened Inject
  import opened Traces

  /** How many writes to the device a list of messages asks for. */
  function Writes(ms: seq<Message>): nat {
    if ms == [] then 0 else (if LinuxEvents(ms[0]) == [] then 0 else 1) + Writes(ms[1..])
  }

  /** What the device receives for a list of messages when write `n` is the next one. */
  function Written(fails: nat -> bool, n: nat, ms: seq<Message>): seq<InputEvent>
    decreases |ms|
  {
    if ms == [] then []
    else if LinuxEvents(ms[0]) == [] then Written(fails, n, ms[1..])
    else (if fails(n) then [] else LinuxEvents(ms[0])) + Written(fails, n + 1, ms[1..])
  }

  lemma WrittenStep(fails: nat -> bool, n: nat, ms: seq<Message>)
    ensures Written(fails, n, []) == [] && Writes([]) == 0
    ensures ms != [] ==>
              var quiet := LinuxEvents(ms[0]) == [];
              && Written(fails, n, ms) == (if quiet || fails(n) then [] else LinuxEvents(ms[0]))
                                          + Written(fails, if quiet then n else n + 1, ms[1..])
              && Writes(ms) == (if quiet then 0 else 1) + Writes(ms[1..])
  {
    hide LinuxEvents;
  }

  lemma {:induction false} WrittenAppend(fails: nat -> bool, n: nat, a: seq<Message>, b: seq<Message>)
    ensures Written(fails, n, a + b) == Written(fails, n, a) + Written(fails, n + Writes(a), b)
    ensures Writes(a + b) == Writes(a) + Writes(b)
    decreases |a|
  {
    hide LinuxEvents, Written, Writes;
    WrittenStep(fails, n, a);
    if a == [] {
      assert a + b == b;
    } else {
      assert (a + b)[0] == a[0] && (a + b)[1..] == a[1..] + b;
      WrittenStep(fails, n, a + b);
      WrittenAppend(fails, if LinuxEvents(a[0]) == [] then n else n + 1, a[1..], b);
    }
  }

  lemma WrittenSnoc(fails: nat -> bool, n: nat, seen: seq<Message>, m: Message)
    ensures Writes(seen + [m]) == Writes(seen) + if LinuxEvents(m) == [] then 0 else 1
    ensures Written(fails, n, seen + [m]) ==
              Written(fails, n, seen)
              + if LinuxEvents(m) == [] || fails(n + Writes(seen)) then [] else LinuxEvents(m)
  {
    hide LinuxEvents, Written, Writes;
    WrittenAppend(fails, n, seen, [m]);
    WrittenStep(fails, n + Writes(seen), [m]);
    WrittenStep(fails, n + Writes(seen) + if LinuxEvents(m) == [] then 0 else 1, [m][1..]);
    assert [m][1..] == [];
  }

  /** The device receives every event if and only if none of the writes fails. */
  lemma {:induction false} WrittenInFull(fails: nat -> bool, n: nat, ms: seq<Message>)
    ensures |Written(fails, n, ms)| <= |LinuxEventsOf(ms)|
    ensures Written(fails, n, ms) == LinuxEventsOf(ms) <==> forall i :: n <= i < n + Writes(ms) ==> !fails(i)
    decreases |ms|
  {
    hide LinuxEvents;
    if ms != [] {
      var next := if LinuxEvents(ms[0]) == [] then n else n + 1;
      WrittenInFull(fails, next, ms[1..]);
      var head, rest := LinuxEvents(ms[0]), LinuxEventsOf(ms[1..]);
      assert LinuxEventsOf(ms) == head + rest;
      assert (head + rest)[|head|..] == rest;
      if head != [] && !fails(n) {
        assert Written(fails, n, ms)[|head|..] == Written(fails, next, ms[1..]);
      }
    }
  }

  /** Decode and inject until the buffer needs more bytes or an error ends the loop. */
  method HandleDecoded(buf: BytesMut, inj: LinuxInject) returns (error: Option<ProtocolError>)
    modifies buf, inj`emitted, inj`writes
    ensures var p := Drain(old(buf.data));
            && error == p.error
            && (error.None? ==> buf.data == p.buffer)
            && inj.emitted == old(inj.emitted) + Written(inj.fails, old(inj.writes), p.msgs)
            && inj.writes == old(inj.writes) + Writes(p.msgs)
  {
    hide DecodeStep, LinuxEvents, Drain, Written, Writes;
    NothingYet([], inj.fails, inj.writes);
    ghost var whole := Drain(buf.data);
    ghost var seen: seq<Message>, todo: seq<Message> := [], whole.msgs;
    while true
      invariant todo == Drain(buf.data).msgs && whole.msgs == seen + todo
      invariant whole.error == Drain(buf.data).error && whole.buffer == Drain(buf.data).buffer
      invariant inj.emitted == old(inj.emitted) + Written(inj.fails, old(inj.writes), seen)
      invariant inj.writes == old(inj.writes) + Writes(seen)
      decreases |buf.data|
    {
      DrainOnce(buf.data);
      var r := Decode(buf);
      match r
      case Ok(Some(m)) =>
        var outcome := inj.Handle(m);  // a failed write is only logged
        WrittenSnoc(inj.fails, old(inj.writes), seen, m);
        todo := Drain(buf.data).msgs;
        Regroup(seen, m, todo);
        seen := seen + [m];
      case Ok(None) => assert seen + todo == seen; return None;
      case Err(e) => assert seen + todo == seen; return Some(e);
    }
  }

  /** The client's inject loop over a stream that arrives in `chunks`: the device is offered
      the events of every message the whole stream decodes to and receives those of the writes
      that succeed, and the loop ends with the stream's first error, never with a write's. */
  method InjectLoop(chunks: seq<seq<u8>>, inj: LinuxInject) returns (error: Option<ProtocolError>)
    modifies inj`emitted, inj`writes
    ensures var p := Drain(Concat(chunks));
            && error == p.error
            && inj.emitted == old(inj.emitted) + Written(inj.fails, old(inj.writes), p.msgs)
            && inj.writes == old(inj.writes) + Writes(p.msgs)
  {
    hide DecodeStep, Drain, Written, Writes, Concat;
    NothingYet(chunks, inj.fails, inj.writes);
    var buf := new BytesMut();
    var i := 0;
    while i < |chunks|
      invariant i <= |chunks|
      invariant var p := Drain(Concat(chunks[..i]));
                && p.error.None? && p.buffer == buf.data
                && inj.emitted == old(inj.emitted) + Written(inj.fails, old(inj.writes), p.msgs)
                && inj.writes == old(inj.writes) + Writes(p.msgs)
    {
      ghost var done := Concat(chunks[..i]);
      DrainAppend(done, chunks[i]);
      ConcatSnoc(chunks, i);
      buf.ExtendFromSlice(chunks[i]);
      WrittenAppend(inj.fails, old(inj.writes), Drain(done).msgs, Drain(buf.data).msgs);
      error := HandleDecoded(buf, inj);
      i := i + 1;
      if error.Some? {
        StopsHere(chunks, i);
        return;
      }
    }
    assert chunks[..i] == chunks;
    return None;
  }

  lemma NothingYet(chunks: seq<seq<u8>>, fails: nat -> bool, n: nat)
    ensures Drain(Concat(chunks[..0])) == START && Written(fails, n, []) == [] && Writes([]) == 0
  {
    hide DecodeStep;
    EmptyNeedsMore();
  }
}
