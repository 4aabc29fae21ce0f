/** Clipboard synchronisation: the polling watcher against `apply`, statement by statement,
    and two connected peers. The hash is an arbitrary function of the text. */
module Clipboard {
  import opened Protocol
  import opened Utf8

  // "text/plain;charset=utf-8"
  const TOP_LEVEL: Ascii := "text/"
  const SUBTYPE: Ascii := "plain;charset=utf-8"

  function TextPrefix(): Text { AsciiBytes(TOP_LEVEL) }

  function Mime(): Text {
    var mime: Ascii := TOP_LEVEL + SUBTYPE;
    AsciiBytes(mime)
  }

  /** The text `apply` takes from a message: any `text/` type whose payload is UTF-8. */
  function Accepted(m: Message): Option<Text> {
    match m
    case ClipboardUpdate(mime, data) =>
      if TextPrefix() <= mime && ValidUtf8(data) then Some(data) else None
    case _ => None
  }

  /** The two texts that decide what goes through: the type of every update, and how the type of
      a message must begin. */
  lemma {:induction false} TypesInBytes(i: nat)
    ensures |Mime()| == 24 && (i < 24 ==> Mime()[i] == "text/plain;charset=utf-8"[i] as int)
    ensures TextPrefix() == [0x74, 0x65, 0x78, 0x74, 0x2F]
  {
    hide AsciiBytes, ValidUtf8;
    var mime: Ascii := TOP_LEVEL + SUBTYPE;
    assert mime == "text/plain;charset=utf-8";
    if i < 24 { AsciiIsItself(mime, i); }
    AsciiIsItself(TOP_LEVEL, 0);
    AsciiIsItself(TOP_LEVEL, 1);
    AsciiIsItself(TOP_LEVEL, 2);
    AsciiIsItself(TOP_LEVEL, 3);
    AsciiIsItself(TOP_LEVEL, 4);
  }

  /** An update is the whole text under the type "text/plain;charset=utf-8". */
  lemma {:induction false} UpdateInBytes(t: Text, i: nat)
    ensures Update(t).ClipboardUpdate? && Update(t).data == t
    ensures |Update(t).mime| == 24 && (i < 24 ==> Update(t).mime[i] == "text/plain;charset=utf-8"[i] as int)
  {
    hide Mime, TextPrefix, ValidUtf8;
    TypesInBytes(i);
  }

  /** A message is taken exactly if it is a clipboard update whose type begins with "text/" and
      whose payload is UTF-8, and then its payload is the text. */
  lemma {:induction false} TakenExactly(m: Message, t: Text)
    ensures Accepted(m) == Some(t) <==>
              && m.ClipboardUpdate? && m.data == t
              && |m.mime| >= 5 && m.mime[..5] == [0x74, 0x65, 0x78, 0x74, 0x2F]
  {
    hide ValidUtf8, TextPrefix;
    TypesInBytes(0);
  }

  /** What an uninterrupted `apply` does to an idle peer. */
  lemma {:induction false} ApplyEffect(hash: Text -> u64, p: Peer, m: Message, done: bool)
    requires p.watcher.Idle? && p.writes == []
    ensures ApplyNow(hash, p, m, done) ==
              if m.ClipboardUpdate? && ValidUtf8(m.data) && [0x74, 0x65, 0x78, 0x74, 0x2F] <= m.mime then
                var t: Text := m.data;
                p.(lastHash := hash(t), cell := if done then Some(t) else p.cell, applied := p.applied + 1)
              else p
  {
    hide ValidUtf8, TextPrefix;
    TypesInBytes(0);
  }

  /** Any other message leaves the peer as it is. */
  lemma NotTaken(hash: Text -> u64, p: Peer, m: Message)
    requires !m.ClipboardUpdate? || |m.mime| < 5 || m.mime[..5] != [0x74, 0x65, 0x78, 0x74, 0x2F] || !ValidUtf8(m.data)
    ensures Next(hash, p, ApplyHash(m)) == p && ApplyNow(hash, p, m, true) == p && ApplyNow(hash, p, m, false) == p
  {
    hide ValidUtf8, TextPrefix;
    TypesInBytes(0);
  }

  function Update(t: Text): Message { ClipboardUpdate(Mime(), t) }

  /** What a watcher emits, the other side's `apply` takes. */
  lemma {:induction false} UpdatesAreAccepted(t: Text)
    ensures Accepted(Update(t)) == Some(t)
  {
    hide AsciiBytes;
    AsciiPrefix(TOP_LEVEL, SUBTYPE);
  }

  lemma {:induction false} AsciiPrefix(a: Ascii, b: Ascii)
    ensures var ab: Ascii := a + b; AsciiBytes(ab) == AsciiBytes(a) + AsciiBytes(b)
  {
    hide ValidUtf8;
    var ab: Ascii := a + b;
    if a == "" {
      assert ab == b;
    } else {
      var tail: Ascii := a[1..];
      AsciiPrefix(tail, b);
      assert ab[0] == a[0] && ab[1..] == tail + b;
    }
  }

  // ---- One peer, statement by statement -----------------------------------------------------

  /** Where the watcher is between two statements of its loop. */
  datatype Watcher =
    | Idle
    | Holding(text: Text)   // read, not yet compared
    | Emitting(msg: Text)   // hash set, not yet sent
    | Ended                 // the receiver of its channel is gone

  /** One peer. `writes` are the applied texts whose hash is set and whose clipboard write is
      still to come. `changes` and `applied` count the local changes and accepted updates. */
  datatype Peer = Peer(
    cell: Option<Text>,
    lastHash: u64,
    watcher: Watcher,
    writes: seq<Text>,
    emitted: seq<Text>,
    changes: nat,
    applied: nat)

  datatype Step =
    | Change(to: Option<Text>)      // the user or another program
    | Read(ok: bool)                // `get_text`, which may fail
    | Compare                       // compare and set `last_hash`
    | Send(open: bool)              // `out.send`
    | ApplyHash(m: Message)         // first half of `apply`
    | ApplyWrite(i: nat, done: bool) // second half, which may fail

  predicate Enabled(p: Peer, step: Step) {
    match step
    case Change(_) => true
    case Read(_) => p.watcher.Idle?
    case Compare => p.watcher.Holding?
    case Send(_) => p.watcher.Emitting?
    case ApplyHash(_) => true
    case ApplyWrite(i, _) => i < |p.writes|
  }

  function Next(hash: Text -> u64, p: Peer, step: Step): Peer {
    if !Enabled(p, step) then p else
      match step
      case Change(to) => p.(cell := to, changes := p.changes + 1)
      case Read(ok) => if ok && p.cell.Some? then p.(watcher := Holding(p.cell.value)) else p
      case Compare =>
        var t := p.watcher.text;
        if p.lastHash == hash(t) then p.(watcher := Idle)
        else p.(lastHash := hash(t), watcher := Emitting(t))
      case Send(open) =>
        if open then p.(emitted := p.emitted + [p.watcher.msg], watcher := Idle)
        else p.(watcher := Ended)
      case ApplyHash(m) =>
        (match Accepted(m)
         case None => p
         case Some(t) => p.(lastHash := hash(t), writes := p.writes + [t], applied := p.applied + 1))
      case ApplyWrite(i, done) =>
        p.(writes := p.writes[..i] + p.writes[i + 1..],
           cell := if done then Some(p.writes[i]) else p.cell)
  }

  /** The clipboard can change under the watcher at any time, a read, a send and a write can succeed
      or fail, updates can arrive at any time and their writes be finished in any order. */
  lemma AnythingCanHappen(hash: Text -> u64, p: Peer, to: Option<Text>, m: Message, i: nat)
    ensures Next(hash, p, Change(to)) == p.(cell := to, changes := p.changes + 1)
    ensures Next(hash, p, Read(false)) == p
    ensures p.watcher.Idle? && p.cell.Some? ==> Next(hash, p, Read(true)) == p.(watcher := Holding(p.cell.value))
    ensures p.watcher.Emitting? ==> Next(hash, p, Send(false)) == p.(watcher := Ended)
    ensures Enabled(p, ApplyHash(m))
    ensures i < |p.writes| ==>
              && Next(hash, p, ApplyWrite(i, true)).cell == Some(p.writes[i])
              && Next(hash, p, ApplyWrite(i, false)) == p.(writes := p.writes[..i] + p.writes[i + 1..])
  {
    hide Accepted, ValidUtf8;
  }

  function Init(cell: Option<Text>): Peer { Peer(cell, 0, Idle, [], [], 0, 0) }

  function Run(hash: Text -> u64, cell: Option<Text>, steps: seq<Step>): Peer {
    if steps == [] then Init(cell)
    else Next(hash, Run(hash, cell, steps[..|steps| - 1]), steps[|steps| - 1])
  }

  /** The watcher's statements without interruption: it finishes the iteration it is in, or
      does a whole one. */
  function PollNow(hash: Text -> u64, p: Peer, readable: bool): Peer {
    Next(hash, Next(hash, Next(hash, p, Read(readable)), Compare), Send(true))
  }

  /** What the watcher will still emit if nobody else acts. */
  function Owed(hash: Text -> u64, p: Peer): nat {
    match p.watcher
    case Ended => 0
    case Emitting(_) => 1 + Differs(hash, p.cell, p.lastHash)
    case Holding(t) => (if hash(t) != p.lastHash then 1 else 0) + Differs(hash, p.cell, hash(t))
    case Idle => Differs(hash, p.cell, p.lastHash)
  }

  function Differs(hash: Text -> u64, cell: Option<Text>, h: u64): nat {
    if cell.Some? && hash(cell.value) != h then 1 else 0
  }

  function Potential(hash: Text -> u64, p: Peer): nat { |p.emitted| + Owed(hash, p) }

  predicate IsWatcherStep(step: Step) { step.Read? || step.Compare? || step.Send? }

  /** The watcher's own statements preserve the potential exactly: each one only turns what
      is owed into what is emitted. Only a send to a receiver that is gone cancels the debt. */
  lemma WatcherPreservesPotential(hash: Text -> u64, p: Peer, step: Step)
    requires IsWatcherStep(step)
    ensures Potential(hash, Next(hash, p, step))
            == if step == Send(false) && Enabled(p, step) then |p.emitted| else Potential(hash, p)
  {
  }

  /** The other statements change it by at most one. */
  lemma OthersChangePotential(hash: Text -> u64, p: Peer, step: Step)
    requires !IsWatcherStep(step)
    ensures Potential(hash, Next(hash, p, step)) <= Potential(hash, p) + if Enabled(p, step) then 1 else 0
  {
    hide Accepted, ValidUtf8;
  }

  /** One iteration pays what the watcher was about to emit; an idle one pays everything. */
  lemma PollPays(hash: Text -> u64, p: Peer)
    requires !p.watcher.Ended?
    ensures var q := PollNow(hash, p, true);
            && q.watcher.Idle? && q.cell == p.cell && Potential(hash, q) == Potential(hash, p)
            && (p.watcher.Idle? ==> Owed(hash, q) == 0)
  {
    hide Accepted, ValidUtf8;
  }

  /** Left alone, a watcher that is not `Ended` emits exactly what it owes and then is quiet,
      after finishing the iteration it is in and at most one more. */
  lemma {:induction false} OwedIsEmitted(hash: Text -> u64, p: Peer)
    requires !p.watcher.Ended?
    ensures var q := PollNow(hash, PollNow(hash, p, true), true);
            && q.watcher.Idle? && q.cell == p.cell && |q.emitted| == |p.emitted| + Owed(hash, p) && Owed(hash, q) == 0
  {
    hide PollNow, Owed, ValidUtf8;
    PollPays(hash, p);
    PollPays(hash, PollNow(hash, p, true));
  }

  lemma {:induction false} RunBound(hash: Text -> u64, cell: Option<Text>, steps: seq<Step>)
    ensures var p := Run(hash, cell, steps);
            Potential(hash, p) + |p.writes| <= 1 + p.changes + 2 * p.applied
    decreases |steps|
  {
    hide Owed, Accepted;
    if steps != [] {
      var step := steps[|steps| - 1];
      RunBound(hash, cell, steps[..|steps| - 1]);
      var p := Run(hash, cell, steps[..|steps| - 1]);
      if IsWatcherStep(step) {
        WatcherPreservesPotential(hash, p, step);
      } else {
        OthersChangePotential(hash, p, step);
      }
      if step.ApplyHash? && Accepted(step.m).None? {
        assert Next(hash, p, step) == p;
      }
    } else {
      InitOwes(hash, cell);
    }
  }

  lemma InitOwes(hash: Text -> u64, cell: Option<Text>)
    ensures Potential(hash, Init(cell)) <= 1
  {
  }

  /** Statements interleaved freely, reads and writes failing freely: a peer never emits more
      than one update, plus one per local change, plus two per applied remote update. */
  lemma EchoBound(hash: Text -> u64, cell: Option<Text>, steps: seq<Step>)
    ensures var p := Run(hash, cell, steps); |p.emitted| <= 1 + p.changes + 2 * p.applied
  {
    RunBound(hash, cell, steps);
  }

  // ---- When an apply echoes ---------------------------------------------------------------------

  /** `apply` without interruption. */
  function ApplyNow(hash: Text -> u64, p: Peer, m: Message, done: bool): Peer {
    if Accepted(m).None? then p
    else Next(hash, Next(hash, p, ApplyHash(m)), ApplyWrite(|p.writes|, done))
  }

  function RunFrom(hash: Text -> u64, p: Peer, steps: seq<Step>): Peer
    decreases |steps|
  {
    if steps == [] then p else RunFrom(hash, Next(hash, p, steps[0]), steps[1..])
  }

  /** `apply` with `between` happening between its two halves. */
  function ApplyAround(hash: Text -> u64, p: Peer, m: Message, between: seq<Step>, done: bool): Peer {
    Next(hash, RunFrom(hash, Next(hash, p, ApplyHash(m)), between), ApplyWrite(|p.writes|, done))
  }

  /** A statement of a watcher whose receiver is there. */
  predicate IsHeard(step: Step) { IsWatcherStep(step) && step != Send(false) }

  /** Whether the watcher gets to read the clipboard during `steps`. */
  predicate Reads(hash: Text -> u64, p: Peer, steps: seq<Step>)
    decreases |steps|
  {
    steps != [] && ((steps[0] == Read(true) && p.watcher.Idle? && p.cell.Some?)
                    || Reads(hash, Next(hash, p, steps[0]), steps[1..]))
  }

  /** What was emitted or is on its way out. */
  function Committed(p: Peer): nat { |p.emitted| + if p.watcher.Emitting? then 1 else 0 }

  /** The watcher holds nothing whose hash it would find new. */
  predicate IsClean(hash: Text -> u64, p: Peer) { p.watcher.Holding? ==> hash(p.watcher.text) == p.lastHash }

  /** While the clipboard stays as it is, a clean watcher stays clean and emits nothing if and
      only if it reads nothing whose hash is new; and once it holds such a text or has emitted
      one, that is not undone. */
  lemma {:induction false} WatchedBetween(hash: Text -> u64, p: Peer, steps: seq<Step>)
    requires !p.watcher.Ended? && forall i :: 0 <= i < |steps| ==> IsHeard(steps[i])
    ensures var q := RunFrom(hash, p, steps);
            && q.cell == p.cell && q.writes == p.writes && !q.watcher.Ended? && Committed(q) >= Committed(p)
            && if IsClean(hash, p) && (p.cell.Some? && Reads(hash, p, steps) ==> hash(p.cell.value) == p.lastHash)
               then IsClean(hash, q) && q.lastHash == p.lastHash && Committed(q) == Committed(p)
               else !IsClean(hash, q) || Committed(q) > Committed(p)
    decreases |steps|
  {
    hide ValidUtf8, Accepted;
    if steps != [] {
      assert IsHeard(steps[0]);
      WatchedBetween(hash, Next(hash, p, steps[0]), steps[1..]);
    }
  }

  /** The second half of `apply`, in any state: nothing more than what is on its way out will be
      emitted if and only if the watcher is clean and the text then in the clipboard, new or
      old, has the current hash. */
  lemma WriteEchoes(hash: Text -> u64, p: Peer, i: nat, done: bool)
    requires i < |p.writes| && !p.watcher.Ended?
    ensures var q := Next(hash, p, ApplyWrite(i, done));
            && Potential(hash, q) >= Committed(p)
            && (Potential(hash, q) == Committed(p) <==>
                IsClean(hash, p) && (q.cell.Some? ==> hash(q.cell.value) == p.lastHash))
  {
  }

  /** Exactly when `apply` leaves nothing to emit beyond what was already on its way out, for
      any statements of the watcher between its halves and whether or not the write succeeds:
      a text the watcher held before must hash like the applied one, and so must the text
      that was in the clipboard if the watcher reads between the halves or the write fails. */
  lemma {:induction false} ApplyEchoes(hash: Text -> u64, p: Peer, m: Message, between: seq<Step>, done: bool)
    requires Accepted(m).Some? && !p.watcher.Ended?
    requires forall i :: 0 <= i < |between| ==> IsHeard(between[i])
    ensures var q, h := ApplyAround(hash, p, m, between, done), hash(Accepted(m).value);
            var read := Reads(hash, Next(hash, p, ApplyHash(m)), between);
            && q.cell == (if done then Accepted(m) else p.cell)
            && Potential(hash, q) >= Committed(p)
            && (Potential(hash, q) == Committed(p) <==>
                && (p.watcher.Holding? ==> hash(p.watcher.text) == h)
                && (p.cell.Some? && (read || !done) ==> hash(p.cell.value) == h))
  {
    hide Accepted, ValidUtf8, Potential;
    var set_ := Next(hash, p, ApplyHash(m));
    var mid := RunFrom(hash, set_, between);
    WatchedBetween(hash, set_, between);
    assert set_.writes[|p.writes|] == Accepted(m).value;
    WriteEchoes(hash, mid, |p.writes|, done);
  }

  /** The watcher is quiet with `x` or `y` in the clipboard. */
  predicate IsSettled(hash: Text -> u64, p: Peer, x: Text, y: Text) {
    && p.watcher.Idle? && p.writes == []
    && (p.cell == Some(x) || p.cell == Some(y)) && p.lastHash == hash(p.cell.value)
  }

  /** The bound is exact for every number of local changes and remote updates: each change is
      one emission, and each update two when `apply` sets the hash between the watcher's read
      and its comparison. */
  lemma {:induction false} EchoBoundAttained(hash: Text -> u64, x: Text, y: Text, changes: nat, applied: nat)
    returns (steps: seq<Step>)
    requires hash(x) != hash(y) && hash(x) != 0
    ensures var p := Run(hash, Some(x), steps);
            && p.changes == changes && p.applied == applied && |p.emitted| == 1 + changes + 2 * applied
            && IsSettled(hash, p, x, y)
    decreases changes + applied
  {
    hide Next, Update, Run, PollNow, ValidUtf8;
    if changes > 0 {
      steps := EchoBoundAttained(hash, x, y, changes - 1, applied);
      var p := Run(hash, Some(x), steps);
      var t := if p.cell == Some(x) then y else x;
      RunSnoc(hash, Some(x), steps, Change(Some(t)));
      UserChanges(hash, p, t);
      PollEmits(hash, Next(hash, p, Change(Some(t))));
      steps := AppendPoll(hash, Some(x), steps + [Change(Some(t))]);
    } else if applied > 0 {
      steps := EchoBoundAttained(hash, x, y, changes, applied - 1);
      var p := Run(hash, Some(x), steps);
      var t := if p.cell == Some(x) then y else x;
      var apply := ApplyHash(Update(t));
      InterruptedPoll(hash, p, t);
      RunSnoc(hash, Some(x), steps, Read(true));
      RunSnoc(hash, Some(x), steps + [Read(true)], apply);
      RunSnoc(hash, Some(x), steps + [Read(true)] + [apply], Compare);
      RunSnoc(hash, Some(x), steps + [Read(true)] + [apply] + [Compare], Send(true));
      steps := steps + [Read(true)] + [apply] + [Compare] + [Send(true)];
      RunSnoc(hash, Some(x), steps, ApplyWrite(0, true));
      steps := steps + [ApplyWrite(0, true)];
      PollEmits(hash, Run(hash, Some(x), steps));
      steps := AppendPoll(hash, Some(x), steps);
    } else {
      PollEmits(hash, Init(Some(x)));
      steps := AppendPoll(hash, Some(x), []);
    }
  }

  lemma UserChanges(hash: Text -> u64, p: Peer, t: Text)
    ensures Next(hash, p, Change(Some(t))) == p.(cell := Some(t), changes := p.changes + 1)
  {
    hide ValidUtf8;
  }

  /** `apply` sets the hash while the watcher holds what it read: the watcher emits the old text
      again and its hash replaces the applied one's, so the write that follows looks new. */
  lemma {:induction false} InterruptedPoll(hash: Text -> u64, p: Peer, t: Text)
    requires p.watcher.Idle? && p.cell.Some? && p.writes == [] && hash(p.cell.value) != hash(t)
    ensures var held := Next(hash, Next(hash, p, Read(true)), ApplyHash(Update(t)));
            var q := Next(hash, Next(hash, held, Compare), Send(true));
            && q == p.(lastHash := hash(p.cell.value), writes := [t],
                       emitted := p.emitted + [p.cell.value], applied := p.applied + 1)
            && Next(hash, q, ApplyWrite(0, true)) == q.(writes := [], cell := Some(t))
  {
    hide Accepted, Update, ValidUtf8;
    UpdatesAreAccepted(t);
  }

  /** One whole iteration of the watcher at the end of a run. */
  lemma {:induction false} AppendPoll(hash: Text -> u64, cell: Option<Text>, steps: seq<Step>) returns (more: seq<Step>)
    ensures Run(hash, cell, more) == PollNow(hash, Run(hash, cell, steps), true)
    ensures Run(hash, cell, []) == Init(cell)
  {
    hide Next, Run, Init;
    RunSnoc(hash, cell, steps, Read(true));
    RunSnoc(hash, cell, steps + [Read(true)], Compare);
    RunSnoc(hash, cell, steps + [Read(true)] + [Compare], Send(true));
    more := steps + [Read(true)] + [Compare] + [Send(true)];
  }

  lemma RunSnoc(hash: Text -> u64, cell: Option<Text>, steps: seq<Step>, step: Step)
    ensures Run(hash, cell, []) == Init(cell)
    ensures Run(hash, cell, steps + [step]) == Next(hash, Run(hash, cell, steps), step)
  {
    hide Next, Init;
    assert (steps + [step])[..|steps|] == steps;
  }

  // ---- The object itself ----------------------------------------------------------------------------

  /** The shared clipboard and hash, with `lock`ed sections that do not overlap. */
  class SharedClipboard {
    const hash: Text -> u64
    var cell: Option<Text>
    var lastHash: u64

    constructor (hash: Text -> u64, cell: Option<Text>)
      ensures this.hash == hash && View() == Init(cell)
    {
      this.hash := hash;
      this.cell := cell;
      lastHash := 0;
    }

    function View(): Peer
      reads this
    {
      Peer(cell, lastHash, Idle, [], [], 0, 0)
    }

    /** One iteration of the watcher's loop; `readable` says whether `get_text` succeeds. */
    method PollOnce(readable: bool) returns (msg: Option<Message>)
      modifies this`lastHash
      ensures var p := PollNow(hash, old(View()), readable);
              && View() == p.(emitted := [])
              && (msg == None <==> p.emitted == [])
              && (msg.Some? ==> cell.Some? && p.emitted == [cell.value] && msg.value == Update(cell.value))
    {
      hide Mime, ValidUtf8, Accepted;
      if !readable || cell.None? { return None; }
      var text := cell.value;
      var h := hash(text);
      if lastHash == h { return None; }
      lastHash := h;
      return Some(ClipboardUpdate(Mime(), text));
    }

    method Apply(msg: Message, writable: bool)
      modifies this
      ensures View() == ApplyNow(hash, old(View()), msg, writable).(applied := 0)
      ensures !msg.ClipboardUpdate? || !ValidUtf8(msg.data) || !([0x74, 0x65, 0x78, 0x74, 0x2F] <= msg.mime) ==>
                View() == old(View())
    {
      hide TextPrefix, ValidUtf8, Accepted, ApplyNow, Next;
      TypesInBytes(0);
      ApplyEffect(hash, View(), msg, writable);
      if !msg.ClipboardUpdate? { return; }
      if !(TextPrefix() <= msg.mime) { return; }
      if !ValidUtf8(msg.data) { return; }
      var text: Text := msg.data;
      lastHash := hash(text);
      if writable { cell := Some(text); }
    }
  }

  // ---- Two connected peers ------------------------------------------------------------------------------

  /** Two peers and the FIFO links between them; polls and applies do not overlap and writes
      succeed. */
  datatype Pair = Pair(a: Peer, b: Peer, ab: seq<Message>, ba: seq<Message>)

  datatype PairStep =
    | LocalChange(atA: bool, to: Option<Text>)
    | Poll(pollA: bool, readable: bool)
    | Deliver(toA: bool)

  function Updates(ts: seq<Text>): seq<Message> {
    seq(|ts|, i requires 0 <= i < |ts| => Update(ts[i]))
  }

  function NextPair(hash: Text -> u64, s: Pair, step: PairStep): Pair {
    match step
    case LocalChange(atA, to) =>
      if atA then s.(a := Next(hash, s.a, Change(to))) else s.(b := Next(hash, s.b, Change(to)))
    case Poll(atA, readable) =>
      var p := if atA then s.a else s.b;
      var q := PollNow(hash, p, readable);
      var new_ := if |q.emitted| > |p.emitted| then Updates(q.emitted[|p.emitted|..]) else [];
      if atA then s.(a := q, ab := s.ab + new_) else s.(b := q, ba := s.ba + new_)
    case Deliver(toA) =>
      if toA then
        if s.ba == [] then s else s.(a := ApplyNow(hash, s.a, s.ba[0], true), ba := s.ba[1..])
      else
        if s.ab == [] then s else s.(b := ApplyNow(hash, s.b, s.ab[0], true), ab := s.ab[1..])
  }

  function RunPair(hash: Text -> u64, a: Option<Text>, b: Option<Text>, steps: seq<PairStep>): Pair {
    if steps == [] then Pair(Init(a), Init(b), [], [])
    else NextPair(hash, RunPair(hash, a, b, steps[..|steps| - 1]), steps[|steps| - 1])
  }

  /** Between its uninterrupted steps a peer is idle, and its potential is covered by its own
      changes alone. */
  predicate Quiet(hash: Text -> u64, p: Peer) {
    p.watcher.Idle? && p.writes == [] && Potential(hash, p) <= 1 + p.changes
  }

  /** An uninterrupted `apply` leaves an idle watcher nothing to echo if and only if its write
      succeeds, or there was no text, or one with the same hash. */
  lemma ApplyKeepsQuiet(hash: Text -> u64, p: Peer, m: Message, done: bool)
    requires Quiet(hash, p)
    ensures done ==> Quiet(hash, ApplyNow(hash, p, m, done))
    ensures Accepted(m).Some? ==>
              (Owed(hash, ApplyNow(hash, p, m, done)) == 0 <==>
               done || p.cell.None? || hash(p.cell.value) == hash(Accepted(m).value))
  {
    hide Accepted;
  }

  lemma PollKeepsQuiet(hash: Text -> u64, p: Peer, readable: bool)
    requires Quiet(hash, p)
    ensures Quiet(hash, PollNow(hash, p, readable))
  {
    hide Accepted, ValidUtf8;
  }

  lemma ChangeKeepsQuiet(hash: Text -> u64, p: Peer, to: Option<Text>)
    requires Quiet(hash, p)
    ensures Quiet(hash, Next(hash, p, Change(to)))
  {
  }

  /** No update circulates: whatever the two peers send each other, each of them emits at most
      one update plus one for each change its own user made. */
  lemma {:induction false} PairQuiescence(hash: Text -> u64, a: Option<Text>, b: Option<Text>, steps: seq<PairStep>)
    ensures var s := RunPair(hash, a, b, steps);
            && Quiet(hash, s.a) && Quiet(hash, s.b)
            && |s.a.emitted| <= 1 + s.a.changes && |s.b.emitted| <= 1 + s.b.changes
    decreases |steps|
  {
    hide Quiet, Next, ApplyNow, PollNow, Updates, Update, ValidUtf8, Owed;
    if steps == [] {
      InitOwes(hash, a);
      InitOwes(hash, b);
      StartsQuiet(hash, a);
      StartsQuiet(hash, b);
    } else {
      var step := steps[|steps| - 1];
      PairQuiescence(hash, a, b, steps[..|steps| - 1]);
      var s := RunPair(hash, a, b, steps[..|steps| - 1]);
      match step
      case LocalChange(atA, to) => ChangeKeepsQuiet(hash, if atA then s.a else s.b, to);
      case Poll(atA, readable) => PollKeepsQuiet(hash, if atA then s.a else s.b, readable);
      case Deliver(toA) =>
        if toA && s.ba != [] { ApplyKeepsQuiet(hash, s.a, s.ba[0], true); }
        if !toA && s.ab != [] { ApplyKeepsQuiet(hash, s.b, s.ab[0], true); }
    }
    var s := RunPair(hash, a, b, steps);
    QuietBound(hash, s.a);
    QuietBound(hash, s.b);
  }

  lemma StartsQuiet(hash: Text -> u64, cell: Option<Text>)
    ensures Quiet(hash, Init(cell))
  {
  }

  lemma QuietBound(hash: Text -> u64, p: Peer)
    requires Quiet(hash, p)
    ensures |p.emitted| <= 1 + p.changes
  {
  }

  // ---- When two quiet peers agree ------------------------------------------------------------------------

  predicate Emits(hash: Text -> u64, p: Peer, readable: bool) {
    |PollNow(hash, p, readable).emitted| > |p.emitted|
  }

  /** Whether the last update that passed through a side, out or in, was one it took. */
  predicate TookLast(hash: Text -> u64, a: Option<Text>, b: Option<Text>, steps: seq<PairStep>, atA: bool) {
    steps != [] &&
    var before := steps[..|steps| - 1];
    var s := RunPair(hash, a, b, before);
    match steps[|steps| - 1]
    case LocalChange(_, _) => TookLast(hash, a, b, before, atA)
    case Poll(pollA, readable) =>
      TookLast(hash, a, b, before, atA) && !(pollA == atA && Emits(hash, if atA then s.a else s.b, readable))
    case Deliver(toA) =>
      (toA == atA && (if atA then s.ba else s.ab) != []) || TookLast(hash, a, b, before, atA)
  }

  /** The hash of the last of some texts, or the initial one. */
  function LastHash(hash: Text -> u64, ts: seq<Text>): u64 { if ts == [] then 0 else hash(ts[|ts| - 1]) }

  /** One side: what is coming in are the other's last emissions, and the hash is that of the
      last update that passed through. */
  predicate SideInv(hash: Text -> u64, me: Peer, peer: Peer, incoming: seq<Message>, took: bool) {
    && me.watcher.Idle? && me.writes == []
    && |incoming| <= |peer.emitted|
    && incoming == Updates(peer.emitted[|peer.emitted| - |incoming|..])
    && if took
       then |incoming| < |peer.emitted| && me.lastHash == hash(peer.emitted[|peer.emitted| - |incoming| - 1])
       else me.lastHash == LastHash(hash, me.emitted)
  }

  /** When neither side took the last update that passed through it, the last emission of at
      least one side is still under way, if there was any. */
  predicate PairInv(hash: Text -> u64, s: Pair, tookA: bool, tookB: bool) {
    && SideInv(hash, s.a, s.b, s.ba, tookA)
    && SideInv(hash, s.b, s.a, s.ab, tookB)
    && (!tookA && !tookB && s.ab == [] && s.ba == [] ==> s.a.emitted == [] && s.b.emitted == [])
  }

  lemma PollKeepsSides(hash: Text -> u64, me: Peer, peer: Peer, inc: seq<Message>, out: seq<Message>,
                       took: bool, peerTook: bool, readable: bool)
    requires SideInv(hash, me, peer, inc, took) && SideInv(hash, peer, me, out, peerTook)
    ensures var q := PollNow(hash, me, readable);
            if Emits(hash, me, readable)
            then |q.emitted| == |me.emitted| + 1 && Updates(q.emitted[|me.emitted|..]) != []
                 && SideInv(hash, q, peer, inc, false)
                 && SideInv(hash, peer, q, out + Updates(q.emitted[|me.emitted|..]), peerTook)
            else q == me
  {
    hide Update, ValidUtf8;
    var q := PollNow(hash, me, readable);
    if Emits(hash, me, readable) {
      var out' := out + Updates(q.emitted[|me.emitted|..]);
      assert q.emitted == me.emitted + [me.cell.value];
      assert q.emitted[|q.emitted| - |out'|..] == me.emitted[|me.emitted| - |out|..] + [me.cell.value];
      assert out' == Updates(q.emitted[|q.emitted| - |out'|..]);
    }
  }

  lemma TakeKeepsSides(hash: Text -> u64, me: Peer, peer: Peer, inc: seq<Message>, out: seq<Message>,
                       took: bool, peerTook: bool)
    requires SideInv(hash, me, peer, inc, took) && SideInv(hash, peer, me, out, peerTook) && inc != []
    ensures var q := ApplyNow(hash, me, inc[0], true);
            && SideInv(hash, q, peer, inc[1..], true) && SideInv(hash, peer, q, out, peerTook)
            && q.emitted == me.emitted
  {
    hide Update, ApplyNow, ValidUtf8;
    var t := peer.emitted[|peer.emitted| - |inc|];
    assert inc[0] == Update(t);
    ApplyTakes(hash, me, t);
    assert peer.emitted[|peer.emitted| - |inc|..][1..] == peer.emitted[|peer.emitted| - |inc[1..]|..];
  }

  lemma ChangeKeepsSides(hash: Text -> u64, me: Peer, peer: Peer, inc: seq<Message>, out: seq<Message>,
                         took: bool, peerTook: bool, to: Option<Text>)
    requires SideInv(hash, me, peer, inc, took) && SideInv(hash, peer, me, out, peerTook)
    ensures var q := Next(hash, me, Change(to));
            SideInv(hash, q, peer, inc, took) && SideInv(hash, peer, q, out, peerTook) && q.emitted == me.emitted
  {
    hide Updates, ValidUtf8;
  }

  lemma {:induction false} PairRunInv(hash: Text -> u64, a: Option<Text>, b: Option<Text>, steps: seq<PairStep>)
    ensures PairInv(hash, RunPair(hash, a, b, steps),
                    TookLast(hash, a, b, steps, true), TookLast(hash, a, b, steps, false))
    decreases |steps|
  {
    hide SideInv, PollNow, ApplyNow, Emits, Next, Updates, ValidUtf8;
    if steps == [] {
      StartsInStep(hash, a, b);
    } else {
      var before, step := steps[..|steps| - 1], steps[|steps| - 1];
      PairRunInv(hash, a, b, before);
      var s := RunPair(hash, a, b, before);
      var tookA, tookB := TookLast(hash, a, b, before, true), TookLast(hash, a, b, before, false);
      PairStepInv(hash, s, step, tookA, tookB);
    }
  }

  lemma StartsInStep(hash: Text -> u64, a: Option<Text>, b: Option<Text>)
    ensures PairInv(hash, Pair(Init(a), Init(b), [], []), false, false)
  {
    hide ValidUtf8, Update;
    assert Updates([]) == [];
  }

  lemma PairStepInv(hash: Text -> u64, s: Pair, step: PairStep, tookA: bool, tookB: bool)
    requires PairInv(hash, s, tookA, tookB)
    ensures match step
            case LocalChange(_, _) => PairInv(hash, NextPair(hash, s, step), tookA, tookB)
            case Poll(atA, readable) =>
              PairInv(hash, NextPair(hash, s, step),
                      tookA && !(atA && Emits(hash, s.a, readable)), tookB && !(!atA && Emits(hash, s.b, readable)))
            case Deliver(toA) =>
              PairInv(hash, NextPair(hash, s, step), (toA && s.ba != []) || tookA, (!toA && s.ab != []) || tookB)
  {
    hide SideInv, PollNow, ApplyNow, Next, ValidUtf8, Update;
    match step
    case LocalChange(atA, to) =>
      if atA { ChangeKeepsSides(hash, s.a, s.b, s.ba, s.ab, tookA, tookB, to); }
      else { ChangeKeepsSides(hash, s.b, s.a, s.ab, s.ba, tookB, tookA, to); }
    case Poll(atA, readable) =>
      assert s.ab + [] == s.ab && s.ba + [] == s.ba;
      if atA { PollKeepsSides(hash, s.a, s.b, s.ba, s.ab, tookA, tookB, readable); }
      else { PollKeepsSides(hash, s.b, s.a, s.ab, s.ba, tookB, tookA, readable); }
    case Deliver(toA) =>
      if toA && s.ba != [] { TakeKeepsSides(hash, s.a, s.b, s.ba, s.ab, tookA, tookB); }
      if !toA && s.ab != [] { TakeKeepsSides(hash, s.b, s.a, s.ab, s.ba, tookB, tookA); }
  }

  /** Nothing is under way and nobody owes anything. */
  predicate IsAtRest(hash: Text -> u64, s: Pair) {
    s.ab == [] && s.ba == [] && Owed(hash, s.a) == 0 && Owed(hash, s.b) == 0
  }

  /** Both clipboards hold no text, or both hold one, with the same hash. */
  predicate Agree(hash: Text -> u64, s: Pair) {
    || (s.a.cell.None? && s.b.cell.None?)
    || (s.a.cell.Some? && s.b.cell.Some? && hash(s.a.cell.value) == hash(s.b.cell.value))
  }

  /** Two peers at rest agree if and only if both hold no text, or both hold one and their last
      emissions did not cross, each emitted before the other one arrived, or hash alike. A
      clipboard that loses its text, say to an image, announces nothing. */
  lemma {:induction false} PeersAgree(hash: Text -> u64, a: Option<Text>, b: Option<Text>, steps: seq<PairStep>)
    ensures var s := RunPair(hash, a, b, steps);
            var crossed := TookLast(hash, a, b, steps, true) && TookLast(hash, a, b, steps, false);
            IsAtRest(hash, s) ==>
              (Agree(hash, s) <==>
                || (s.a.cell.None? && s.b.cell.None?)
                || (s.a.cell.Some? && s.b.cell.Some?
                    && (!crossed || LastHash(hash, s.a.emitted) == LastHash(hash, s.b.emitted))))
  {
    hide RunPair, TookLast, PairInv, LastHash, ValidUtf8;
    PairRunInv(hash, a, b, steps);
    var s := RunPair(hash, a, b, steps);
    if IsAtRest(hash, s) && s.a.cell.Some? && s.b.cell.Some? {
      HashesAtRest(hash, s, TookLast(hash, a, b, steps, true), TookLast(hash, a, b, steps, false));
    }
  }

  lemma {:induction false} HashesAtRest(hash: Text -> u64, s: Pair, tookA: bool, tookB: bool)
    requires PairInv(hash, s, tookA, tookB) && IsAtRest(hash, s) && s.a.cell.Some? && s.b.cell.Some?
    ensures hash(s.a.cell.value) == hash(s.b.cell.value)
            <==> !(tookA && tookB) || LastHash(hash, s.a.emitted) == LastHash(hash, s.b.emitted)
  {
    hide Updates, ValidUtf8;
  }

  /** No peer emits while an update for it is under way. */
  predicate NeverCrosses(hash: Text -> u64, a: Option<Text>, b: Option<Text>, steps: seq<PairStep>) {
    steps == [] ||
    var before := steps[..|steps| - 1];
    var s := RunPair(hash, a, b, before);
    NeverCrosses(hash, a, b, before)
    && match steps[|steps| - 1]
       case Poll(atA, readable) =>
         Emits(hash, if atA then s.a else s.b, readable) ==> (if atA then s.ba else s.ab) == []
       case _ => true
  }

  /** Two peers of which none emits while an update for it is under way converge: whenever they
      are at rest, they agree if and only if both hold a text or neither does. */
  lemma {:induction false} PeersConverge(hash: Text -> u64, a: Option<Text>, b: Option<Text>, steps: seq<PairStep>)
    requires NeverCrosses(hash, a, b, steps)
    ensures var s := RunPair(hash, a, b, steps);
            IsAtRest(hash, s) ==> (Agree(hash, s) <==> (s.a.cell.Some? <==> s.b.cell.Some?))
  {
    hide RunPair, TookLast, NeverCrosses, ValidUtf8, IsAtRest;
    PeersAgree(hash, a, b, steps);
    OneWayAtATime(hash, a, b, steps);
  }

  lemma {:induction false} OneWayAtATime(hash: Text -> u64, a: Option<Text>, b: Option<Text>, steps: seq<PairStep>)
    requires NeverCrosses(hash, a, b, steps)
    ensures var s := RunPair(hash, a, b, steps);
            var tookA, tookB := TookLast(hash, a, b, steps, true), TookLast(hash, a, b, steps, false);
            && !(tookA && tookB)
            && (s.ab != [] ==> !tookA && s.ba == [])
            && (s.ba != [] ==> !tookB && s.ab == [])
    decreases |steps|
  {
    hide PollNow, ApplyNow, Next, Updates, ValidUtf8, Emits;
    if steps != [] {
      var before, step := steps[..|steps| - 1], steps[|steps| - 1];
      OneWayAtATime(hash, a, b, before);
      var s := RunPair(hash, a, b, before);
      if step.Poll? { EmitsMeansMore(hash, if step.pollA then s.a else s.b, step.readable); }
    }
  }

  lemma EmitsMeansMore(hash: Text -> u64, p: Peer, readable: bool)
    ensures Emits(hash, p, readable) <==> |PollNow(hash, p, readable).emitted| > |p.emitted|
  {
    hide PollNow, ValidUtf8;
  }

  /** Quiet does not mean equal: when both users copy before either update arrives, the peers
      swap texts and nothing is left to reconcile them. */
  lemma {:induction false} PeersCanSwap(hash: Text -> u64, x: Text, y: Text) returns (steps: seq<PairStep>)
    requires hash(x) != hash(y) && hash(x) != 0 && hash(y) != 0
    ensures var s := RunPair(hash, None, None, steps);
            && s.a.cell == Some(y) && s.b.cell == Some(x)
            && s.ab == [] && s.ba == [] && Owed(hash, s.a) == 0 && Owed(hash, s.b) == 0
  {
    hide Update, RunPair, ApplyNow, Next, ValidUtf8, Owed;
    steps := BothCopy(hash, x, y);
    var s := RunPair(hash, None, None, steps);
    PairSnoc(hash, steps, Deliver(true));
    steps := steps + [Deliver(true)];
    ApplyTakes(hash, s.a, y);
    PairSnoc(hash, steps, Deliver(false));
    steps := steps + [Deliver(false)];
    ApplyTakes(hash, s.b, x);
    var s' := RunPair(hash, None, None, steps);
    NothingOwed(hash, s'.a);
    NothingOwed(hash, s'.b);
  }

  /** Both users copy, and both watchers notice, before anything arrives. */
  lemma {:induction false} BothCopy(hash: Text -> u64, x: Text, y: Text) returns (steps: seq<PairStep>)
    requires hash(x) != 0 && hash(y) != 0
    ensures var s := RunPair(hash, None, None, steps);
            && s.ab == [Update(x)] && s.ba == [Update(y)]
            && s.a.watcher.Idle? && s.a.writes == [] && s.b.watcher.Idle? && s.b.writes == []
  {
    hide Update, RunPair, PollNow, Next, ValidUtf8;
    var p, q := Init(None), Init(None);
    steps := [];
    PairSnoc(hash, steps, LocalChange(true, Some(x)));
    UserChanges(hash, p, x);
    steps := steps + [LocalChange(true, Some(x))];
    PairSnoc(hash, steps, LocalChange(false, Some(y)));
    UserChanges(hash, q, y);
    steps := steps + [LocalChange(false, Some(y))];
    p, q := p.(cell := Some(x), changes := 1), q.(cell := Some(y), changes := 1);
    PairSnoc(hash, steps, Poll(true, true));
    steps := steps + [Poll(true, true)];
    PollEmits(hash, p);
    PairSnoc(hash, steps, Poll(false, true));
    steps := steps + [Poll(false, true)];
    PollEmits(hash, q);
    assert ([] + [x])[0..] == [x] && ([] + [y])[0..] == [y];
    OneUpdate(x);
    OneUpdate(y);
  }

  lemma OneUpdate(t: Text)
    ensures [] + Updates([t]) == [Update(t)]
  {
    hide Update, ValidUtf8;
  }

  lemma NothingOwed(hash: Text -> u64, p: Peer)
    requires p.watcher.Idle? && p.cell.Some? && p.lastHash == hash(p.cell.value)
    ensures Owed(hash, p) == 0
  {
    hide ValidUtf8;
  }

  lemma PollEmits(hash: Text -> u64, p: Peer)
    requires p.watcher.Idle? && p.cell.Some? && hash(p.cell.value) != p.lastHash
    ensures PollNow(hash, p, true) == p.(lastHash := hash(p.cell.value), emitted := p.emitted + [p.cell.value])
  {
  }

  lemma {:induction false} ApplyTakes(hash: Text -> u64, p: Peer, t: Text)
    requires p.watcher.Idle? && p.writes == []
    ensures ApplyNow(hash, p, Update(t), true) == p.(lastHash := hash(t), cell := Some(t), applied := p.applied + 1)
  {
    hide Accepted, Update;
    UpdatesAreAccepted(t);
  }

  lemma PairSnoc(hash: Text -> u64, steps: seq<PairStep>, step: PairStep)
    ensures RunPair(hash, None, None, []) == Pair(Init(None), Init(None), [], [])
    ensures RunPair(hash, None, None, steps + [step]) == NextPair(hash, RunPair(hash, None, None, steps), step)
  {
    hide NextPair, Init;
    assert (steps + [step])[..|steps|] == steps;
  }
}
