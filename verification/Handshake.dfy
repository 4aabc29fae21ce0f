/** The Hello exchange of two `handle_peer` runs over FIFO links, up to and including the
    role loops. Each step belongs to one side; a run is any interleaving. */
module Handshake {
  import opened Protocol

  datatype Phase =
    | Start                  // nothing sent yet
    | Await                  // Hello sent, waiting for the peer's first message
    | Judge(peer: Hello)     // Hello received, version not yet answered
    | Ready                  // acknowledged; in the role loop
    | Rejected               // version mismatch
    | TimedOut
    | Disconnected           // peer gone, or its bytes unreadable, before a Hello
    | SendFailed
    | Unexpected             // "expected Hello, got ..."

  /** One side: its own Hello, everything it has sent, and how many of the peer's messages it
      has taken off the link. */
  datatype Side = Side(hello: Hello, phase: Phase, sent: seq<Message>, taken: nat)

  datatype State = State(server: Side, client: Side)

  datatype Action =
    | SendHello
    | Receive        // the first message
    | Answer         // HelloAck, either way
    | Refuse         // the refusal could not be sent; its error is ignored
    | Timeout
    | Disconnect
    | FailSend
    | Forward(m: Message)  // the server's role loop
    | Consume              // either role loop takes a message

  datatype Step = Step(byServer: bool, action: Action)

  // ---- The refusal text ----------------------------------------------------------------

  function Decimal(n: nat): (s: Ascii)
    ensures |s| <= n + 1
  {
    var digit := ['0' + (n % 10) as char];
    if n < 10 then digit else Decimal(n / 10) + digit
  }

  function MismatchText(peer: u16, ours: u16): Text {
    AsciiBytes("version mismatch: peer=" + Decimal(peer) + " ours=" + Decimal(ours))
  }

  /** The number a sequence of digits stands for. */
  function Value(s: string): int {
    if s == "" then 0 else 10 * Value(s[..|s| - 1]) + (s[|s| - 1] as int - '0' as int)
  }

  /** `Decimal` is the ordinary notation: digits only, standing for the number, without leading
      zeros. */
  lemma {:induction false} DecimalIsNotation(n: nat)
    ensures Value(Decimal(n)) == n
    ensures Decimal(n) != "" && forall i :: 0 <= i < |Decimal(n)| ==> '0' <= Decimal(n)[i] <= '9'
    ensures Decimal(n)[0] == '0' <==> n == 0
  {
    var digit: string := ['0' + (n % 10) as char];
    assert digit[0] as int - '0' as int == n % 10;
    if n >= 10 {
      DecimalIsNotation(n / 10);
      assert Decimal(n)[..|Decimal(n)| - 1] == Decimal(n / 10);
    } else {
      assert digit[..0] == "";
    }
  }

  // ---- Steps -----------------------------------------------------------------------------

  function Version(s: Side): u16 { s.hello.protocolVersion }

  predicate Enabled(me: Side, peer: Side, action: Action, isServer: bool) {
    match action
    case SendHello => me.phase.Start?
    case Receive => me.phase.Await? && me.taken < |peer.sent|
    case Answer => me.phase.Judge?
    case Refuse => me.phase.Judge? && me.phase.peer.protocolVersion != Version(me)
    case Timeout => me.phase.Await?
    case Disconnect => me.phase.Await?
    case FailSend => me.phase.Start? || (me.phase.Judge? && me.phase.peer.protocolVersion == Version(me))
    case Forward(_) => me.phase.Ready? && isServer
    case Consume => me.phase.Ready? && me.taken < |peer.sent|
  }

  function Act(me: Side, peer: Side, action: Action): Side
    requires Enabled(me, peer, action, true)
  {
    match action
    case SendHello => me.(sent := me.sent + [Message.Hello(me.hello)], phase := Await)
    case Receive =>
      var m := peer.sent[me.taken];
      me.(taken := me.taken + 1, phase := if m.Hello? then Judge(m.hello) else Unexpected)
    case Answer =>
      var theirs := me.phase.peer.protocolVersion;
      if theirs != Version(me) then
        me.(sent := me.sent + [HelloAck(false, Some(MismatchText(theirs, Version(me))))], phase := Rejected)
      else
        me.(sent := me.sent + [HelloAck(true, None)], phase := Ready)
    case Refuse => me.(phase := Rejected)
    case Timeout => me.(phase := TimedOut)
    case Disconnect => me.(phase := Disconnected)
    case FailSend => me.(phase := SendFailed)
    case Forward(m) => me.(sent := me.sent + [m])
    case Consume => me.(taken := me.taken + 1)
  }

  predicate CanStep(s: State, step: Step) {
    if step.byServer then Enabled(s.server, s.client, step.action, true)
    else Enabled(s.client, s.server, step.action, false)
  }

  function Next(s: State, step: Step): State {
    if !CanStep(s, step) then s
    else if step.byServer then s.(server := Act(s.server, s.client, step.action))
    else s.(client := Act(s.client, s.server, step.action))
  }

  function Run(server: Hello, client: Hello, steps: seq<Step>): State {
    if steps == [] then State(Side(server, Start, [], 0), Side(client, Start, [], 0))
    else Next(Run(server, client, steps[..|steps| - 1]), steps[|steps| - 1])
  }

  // ---- Invariant ----------------------------------------------------------------------------

  predicate Compatible(a: Side, b: Side) { Version(a) == Version(b) }

  predicate SideInv(me: Side, peer: Side) {
    var hello := Message.Hello(me.hello);
    && me.taken <= |peer.sent|
    && (me.sent != [] ==> me.sent[0] == hello)
    && match me.phase
       case Start => me.sent == [] && me.taken == 0
       case Await => me.sent == [hello] && me.taken == 0
       case Judge(h) => me.sent == [hello] && me.taken == 1 && h == peer.hello
       case Ready => |me.sent| >= 2 && me.sent[1] == HelloAck(true, None) && me.taken >= 1 && Compatible(me, peer)
       case Rejected =>
         && !Compatible(me, peer) && me.taken == 1
         && (me.sent == [hello] || me.sent == [hello, HelloAck(false, Some(MismatchText(Version(peer), Version(me))))])
       case TimedOut => me.sent == [hello] && me.taken == 0
       case Disconnected => me.sent == [hello] && me.taken == 0
       case SendFailed => me.sent == [] || me.sent == [hello]
       case Unexpected => false
  }

  predicate Inv(s: State) { SideInv(s.server, s.client) && SideInv(s.client, s.server) }

  lemma ActInv(me: Side, peer: Side, action: Action)
    requires SideInv(me, peer) && SideInv(peer, me) && Enabled(me, peer, action, true)
    ensures SideInv(Act(me, peer, action), peer) && SideInv(peer, Act(me, peer, action))
  {
    hide MismatchText;
  }

  lemma {:induction false} RunInv(server: Hello, client: Hello, steps: seq<Step>)
    ensures var s := Run(server, client, steps); Inv(s) && s.server.hello == server && s.client.hello == client
    decreases |steps|
  {
    hide SideInv, Act;
    if steps == [] {
      StartInv(server, client);
    } else {
      var step := steps[|steps| - 1];
      RunInv(server, client, steps[..|steps| - 1]);
      var s := Run(server, client, steps[..|steps| - 1]);
      if CanStep(s, step) {
        if step.byServer {
          ActInv(s.server, s.client, step.action);
          ActKeepsHello(s.server, s.client, step.action);
        } else {
          ActInv(s.client, s.server, step.action);
          ActKeepsHello(s.client, s.server, step.action);
        }
      }
    }
  }

  lemma StartInv(server: Hello, client: Hello)
    ensures Inv(Run(server, client, []))
  {
  }

  lemma ActKeepsHello(me: Side, peer: Side, action: Action)
    requires Enabled(me, peer, action, true)
    ensures Act(me, peer, action).hello == me.hello
  {
  }

  // ---- Main results ----------------------------------------------------------------------------

  /** A message that may cross the link when the versions differ. */
  predicate IsRefusal(m: Message) { m.Hello? || (m.HelloAck? && !m.accepted) }

  lemma RefusalsOnly(me: Side, peer: Side)
    requires SideInv(me, peer) && !Compatible(me, peer)
    ensures forall m :: m in me.sent ==> IsRefusal(m)
  {
    hide MismatchText;
  }

  /** In every reachable state: a side is in its role loop only if the versions are equal, and
      then the other side has not rejected; if the versions differ, nothing but Hellos and
      refusals was ever sent; and no side has met an unexpected first message. */
  lemma Agreement(server: Hello, client: Hello, steps: seq<Step>)
    ensures var s := Run(server, client, steps);
            && (s.server.phase.Ready? || s.client.phase.Ready? ==> server.protocolVersion == client.protocolVersion)
            && (s.server.phase.Ready? ==> !s.client.phase.Rejected?)
            && (s.client.phase.Ready? ==> !s.server.phase.Rejected?)
            && (server.protocolVersion != client.protocolVersion ==>
                  forall m :: m in s.server.sent + s.client.sent ==> IsRefusal(m))
            && !s.server.phase.Unexpected? && !s.client.phase.Unexpected?
  {
    hide MismatchText, Run;
    RunInv(server, client, steps);
    var s := Run(server, client, steps);
    if server.protocolVersion != client.protocolVersion {
      RefusalsOnly(s.server, s.client);
      RefusalsOnly(s.client, s.server);
    }
  }

  /** The messages the server's role loop has forwarded. */
  function Forwards(server: Hello, client: Hello, steps: seq<Step>): seq<Message> {
    if steps == [] then [] else
      var before, step := steps[..|steps| - 1], steps[|steps| - 1];
      Forwards(server, client, before)
      + (if step.byServer && step.action.Forward? && CanStep(Run(server, client, before), step)
         then [step.action.m] else [])
  }

  /** What a server in its loop has sent: its Hello, its acceptance and, after those, exactly
      what its loop forwarded. Before that it has forwarded nothing. */
  lemma {:induction false} ServerStream(server: Hello, client: Hello, steps: seq<Step>)
    ensures var s, sent := Run(server, client, steps).server, Forwards(server, client, steps);
            if s.phase.Ready? then s.sent == [Message.Hello(server), HelloAck(true, None)] + sent else sent == []
  {
    hide MismatchText, SideInv;
    if steps != [] {
      var before, step := steps[..|steps| - 1], steps[|steps| - 1];
      ServerStream(server, client, before);
      RunInv(server, client, before);
      var s := Run(server, client, before);
      if step.byServer && CanStep(s, step) { ServerAct(s.server, s.client, step.action); }
    }
  }

  lemma ServerAct(me: Side, peer: Side, action: Action)
    requires SideInv(me, peer) && Enabled(me, peer, action, true)
    ensures var me' := Act(me, peer, action);
            if me.phase.Ready?
            then me'.phase.Ready? && me'.sent == me.sent + (if action.Forward? then [action.m] else [])
            else !action.Forward? && (me'.phase.Ready? ==> me'.sent == [Message.Hello(me.hello), HelloAck(true, None)])
  {
    hide MismatchText;
  }

  /** A refusal that names the version of the refused peer first and then the refusing side's. */
  predicate Refuses(m: Message, peer: u16, ours: u16) {
    m == HelloAck(false, Some(AsciiBytes("version mismatch: peer=" + Decimal(peer) + " ours=" + Decimal(ours))))
  }

  lemma {:induction false} RefusalNamesBoth(server: Hello, client: Hello, steps: seq<Step>)
    ensures var s, c := Run(server, client, steps).server, Run(server, client, steps).client;
            && (s.phase.Rejected? && |s.sent| > 1 ==>
                  Refuses(s.sent[1], client.protocolVersion, server.protocolVersion))
            && (c.phase.Rejected? && |c.sent| > 1 ==>
                  Refuses(c.sent[1], server.protocolVersion, client.protocolVersion))
  {
    hide Run, AsciiBytes, Decimal;
    RunInv(server, client, steps);
  }

  /** What a side makes of the first message of any peer: a Hello is judged by its version alone,
      anything else ends the exchange. */
  lemma FirstMessageDecides(me: Side, peer: Side)
    requires me.phase.Await? && me.taken < |peer.sent|
    ensures var m, judged := peer.sent[me.taken], Act(me, peer, Receive);
            && judged.taken == me.taken + 1 && judged.sent == me.sent
            && (judged.phase.Unexpected? <==> !m.Hello?)
            && (m.Hello? ==>
                  var answered := Act(judged, peer, Answer);
                  && (answered.phase.Ready? <==> m.hello.protocolVersion == me.hello.protocolVersion)
                  && (answered.phase.Rejected? <==> m.hello.protocolVersion != me.hello.protocolVersion)
                  && |answered.sent| == |me.sent| + 1 && answered.sent[|me.sent|].HelloAck?
                  && (answered.sent[|me.sent|].accepted <==> answered.phase.Ready?))
  {
    hide MismatchText;
  }

  /** Waiting can always be cut short by the timeout or a disconnect, sending by a failure; a
      refusal that cannot be sent is a refusal all the same. */
  lemma FailuresCanHappen(me: Side, peer: Side, isServer: bool)
    ensures me.phase.Await? ==>
              && Enabled(me, peer, Timeout, isServer) && Act(me, peer, Timeout) == me.(phase := TimedOut)
              && Enabled(me, peer, Disconnect, isServer) && Act(me, peer, Disconnect) == me.(phase := Disconnected)
    ensures me.phase.Start? ==>
              Enabled(me, peer, FailSend, isServer) && Act(me, peer, FailSend) == me.(phase := SendFailed)
    ensures me.phase.Judge? && me.phase.peer.protocolVersion == me.hello.protocolVersion ==>
              Enabled(me, peer, FailSend, isServer) && Act(me, peer, FailSend) == me.(phase := SendFailed)
    ensures me.phase.Judge? && me.phase.peer.protocolVersion != me.hello.protocolVersion ==>
              Enabled(me, peer, Refuse, isServer) && Act(me, peer, Refuse) == me.(phase := Rejected)
  {
    hide MismatchText;
  }

  /** In the role loops the server alone forwards, any message and one at a time, and either side
      takes whatever has arrived; before them neither does. */
  lemma RoleLoops(me: Side, peer: Side, m: Message, isServer: bool)
    ensures Enabled(me, peer, Action.Forward(m), isServer) <==> isServer && me.phase.Ready?
    ensures isServer && me.phase.Ready? ==> Act(me, peer, Action.Forward(m)) == me.(sent := me.sent + [m])
    ensures Enabled(me, peer, Consume, isServer) <==> me.phase.Ready? && me.taken < |peer.sent|
    ensures me.phase.Ready? && me.taken < |peer.sent| ==> Act(me, peer, Consume) == me.(taken := me.taken + 1)
  {
    hide MismatchText;
  }

  predicate Failed(s: Side) { s.phase.TimedOut? || s.phase.Disconnected? || s.phase.SendFailed? }

  predicate IsExchange(a: Action) { a.SendHello? || a.Receive? || a.Answer? }

  predicate PreReady(s: Side) { s.phase.Start? || s.phase.Await? || s.phase.Judge? }

  /** No deadlock: without a timeout, disconnect or failed send, as long as a side has not
      finished the exchange, one of the two can take its next step. */
  lemma Progress(server: Hello, client: Hello, steps: seq<Step>) returns (step: Step)
    requires var s := Run(server, client, steps);
             !Failed(s.server) && !Failed(s.client) && (PreReady(s.server) || PreReady(s.client))
    ensures IsExchange(step.action) && CanStep(Run(server, client, steps), step)
  {
    hide MismatchText, Run;
    RunInv(server, client, steps);
    var s := Run(server, client, steps);
    if s.server.phase.Start? { return Step(true, SendHello); }
    if s.client.phase.Start? { return Step(false, SendHello); }
    if s.server.phase.Await? { return Step(true, Receive); }
    if s.client.phase.Await? { return Step(false, Receive); }
    if s.server.phase.Judge? { return Step(true, Answer); }
    return Step(false, Answer);
  }

  function Rank(s: Side): nat {
    match s.phase
    case Start => 3
    case Await => 2
    case Judge(_) => 1
    case _ => 0
  }

  lemma RankFalls(s: State, step: Step)
    ensures var r, r' := Rank(s.server) + Rank(s.client), Rank(Next(s, step).server) + Rank(Next(s, step).client);
            r' <= r && (CanStep(s, step) && IsExchange(step.action) ==> r' < r)
  {
    hide MismatchText;
  }

  /** How many steps of a run belong to the exchange. */
  function Exchanges(server: Hello, client: Hello, steps: seq<Step>): nat {
    if steps == [] then 0 else
      var before, step := steps[..|steps| - 1], steps[|steps| - 1];
      Exchanges(server, client, before)
      + (if CanStep(Run(server, client, before), step) && IsExchange(step.action) then 1 else 0)
  }

  /** The exchange takes at most six steps in every run, three on either side, however they
      interleave; what is left of them is at most the rank of the state. */
  lemma {:induction false} ExchangeEnds(server: Hello, client: Hello, steps: seq<Step>)
    ensures var s := Run(server, client, steps);
            Exchanges(server, client, steps) + Rank(s.server) + Rank(s.client) <= 6
  {
    hide MismatchText, Next, Rank;
    if steps == [] {
      assert Run(server, client, []).server.phase == Start && Run(server, client, []).client.phase == Start;
      RankAtStart(Run(server, client, []));
    } else {
      ExchangeEnds(server, client, steps[..|steps| - 1]);
      RankFalls(Run(server, client, steps[..|steps| - 1]), steps[|steps| - 1]);
    }
  }

  lemma RankAtStart(s: State)
    requires s.server.phase.Start? && s.client.phase.Start?
    ensures Rank(s.server) + Rank(s.client) == 6
  {
  }

  /** Where a failure-free exchange ends: with equal versions both sides are ready, with
      different versions both have rejected. */
  lemma Outcome(server: Hello, client: Hello, steps: seq<Step>)
    requires var s := Run(server, client, steps); !Failed(s.server) && !Failed(s.client)
    requires forall step: Step :: IsExchange(step.action) ==> !CanStep(Run(server, client, steps), step)
    ensures var s := Run(server, client, steps);
            if server.protocolVersion == client.protocolVersion
            then s.server.phase.Ready? && s.client.phase.Ready?
            else s.server.phase.Rejected? && s.client.phase.Rejected?
  {
    hide MismatchText, Run;
    RunInv(server, client, steps);
    var s := Run(server, client, steps);
    if PreReady(s.server) || PreReady(s.client) {
      var step := Progress(server, client, steps);
    }
  }
}
