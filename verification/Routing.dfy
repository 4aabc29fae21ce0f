/** Which machine gets an event: the local applications, which see what no callback swallows, and
    the peer, which sees what its client has handled. */
module Routing {
  import opened Protocol
  import opened Codec
  import opened Capture
  import opened Traces
  import opened Connection
  import opened Session
  import opened SessionResults

  predicate ReachedLocalOs(item: Item) { !item.swallowed }

  /** The client has handled the message. */
  predicate ReachedPeer(s: State, item: Item) { item in Arrived(s) }

  /** Forwarded, but not handled by the client. */
  function OnTheWay(s: State): seq<Item> { Forwarded(s.tested)[|Arrived(s)|..] }

  /** A message may still reach the peer while it is in flight and the server loop runs, or while
      it is on the way to a client that has not left. */
  predicate IsUndecided(s: State, item: Item) {
    (s.running && item in InFlight(s)) || (!s.client.Gone? && item in OnTheWay(s))
  }

  // ---- Where an item is --------------------------------------------------------------------

  /** Tested and in-flight items, in order, with no item twice. */
  function Taken(s: State): seq<Item> { Items(s.tested) + InFlight(s) }

  lemma {:induction false} TakenOnce(s: State)
    requires InvQueue(s)
    ensures InCaptureOrder(Taken(s), s.log, |s.log|)
    ensures forall j, k :: 0 <= j < k < |Taken(s)| ==> Taken(s)[j] != Taken(s)[k]
  {
    hide Fits, Kept, Items, InFlight;
    KeptInOrder(s.log, |s.log|);
    assert s.log[..|s.log|] == s.log;
  }

  lemma {:induction false} ItemsAt(tested: seq<Tested>, k: nat)
    requires k < |tested|
    ensures Items(tested)[k] == tested[k].item
  {
    hide Fits;
    if k < |tested| - 1 { ItemsAt(tested[..|tested| - 1], k); }
  }

  lemma {:induction false} KeptIsKept(log: seq<Item>, i: nat)
    requires i < |log|
    ensures log[i].kept ==> log[i] in Kept(log)
    ensures forall item :: item in Kept(log) ==> item.kept
    decreases |log|
  {
    hide Fits;
    if i < |log| - 1 {
      KeptIsKept(log[..|log| - 1], i);
    } else if i > 0 {
      KeptIsKept(log[..|log| - 1], i - 1);
    }
  }

  lemma {:induction false} TestedIsRouted(tested: seq<Tested>, on: bool, k: nat)
    requires k < |tested| && tested[k].forwarded == on
    ensures tested[k].item in Routed(tested, on)
    decreases |tested|
  {
    hide Fits;
    if k < |tested| - 1 { TestedIsRouted(tested[..|tested| - 1], on, k); }
  }

  lemma {:induction false} RoutedIsTested(tested: seq<Tested>, on: bool, item: Item) returns (k: nat)
    requires item in Routed(tested, on)
    ensures k < |tested| && tested[k].item == item && tested[k].forwarded == on
    decreases |tested|
  {
    hide Fits;
    k := |tested| - 1;
    if item in Routed(tested[..k], on) { k := RoutedIsTested(tested[..k], on, item); }
  }

  /** Where an item was routed is told from its own test: no item is tested twice. */
  lemma {:induction false} RoutedAt(s: State, k: nat, on: bool)
    requires InvQueue(s) && k < |s.tested|
    ensures s.tested[k].item in Routed(s.tested, on) <==> s.tested[k].forwarded == on
    ensures s.tested[k].item !in InFlight(s)
  {
    hide Fits, Routed, Items, InFlight, Kept, InCaptureOrder;
    var item := s.tested[k].item;
    TakenOnce(s);
    forall j | 0 <= j < |s.tested| ensures Taken(s)[j] == s.tested[j].item { ItemsAt(s.tested, j); }
    forall j | 0 <= j < |InFlight(s)| ensures InFlight(s)[j] != item {
      assert InFlight(s)[j] == Taken(s)[|s.tested| + j];
      assert Taken(s)[k] == item;
    }
    if s.tested[k].forwarded == on { TestedIsRouted(s.tested, on, k); }
    if item in Routed(s.tested, on) {
      var j := RoutedIsTested(s.tested, on, item);
      assert Taken(s)[j] == Taken(s)[k];
    }
  }

  /** Forwarded, discarded and in flight exclude each other, and so do arrived and on the way. */
  lemma {:induction false} Apart(s: State, item: Item)
    requires InvQueue(s)
    ensures item in Forwarded(s.tested) ==> item !in Discarded(s.tested)
    ensures item in Forwarded(s.tested) || item in Discarded(s.tested) ==> item !in InFlight(s)
    ensures item in Arrived(s) ==> item !in OnTheWay(s)
    ensures item in Forwarded(s.tested) <==> item in Arrived(s) || item in OnTheWay(s)
  {
    hide Fits, Routed, Items, InFlight, Kept, Arrived, InvQueue;
    if item in Forwarded(s.tested) {
      var k := RoutedIsTested(s.tested, true, item);
      RoutedAt(s, k, false);
    } else if item in Discarded(s.tested) {
      var k := RoutedIsTested(s.tested, false, item);
      RoutedAt(s, k, true);
    }
    ForwardedInOrder(s);
    var f, n := Forwarded(s.tested), |Arrived(s)|;
    assert f == f[..n] + f[n..] && Arrived(s) == f[..n];
    forall i, j | 0 <= i < n <= j < |f| ensures f[i] != f[j] {
      assert f[i].id < f[j].id;
    }
  }

  lemma {:induction false} WhereKept(s: State, item: Item) returns (k: nat)
    requires InvQueue(s) && item in Kept(s.log)
    ensures k < |s.tested| ==> s.tested[k].item == item && item !in InFlight(s)
    ensures k >= |s.tested| ==> item in InFlight(s)
  {
    hide Fits, Routed, Items, InFlight, Kept, InCaptureOrder;
    assert Kept(s.log) == Taken(s);
    k :| 0 <= k < |Taken(s)| && Taken(s)[k] == item;
    if k < |s.tested| {
      ItemsAt(s.tested, k);
      assert Taken(s)[k] == Items(s.tested)[k];
      RoutedAt(s, k, true);
    } else {
      assert item == InFlight(s)[k - |s.tested|];
    }
  }

  lemma {:induction false} NotKept(s: State, item: Item)
    requires InvQueue(s)
    ensures item in Forwarded(s.tested) || item in InFlight(s) ==> item in Kept(s.log)
  {
    hide Fits, Routed, Items, InFlight, Kept, InCaptureOrder;
    assert Kept(s.log) == Taken(s);
    assert forall x :: x in InFlight(s) ==> x in Taken(s);
    if item in Forwarded(s.tested) {
      var k := RoutedIsTested(s.tested, true, item);
      ItemsAt(s.tested, k);
      assert Taken(s)[k] == item;
    }
  }

  lemma OddMeans(n: nat)
    ensures Odd(n) == (n % 2 == 1)
  {
  }

  lemma ParityOfDifference(a: nat, b: nat)
    requires a <= b
    ensures Odd(a) == Odd(b) <==> (b - a) % 2 == 0
  {
  }

  // ---- One event -----------------------------------------------------------------------------

  /** The client has handled exactly the first forwarded events, one fewer than the messages it
      has handled, of which the first is the acknowledgement. */
  lemma {:induction false} ArrivalIsExact(hello: Sendable, steps: seq<Step>, j: nat)
    requires IsGoodHello(hello) && j < |Forwarded(Run(hello, steps).tested)|
    ensures var s := Run(hello, steps);
            ReachedPeer(s, Forwarded(s.tested)[j]) <==> j + 1 < |s.handled|
  {
    hide Fits, Run, Forwarded, InvLink, InvFlag, InvMotion, InvMisrouted, InvEvents, InvQueue, Messages;
    RunInv(hello, steps);
    EndToEndPrefix(hello, steps);
    var s := Run(hello, steps);
    var f := Forwarded(s.tested);
    Apart(s, f[j]);
    if j < |Arrived(s)| {
      assert Arrived(s)[j] == f[j];
    } else {
      assert OnTheWay(s)[j - |Arrived(s)|] == f[j];
    }
    assert |Messages(f)| == |f| by { MessagesLength(f); }
  }

  lemma MessagesLength(items: seq<Item>)
    ensures |Messages(items)| == |items|
  {
    hide Fits;
  }

  /** Every captured event, whatever became of its message, with the exact condition under which
      it has reached exactly one of the local applications and the peer. A message that did
      not get into the channel, or is in flight, or was forwarded but not handled by the client:
      if and only if the callback did not swallow it. One that the server discarded or the
      client handled: if and only if the number of toggles between its callback and its test
      is even, in particular when there was none. */
  lemma {:induction false} ExactlyOnce(hello: Sendable, steps: seq<Step>, i: nat) returns (k: nat)
    requires IsGoodHello(hello) && i < |Run(hello, steps).log|
    ensures var s := Run(hello, steps);
            var item := s.log[i];
            var once := ReachedLocalOs(item) != ReachedPeer(s, item);
            && item.swallowed == (item.toggles % 2 == 1)
            && if !item.kept || item in InFlight(s) || item in OnTheWay(s)
               then !ReachedPeer(s, item) && (once <==> !item.swallowed)
               else
                 && k < |s.tested| && s.tested[k].item == item && s.tested[k].toggles >= item.toggles
                 && (once <==> (s.tested[k].toggles - item.toggles) % 2 == 0)
  {
    hide Fits, Run, InvLink, InvMisrouted, InvMotion, InFlight, Odd, Kept, Items, InvEvents, Forwarded, Arrived;
    hide OnTheWay, Routed, InvQueue, InvFlag;
    RunInv(hello, steps);
    var s := Run(hello, steps);
    var item := s.log[i];
    LoggedFlag(s, i);
    OddMeans(item.toggles);
    KeptIsKept(s.log, i);
    NotKept(s, item);
    Apart(s, item);
    k := 0;
    if item.kept {
      k := WhereKept(s, item);
      if k < |s.tested| {
        TestedFlag(s, k);
        RoutedAt(s, k, true);
        ForwardedMeans(s.tested, item);
        ParityOfDifference(item.toggles, s.tested[k].toggles);
      }
    }
  }

  lemma LoggedFlag(s: State, i: nat)
    requires InvFlag(s) && i < |s.log|
    ensures s.log[i].swallowed == Odd(s.log[i].toggles)
  {
    hide Fits, Odd, InFlight;
  }

  lemma TestedFlag(s: State, k: nat)
    requires InvFlag(s) && k < |s.tested|
    ensures s.tested[k].forwarded == Odd(s.tested[k].toggles) && s.tested[k].item.toggles <= s.tested[k].toggles
  {
    hide Fits, Odd, InFlight;
  }

  lemma ForwardedMeans(tested: seq<Tested>, item: Item)
    ensures item in Forwarded(tested) <==> item in Routed(tested, true)
    ensures item in Discarded(tested) <==> item in Routed(tested, false)
  {
    hide Routed, Fits;
  }

  /** An event for which there is no message never gets near the peer, so it reaches exactly one
      machine if and only if the flag is not set; the hotkey press itself is for neither. */
  lemma WithoutMessage(s: State, e: HookInput)
    requires NewItem(s, e).None? && !IsHotkey(e)
    ensures var s' := Next(s, Hook(e));
            && s'.queue == s.queue && s'.log == s.log && s'.tested == s.tested && s'.link == s.link
            && s'.unsent == s.unsent + if Swallowed(s.grabbed, e) then 1 else 0
    ensures Swallowed(s.grabbed, e) <==> s.grabbed && (if e.Mouse? then e.mcode else e.kcode) == HC_ACTION
  {
    hide Fits, Captured;
  }

  // ---- What is decided stays decided -----------------------------------------------------------

  /** How one step changes what the fate of an event depends on. */
  lemma {:induction false} FateStep(s: State, step: Step)
    ensures var s' := Next(s, step);
            && (s'.running ==> s.running) && (s.client.Gone? ==> s'.client.Gone? && s'.handled == s.handled)
            && s.handled <= s'.handled
            && s.log <= s'.log
            && (forall item :: item in InFlight(s') ==> item in InFlight(s) || item.id == |s.log|)
            && (Forwarded(s'.tested) == Forwarded(s.tested)
                || (s.running && s.inHand.Some? && Forwarded(s'.tested) == Forwarded(s.tested) + InHand(s)))
  {
    hide Fits, AfterHook, AfterTest, AfterDecode, Deliver, Routed, IsHotkey, NewItem;
    if Enabled(s, step) {
      match step
      case Hook(e) => HookEffect(s, e); NewItemId(s, e);
      case Test => TestEffect(s);
      case Decode => DecodeFrame(s); HandledGrows(s);
      case _ =>
    }
  }

  lemma NewItemId(s: State, e: HookInput)
    ensures NewItem(s, e).Some? ==> NewItem(s, e).value.id == |s.log|
  {
    hide Fits, IsHotkey, Captured;
  }

  lemma TestEffect(s: State)
    requires s.inHand.Some?
    ensures var s' := AfterTest(s);
            && s'.running == s.running && s'.client == s.client && s'.handled == s.handled && s'.log == s.log
            && InFlight(s) == InHand(s) + InFlight(s')
            && Forwarded(s'.tested) == Forwarded(s.tested) + if s.grabbed then InHand(s) else []
  {
    hide Fits, Write;
    var s' := AfterTest(s);
    assert s'.tested[..|s'.tested| - 1] == s.tested;
  }

  lemma HandledGrows(s: State)
    ensures s.handled <= AfterDecode(s).handled
  {
    hide Fits, Read;
  }

  lemma {:induction false} ArrivedLength(hello: Sendable, steps: seq<Step>)
    requires IsGoodHello(hello)
    ensures var s := Run(hello, steps); |Arrived(s)| == if s.handled == [] then 0 else |s.handled| - 1
  {
    hide Fits, Run, Forwarded, Messages;
    EndToEndPrefix(hello, steps);
    MessagesLength(Forwarded(Run(hello, steps).tested));
  }

  lemma InHandIsInFlight(s: State)
    ensures forall item :: item in InHand(s) ==> item in InFlight(s)
  {
    hide Fits;
  }

  lemma {:induction false} FateIsFinalOnce(hello: Sendable, steps: seq<Step>, step: Step, i: nat)
    requires IsGoodHello(hello) && i < |Run(hello, steps).log|
    requires !IsUndecided(Run(hello, steps), Run(hello, steps).log[i])
    ensures var s, s' := Run(hello, steps), Run(hello, steps + [step]);
            && i < |s'.log| && s'.log[i] == s.log[i] && !IsUndecided(s', s.log[i])
            && ReachedPeer(s', s.log[i]) == ReachedPeer(s, s.log[i])
  {
    hide Fits, Run, Next, HotkeyPresses, Forwarded, InFlight, InHand, Arrived, Kept, Items;
    hide InvLink, InvFlag, InvMotion, InvMisrouted, InvEvents;
    RunInv(hello, steps);
    RunInv(hello, steps + [step]);
    RunSnoc(hello, steps, step);
    var s, s' := Run(hello, steps), Run(hello, steps + [step]);
    var item := s.log[i];
    assert item.id == i;
    FateStep(s, step);
    ArrivedLength(hello, steps);
    ArrivedLength(hello, steps + [step]);
    assert Arrived(s) <= Arrived(s');
    Apart(s, item);
    Apart(s', item);
    InHandIsInFlight(s);
    if s.client.Gone? { assert Arrived(s') == Arrived(s); }
  }

  /** Once an event is decided, nothing that happens later changes which machines it has reached,
      and it stays decided. */
  lemma {:induction false} FateIsFinal(hello: Sendable, steps: seq<Step>, more: seq<Step>, i: nat)
    requires IsGoodHello(hello) && i < |Run(hello, steps).log|
    requires !IsUndecided(Run(hello, steps), Run(hello, steps).log[i])
    ensures var s, s' := Run(hello, steps), Run(hello, steps + more);
            && i < |s'.log| && s'.log[i] == s.log[i] && !IsUndecided(s', s.log[i])
            && ReachedPeer(s', s.log[i]) == ReachedPeer(s, s.log[i])
    decreases |more|
  {
    hide Fits, Run, IsUndecided, ReachedPeer;
    if more == [] {
      assert steps + more == steps;
    } else {
      var before := more[..|more| - 1];
      FateIsFinal(hello, steps, before, i);
      FateIsFinalOnce(hello, steps + before, more[|more| - 1], i);
      assert steps + more == steps + before + [more[|more| - 1]];
    }
  }

  // ---- Events that reach both machines or neither ------------------------------------------------

  /** 1 for an event that has reached both machines or neither, for good. */
  function Astray(s: State): Item -> int {
    (item: Item) => if !IsUndecided(s, item) && ReachedLocalOs(item) == ReachedPeer(s, item) then 1 else 0
  }

  function AstrayEvents(s: State): int { Total(Astray(s), s.log) + s.unsent }

  const SWALLOWED: Item -> int := (item: Item) => if item.swallowed then 1 else 0
  const SHARED: Item -> int := (item: Item) => if item.swallowed then 0 else 1
  const NOUGHT: Item -> int := (item: Item) => 0

  /** Events whose message the server tested with another flag than their callback saw: shared
      ones that the client has handled, and swallowed ones that the server discarded. */
  function Toggled(s: State): int { Total(SHARED, Arrived(s)) + Total(SWALLOWED, Discarded(s.tested)) }

  /** Messages the server loop left behind when it ended. */
  function LeftBehind(s: State): seq<Item> { if s.running then [] else InFlight(s) }

  /** Messages on the way to a client that has left. */
  function Lost(s: State): seq<Item> { if s.client.Gone? then OnTheWay(s) else [] }

  lemma {:induction false} TotalOfLog(f: Item -> int, log: seq<Item>)
    ensures Total(f, log) == Total(f, Kept(log)) + Total(f, Dropped(log))
  {
    hide Fits;
    if log != [] {
      var before, last := log[..|log| - 1], [log[|log| - 1]];
      TotalOfLog(f, before);
      assert log == before + last;
      TotalAppend(f, before, last);
      TotalAppend(f, Kept(before), if last[0].kept then last else []);
      TotalAppend(f, Dropped(before), if last[0].kept then [] else last);
    }
  }

  lemma {:induction false} TotalOfTested(f: Item -> int, tested: seq<Tested>)
    ensures Total(f, Items(tested)) == Total(f, Forwarded(tested)) + Total(f, Discarded(tested))
  {
    hide Fits;
    if tested != [] {
      var before, t := tested[..|tested| - 1], tested[|tested| - 1];
      TotalOfTested(f, before);
      TotalAppend(f, Items(before), [t.item]);
      TotalAppend(f, Forwarded(before), if t.forwarded then [t.item] else []);
      TotalAppend(f, Discarded(before), if t.forwarded then [] else [t.item]);
    }
  }

  /** The tests that disagree with their callback. */
  lemma {:induction false} MisroutedIsSum(tested: seq<Tested>)
    ensures Misrouted(tested) == Total(SHARED, Forwarded(tested)) + Total(SWALLOWED, Discarded(tested))
  {
    hide Fits;
    if tested != [] {
      var before, t := tested[..|tested| - 1], tested[|tested| - 1];
      MisroutedIsSum(before);
      TotalAppend(SHARED, Forwarded(before), if t.forwarded then [t.item] else []);
      TotalAppend(SWALLOWED, Discarded(before), if t.forwarded then [] else [t.item]);
      TotalOne(SHARED, t.item);
      TotalOne(SWALLOWED, t.item);
    }
  }

  lemma {:induction false} TotalOfNought(items: seq<Item>)
    ensures Total(NOUGHT, items) == 0 == Total(SWALLOWED, []) == Total(SHARED, [])
  {
    hide Fits;
    if items != [] { TotalOfNought(items[1..]); }
  }

  lemma {:induction false} DroppedAreDropped(log: seq<Item>)
    ensures forall item :: item in Dropped(log) ==> !item.kept && item in log
    ensures forall item :: item in Kept(log) ==> item.kept
  {
    hide Fits;
    if log != [] {
      DroppedAreDropped(log[..|log| - 1]);
      assert forall item :: item in log[..|log| - 1] ==> item in log;
    }
  }

  lemma {:induction false} AstrayForwarded(s: State)
    requires InvQueue(s)
    ensures Total(Astray(s), Forwarded(s.tested)) == Total(SHARED, Arrived(s)) + Total(SWALLOWED, Lost(s))
  {
    hide Fits, Routed, Items, InFlight, Arrived, OnTheWay, Forwarded, InvQueue, Total;
    forall item ensures item in Arrived(s) ==> Astray(s)(item) == SHARED(item)
      ensures item in OnTheWay(s) ==> Astray(s)(item) == if s.client.Gone? then SWALLOWED(item) else 0
    {
      Apart(s, item);
    }
    TotalSame(Astray(s), SHARED, Arrived(s));
    TotalSame(Astray(s), if s.client.Gone? then SWALLOWED else NOUGHT, OnTheWay(s));
    TotalOfNought(OnTheWay(s));
    ArrivedThenOnTheWay(s);
    TotalAppend(Astray(s), Arrived(s), OnTheWay(s));
  }

  lemma ArrivedThenOnTheWay(s: State)
    ensures Forwarded(s.tested) == Arrived(s) + OnTheWay(s)
  {
    hide Fits, Arrived, Forwarded;
  }

  lemma {:induction false} AstrayDiscarded(s: State)
    requires InvQueue(s)
    ensures Total(Astray(s), Discarded(s.tested)) == Total(SWALLOWED, Discarded(s.tested))
  {
    hide Fits, Routed, Items, InFlight, Arrived, OnTheWay, Forwarded, Discarded, InvQueue, Total;
    forall item | item in Discarded(s.tested) ensures Astray(s)(item) == SWALLOWED(item) { Apart(s, item); }
    TotalSame(Astray(s), SWALLOWED, Discarded(s.tested));
  }

  lemma {:induction false} AstrayInFlight(s: State)
    requires InvQueue(s)
    ensures Total(Astray(s), InFlight(s)) == Total(SWALLOWED, LeftBehind(s))
  {
    hide Fits, Routed, Items, InFlight, Arrived, OnTheWay, Forwarded, Discarded, InvQueue, Total;
    forall item | item in InFlight(s) ensures Astray(s)(item) == if s.running then 0 else SWALLOWED(item) {
      Apart(s, item);
    }
    TotalSame(Astray(s), if s.running then NOUGHT else SWALLOWED, InFlight(s));
    TotalOfNought(InFlight(s));
  }

  lemma {:induction false} AstrayDropped(s: State)
    requires InvQueue(s)
    ensures Total(Astray(s), Dropped(s.log)) == Total(SWALLOWED, Dropped(s.log))
  {
    hide Fits, Routed, Items, InFlight, Arrived, OnTheWay, Forwarded, Discarded, InvQueue, Total, Kept, Dropped;
    DroppedAreDropped(s.log);
    forall item | item in Dropped(s.log) ensures Astray(s)(item) == SWALLOWED(item) {
      NotKept(s, item);
      Apart(s, item);
    }
    TotalSame(Astray(s), SWALLOWED, Dropped(s.log));
  }

  /** Without a toggle no callback has swallowed anything it had a message for. */
  lemma {:induction false} NothingSwallowed(s: State, items: seq<Item>)
    requires InvFlag(s) && s.toggles == 0 && forall item :: item in items ==> item in s.log
    ensures Total(SWALLOWED, items) == 0
  {
    hide Fits, InFlight, Total;
    forall item | item in items ensures !item.swallowed {
      var i :| 0 <= i < |s.log| && s.log[i] == item;
    }
    TotalSame(SWALLOWED, NOUGHT, items);
    TotalOfNought(items);
  }

  lemma {:induction false} AllLogged(s: State)
    requires InvQueue(s)
    ensures forall item :: item in Dropped(s.log) || item in LeftBehind(s) || item in Lost(s) ==> item in s.log
  {
    hide Fits, Kept, Dropped, Items, InFlight, Routed, Arrived, InCaptureOrder;
    DroppedAreDropped(s.log);
    forall item | item in LeftBehind(s) || item in Lost(s) ensures item in s.log {
      NotKept(s, item);
      KeptAreLogged(s.log, item);
    }
  }

  lemma {:induction false} KeptAreLogged(log: seq<Item>, item: Item)
    ensures item in Kept(log) ==> item in log
  {
    hide Fits;
    if log != [] { KeptAreLogged(log[..|log| - 1], item); }
  }

  /** In every run the events that have reached both machines or neither, for good, are exactly:
      those whose flag changed between callback and test, at most 257 per hotkey press; those
      swallowed although the channel refused their message; those swallowed and still in the
      channel when the server loop ended, at most 256; those swallowed and on the way to a client
      that left; and those swallowed for which there is no message. Without a hotkey press
      there are none. */
  lemma {:induction false} MisroutingBound(hello: Sendable, steps: seq<Step>)
    requires IsGoodHello(hello)
    ensures var s := Run(hello, steps);
            && AstrayEvents(s) == Toggled(s) + Total(SWALLOWED, Dropped(s.log)) + Total(SWALLOWED, LeftBehind(s))
                                  + Total(SWALLOWED, Lost(s)) + s.unsent
            && 0 <= Toggled(s) <= Misrouted(s.tested) <= 257 * HotkeyPresses(steps)
            && 0 <= Total(SWALLOWED, LeftBehind(s)) <= 256
            && (HotkeyPresses(steps) == 0 ==> AstrayEvents(s) == 0)
  {
    hide Fits, Run, InvLink, InvMotion, InvEvents, InFlight, Kept, Dropped, Items, Astray, Total, Arrived, OnTheWay;
    hide Forwarded, Discarded;
    RunInv(hello, steps);
    var s := Run(hello, steps);
    TotalOfLog(Astray(s), s.log);
    TotalAppend(Astray(s), Items(s.tested), InFlight(s));
    TotalOfTested(Astray(s), s.tested);
    AstrayForwarded(s);
    AstrayDiscarded(s);
    AstrayInFlight(s);
    AstrayDropped(s);
    ToggledAreMisrouted(s);
    InFlightFits(s);
    TotalOfBits(SWALLOWED, LeftBehind(s));
    if s.toggles == 0 {
      AllLogged(s);
      NothingSwallowed(s, Dropped(s.log));
      NothingSwallowed(s, LeftBehind(s));
      NothingSwallowed(s, Lost(s));
    }
  }

  /** Every toggled event is a misrouted test; the other misrouted tests are of shared events
      whose message the client has not handled. */
  lemma {:induction false} ToggledAreMisrouted(s: State)
    ensures 0 <= Toggled(s) <= Misrouted(s.tested)
    ensures Misrouted(s.tested) == Toggled(s) + Total(SHARED, OnTheWay(s))
  {
    hide Fits, Total, Arrived, OnTheWay, Forwarded, Discarded;
    MisroutedIsSum(s.tested);
    ArrivedThenOnTheWay(s);
    TotalAppend(SHARED, Arrived(s), OnTheWay(s));
    TotalOfBits(SHARED, Arrived(s));
    TotalOfBits(SHARED, OnTheWay(s));
    TotalOfBits(SWALLOWED, Discarded(s.tested));
  }

  // ---- How far the five kinds go --------------------------------------------------------------------

  const CLICK: HookInput := Mouse(HC_ACTION, WM_LBUTTONDOWN, Point(0, 0), 0)
  const ALL_DOWN: KeyModifiers := KeyModifiers(true, true, true, false)
  const HOTKEY: HookInput := Keyboard(HC_ACTION, WM_KEYDOWN, HOTKEY_VK, ALL_DOWN, ALL_DOWN)

  /** The channel holds `n` messages, the server one more, and none of them is stale. */
  predicate IsFilled(s: State, n: nat) {
    s.running && s.open && s.inHand.Some? && |s.queue| == n && Stale(InFlight(s), s.grabbed) == 0
  }

  /** What neither callback touches. */
  predicate SameElsewhere(s: State, s': State) {
    && s'.running == s.running && s'.open == s.open && s'.inHand == s.inHand && s'.tested == s.tested
    && s'.client == s.client && s'.handled == s.handled && s'.link == s.link
  }

  /** A click is offered to the channel; nothing else changes that matters to the server. */
  lemma Click(s: State)
    ensures var s' := Next(s, Hook(CLICK));
            && NewItem(s, CLICK).Some? && s'.log == s.log + [NewItem(s, CLICK).value]
            && NewItem(s, CLICK).value.swallowed == s.grabbed == s'.grabbed
            && s'.queue == (if Accepts(s) then s.queue + [NewItem(s, CLICK).value] else s.queue)
            && SameElsewhere(s, s')
    ensures !IsHotkey(CLICK)
  {
    hide Fits;
  }

  lemma PressHotkey(s: State)
    ensures IsHotkey(HOTKEY)
    ensures var s' := Next(s, Hook(HOTKEY));
            s'.queue == s.queue && s'.log == s.log && s'.grabbed == !s.grabbed && SameElsewhere(s, s')
  {
    hide Fits;
  }

  lemma {:induction false} FirstReceived(hello: Sendable, from: seq<Step>) returns (steps: seq<Step>)
    requires IsEmpty(Run(hello, from)) && Run(hello, from).open
    ensures IsFilled(Run(hello, steps), 0) && HotkeyPresses(steps) == HotkeyPresses(from)
    ensures var s, s' := Run(hello, from), Run(hello, steps); s'.tested == s.tested && s'.client == s.client
  {
    hide Fits, Run, HotkeyPresses, IsHotkey, NewItem, AfterHook;
    var s := Run(hello, from);
    Click(s);
    RunSnoc(hello, from, Hook(CLICK));
    steps := from + [Hook(CLICK)];
    RunSnoc(hello, steps, Recv);
    steps := steps + [Recv];
    var item := NewItem(s, CLICK).value;
    assert InFlight(Run(hello, steps)) == [item];
    assert Stale([item], s.grabbed) == Stale([item][1..], s.grabbed) == 0;
  }

  /** Clicks fill the channel while the server holds one message. */
  lemma {:induction false} FillQueue(hello: Sendable, from: seq<Step>, n: nat) returns (steps: seq<Step>)
    requires n <= QUEUE_CAPACITY && IsEmpty(Run(hello, from)) && Run(hello, from).open
    ensures IsFilled(Run(hello, steps), n) && HotkeyPresses(steps) == HotkeyPresses(from)
    ensures var s, s' := Run(hello, from), Run(hello, steps); s'.tested == s.tested && s'.client == s.client
  {
    hide Fits, Run, HotkeyPresses, Next, IsHotkey, NewItem;
    if n == 0 {
      steps := FirstReceived(hello, from);
    } else {
      var before := FillQueue(hello, from, n - 1);
      var s := Run(hello, before);
      Click(s);
      RunSnoc(hello, before, Hook(CLICK));
      steps := before + [Hook(CLICK)];
      var item := NewItem(s, CLICK).value;
      assert InFlight(Run(hello, steps)) == InFlight(s) + [item];
      StaleAppend(InFlight(s), [item], s.grabbed);
    }
  }

  /** The bound on toggled events is exact for every number of hotkey presses: in some completed
      run 257 events per press have reached both machines or neither. */
  lemma {:induction false} MisroutingBoundAttained(hello: Sendable, presses: nat) returns (steps: seq<Step>)
    requires IsGoodHello(hello)
    ensures var s := Run(hello, steps);
            && HotkeyPresses(steps) == presses && UsedUp(s) && Toggled(s) == 257 * presses
            && IsEmpty(s) && s.open && !s.client.Gone? && Misrouted(s.tested) == 257 * presses
  {
    hide Fits, Run, HotkeyPresses, Next, IsHotkey, Init, UsedUp, Toggled, Misrouted;
    if presses == 0 {
      StartOfRun(hello);
      NothingTested();
      assert InFlight(Init(hello)) == [];
      steps := CanComplete(hello, []);
    } else {
      var before := MisroutingBoundAttained(hello, presses - 1);
      var filled := FillQueue(hello, before, QUEUE_CAPACITY);
      var s := Run(hello, filled);
      RunSnoc(hello, filled, Hook(HOTKEY));
      PressHotkey(s);
      StaleFlip(InFlight(s), s.grabbed);
      assert InFlight(Run(hello, filled + [Hook(HOTKEY)])) == InFlight(s);
      steps := CanComplete(hello, filled + [Hook(HOTKEY)]);
    }
    CompletedIsToggled(hello, steps);
    UsedUpIsEmpty(Run(hello, steps));
  }

  lemma NothingTested()
    ensures Misrouted([]) == 0 && forall now :: Stale([], now) == 0
  {
  }

  lemma UsedUpIsEmpty(s: State)
    requires UsedUp(s) && s.running
    ensures IsEmpty(s)
  {
    hide Fits, DecodeStep;
    assert |InFlight(s)| == 0;
  }

  /** Once everything is used up, every misrouted test is an event that reached both or neither. */
  lemma {:induction false} CompletedIsToggled(hello: Sendable, steps: seq<Step>)
    requires IsGoodHello(hello) && UsedUp(Run(hello, steps))
    ensures var s := Run(hello, steps); Toggled(s) == Misrouted(s.tested)
  {
    hide Fits, Run, UsedUp, Toggled, Misrouted, Arrived, Forwarded;
    var s := Run(hello, steps);
    HandledIsArrived(hello, steps);
    ToggledAreMisrouted(s);
    assert OnTheWay(s) == [];
    TotalOfNought([]);
  }

  /** Swallowed events that the full channel refuses are not bounded by the hotkey presses: a
      single press is enough for any number of them. The channel is then full of swallowed
      events, which is what the server leaves behind if it ends now. */
  lemma {:induction false} RefusalsAreUnbounded(hello: Sendable, n: nat) returns (steps: seq<Step>)
    ensures var s := Run(hello, steps);
            && HotkeyPresses(steps) == 1 && s.tested == [] && s.grabbed && s.running && s.open && s.inHand == None
            && |s.queue| == (if n < QUEUE_CAPACITY then n else QUEUE_CAPACITY) == Total(SWALLOWED, s.queue)
            && Total(SWALLOWED, Dropped(s.log)) == if n < QUEUE_CAPACITY then 0 else n - QUEUE_CAPACITY
  {
    hide Fits, Run, HotkeyPresses, Next, IsHotkey, Init, NewItem, Total;
    if n == 0 {
      StartOfRun(hello);
      PressHotkey(Init(hello));
      assert Dropped([]) == [];
      RunSnoc(hello, [], Hook(HOTKEY));
      steps := [] + [Hook(HOTKEY)];
      TotalOfNought([]);
    } else {
      var before := RefusalsAreUnbounded(hello, n - 1);
      var s := Run(hello, before);
      Click(s);
      RunSnoc(hello, before, Hook(CLICK));
      steps := before + [Hook(CLICK)];
      var item := NewItem(s, CLICK).value;
      assert (s.log + [item])[..|s.log|] == s.log;
      TotalAppend(SWALLOWED, Dropped(s.log), [item]);
      TotalAppend(SWALLOWED, s.queue, [item]);
      TotalOne(SWALLOWED, item);
      assert Dropped(s.log + [item]) == if Accepts(s) then Dropped(s.log) else Dropped(s.log) + [item];
    }
  }

  /** The bound on what is left behind is exact. */
  lemma {:induction false} LeftBehindAttained(hello: Sendable) returns (steps: seq<Step>)
    ensures Total(SWALLOWED, LeftBehind(Run(hello, steps))) == 256 && HotkeyPresses(steps) == 1
  {
    hide Fits, Run, HotkeyPresses, Init, NewItem, Total, Dropped;
    steps := RefusalsAreUnbounded(hello, QUEUE_CAPACITY);
    var s := Run(hello, steps);
    RunSnoc(hello, steps, Stop);
    steps := steps + [Stop];
    assert LeftBehind(Run(hello, steps)) == s.queue;
  }

  /** A click goes through an idle server without any delay. */
  lemma {:induction false} ClickThrough(hello: Sendable, steps: seq<Step>) returns (more: seq<Step>, item: Item)
    requires IsEmpty(Run(hello, steps)) && Run(hello, steps).open
    ensures var s, s' := Run(hello, steps), Run(hello, more);
            && HotkeyPresses(more) == HotkeyPresses(steps) && IsEmpty(s') && s'.open
            && item.swallowed == s.grabbed == s'.grabbed && s'.client == s.client && s'.handled == s.handled
            && |s'.tested| == |s.tested| + 1
            && Forwarded(s'.tested) == Forwarded(s.tested) + (if s.grabbed then [item] else [])
            && Discarded(s'.tested) == Discarded(s.tested) + (if s.grabbed then [] else [item])
  {
    hide Fits, Run, HotkeyPresses, IsHotkey, NewItem, AfterHook, Write;
    var s := Run(hello, steps);
    Click(s);
    item := NewItem(s, CLICK).value;
    RunSnoc(hello, steps, Hook(CLICK));
    more := steps + [Hook(CLICK)];
    RunSnoc(hello, more, Recv);
    more := more + [Recv];
    var received := Run(hello, more);
    assert received.inHand == Some(item) && received.queue == [];
    RunSnoc(hello, more, Test);
    more := more + [Test];
    var s' := Run(hello, more);
    assert s'.tested[..|s.tested|] == s.tested;
  }

  /** Nor are swallowed events that are forwarded to a client that has left: a single press is
      enough for any number of them, and none counts as toggled. */
  lemma {:induction false} LossesAreUnbounded(hello: Sendable, n: nat) returns (steps: seq<Step>)
    ensures var s := Run(hello, steps);
            && HotkeyPresses(steps) == 1 && s.client.Gone? && s.handled == [] && s.grabbed && IsEmpty(s) && s.open
            && |s.tested| == n && Total(SWALLOWED, Lost(s)) == n && Toggled(s) == 0
            && Discarded(s.tested) == []
  {
    hide Fits, Run, HotkeyPresses, Total, Forwarded, Discarded;
    if n == 0 {
      steps := LeaveAndPress(hello);
      TotalOfNought([]);
    } else {
      var before := LossesAreUnbounded(hello, n - 1);
      var s := Run(hello, before);
      var item: Item;
      steps, item := ClickThrough(hello, before);
      var s' := Run(hello, steps);
      assert Discarded(s'.tested) == [] + [];
      assert Arrived(s) == [] == Arrived(s') && OnTheWay(s') == OnTheWay(s) + [item];
      TotalAppend(SWALLOWED, Lost(s), [item]);
      TotalOne(SWALLOWED, item);
      TotalOfNought([]);
    }
  }

  lemma {:induction false} LeaveAndPress(hello: Sendable) returns (steps: seq<Step>)
    ensures var s := Run(hello, steps);
            && HotkeyPresses(steps) == 1 && s.client.Gone? && s.handled == [] && s.grabbed && IsEmpty(s) && s.open
            && s.tested == [] && Forwarded(s.tested) == [] == Discarded(s.tested)
  {
    hide Fits, Run, HotkeyPresses, IsHotkey, Init, AfterHook;
    StartOfRun(hello);
    RunSnoc(hello, [], Leave);
    steps := [] + [Leave];
    PressHotkey(Run(hello, steps));
    RunSnoc(hello, steps, Hook(HOTKEY));
    steps := steps + [Hook(HOTKEY)];
  }
}
