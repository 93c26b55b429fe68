/**
 The UDP flow of src/inbound/tun_inbound.cpp as a transition system: the fields its mutex guards,
 the three locked blocks, and the coroutines around them.  A step is one locked block, one spawn or
 one await that completes; any coroutine may take the next step, and payloads may arrive at any time.

 Coroutines are counted, not identified, so that "at most one" is something to prove.
 */
module UdpFlowModel {
  import opened Bytes

  type Payload = seq<Byte>

  /** The fields under the flow's mutex. */
  datatype Flow = Flow(pending: seq<Payload>, connecting: bool, connected: bool, sending: bool)

  const IDLE: Flow := Flow([], false, false, false)

  datatype Spawn = SpawnNothing | SpawnStart | SpawnSend

  /** The locked block of `enqueue`. */
  function EnqueueBlock(f: Flow, payload: Payload): (Flow, Spawn) {
    var g := f.(pending := f.pending + [payload]);
    if !f.connecting && !f.connected then (g.(connecting := true), SpawnStart)
    else if f.connected && !f.sending then (g.(sending := true), SpawnSend)
    else (g, SpawnNothing)
  }

  /** The locked block of `start` after its connect succeeded. */
  function ConnectedBlock(f: Flow): (Flow, bool) {
    (f.(connected := true, connecting := false, sending := true), !f.sending)
  }

  /** The locked block at the top of `send_loop`. */
  function TakeBlock(f: Flow): (Flow, Option<Payload>) {
    if f.pending == [] then (f.(sending := false), None) else (f.(pending := f.pending[1..]), Some(f.pending[0]))
  }

  /**
   A flow and its coroutines.  `owedStarts` and `owedSends` are enqueues past their locked block that
   have not spawned yet; `connects` are starts waiting for their connect; `owedByStart` are starts that
   must still spawn a send loop; `takes` are send loops before their locked block; `inFlight` is the
   payload of each send loop waiting for its send.  The rest is history: what was enqueued, sent and
   lost to a failed send, and the number of starts ever spawned and of connects that failed.
   */
  datatype System = System(flow: Flow,
                           owedStarts: nat, connects: nat, owedByStart: nat, owedReceives: nat,
                           owedSends: nat, takes: nat, inFlight: seq<Payload>, receives: nat,
                           enqueued: seq<Payload>, sent: seq<Payload>, lost: seq<Payload>,
                           starts: nat, failedConnects: nat, endedReceives: nat)

  /** A flow as constructed: nothing enqueued, no coroutine. */
  predicate IsFresh(s: System) {
    && s.flow.pending == [] && !s.flow.connecting && !s.flow.connected && !s.flow.sending
    && s.owedStarts == s.connects == s.owedByStart == s.owedReceives == 0
    && s.owedSends == s.takes == s.receives == 0 && s.inFlight == []
    && s.enqueued == [] && s.sent == [] && s.lost == []
    && s.starts == s.failedConnects == s.endedReceives == 0
  }

  datatype Event =
    | Enqueue(payload: Payload)
    | SpawnsStart | SpawnsSend
    | ConnectOk | ConnectFails
    | StartSpawnsSend | StartSpawnsReceive
    | Take
    | SendOk(loop: nat) | SendFails(loop: nat)
    | ReceiveEnds

  function WithoutAt(s: seq<Payload>, i: nat): seq<Payload>
    requires i < |s|
  {
    s[..i] + s[i + 1..]
  }

  predicate Enabled(s: System, e: Event) {
    match e
    case Enqueue(_) => true
    case SpawnsStart => s.owedStarts > 0
    case SpawnsSend => s.owedSends > 0
    case ConnectOk => s.connects > 0
    case ConnectFails => s.connects > 0
    case StartSpawnsSend => s.owedByStart > 0
    case StartSpawnsReceive => s.owedReceives > 0
    case Take => s.takes > 0
    case SendOk(i) => i < |s.inFlight|
    case SendFails(i) => i < |s.inFlight|
    case ReceiveEnds => s.receives > 0
  }

  function Step(s: System, e: Event): System
    requires Enabled(s, e)
  {
    match e
    case Enqueue(payload) =>
      var (flow, spawn) := EnqueueBlock(s.flow, payload);
      var t := s.(flow := flow, enqueued := s.enqueued + [payload]);
      (match spawn
       case SpawnNothing => t
       case SpawnStart => t.(owedStarts := s.owedStarts + 1)
       case SpawnSend => t.(owedSends := s.owedSends + 1))
    case SpawnsStart => s.(owedStarts := s.owedStarts - 1, connects := s.connects + 1, starts := s.starts + 1)
    case SpawnsSend => s.(owedSends := s.owedSends - 1, takes := s.takes + 1)
    case ConnectOk =>
      var (flow, shouldSend) := ConnectedBlock(s.flow);
      if shouldSend then s.(flow := flow, connects := s.connects - 1, owedByStart := s.owedByStart + 1)
      else s.(flow := flow, connects := s.connects - 1, owedReceives := s.owedReceives + 1)
    case ConnectFails => s.(connects := s.connects - 1, failedConnects := s.failedConnects + 1)
    case StartSpawnsSend => s.(owedByStart := s.owedByStart - 1, takes := s.takes + 1, owedReceives := s.owedReceives + 1)
    case StartSpawnsReceive => s.(owedReceives := s.owedReceives - 1, receives := s.receives + 1)
    case Take =>
      var (flow, taken) := TakeBlock(s.flow);
      (match taken
       case None => s.(flow := flow, takes := s.takes - 1)
       case Some(payload) => s.(flow := flow, takes := s.takes - 1, inFlight := s.inFlight + [payload]))
    case SendOk(i) => s.(inFlight := WithoutAt(s.inFlight, i), sent := s.sent + [s.inFlight[i]], takes := s.takes + 1)
    case SendFails(i) => s.(inFlight := WithoutAt(s.inFlight, i), lost := s.lost + [s.inFlight[i]])
    case ReceiveEnds => s.(receives := s.receives - 1, endedReceives := s.endedReceives + 1)
  }

  /** The system after the events in order; None if one of them cannot happen. */
  function Exec(s: System, events: seq<Event>): Option<System>
    decreases |events|
  {
    if events == [] then Some(s) else if !Enabled(s, events[0]) then None else Exec(Step(s, events[0]), events[1..])
  }

  function One(b: bool): nat { if b then 1 else 0 }

  /** Every send loop that is owed, spawned, running, or dead of a failed send. */
  function SendLoops(s: System): nat { s.owedSends + s.owedByStart + s.takes + |s.inFlight| }

  predicate Failed(s: System) { s.failedConnects > 0 || s.lost != [] }

  ghost predicate Inv(s: System) {
    && !(s.flow.connecting && s.flow.connected)
    && (s.flow.sending ==> s.flow.connected)
    && (s.flow.connected && s.flow.pending != [] ==> s.flow.sending)
    && (s.flow.connecting || s.flow.connected || s.enqueued == [])
    && s.owedStarts + s.connects + s.failedConnects == One(s.flow.connecting)
    && s.owedStarts + s.starts == One(s.flow.connecting || s.flow.connected)
    && SendLoops(s) + |s.lost| == One(s.flow.sending)
    && s.owedByStart + s.owedReceives + s.receives + s.endedReceives == One(s.flow.connected)
    && s.sent + s.inFlight + s.lost + s.flow.pending == s.enqueued
  }

  lemma OnlyOneInFlight(s: System, i: nat)
    requires Inv(s) && i < |s.inFlight|
    ensures i == 0 && s.inFlight == [s.inFlight[0]] && WithoutAt(s.inFlight, i) == [] && s.lost == []
    ensures s.owedSends == s.owedByStart == s.takes == 0 && s.flow.sending
  {
  }

  lemma TakeKeepsInv(s: System)
    requires Inv(s) && Enabled(s, Take)
    ensures Inv(Step(s, Take))
  {
    if s.flow.pending != [] {
      assert s.inFlight == [] && s.lost == [];
      assert s.flow.pending == [s.flow.pending[0]] + s.flow.pending[1..];
    }
  }

  lemma SendKeepsInv(s: System, e: Event)
    requires Inv(s) && Enabled(s, e) && (e.SendOk? || e.SendFails?)
    ensures Inv(Step(s, e))
  {
    OnlyOneInFlight(s, e.loop);
    var t := Step(s, e);
    assert t.sent + t.inFlight + t.lost + t.flow.pending == s.sent + s.inFlight + s.lost + s.flow.pending;
  }

  lemma EnqueueKeepsInv(s: System, payload: Payload)
    requires Inv(s)
    ensures Inv(Step(s, Enqueue(payload)))
  {
    var t := Step(s, Enqueue(payload));
    assert t.sent + t.inFlight + t.lost + t.flow.pending == (s.sent + s.inFlight + s.lost + s.flow.pending) + [payload];
  }

  lemma StepKeepsInv(s: System, e: Event)
    requires Inv(s) && Enabled(s, e)
    ensures Inv(Step(s, e))
  {
    match e
    case Enqueue(payload) => EnqueueKeepsInv(s, payload);
    case Take => TakeKeepsInv(s);
    case SendOk(_) => SendKeepsInv(s, e);
    case SendFails(_) => SendKeepsInv(s, e);
    case _ =>
  }

  lemma {:induction false} ExecKeepsInv(s: System, events: seq<Event>)
    requires Inv(s) && Exec(s, events).Some?
    ensures Inv(Exec(s, events).value)
    decreases |events|
  {
    if events != [] {
      StepKeepsInv(s, events[0]);
      ExecKeepsInv(Step(s, events[0]), events[1..]);
    }
  }

  // ---- what holds in every run of a flow ----

  /** Sent payloads, then the one in flight or lost, then the waiting ones, are exactly what was enqueued, in order. */
  lemma {:induction false} NothingLostOrReordered(first: System, events: seq<Event>)
    requires IsFresh(first) && Exec(first, events).Some?
    ensures var s := Exec(first, events).value;
            s.sent + s.inFlight + s.lost + s.flow.pending == s.enqueued && |s.inFlight| + |s.lost| <= 1
  {
    ExecKeepsInv(first, events);
  }

  lemma InvBounds(s: System)
    requires Inv(s)
    ensures SendLoops(s) <= 1 && (s.lost != [] ==> SendLoops(s) == 0) && |s.inFlight| + |s.lost| <= 1
    ensures s.starts <= 1 && s.receives <= 1
  {
  }

  /** At most one send loop is ever owed or alive, none after a failed send, and `start` is spawned at most once. */
  lemma {:induction false} AtMostOneOfEach(first: System, events: seq<Event>)
    requires IsFresh(first) && Exec(first, events).Some?
    ensures var s := Exec(first, events).value;
            && SendLoops(s) <= 1 && (s.lost != [] ==> SendLoops(s) == 0)
            && s.starts <= 1 && s.receives <= 1
  {
    ExecKeepsInv(first, events);
    InvBounds(Exec(first, events).value);
  }

  /** Before a failure waiting payloads always have a coroutine that will come for them. */
  lemma {:induction false} NoLostWakeUp(first: System, events: seq<Event>)
    requires IsFresh(first) && Exec(first, events).Some? && !Failed(Exec(first, events).value)
    ensures var s := Exec(first, events).value;
            && (s.flow.connected && s.flow.pending != [] ==> s.flow.sending && SendLoops(s) == 1)
            && (!s.flow.connected && s.flow.pending != [] ==> s.flow.connecting && s.owedStarts + s.connects == 1)
            && (s.flow.sending ==> s.flow.connected) && !(s.flow.connecting && s.flow.connected)
  {
    ExecKeepsInv(first, events);
  }

  /** When a connect succeeds no send loop exists yet, so `start` always spawns one. */
  lemma {:induction false} ConnectAlwaysStartsSending(first: System, events: seq<Event>)
    requires IsFresh(first) && Exec(first, events).Some? && Exec(first, events).value.connects > 0
    ensures ConnectedBlock(Exec(first, events).value.flow).1
    ensures SendLoops(Exec(first, events).value) == 0
  {
    ExecKeepsInv(first, events);
  }

  /** After a failed connect or send the flow sends nothing more. */
  lemma {:induction false} FailureIsFinal(s: System, events: seq<Event>)
    requires Inv(s) && Failed(s) && Exec(s, events).Some?
    ensures var t := Exec(s, events).value; Failed(t) && t.sent == s.sent && t.starts == s.starts
    decreases |events|
  {
    if events != [] {
      StepKeepsInv(s, events[0]);
      assert s.failedConnects > 0 ==> s.owedStarts == s.connects == 0 && !s.flow.connected && SendLoops(s) == 0;
      assert s.lost != [] ==> SendLoops(s) == 0 && s.flow.connected;
      FailureIsFinal(Step(s, events[0]), events[1..]);
    }
  }

  // ---- delivery ----

  /** The flow's own progress: no arrival, no failure, no end of the receive loop. */
  predicate Internal(e: Event) {
    e.SpawnsStart? || e.SpawnsSend? || e.ConnectOk? || e.StartSpawnsSend? || e.StartSpawnsReceive? || e.Take? || e.SendOk?
  }

  predicate Quiescent(s: System) {
    s.owedStarts == s.connects == s.owedByStart == s.owedReceives == s.owedSends == s.takes == 0 && s.inFlight == []
  }

  /** An upper bound on the internal steps still to come. */
  function Work(s: System): nat {
    5 * s.owedStarts + 4 * s.connects + 3 * s.owedByStart + s.owedReceives + 2 * s.owedSends + s.takes
    + 2 * |s.inFlight| + 2 * |s.flow.pending|
  }

  lemma InternalStepsShrinkWork(s: System, e: Event)
    requires Enabled(s, e) && Internal(e)
    ensures Work(Step(s, e)) < Work(s)
    ensures Step(s, e).enqueued == s.enqueued && (Failed(Step(s, e)) <==> Failed(s))
  {
  }

  /**
   However the coroutines are scheduled, without arrivals and failures the flow stops within Work(s)
   steps, and once it can do no more it has sent every payload ever enqueued, in order.
   */
  lemma {:induction false} EveryScheduleDelivers(s: System, events: seq<Event>)
    requires Inv(s) && !Failed(s) && Exec(s, events).Some?
    requires forall e :: e in events ==> Internal(e)
    ensures |events| <= Work(s)
    ensures Quiescent(Exec(s, events).value) ==> Exec(s, events).value.sent == s.enqueued
    decreases |events|
  {
    if events == [] {
      if Quiescent(s) {
        assert s.flow.pending == [];
        assert s.sent + [] + [] + [] == s.sent;
      }
    } else {
      assert events[0] in events;
      assert forall e :: e in events[1..] ==> e in events;
      StepKeepsInv(s, events[0]);
      InternalStepsShrinkWork(s, events[0]);
      EveryScheduleDelivers(Step(s, events[0]), events[1..]);
    }
  }

  /** Until then it always has a next step, so a schedule that delivers everything exists. */
  lemma {:induction false} SomeScheduleDelivers(s: System) returns (events: seq<Event>)
    requires Inv(s) && !Failed(s)
    ensures forall e :: e in events ==> Internal(e)
    ensures Exec(s, events).Some? && Quiescent(Exec(s, events).value) && Exec(s, events).value.sent == s.enqueued
    decreases Work(s)
  {
    if Quiescent(s) {
      events := [];
      EveryScheduleDelivers(s, events);
    } else {
      var e := if s.owedStarts > 0 then SpawnsStart
               else if s.connects > 0 then ConnectOk
               else if s.owedByStart > 0 then StartSpawnsSend
               else if s.owedReceives > 0 then StartSpawnsReceive
               else if s.owedSends > 0 then SpawnsSend
               else if s.takes > 0 then Take
               else SendOk(0);
      StepKeepsInv(s, e);
      InternalStepsShrinkWork(s, e);
      var rest := SomeScheduleDelivers(Step(s, e));
      events := [e] + rest;
      assert events[1..] == rest;
    }
  }
}
