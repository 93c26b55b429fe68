/**
 `udp_flows_` beside `udp_nat_`: the second index over the NAT table's ports.  Handling a packet,
 erasing a flow and stopping are single steps here.
 */
module FlowTable {
  import opened Bytes
  import opened NatTable

  const MAX_FLOWS: nat := 1024

  /** The NAT table, and for each port with a flow the session that flow was built for. */
  datatype Table = Table(sessions: Nat, flows: map<Word, FlowKey>)

  const EMPTY: Table := Table(Empty(MAX_FLOWS), map[])

  function EraseFlow(t: Table, port: Word): Table { Table(Erase(t.sessions, port), t.flows - {port}) }

  function Stop(t: Table): Table { t.(flows := map[]) }

  /** The NAT lookup, and the removal of the flow it evicted; None if the lookup never returns. */
  function LookupAndClear(t: Table, key: FlowKey): Option<(Table, Word)> {
    match Lookup(t.sessions, key)
    case None => None
    case Some(f) =>
      var looked := t.(sessions := f.table);
      Some((if f.evicted.Some? then EraseFlow(looked, f.evicted.value) else looked, f.port))
  }

  /**
   A valid packet with this 4-tuple: the table afterwards, and the port whose flow gets the payload,
   or None if the packet is dropped.  The whole is None if the NAT lookup never returns.
   */
  function Handle(t: Table, key: FlowKey): Option<(Table, Option<Word>)> {
    match LookupAndClear(t, key)
    case None => None
    case Some((cleared, port)) =>
      match LookupBack(cleared.sessions, port)
      case None => Some((cleared, None))
      case Some(session) =>
        Some((if port in cleared.flows then cleared else cleared.(flows := cleared.flows[port := session]), Some(port)))
  }

  /** Every flow's port is live in the NAT table, for the very session the flow was built for. */
  ghost predicate Consistent(t: Table) {
    && Valid(t.sessions) && t.sessions.maxSessions == MAX_FLOWS
    && forall p :: p in t.flows ==> p in t.sessions.reverse && t.sessions.reverse[p] == t.flows[p]
  }

  lemma AtMost1024Flows(t: Table)
    requires Consistent(t)
    ensures |t.flows| <= |t.sessions.reverse| <= 1024
  {
    SubsetCount(t.flows.Keys, t.sessions.reverse.Keys);
  }

  lemma EraseKeepsConsistent(t: Table, port: Word)
    requires Consistent(t)
    ensures Consistent(EraseFlow(t, port))
    ensures port !in EraseFlow(t, port).flows && port !in EraseFlow(t, port).sessions.reverse
  {
    EraseKeepsValid(t.sessions, port);
  }

  lemma LookupThenClear(t: Table, key: FlowKey)
    requires Consistent(t)
    ensures Lookup(t.sessions, key).Some? && LookupAndClear(t, key).Some?
    ensures var f := Lookup(t.sessions, key).value;
            var (cleared, port) := LookupAndClear(t, key).value;
            && port == f.port && Consistent(cleared)
            && (f.evicted == Some(port) <==> port !in cleared.sessions.reverse)
            && (port in cleared.sessions.reverse ==> cleared.sessions.reverse[port] == key)
  {
    LookupHangsIff(t.sessions, key);
    SessionsAfterLookup(t.sessions, key);
    var f := Lookup(t.sessions, key).value;
    if f.evicted.Some? {
      EraseKeepsValid(f.table, f.evicted.value);
    }
  }

  /**
   Handling a packet keeps the tables consistent.  Its payload goes to the flow of its own 4-tuple,
   unless the port just allocated is the one just evicted: then, and only then, it is dropped.
   */
  lemma HandleDelivers(t: Table, key: FlowKey)
    requires Consistent(t)
    ensures Handle(t, key).Some?
    ensures var (u, port) := Handle(t, key).value;
            var f := Lookup(t.sessions, key).value;
            && Consistent(u)
            && (port == None <==> f.evicted == Some(f.port))
            && (port.Some? ==> port.value in u.flows && u.flows[port.value] == key
                               && key in u.sessions.forward && u.sessions.forward[key] == port.value)
            && (port == None ==> u == EraseFlow(t.(sessions := f.table), f.port))
  {
    LookupThenClear(t, key);
    LookupKeepsValid(t.sessions, key);
  }

  // ---- when a packet is dropped ----

  /** The place of a port in the cycle that starts at the cursor. */
  function Distance(next: Word, port: Word): (d: nat)
    requires (next == 0 || FIRST_PORT <= next) && FIRST_PORT <= port
    ensures d < PORT_COUNT && Candidate(next, d) == port
  {
    var ahead := port - FIRST_PORT - Position(next);
    if ahead >= 0 then ahead else ahead + PORT_COUNT
  }

  lemma CandidatesDiffer(next: Word, i: nat, j: nat)
    requires (next == 0 || FIRST_PORT <= next) && i < PORT_COUNT && j < PORT_COUNT
    requires Candidate(next, i) == Candidate(next, j)
    ensures i == j
  {
  }

  /** The table is full, the key is new, and from the cursor on every port before the oldest session's is live. */
  ghost predicate CursorMeetsOldest(n: Nat, key: FlowKey)
    requires Valid(n)
  {
    && key !in n.forward && n.maxSessions != 0 && |n.reverse| == n.maxSessions && n.lru != []
    && FIRST_PORT <= n.lru[0]
    && forall j: nat :: j < Distance(n.nextPort, n.lru[0]) ==> Candidate(n.nextPort, j) in n.reverse
  }

  lemma ReissuesTheEvictedIff(n: Nat, key: FlowKey)
    requires Valid(n) && Lookup(n, key).Some?
    ensures var f := Lookup(n, key).value; f.evicted == Some(f.port) <==> CursorMeetsOldest(n, key)
  {
    if key !in n.forward && n.maxSessions != 0 && |n.reverse| == n.maxSessions {
      LookupHangsIff(n, key);
      RoomIsMade(n, key);
      EvictsTheHead(n);
      var k := LookupMiss(n, key);
      var m := MakeRoom(n).0;
      var d := Distance(n.nextPort, n.lru[0]);
      if CursorMeetsOldest(n, key) {
        forall j: nat | j < d ensures Candidate(n.nextPort, j) in m.reverse {
          if Candidate(n.nextPort, j) == n.lru[0] {
            CandidatesDiffer(n.nextPort, j, d);
          }
        }
        assert k == d;
      }
      if Candidate(n.nextPort, k) == n.lru[0] {
        CandidatesDiffer(n.nextPort, k, d);
      }
    } else {
      if key !in n.forward {
        RoomIsMade(n, key);
        LookupHangsIff(n, key);
        var k := LookupMiss(n, key);
      }
    }
  }

  /** A valid packet is dropped if and only if the cursor is about to reissue the oldest session's port. */
  lemma DroppedIff(t: Table, key: FlowKey)
    requires Consistent(t)
    ensures Handle(t, key).Some?
    ensures Handle(t, key).value.1 == None <==> CursorMeetsOldest(t.sessions, key)
  {
    HandleDelivers(t, key);
    LookupThenClear(t, key);
    ReissuesTheEvictedIff(t.sessions, key);
  }

  /** The same packet sent again gets through: a drop leaves room for one session. */
  lemma RetryAfterDropSucceeds(t: Table, key: FlowKey)
    requires Consistent(t) && Handle(t, key).Some? && Handle(t, key).value.1 == None
    ensures var u := Handle(t, key).value.0; Handle(u, key).Some? && Handle(u, key).value.1.Some?
  {
    HandleDelivers(t, key);
    DroppedIff(t, key);
    LookupKeepsValid(t.sessions, key);
    var f := Lookup(t.sessions, key).value;
    var u := Handle(t, key).value.0;
    EraseKeepsValid(f.table, f.port);
    assert f.port in f.table.reverse;
    assert u.sessions.reverse.Keys == f.table.reverse.Keys - {f.port};
    DroppedIff(u, key);
  }

  // ---- every run ----

  datatype TableOp = PacketOp(key: FlowKey) | EraseFlowOp(port: Word) | StopOp

  function StepTable(t: Table, op: TableOp): Option<Table> {
    match op
    case PacketOp(key) =>
      (match Handle(t, key)
       case None => None
       case Some((u, _)) => Some(u))
    case EraseFlowOp(port) => Some(EraseFlow(t, port))
    case StopOp => Some(Stop(t))
  }

  function RunTable(t: Table, ops: seq<TableOp>): Option<Table>
    decreases |ops|
  {
    if ops == [] then Some(t)
    else
      match StepTable(t, ops[0])
      case None => None
      case Some(u) => RunTable(u, ops[1..])
  }

  lemma {:induction false} RunTableAppends(t: Table, a: seq<TableOp>, b: seq<TableOp>)
    requires RunTable(t, a).Some?
    ensures RunTable(t, a + b) == RunTable(RunTable(t, a).value, b)
    decreases |a|
  {
    if a == [] {
      assert a + b == b;
    } else {
      assert (a + b)[1..] == a[1..] + b;
      RunTableAppends(StepTable(t, a[0]).value, a[1..], b);
    }
  }

  lemma {:induction false} OneStep(t: Table, op: TableOp)
    ensures RunTable(t, [op]) == StepTable(t, op)
  {
    assert [op][1..] == [];
  }

  lemma {:induction false} OneMoreStep(t: Table, before: seq<TableOp>, op: TableOp)
    requires RunTable(t, before).Some?
    ensures RunTable(t, before + [op]) == StepTable(RunTable(t, before).value, op)
  {
    RunTableAppends(t, before, [op]);
    OneStep(RunTable(t, before).value, op);
  }

  /** Every sequence of packets, erasures and stops completes and leaves the two tables consistent. */
  lemma {:induction false} EveryRunIsConsistent(t: Table, ops: seq<TableOp>)
    requires Consistent(t)
    ensures RunTable(t, ops).Some? && Consistent(RunTable(t, ops).value)
    ensures |RunTable(t, ops).value.flows| <= MAX_FLOWS
    decreases |ops|
  {
    if ops == [] {
      AtMost1024Flows(t);
    } else {
      match ops[0] {
        case PacketOp(key) => HandleDelivers(t, key);
        case EraseFlowOp(port) => EraseKeepsConsistent(t, port);
        case StopOp =>
      }
      EveryRunIsConsistent(StepTable(t, ops[0]).value, ops[1..]);
    }
  }
}
