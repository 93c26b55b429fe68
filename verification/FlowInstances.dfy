/**
 Which flow stands on a port.  A flow's coroutines erase by port when they end, and they may end after
 the flow has left the table; what such an erasure hits depends on whether the port was issued again.
 */
module FlowInstances {
  import opened Bytes
  import opened NatTable
  import opened NatHistory
  import opened FlowTable

  /** The port an operation issues: the one a lookup of a new key allocates. */
  function Issues(t: Table, op: TableOp): Option<Word> {
    if !op.PacketOp? || op.key in t.sessions.forward then None
    else
      match Lookup(t.sessions, op.key)
      case None => None
      case Some(f) => Some(f.port)
  }

  /** The builders once a packet has its flow: those of the flows left, and this operation where it builds one. */
  function OwnersBuilt(owners: map<Word, nat>, cleared: Table, port: Word, at: nat): map<Word, nat> {
    var kept := map p | p in owners && p in cleared.flows :: owners[p];
    if LookupBack(cleared.sessions, port).Some? && port !in cleared.flows then kept[port := at] else kept
  }

  /** For each port with a flow, the index of the operation that built that flow; `at` is this operation's index. */
  function OwnersAfter(t: Table, owners: map<Word, nat>, op: TableOp, at: nat): map<Word, nat> {
    match op
    case PacketOp(key) =>
      (match LookupAndClear(t, key)
       case None => owners
       case Some((cleared, port)) => OwnersBuilt(owners, cleared, port, at))
    case EraseFlowOp(port) => owners - {port}
    case StopOp => map[]
  }

  function NatOp(op: TableOp): Op {
    match op
    case PacketOp(key) => LookupOp(key)
    case EraseFlowOp(port) => EraseOp(port)
    case StopOp => EraseOp(0)
  }

  /**
   A run from the empty table: the tables between its operations, with the builders of their flows and
   the number of ports the allocator has examined so far, and the port each operation issues.
   */
  datatype History = History(ops: seq<TableOp>, tables: seq<Table>, owners: seq<map<Word, nat>>, examined: seq<nat>,
                             issues: seq<Option<Word>>)

  predicate Sized(r: History) {
    && |r.tables| == |r.owners| == |r.examined| == |r.ops| + 1 && |r.issues| == |r.ops|
    && r.tables[0] == EMPTY && r.owners[0] == map[] && r.examined[0] == 0
  }

  predicate TableStep(r: History, i: nat)
    requires Sized(r) && i < |r.ops|
  {
    StepTable(r.tables[i], r.ops[i]) == Some(r.tables[i + 1])
  }

  predicate OwnersStep(r: History, i: nat)
    requires Sized(r) && i < |r.ops|
  {
    r.owners[i + 1] == OwnersAfter(r.tables[i], r.owners[i], r.ops[i], i)
  }

  predicate CursorStep(r: History, i: nat)
    requires Sized(r) && i < |r.ops|
  {
    r.examined[i + 1] == r.examined[i] + |StepPasses(r.tables[i].sessions, NatOp(r.ops[i]))|
  }

  predicate IssueStep(r: History, i: nat)
    requires Sized(r) && i < |r.ops|
  {
    r.issues[i] == Issues(r.tables[i], r.ops[i])
  }

  ghost predicate IsHistory(r: History) {
    && Sized(r)
    && (forall i :: 0 <= i < |r.ops| ==> TableStep(r, i))
    && (forall i :: 0 <= i < |r.ops| ==> OwnersStep(r, i))
    && (forall i :: 0 <= i < |r.ops| ==> CursorStep(r, i))
    && (forall i :: 0 <= i < |r.ops| ==> IssueStep(r, i))
  }

  // ---- one operation ----

  /** Until the stop every live session has its flow. */
  ghost predicate Paired(t: Table) { Consistent(t) && t.flows == t.sessions.reverse }

  lemma SwapOne(live: map<Word, FlowKey>, e: Word, port: Word, key: FlowKey)
    requires port == e || port !in live
    ensures (live - {e})[port := key] - {e} - {port} == live - {e}
    ensures port != e ==> live[port := key] - {port} == live
  {
  }

  /** How a table stands between the lookup and the flow: every session has its flow but perhaps the one just opened. */
  ghost predicate PairedBut(t: Table, cleared: Table, key: FlowKey, port: Word) {
    && cleared.flows == (if key in t.sessions.forward then cleared.sessions.reverse else cleared.sessions.reverse - {port})
    && (key in t.sessions.forward ==> port in cleared.flows)
    && (port in cleared.sessions.reverse ==> cleared.sessions.reverse[port] == key)
    && forall p :: p in cleared.flows ==> p in t.flows
  }

  lemma HitPairs(t: Table, key: FlowKey)
    requires Paired(t) && key in t.sessions.forward
    ensures LookupAndClear(t, key).Some?
    ensures PairedBut(t, LookupAndClear(t, key).value.0, key, LookupAndClear(t, key).value.1)
  {
  }

  lemma OpenedPairs(t: Table, f: Found, key: FlowKey, cleared: Table)
    requires t.flows == t.sessions.reverse && key !in t.sessions.forward
    requires f.table.reverse == (match f.evicted case None => t.sessions.reverse case Some(e) => t.sessions.reverse - {e})[f.port := key]
    requires f.port in t.sessions.reverse ==> f.evicted == Some(f.port)
    requires match f.evicted
             case None => cleared.sessions.reverse == f.table.reverse && cleared.flows == t.flows
             case Some(e) => cleared.sessions.reverse == f.table.reverse - {e} && cleared.flows == t.flows - {e}
    ensures PairedBut(t, cleared, key, f.port)
  {
    SwapOne(t.sessions.reverse, if f.evicted.Some? then f.evicted.value else f.port, f.port, key);
    assert f.evicted.None? ==> t.sessions.reverse[f.port := key] - {f.port} == t.sessions.reverse;
  }

  lemma MissPairs(t: Table, key: FlowKey)
    requires Paired(t) && key !in t.sessions.forward
    ensures LookupAndClear(t, key).Some?
    ensures PairedBut(t, LookupAndClear(t, key).value.0, key, LookupAndClear(t, key).value.1)
  {
    LookupThenClear(t, key);
    SessionsAfterLookup(t.sessions, key);
    var f := Lookup(t.sessions, key).value;
    if f.evicted.Some? {
      EraseKeepsValid(f.table, f.evicted.value);
    }
    OpenedPairs(t, f, key, LookupAndClear(t, key).value.0);
  }

  lemma LookupPairs(t: Table, key: FlowKey)
    requires Paired(t)
    ensures LookupAndClear(t, key).Some?
    ensures PairedBut(t, LookupAndClear(t, key).value.0, key, LookupAndClear(t, key).value.1)
    ensures Issues(t, PacketOp(key)) == if key in t.sessions.forward then None else Some(LookupAndClear(t, key).value.1)
  {
    if key in t.sessions.forward {
      HitPairs(t, key);
    } else {
      MissPairs(t, key);
    }
  }

  lemma FlowRestored(live: map<Word, FlowKey>, port: Word)
    ensures port in live ==> (live - {port})[port := live[port]] == live
    ensures port !in live ==> live - {port} == live
  {
  }

  function FlowsBuilt(cleared: Table, port: Word): map<Word, FlowKey> {
    if port in cleared.sessions.reverse && port !in cleared.flows then cleared.flows[port := cleared.sessions.reverse[port]]
    else cleared.flows
  }

  lemma DeliveryBuilds(t: Table, key: FlowKey, cleared: Table, port: Word)
    requires LookupAndClear(t, key) == Some((cleared, port)) && PairedBut(t, cleared, key, port)
    ensures StepTable(t, PacketOp(key)).Some?
    ensures var u := StepTable(t, PacketOp(key)).value; u.flows == FlowsBuilt(cleared, port) == u.sessions.reverse
  {
    FlowRestored(cleared.sessions.reverse, port);
  }

  /** Of the builders only the one on an issued port is new. */
  lemma OwnersKeep(flows: map<Word, FlowKey>, owners: map<Word, nat>, at: nat, cleared: Table, port: Word, issue: Option<Word>)
    requires owners.Keys == flows.Keys && forall p :: p in cleared.flows ==> p in flows
    requires if issue.None? then port in cleared.flows else issue.value == port && port !in cleared.flows
    ensures var after, built := OwnersBuilt(owners, cleared, port, at), FlowsBuilt(cleared, port);
            && after.Keys == built.Keys
            && forall p :: p in built ==> if issue == Some(p) then after[p] == at else p in flows && p in owners && after[p] == owners[p]
  {
  }

  lemma PacketPairs(t: Table, key: FlowKey, owners: map<Word, nat>, at: nat)
    requires Paired(t) && owners.Keys == t.flows.Keys
    ensures StepTable(t, PacketOp(key)).Some?
    ensures Kept(t, owners, PacketOp(key), at, StepTable(t, PacketOp(key)).value, OwnersAfter(t, owners, PacketOp(key), at))
  {
    LookupPairs(t, key);
    HandleDelivers(t, key);
    var (cleared, port) := LookupAndClear(t, key).value;
    DeliveryBuilds(t, key, cleared, port);
    OwnersKeep(t.flows, owners, at, cleared, port, Issues(t, PacketOp(key)));
  }

  /** After an operation sessions and flows are paired, and the owners are as before but where it issued a port. */
  ghost predicate Kept(t: Table, owners: map<Word, nat>, op: TableOp, at: nat, u: Table, after: map<Word, nat>) {
    && Paired(u) && after.Keys == u.flows.Keys
    && forall p :: p in u.flows ==>
         if Issues(t, op) == Some(p) then after[p] == at else p in t.flows && p in owners && after[p] == owners[p]
  }

  lemma StepPairs(t: Table, op: TableOp, owners: map<Word, nat>, at: nat)
    requires Paired(t) && owners.Keys == t.flows.Keys && op != StopOp
    ensures StepTable(t, op).Some?
    ensures Kept(t, owners, op, at, StepTable(t, op).value, OwnersAfter(t, owners, op, at))
  {
    match op
    case PacketOp(key) => PacketPairs(t, key, owners, at);
    case EraseFlowOp(port) =>
      EraseKeepsConsistent(t, port);
      EraseKeepsValid(t.sessions, port);
  }

  lemma HandlingKeepsCursor(t: Table, key: FlowKey, u: Table)
    requires StepTable(t, PacketOp(key)) == Some(u)
    ensures Lookup(t.sessions, key).Some? && u.sessions.nextPort == Lookup(t.sessions, key).value.table.nextPort
  {
  }

  /** The cursor after a step: past what the step examined. */
  ghost predicate Moves(t: Table, op: TableOp, u: Table, at: nat) {
    var n := |StepPasses(t.sessions, NatOp(op))|;
    && StandsAt(u.sessions.nextPort, at + n)
    && (Issues(t, op).Some? ==> n > 0 && Issues(t, op).value == PortAt(at + n - 1))
  }

  lemma LookupMovesCursor(n: Nat, key: FlowKey, at: nat)
    requires Valid(n) && Lookup(n, key).Some? && StandsAt(n.nextPort, at)
    ensures var passes, f := |StepPasses(n, LookupOp(key))|, Lookup(n, key).value;
            && StandsAt(f.table.nextPort, at + passes)
            && (key !in n.forward ==> passes > 0 && f.port == PortAt(at + passes - 1))
  {
    StepWalks(n, LookupOp(key), at);
    if key !in n.forward {
      PassesOfALookup(n, key);
    }
  }

  lemma PacketIssues(t: Table, key: FlowKey)
    requires Lookup(t.sessions, key).Some?
    ensures Issues(t, PacketOp(key)) == if key in t.sessions.forward then None else Some(Lookup(t.sessions, key).value.port)
  {
  }

  lemma PacketMovesCursor(t: Table, key: FlowKey, u: Table, at: nat)
    requires Valid(t.sessions) && Lookup(t.sessions, key).Some? && StandsAt(t.sessions.nextPort, at)
    requires u.sessions.nextPort == Lookup(t.sessions, key).value.table.nextPort
    ensures Moves(t, PacketOp(key), u, at)
  {
    PacketIssues(t, key);
    LookupMovesCursor(t.sessions, key, at);
  }

  lemma OtherStepsKeepCursor(t: Table, op: TableOp, u: Table, at: nat)
    requires !op.PacketOp? && StepTable(t, op) == Some(u) && StandsAt(t.sessions.nextPort, at)
    ensures Moves(t, op, u, at)
  {
  }

  lemma StepMovesCursor(t: Table, op: TableOp, u: Table, at: nat)
    requires Consistent(t) && StepTable(t, op) == Some(u) && StandsAt(t.sessions.nextPort, at)
    ensures Moves(t, op, u, at)
  {
    if op.PacketOp? {
      HandlingKeepsCursor(t, op.key, u);
      PacketMovesCursor(t, op.key, u, at);
    } else {
      OtherStepsKeepCursor(t, op, u, at);
    }
  }

  // ---- whole runs ----

  /** Every sequence of operations has its history. */
  lemma {:induction false} HistoryExists(ops: seq<TableOp>) returns (r: History)
    ensures r.ops == ops && IsHistory(r)
    ensures RunTable(EMPTY, ops) == Some(r.tables[|ops|])
    decreases |ops|
  {
    if ops == [] {
      r := History([], [EMPTY], [map[]], [0], []);
    } else {
      var n := |ops| - 1;
      var before := HistoryExists(ops[..n]);
      EveryRunIsConsistent(EMPTY, ops[..n]);
      assert ops == ops[..n] + [ops[n]];
      StepCompletes(before.tables[n], ops[n]);
      OneMoreStep(EMPTY, ops[..n], ops[n]);
      r := OneMore(before, ops[n]);
    }
  }

  lemma StepCompletes(t: Table, op: TableOp)
    requires Consistent(t)
    ensures StepTable(t, op).Some?
  {
    if op.PacketOp? {
      HandleDelivers(t, op.key);
    }
  }

  function Longer(r: History, op: TableOp, t: Table, owners: map<Word, nat>, examined: nat, issue: Option<Word>): (s: History)
    requires Sized(r)
    ensures Sized(s)
  {
    History(r.ops + [op], r.tables + [t], r.owners + [owners], r.examined + [examined], r.issues + [issue])
  }

  predicate SameAt(r: History, s: History, i: nat) {
    && Sized(r) && Sized(s) && i < |r.ops| && i < |s.ops|
    && s.ops[i] == r.ops[i] && s.issues[i] == r.issues[i] && s.tables[i] == r.tables[i] && s.tables[i + 1] == r.tables[i + 1]
    && s.owners[i] == r.owners[i] && s.owners[i + 1] == r.owners[i + 1]
    && s.examined[i] == r.examined[i] && s.examined[i + 1] == r.examined[i + 1]
  }

  lemma LongerStays(r: History, op: TableOp, t: Table, owners: map<Word, nat>, examined: nat, issue: Option<Word>, i: nat)
    requires Sized(r) && i < |r.ops|
    ensures SameAt(r, Longer(r, op, t, owners, examined, issue), i)
  {
  }

  lemma LongerEnds(r: History, op: TableOp, t: Table, owners: map<Word, nat>, examined: nat, issue: Option<Word>)
    requires Sized(r)
    ensures var s, n := Longer(r, op, t, owners, examined, issue), |r.ops|;
            && |s.ops| == n + 1 && s.ops[n] == op && s.issues[n] == issue
            && s.tables[n] == r.tables[n] && s.tables[n + 1] == t
            && s.owners[n] == r.owners[n] && s.owners[n + 1] == owners
            && s.examined[n] == r.examined[n] && s.examined[n + 1] == examined
  {
  }

  lemma TablesStay(r: History, s: History, i: nat)
    requires SameAt(r, s, i) && TableStep(r, i)
    ensures TableStep(s, i)
  {
  }

  lemma TablesEnd(s: History, n: nat, t: Table, op: TableOp, u: Table)
    requires Sized(s) && n < |s.ops| && s.ops[n] == op && s.tables[n] == t && s.tables[n + 1] == u && StepTable(t, op) == Some(u)
    ensures TableStep(s, n)
  {
  }

  lemma LongerTables(r: History, op: TableOp, t: Table, owners: map<Word, nat>, examined: nat, issue: Option<Word>)
    requires IsHistory(r) && StepTable(r.tables[|r.ops|], op) == Some(t)
    ensures var s := Longer(r, op, t, owners, examined, issue); forall i :: 0 <= i < |s.ops| ==> TableStep(s, i)
  {
    var s := Longer(r, op, t, owners, examined, issue);
    LongerEnds(r, op, t, owners, examined, issue);
    forall i | 0 <= i < |s.ops| ensures TableStep(s, i) {
      if i < |r.ops| {
        LongerStays(r, op, t, owners, examined, issue, i);
        TablesStay(r, s, i);
      } else {
        TablesEnd(s, i, r.tables[i], op, t);
      }
    }
  }

  lemma OwnersStay(r: History, s: History, i: nat)
    requires SameAt(r, s, i) && OwnersStep(r, i)
    ensures OwnersStep(s, i)
  {
  }

  lemma OwnersEnd(s: History, n: nat, t: Table, owners: map<Word, nat>, op: TableOp, after: map<Word, nat>)
    requires Sized(s) && n < |s.ops| && s.ops[n] == op && s.tables[n] == t && s.owners[n] == owners && s.owners[n + 1] == after
    requires after == OwnersAfter(t, owners, op, n)
    ensures OwnersStep(s, n)
  {
  }

  lemma LongerOwners(r: History, op: TableOp, t: Table, owners: map<Word, nat>, examined: nat, issue: Option<Word>)
    requires IsHistory(r) && owners == OwnersAfter(r.tables[|r.ops|], r.owners[|r.ops|], op, |r.ops|)
    ensures var s := Longer(r, op, t, owners, examined, issue); forall i :: 0 <= i < |s.ops| ==> OwnersStep(s, i)
  {
    var s := Longer(r, op, t, owners, examined, issue);
    LongerEnds(r, op, t, owners, examined, issue);
    forall i | 0 <= i < |s.ops| ensures OwnersStep(s, i) {
      if i < |r.ops| {
        LongerStays(r, op, t, owners, examined, issue, i);
        OwnersStay(r, s, i);
      } else {
        OwnersEnd(s, i, r.tables[i], r.owners[i], op, owners);
      }
    }
  }

  lemma CursorStay(r: History, s: History, i: nat)
    requires SameAt(r, s, i) && CursorStep(r, i)
    ensures CursorStep(s, i)
  {
  }

  lemma LongerCursor(r: History, op: TableOp, t: Table, owners: map<Word, nat>, examined: nat, issue: Option<Word>)
    requires IsHistory(r) && examined == r.examined[|r.ops|] + |StepPasses(r.tables[|r.ops|].sessions, NatOp(op))|
    ensures var s := Longer(r, op, t, owners, examined, issue); forall i :: 0 <= i < |s.ops| ==> CursorStep(s, i)
  {
    var s := Longer(r, op, t, owners, examined, issue);
    LongerEnds(r, op, t, owners, examined, issue);
    forall i | 0 <= i < |s.ops| ensures CursorStep(s, i) {
      if i < |r.ops| {
        LongerStays(r, op, t, owners, examined, issue, i);
        CursorStay(r, s, i);
      }
    }
  }

  lemma IssuesStay(r: History, s: History, i: nat)
    requires SameAt(r, s, i) && IssueStep(r, i)
    ensures IssueStep(s, i)
  {
  }

  lemma LongerIssues(r: History, op: TableOp, t: Table, owners: map<Word, nat>, examined: nat, issue: Option<Word>)
    requires IsHistory(r) && issue == Issues(r.tables[|r.ops|], op)
    ensures var s := Longer(r, op, t, owners, examined, issue); forall i :: 0 <= i < |s.ops| ==> IssueStep(s, i)
  {
    var s := Longer(r, op, t, owners, examined, issue);
    LongerEnds(r, op, t, owners, examined, issue);
    forall i | 0 <= i < |s.ops| ensures IssueStep(s, i) {
      if i < |r.ops| {
        LongerStays(r, op, t, owners, examined, issue, i);
        IssuesStay(r, s, i);
      }
    }
  }

  lemma OneMore(r: History, op: TableOp) returns (s: History)
    requires IsHistory(r) && StepTable(r.tables[|r.ops|], op).Some?
    ensures IsHistory(s) && s.ops == r.ops + [op] && s.tables == r.tables + [StepTable(r.tables[|r.ops|], op).value]
  {
    var n := |r.ops|;
    var t, u := r.tables[n], StepTable(r.tables[n], op).value;
    var owners, examined, issue := OwnersAfter(t, r.owners[n], op, n), r.examined[n] + |StepPasses(t.sessions, NatOp(op))|, Issues(t, op);
    s := Longer(r, op, u, owners, examined, issue);
    LongerTables(r, op, u, owners, examined, issue);
    LongerOwners(r, op, u, owners, examined, issue);
    LongerCursor(r, op, u, owners, examined, issue);
    LongerIssues(r, op, u, owners, examined, issue);
  }

  ghost predicate NoStop(r: History) { forall i :: 0 <= i < |r.ops| ==> r.ops[i] != StopOp }

  ghost predicate Inv(t: Table, owners: map<Word, nat>, examined: nat) {
    Paired(t) && owners.Keys == t.flows.Keys && StandsAt(t.sessions.nextPort, examined)
  }

  /** An operation issues the last port it examines, and the flow it builds, if it builds one, stands on that port. */
  ghost predicate Advances(owners: map<Word, nat>, examined: nat, at: nat, after: map<Word, nat>, more: nat, issue: Option<Word>) {
    && examined <= more
    && (issue.Some? ==> examined < more && issue.value == PortAt(more - 1))
    && BuildsOn(owners, at, after, issue)
  }

  ghost predicate Tracked(r: History, i: nat)
    requires Sized(r) && i < |r.ops|
  {
    Advances(r.owners[i], r.examined[i], i, r.owners[i + 1], r.examined[i + 1], r.issues[i])
  }

  /** What an operation issues is what the flows and their builders follow. */
  ghost predicate BuildsOn(owners: map<Word, nat>, at: nat, after: map<Word, nat>, issue: Option<Word>) {
    forall p :: p in after ==> if issue == Some(p) then after[p] == at else p in owners && after[p] == owners[p]
  }

  lemma KeptIsTracked(t: Table, owners: map<Word, nat>, op: TableOp, at: nat, u: Table, after: map<Word, nat>)
    requires Kept(t, owners, op, at, u, after)
    ensures BuildsOn(owners, at, after, Issues(t, op))
  {
    forall p | p in after ensures if Issues(t, op) == Some(p) then after[p] == at else p in owners && after[p] == owners[p] {
      assert p in u.flows;
    }
  }

  lemma OwnersAreTracked(r: History, i: nat)
    requires IsHistory(r) && i < |r.ops| && r.ops[i] != StopOp
    requires Paired(r.tables[i]) && r.owners[i].Keys == r.tables[i].flows.Keys
    ensures Paired(r.tables[i + 1]) && r.owners[i + 1].Keys == r.tables[i + 1].flows.Keys
    ensures BuildsOn(r.owners[i], i, r.owners[i + 1], r.issues[i])
  {
    assert TableStep(r, i) && OwnersStep(r, i) && IssueStep(r, i);
    StepPairs(r.tables[i], r.ops[i], r.owners[i], i);
    KeptIsTracked(r.tables[i], r.owners[i], r.ops[i], i, r.tables[i + 1], r.owners[i + 1]);
  }

  lemma CursorIsTracked(r: History, i: nat)
    requires IsHistory(r) && i < |r.ops| && Consistent(r.tables[i]) && StandsAt(r.tables[i].sessions.nextPort, r.examined[i])
    ensures StandsAt(r.tables[i + 1].sessions.nextPort, r.examined[i + 1]) && r.examined[i] <= r.examined[i + 1]
    ensures r.issues[i].Some? ==> r.examined[i] < r.examined[i + 1] && r.issues[i].value == PortAt(r.examined[i + 1] - 1)
  {
    assert TableStep(r, i) && CursorStep(r, i) && IssueStep(r, i);
    StepMovesCursor(r.tables[i], r.ops[i], r.tables[i + 1], r.examined[i]);
  }

  /** The invariant after the i-th operation, if it held before. */
  lemma InvAfter(r: History, i: nat)
    requires IsHistory(r) && i < |r.ops| && r.ops[i] != StopOp && InvAt(r, i)
    ensures InvAt(r, i + 1)
  {
    OwnersAreTracked(r, i);
    CursorIsTracked(r, i);
  }

  ghost predicate InvAt(r: History, n: nat)
    requires Sized(r) && n <= |r.ops|
  {
    Inv(r.tables[n], r.owners[n], r.examined[n])
  }

  lemma StepTracks(r: History, i: nat)
    requires IsHistory(r) && i < |r.ops| && r.ops[i] != StopOp && InvAt(r, i)
    ensures Tracked(r, i)
  {
    OwnersAreTracked(r, i);
    CursorIsTracked(r, i);
  }

  lemma {:induction false} RunKeepsInv(r: History, n: nat)
    requires IsHistory(r) && NoStop(r) && n <= |r.ops|
    ensures InvAt(r, n)
    decreases n
  {
    if n == 0 {
      EmptyIsPaired();
    } else {
      RunKeepsInv(r, n - 1);
      InvAfter(r, n - 1);
    }
  }

  lemma RunIsTracked(r: History)
    requires IsHistory(r) && NoStop(r)
    ensures forall i :: 0 <= i < |r.ops| ==> Tracked(r, i)
  {
    forall i | 0 <= i < |r.ops| ensures Tracked(r, i) {
      RunKeepsInv(r, i);
      StepTracks(r, i);
    }
  }

  lemma EmptyIsPaired()
    ensures Inv(EMPTY, map[], 0)
  {
    assert Consistent(EMPTY);
  }

  // ---- whose flow stands on a port ----

  /** The j-th of the first n operations issued the port, and none of them did so later. */
  ghost predicate LastIssue(issues: seq<Option<Word>>, n: nat, p: Word, j: nat)
    requires n <= |issues|
  {
    j < n && issues[j] == Some(p) && forall k :: j < k < n ==> issues[k] != Some(p)
  }

  lemma {:induction false} TrackedOwner(r: History, n: nat, p: Word)
    requires Sized(r) && n <= |r.ops| && (forall i :: 0 <= i < n ==> Tracked(r, i)) && p in r.owners[n]
    ensures LastIssue(r.issues, n, p, r.owners[n][p])
    decreases n
  {
    if n > 0 {
      assert Tracked(r, n - 1);
      if r.issues[n - 1] != Some(p) {
        TrackedOwner(r, n - 1, p);
      }
    }
  }

  /** In a run without a stop, the flow on a port was built by the operation that last issued the port. */
  lemma OwnerIsLastIssuer(r: History, n: nat, p: Word)
    requires IsHistory(r) && NoStop(r) && n <= |r.ops|
    ensures p in r.owners[n] <==> p in r.tables[n].flows
    ensures p in r.owners[n] ==> LastIssue(r.issues, n, p, r.owners[n][p])
  {
    RunKeepsInv(r, n);
    RunIsTracked(r);
    if p in r.owners[n] {
      TrackedOwner(r, n, p);
    }
  }

  /** The `id`-th operation built a flow on the port. */
  predicate Built(r: History, id: nat, p: Word)
    requires Sized(r)
  {
    id < |r.ops| && p in r.owners[id + 1] && r.owners[id + 1][p] == id
  }

  /**
   A flow's erasure by port, n operations into the run, removes another flow if and only if there is a
   flow on the port and the port was issued again since; without a flow on the port it does nothing.
   */
  lemma LateErasureHitsStrangerIff(r: History, id: nat, p: Word, n: nat)
    requires IsHistory(r) && NoStop(r) && Built(r, id, p) && id < n <= |r.ops|
    ensures p !in r.tables[n].flows ==> EraseFlow(r.tables[n], p) == r.tables[n]
    ensures p in r.tables[n].flows ==>
              p in r.owners[n] && (r.owners[n][p] != id <==> exists k :: id < k < n && r.issues[k] == Some(p))
  {
    OwnerIsLastIssuer(r, id + 1, p);
    OwnerIsLastIssuer(r, n, p);
    FlowRestored(r.tables[n].flows, p);
    RunKeepsInv(r, n);
  }

  lemma {:induction false} ExaminedGrows(r: History, j: nat, n: nat)
    requires Sized(r) && j <= n <= |r.ops| && forall i :: 0 <= i < n ==> Tracked(r, i)
    ensures r.examined[j] <= r.examined[n]
    decreases n
  {
    if j < n {
      ExaminedGrows(r, j, n - 1);
      assert Tracked(r, n - 1);
    }
  }

  /** Between two issues of a port the allocator examines at least 55536 ports: a whole round. */
  lemma ReissueTakesARound(r: History, j: nat, k: nat)
    requires IsHistory(r) && NoStop(r) && j < k < |r.ops| && r.issues[j].Some? && r.issues[j] == r.issues[k]
    ensures r.examined[k + 1] >= r.examined[j + 1] + 55536
  {
    RunIsTracked(r);
    assert Tracked(r, j) && Tracked(r, k);
    ExaminedGrows(r, j + 1, k);
    SamePlaceInCycle(r.examined[j + 1] - 1, r.examined[k + 1] - 1);
  }

  /** So a late erasure can remove another flow only after a whole round of the allocator. */
  lemma StrangersComeLate(r: History, id: nat, p: Word, n: nat)
    requires IsHistory(r) && NoStop(r) && Built(r, id, p) && id < n <= |r.ops| && p in r.owners[n] && r.owners[n][p] != id
    ensures r.examined[n] >= r.examined[id + 1] + 55536
  {
    OwnerIsLastIssuer(r, id + 1, p);
    OwnerIsLastIssuer(r, n, p);
    var k := r.owners[n][p];
    ReissueTakesARound(r, id, k);
    RunIsTracked(r);
    ExaminedGrows(r, k + 1, n);
  }
}
