/**
 `erase_udp_flow` as its two locked blocks.  The flow is removed under one mutex and its NAT session
 under another, so steps of other handlers can come between.
 */
module FlowRace {
  import opened Bytes
  import opened NatTable
  import opened FlowTable

  // a whole handler, or one of the two halves of an erasure
  datatype RaceOp = Whole(op: TableOp) | Front(port: Word) | Back(port: Word)

  /** The first block: only if there was a flow is a second block still owed. */
  function EraseFront(t: Table, port: Word): Table {
    if port in t.flows then t.(flows := t.flows - {port}) else t.(sessions := Erase(t.sessions, port))
  }

  function EraseBack(t: Table, port: Word): Table { t.(sessions := Erase(t.sessions, port)) }

  function StepRace(t: Table, op: RaceOp): Option<Table> {
    match op
    case Whole(op) => StepTable(t, op)
    case Front(port) => Some(EraseFront(t, port))
    case Back(port) => Some(EraseBack(t, port))
  }

  /** An interleaving: its steps, with the tables before, between and after them. */
  datatype Walk = Walk(ops: seq<RaceOp>, tables: seq<Table>)

  predicate WalkStep(w: Walk, i: nat)
    requires |w.tables| == |w.ops| + 1 && i < |w.ops|
  {
    StepRace(w.tables[i], w.ops[i]) == Some(w.tables[i + 1])
  }

  ghost predicate IsWalk(w: Walk) {
    |w.tables| == |w.ops| + 1 && forall i :: 0 <= i < |w.ops| ==> WalkStep(w, i)
  }

  /** The second block of an erasure finds that the port has a flow again. */
  predicate Overtaken(t: Table, op: RaceOp) {
    op.Back? && op.port in t.flows
  }

  /** With nothing in between, the two blocks are the single step of FlowTable. */
  lemma HalvesMakeTheWhole(t: Table, port: Word)
    ensures port in t.flows ==> EraseBack(EraseFront(t, port), port) == EraseFlow(t, port)
    ensures port !in t.flows ==> EraseFront(t, port) == EraseFlow(t, port)
  {
    assert port !in t.flows ==> t.flows - {port} == t.flows;
  }

  lemma FrontKeepsConsistent(t: Table, port: Word)
    requires Consistent(t)
    ensures Consistent(EraseFront(t, port)) && port !in EraseFront(t, port).flows
  {
    EraseKeepsValid(t.sessions, port);
  }

  lemma BackBreaksIff(t: Table, port: Word)
    requires Consistent(t)
    ensures Consistent(EraseBack(t, port)) <==> port !in t.flows
  {
    EraseKeepsValid(t.sessions, port);
    assert port !in EraseBack(t, port).sessions.reverse;
  }

  lemma StepBreaksIff(t: Table, op: RaceOp)
    requires Consistent(t)
    ensures StepRace(t, op).Some?
    ensures Consistent(StepRace(t, op).value) <==> !Overtaken(t, op)
  {
    match op {
      case Whole(PacketOp(key)) => HandleDelivers(t, key);
      case Whole(EraseFlowOp(port)) => EraseKeepsConsistent(t, port);
      case Whole(StopOp) =>
      case Front(port) => FrontKeepsConsistent(t, port);
      case Back(port) => BackBreaksIff(t, port);
    }
  }

  lemma StepAt(w: Walk, i: nat)
    requires IsWalk(w) && i < |w.ops| && Consistent(w.tables[i])
    ensures Consistent(w.tables[i + 1]) <==> !Overtaken(w.tables[i], w.ops[i])
  {
    assert WalkStep(w, i);
    StepBreaksIff(w.tables[i], w.ops[i]);
  }

  /** What each step keeps holds at every state. */
  lemma {:induction false} Carried(good: int -> bool, n: nat)
    requires good(0) && forall i :: 0 <= i < n && good(i) ==> good(i + 1)
    ensures good(n)
  {
    if n > 0 {
      Carried(good, n - 1);
    }
  }

  lemma ConsistentUpTo(w: Walk, n: nat)
    requires IsWalk(w) && n <= |w.ops| && Consistent(w.tables[0])
    requires forall i :: 0 <= i < n ==> !Overtaken(w.tables[i], w.ops[i])
    ensures Consistent(w.tables[n])
  {
    var consistent := (i: int) => 0 <= i <= |w.ops| && Consistent(w.tables[i]);
    forall i | 0 <= i < n && consistent(i) ensures consistent(i + 1) {
      StepAt(w, i);
    }
    Carried(consistent, n);
  }

  /** An interleaving of handlers and half erasures is consistent throughout if and only if no second block is overtaken. */
  lemma ConsistentThroughoutIff(w: Walk)
    requires IsWalk(w) && Consistent(w.tables[0])
    ensures (forall i :: 0 <= i <= |w.ops| ==> Consistent(w.tables[i])) <==>
            forall i :: 0 <= i < |w.ops| ==> !Overtaken(w.tables[i], w.ops[i])
  {
    if forall i :: 0 <= i < |w.ops| ==> !Overtaken(w.tables[i], w.ops[i]) {
      forall i | 0 <= i <= |w.ops| ensures Consistent(w.tables[i]) {
        ConsistentUpTo(w, i);
      }
    }
    if forall i :: 0 <= i <= |w.ops| ==> Consistent(w.tables[i]) {
      forall i | 0 <= i < |w.ops| ensures !Overtaken(w.tables[i], w.ops[i]) {
        StepAt(w, i);
      }
    }
  }

  /** In any table, one packet of the flow's own 4-tuple between the halves of its erasure is enough. */
  lemma OnePacketOvertakes(t: Table, port: Word)
    requires Consistent(t) && port in t.flows
    ensures var handled := Handle(EraseFront(t, port), t.flows[port]);
            && handled.Some? && handled.value.1 == Some(port)
            && var left := EraseBack(handled.value.0, port);
            left.flows == t.flows && port !in left.sessions.reverse && !Consistent(left)
  {
    var key := t.flows[port];
    var fronted := EraseFront(t, port);
    FrontKeepsConsistent(t, port);
    LookupHit(t.sessions, key);
    var u := Handle(fronted, key).value.0;
    assert u.flows == t.flows;
    EraseKeepsValid(u.sessions, port);
  }

  /** A flow left behind on a dead port gets the payloads of whichever 4-tuple is given that port next. */
  lemma Misdelivers(t: Table, port: Word, key: FlowKey)
    requires Valid(t.sessions) && port in t.flows && port !in t.sessions.reverse
    requires key !in t.sessions.forward && Lookup(t.sessions, key).Some? && Lookup(t.sessions, key).value.port == port
    ensures Handle(t, key).Some?
    ensures var (u, to) := Handle(t, key).value;
            to == Some(port) && u.flows[port] == t.flows[port] && u.sessions.reverse[port] == key
  {
    SessionsAfterLookup(t.sessions, key);
    var f := Lookup(t.sessions, key).value;
    if f.evicted.Some? {
      EraseKeepsValid(f.table, f.evicted.value);
    }
  }
}
