/**
 Runs from the empty tables that end where the datapath does other than one would expect: a valid
 packet is dropped, a payload goes to a stranger's flow, an erasure removes one, a rewrite reads past
 its packet.
 */
module Witnesses {
  import opened Bytes
  import opened InternetChecksum
  import opened NatTable
  import opened NatHistory
  import opened TunPacket
  import opened FlowTable
  import opened FlowRace
  import opened FlowInstances

  // ---- moving the cursor ----

  function End(w: Walk): Table
    requires |w.tables| == |w.ops| + 1
  {
    w.tables[|w.ops|]
  }

  /** Handlers only, none of them the stop. */
  ghost predicate Handlers(ops: seq<RaceOp>) {
    forall i :: 0 <= i < |ops| ==> ops[i].Whole? && ops[i].op != StopOp
  }

  /** A walk that goes on from another, by handlers if that does. */
  ghost predicate Extends(v: Walk, w: Walk) {
    && IsWalk(v) && w.tables != [] && v.tables[0] == w.tables[0] && w.ops <= v.ops
    && (Handlers(w.ops) ==> Handlers(v.ops))
  }

  lemma StepStays(w: Walk, v: Walk, i: nat)
    requires IsWalk(w) && |v.tables| == |v.ops| + 1 && i < |w.ops| <= |v.ops|
    requires v.ops[i] == w.ops[i] && v.tables[i] == w.tables[i] && v.tables[i + 1] == w.tables[i + 1]
    ensures WalkStep(v, i)
  {
    assert WalkStep(w, i);
  }

  lemma LongerIsWalk(w: Walk, op: RaceOp, u: Table)
    requires IsWalk(w) && StepRace(End(w), op) == Some(u)
    ensures IsWalk(Walk(w.ops + [op], w.tables + [u]))
  {
    var v := Walk(w.ops + [op], w.tables + [u]);
    var n := |w.ops|;
    assert v.tables[n] == w.tables[n] && v.tables[n + 1] == u && v.ops[n] == op;
    assert WalkStep(v, n);
    forall i | 0 <= i < |v.ops| ensures WalkStep(v, i) {
      if i < n {
        StepStays(w, v, i);
      }
    }
  }

  lemma WalkOn(w: Walk, op: TableOp, u: Table) returns (v: Walk)
    requires IsWalk(w) && op != StopOp && StepTable(End(w), op) == Some(u)
    ensures Extends(v, w) && End(v) == u && v.ops == w.ops + [Whole(op)]
  {
    v := Walk(w.ops + [Whole(op)], w.tables + [u]);
    LongerIsWalk(w, Whole(op), u);
  }

  /** There is room, and nothing of the port or its key is in the table. */
  ghost predicate Unknown(t: Table, p: Word) {
    && |t.sessions.reverse| < t.sessions.maxSessions
    && FIRST_PORT <= p && p !in t.sessions.reverse && p !in t.sessions.lru && p !in t.flows && Key(p) !in t.sessions.forward
  }

  lemma LookupTakesCursor(n: Nat, key: FlowKey, p: Word)
    requires |n.reverse| < n.maxSessions && key !in n.forward
    requires n.nextPort == p || (n.nextPort == 0 && p == FIRST_PORT)
    requires FIRST_PORT <= p && p !in n.reverse && p !in n.lru
    ensures Lookup(n, key) == Some(Found(Insert(n, key, p, After(p)), p, None)) && Insert(n, key, p, After(p)).lru == n.lru + [p]
  {
    WithoutAbsent(n.lru, p);
    assert AllocLoop(n.reverse, n.nextPort, ALLOC_LIMIT) == Some((p, After(p)));
  }

  /** A packet whose key is unknown gets the port at the cursor, and a flow. */
  lemma PacketTakesCursor(t: Table, p: Word) returns (u: Table)
    requires t.sessions.nextPort == p && Unknown(t, p)
    ensures StepTable(t, PacketOp(Key(p))) == Some(u) && u.flows == t.flows[p := Key(p)]
    ensures u.sessions == Insert(t.sessions, Key(p), p, After(p)) && u.sessions.lru == t.sessions.lru + [p]
  {
    LookupTakesCursor(t.sessions, Key(p), p);
    u := StepTable(t, PacketOp(Key(p))).value;
  }

  function Cursor(t: Table, to: Word): Table { t.(sessions := t.sessions.(nextPort := to)) }

  lemma PutAndRemove(forward: map<FlowKey, Word>, flows: map<Word, FlowKey>, p: Word)
    ensures p !in flows ==> flows[p := Key(p)] - {p} == flows
    ensures Key(p) !in forward ==> forward[Key(p) := p] - {Key(p)} == forward
  {
  }

  /** The erasure of its flow then undoes all but the move of the cursor. */
  lemma ErasureUndoesPacket(t: Table, p: Word)
    requires t.sessions.nextPort == p && Unknown(t, p)
    ensures EraseFlow(Table(Insert(t.sessions, Key(p), p, After(p)), t.flows[p := Key(p)]), p) == Cursor(t, After(p))
  {
    PutAndRemove(t.sessions.forward, t.sessions.reverse, p);
    PutAndRemove(t.sessions.forward, t.flows, p);
    WithoutAbsent(t.sessions.lru, p);
    WithoutLast(t.sessions.lru, p);
  }

  lemma RoundMovesCursor(w: Walk, base: Table, p: Word) returns (v: Walk)
    requires IsWalk(w) && End(w) == Cursor(base, p) && Unknown(base, p)
    ensures Extends(v, w) && End(v) == Cursor(base, After(p))
  {
    var u := Cursor(base, p);
    var t := PacketTakesCursor(u, p);
    ErasureUndoesPacket(u, p);
    var packed := WalkOn(w, PacketOp(Key(p)), t);
    v := WalkOn(packed, EraseFlowOp(p), Cursor(base, After(p)));
  }

  /** All ports from one up to before another are unknown. */
  ghost predicate UnknownRange(t: Table, from: Word, to: nat) {
    forall p: Word :: from <= p < to ==> Unknown(t, p)
  }

  /** Rounds of a packet and the erasure of its flow only move the cursor, past every port up to the last. */
  lemma {:induction false} RoundsMoveCursor(w: Walk, base: Table, p: Word, last: Word) returns (v: Walk)
    requires p <= last && IsWalk(w) && End(w) == Cursor(base, p) && UnknownRange(base, p, last + 1)
    ensures Extends(v, w) && End(v) == Cursor(base, After(last))
    decreases last
  {
    assert Unknown(base, last);
    if p == last {
      v := RoundMovesCursor(w, base, p);
    } else {
      var sofar := RoundsMoveCursor(w, base, p, last - 1);
      assert After(last - 1) == last;
      v := RoundMovesCursor(sofar, base, last);
    }
  }

  // ---- a valid packet that is dropped ----

  /** Every session's key is the one of its port. */
  ghost predicate Tidy(t: Table) {
    && Consistent(t)
    && forall k :: k in t.sessions.forward ==> k == Key(t.sessions.forward[k])
  }

  lemma TidyIsUnknown(t: Table, p: Word)
    requires Tidy(t) && FIRST_PORT <= p && p !in t.sessions.reverse && |t.sessions.reverse| < MAX_FLOWS
    ensures Unknown(t, p)
  {
    ListsMembers(t.sessions.lru, t.sessions.reverse.Keys);
  }

  lemma TidyPacket(t: Table, p: Word) returns (u: Table)
    requires Tidy(t) && FIRST_PORT <= p && p !in t.sessions.reverse && |t.sessions.reverse| < MAX_FLOWS && t.sessions.nextPort == p
    ensures StepTable(t, PacketOp(Key(p))) == Some(u) && Tidy(u)
    ensures u.sessions.reverse == t.sessions.reverse[p := Key(p)] && |u.sessions.reverse| == |t.sessions.reverse| + 1
    ensures u.sessions.lru == t.sessions.lru + [p] && u.sessions.nextPort == After(p) && u.flows == t.flows[p := Key(p)]
  {
    TidyIsUnknown(t, p);
    u := PacketTakesCursor(t, p);
    HandleDelivers(t, Key(p));
    assert u.sessions.forward == t.sessions.forward[Key(p) := p];
  }

  /** So many sessions, the first port's the oldest, the cursor at `next` and nothing live from there on. */
  ghost predicate FilledUpTo(n: Nat, next: nat, count: nat) {
    && |n.reverse| == count && n.nextPort == next % 0x1_0000
    && n.lru != [] && n.lru[0] == FIRST_PORT
    && forall p: Word :: next <= p ==> p !in n.reverse
  }

  ghost predicate Filled(t: Table, next: nat, count: nat) { Tidy(t) && FilledUpTo(t.sessions, next, count) }

  lemma OneMoreSession(n: Nat, m: Nat, p: Word, count: nat)
    requires FilledUpTo(n, p, count)
    requires m.reverse == n.reverse[p := Key(p)] && m.lru == n.lru + [p] && m.nextPort == After(p)
    ensures FilledUpTo(m, p + 1, count + 1)
  {
    assert m.reverse.Keys == n.reverse.Keys + {p};
  }

  lemma PacketFills(t: Table, p: Word, count: nat) returns (u: Table)
    requires Filled(t, p, count) && count < MAX_FLOWS && FIRST_PORT <= p
    ensures StepTable(t, PacketOp(Key(p))) == Some(u) && Filled(u, p + 1, count + 1)
  {
    u := TidyPacket(t, p);
    OneMoreSession(t.sessions, u.sessions, p, count);
  }

  lemma FillOn(w: Walk, p: Word, count: nat) returns (v: Walk)
    requires IsWalk(w) && Filled(End(w), p, count) && count < MAX_FLOWS && FIRST_PORT <= p
    ensures Extends(v, w) && Filled(End(v), p + 1, count + 1)
  {
    var u := PacketFills(End(w), p, count);
    v := WalkOn(w, PacketOp(Key(p)), u);
  }

  /** Packets of n new keys open n more sessions. */
  lemma {:induction false} PacketsFill(w: Walk, next: nat, count: nat, n: nat) returns (v: Walk)
    requires IsWalk(w) && Filled(End(w), next, count)
    requires FIRST_PORT <= next && next + n <= 0x1_0000 && count + n <= MAX_FLOWS
    ensures Extends(v, w) && Filled(End(v), next + n, count + n)
    decreases n
  {
    if n == 0 {
      v := w;
    } else {
      var sofar := PacketsFill(w, next, count, n - 1);
      v := FillOn(sofar, next + n - 1, count + n - 1);
    }
  }

  /** The table after one packet. */
  lemma FirstPacket() returns (w: Walk)
    ensures IsWalk(w) && w.tables[0] == EMPTY && w.ops == [Whole(PacketOp(Key(FIRST_PORT)))] && Tidy(End(w))
    ensures End(w).flows == map[FIRST_PORT := Key(FIRST_PORT)] && End(w).sessions.nextPort == FIRST_PORT + 1
    ensures End(w).sessions.lru == [FIRST_PORT] && End(w).sessions.reverse == map[FIRST_PORT := Key(FIRST_PORT)]
  {
    var t := TidyPacket(EMPTY, FIRST_PORT);
    w := WalkOn(Walk([], [EMPTY]), PacketOp(Key(FIRST_PORT)), t);
  }

  /** All ports behind the first are unknown then. */
  lemma OnlyFirstIsKnown(t: Table)
    requires Tidy(t) && t.sessions.reverse == map[FIRST_PORT := Key(FIRST_PORT)]
    ensures UnknownRange(t, FIRST_PORT + 1, 0x1_0000)
  {
    forall p: Word | FIRST_PORT + 1 <= p ensures Unknown(t, p) {
      TidyIsUnknown(t, p);
    }
  }

  lemma FirstIsFilled(t: Table, next: Word)
    requires Tidy(t) && t.sessions.lru == [FIRST_PORT] && t.sessions.reverse == map[FIRST_PORT := Key(FIRST_PORT)] && FIRST_PORT < next
    ensures Filled(Cursor(t, next), next, 1)
  {
  }

  /** One packet, and rounds until the cursor has come to a port. */
  lemma BeforeTheWrap(start: Word) returns (w: Walk)
    requires FIRST_PORT + 1 < start
    ensures IsWalk(w) && w.tables[0] == EMPTY && Handlers(w.ops) && Filled(End(w), start, 1)
  {
    var first := FirstPacket();
    var t := End(first);
    OnlyFirstIsKnown(t);
    assert t == Cursor(t, FIRST_PORT + 1);
    w := RoundsMoveCursor(first, t, FIRST_PORT + 1, start - 1);
    FirstIsFilled(t, start);
  }

  /**
   When 1023 ports are left before the cursor wraps, a packet on each: the table is full, the cursor stands
   before the oldest session's port, and the next key is dropped.
   */
  lemma DropIsReached() returns (w: Walk, key: FlowKey)
    ensures IsWalk(w) && w.tables[0] == EMPTY && Handlers(w.ops) && |End(w).sessions.reverse| == 1024
    ensures Handle(End(w), key).Some? && Handle(End(w), key).value.1 == None
  {
    var before := BeforeTheWrap(0x1_0000 - 1023);
    w := PacketsFill(before, 0x1_0000 - 1023, 1, 1023);
    key := Key(0);
    FullTableDrops(End(w), key);
  }

  lemma FullTableDrops(t: Table, key: FlowKey)
    requires Filled(t, 0x1_0000, MAX_FLOWS) && key == Key(0)
    ensures Handle(t, key).Some? && Handle(t, key).value.1 == None
  {
    assert Distance(0, FIRST_PORT) == 0;
    DroppedIff(t, key);
  }

  // ---- a payload that goes to a stranger's flow ----

  /** An overtaken erasure of the only flow leaves it behind in a table without sessions. */
  lemma OvertakenLeavesFlow(w: Walk, p: Word) returns (v: Walk)
    requires IsWalk(w)
    requires var t := End(w); Consistent(t) && t.flows == map[p := Key(p)] && t.sessions.reverse == map[p := Key(p)]
    ensures IsWalk(v) && v.tables[0] == w.tables[0] && v.ops == w.ops + [Front(p)] + [Whole(PacketOp(Key(p)))] + [Back(p)]
    ensures End(v) == Table(Nat(MAX_FLOWS, End(w).sessions.nextPort, map[], map[], []), End(w).flows)
  {
    var t := End(w);
    var fronted := EraseFront(t, p);
    LongerIsWalk(w, Front(p), fronted);
    v := Walk(w.ops + [Front(p)], w.tables + [fronted]);
    OnePacketOvertakes(t, p);
    FrontKeepsConsistent(t, p);
    HandleDelivers(fronted, Key(p));
    var handled := Handle(fronted, Key(p)).value.0;
    v := WalkOn(v, PacketOp(Key(p)), handled);
    var left := EraseBack(handled, p);
    LongerIsWalk(v, Back(p), left);
    v := Walk(v.ops + [Back(p)], v.tables + [left]);
    LastSessionErased(t, p, handled);
  }

  lemma LastSessionErased(t: Table, p: Word, u: Table)
    requires Consistent(t) && t.flows == map[p := Key(p)] && t.sessions.reverse == map[p := Key(p)]
    requires StepTable(EraseFront(t, p), PacketOp(Key(p))) == Some(u) && u.flows == t.flows
    ensures EraseBack(u, p) == Table(Nat(MAX_FLOWS, t.sessions.nextPort, map[], map[], []), t.flows)
  {
    LookupHit(t.sessions, Key(p));
    EraseKeepsValid(u.sessions, p);
    var n := Erase(u.sessions, p);
    assert n.reverse == map[];
    ListsMembers(n.lru, {});
    assert n.forward == map[];
  }

  /**
   One packet, and the erasure of its flow overtaken by another.  Then rounds until the cursor has gone
   round: the next packet of another 4-tuple gets the port, and its payload the flow left behind.
   */
  lemma MisdeliveryIsReached() returns (w: Walk, key: FlowKey)
    ensures IsWalk(w) && w.tables[0] == EMPTY && Handle(End(w), key).Some?
    ensures var (u, port) := Handle(End(w), key).value; port.Some? && port.value in u.flows && u.flows[port.value] != key
  {
    var first := FirstPacket();
    var stranded := OvertakenLeavesFlow(first, FIRST_PORT);
    var u := End(stranded);
    assert u == Cursor(u, FIRST_PORT + 1);
    w := RoundsMoveCursor(stranded, u, FIRST_PORT + 1, 0xFFFF);
    key := Key(0);
    StrandedFlowIsFound(End(w), key);
  }

  lemma StrandedFlowIsFound(t: Table, key: FlowKey)
    requires Valid(t.sessions) && t.sessions.maxSessions == MAX_FLOWS && t.sessions.reverse == map[] && t.sessions.forward == map[]
    requires t.sessions.nextPort == 0 && FIRST_PORT in t.flows && t.flows[FIRST_PORT] != key
    ensures Handle(t, key).Some?
    ensures Handle(t, key).value.1 == Some(FIRST_PORT)
    ensures FIRST_PORT in Handle(t, key).value.0.flows && Handle(t, key).value.0.flows[FIRST_PORT] != key
  {
    LookupHangsIff(t.sessions, key);
    var k := LookupMiss(t.sessions, key);
    assert Candidate(0, 0) == FIRST_PORT;
    Misdelivers(t, FIRST_PORT, key);
  }

  // ---- an erasure that removes a stranger's flow ----

  lemma EmptyTableLookup(next: Word, key: FlowKey)
    requires next == 0 || next == FIRST_PORT
    ensures var t := Cursor(EMPTY, next);
            Consistent(t) && Lookup(t.sessions, key).Some? && Lookup(t.sessions, key).value.port == FIRST_PORT
            && Lookup(t.sessions, key).value.evicted.None?
  {
    assert Consistent(Cursor(EMPTY, next));
    LookupTakesCursor(Cursor(EMPTY, next).sessions, key, FIRST_PORT);
  }

  /** In an empty table a packet is issued the port at the cursor and gets a flow on it. */
  lemma EmptyTableIssues(next: Word, key: FlowKey)
    requires next == 0 || next == FIRST_PORT
    ensures var t := Cursor(EMPTY, next);
            && Issues(t, PacketOp(key)) == Some(FIRST_PORT)
            && StepTable(t, PacketOp(key)).Some? && FIRST_PORT in StepTable(t, PacketOp(key)).value.flows
  {
    EmptyTableLookup(next, key);
    HandleDelivers(Cursor(EMPTY, next), key);
    LookupThenClear(Cursor(EMPTY, next), key);
  }

  lemma IssueBuilds(r: History, i: nat)
    requires IsHistory(r) && NoStop(r) && i < |r.ops| && r.issues[i] == Some(FIRST_PORT) && FIRST_PORT in r.tables[i + 1].flows
    ensures Built(r, i, FIRST_PORT)
  {
    RunKeepsInv(r, i + 1);
    RunIsTracked(r);
    assert Tracked(r, i);
  }

  function HandlerOps(ops: seq<RaceOp>): (r: seq<TableOp>)
    requires forall i :: 0 <= i < |ops| ==> ops[i].Whole?
  {
    seq(|ops|, i requires 0 <= i < |ops| => ops[i].op)
  }

  lemma {:induction false} HistoryFollowsWalk(w: Walk, r: History, n: nat)
    requires IsWalk(w) && w.tables[0] == EMPTY && Handlers(w.ops) && IsHistory(r) && r.ops == HandlerOps(w.ops) && n <= |w.ops|
    ensures r.tables[n] == w.tables[n]
    decreases n
  {
    if n > 0 {
      HistoryFollowsWalk(w, r, n - 1);
      assert WalkStep(w, n - 1) && TableStep(r, n - 1);
    }
  }

  /** A history after whose first operation, a packet, and its erasure only the cursor has moved, all the way round. */
  lemma OnceRound(key: FlowKey) returns (r: History)
    requires key == Key(FIRST_PORT)
    ensures IsHistory(r) && NoStop(r) && |r.ops| > 0 && r.ops[0] == PacketOp(key) && r.tables[|r.ops|] == Cursor(EMPTY, 0)
  {
    var t := PacketTakesCursor(EMPTY, FIRST_PORT);
    ErasureUndoesPacket(EMPTY, FIRST_PORT);
    var packed := WalkOn(Walk([], [EMPTY]), PacketOp(key), t);
    var first := WalkOn(packed, EraseFlowOp(FIRST_PORT), Cursor(EMPTY, FIRST_PORT + 1));
    var w := RoundsMoveCursor(first, EMPTY, FIRST_PORT + 1, 0xFFFF);
    assert w.ops[0] == first.ops[0];
    r := HistoryExists(HandlerOps(w.ops));
    HistoryFollowsWalk(w, r, |w.ops|);
  }

  /** The first flow is erased, the cursor goes round, and another flow is built on its port: erasing the first again removes that. */
  lemma StrangerIsReached() returns (r: History, n: nat)
    ensures IsHistory(r) && NoStop(r) && Built(r, 0, FIRST_PORT) && n == |r.ops|
    ensures FIRST_PORT in r.tables[n].flows && FIRST_PORT in r.owners[n] && r.owners[n][FIRST_PORT] != 0
  {
    var key := Key(FIRST_PORT);
    var before := OnceRound(key);
    var last := |before.ops|;
    EmptyTableIssues(0, key);
    EmptyTableIssues(FIRST_PORT, key);
    r := OneMore(before, PacketOp(key));
    n := last + 1;
    assert IssueStep(r, 0) && IssueStep(r, last) && TableStep(r, 0) && TableStep(r, last);
    assert r.tables[0] == Cursor(EMPTY, FIRST_PORT) && r.tables[last] == before.tables[last];
    IssueBuilds(r, 0);
    IssueBuilds(r, last);
  }

  // ---- a rewrite that reads past its packet ----

  /** In an empty table the very first packet is rewritten past its end, if it claims no header and is short. */
  lemma PastEndIsReached(c: Config)
    requires c.tunIp != Ipv4(0, 0, 0, 0)
    ensures TcpStep(Empty(0), c, Smallest(0)).Some? && TcpStep(Empty(0), c, Smallest(0)).value.1.PastEnd?
  {
    var p := Smallest(0);
    var s := ParseTcp(p).value;
    assert Valid(Empty(0));
    LookupHangsIff(Empty(0), KeyOf(s));
    var k := LookupMiss(Empty(0), KeyOf(s));
    ReadsPastEndIff(p, StackTarget(c, FIRST_PORT));
  }
}
