/**
 `handle_udp_packet` and `erase_udp_flow` as their locked blocks, any of which may come between any two
 others: the packet loop has its own thread, and coroutines erase flows beside it.
 */
module FlowBlocks {
  import opened Bytes
  import opened NatTable
  import opened FlowTable
  import opened FlowRace

  /** Where the packet loop stands: the key of its packet, the port it looked up, and the eviction it still has to clear. */
  datatype Stage =
    | Idle
    | Evicting(key: FlowKey, port: Word, evicted: Word)
    | Fronted(key: FlowKey, port: Word, evicted: Word)
    | Cleared(key: FlowKey, port: Word)
    | Checked(key: FlowKey, port: Word)

  datatype State = State(table: Table, stage: Stage)

  /** The handler's blocks, and the two halves of an erasure by a coroutine. */
  datatype Block = LookUp(key: FlowKey) | ClearFront | ClearBack | Check | Build | Erase1(port: Word) | Erase2(port: Word)

  /** The NAT lookup, under the NAT's mutex. */
  function LookUpBlock(t: Table, key: FlowKey): Option<State> {
    match Lookup(t.sessions, key)
    case None => None
    case Some(f) =>
      var u := t.(sessions := f.table);
      Some(State(u, if f.evicted.Some? then Evicting(key, f.port, f.evicted.value) else Cleared(key, f.port)))
  }

  /** The flow of the port if it has one, else a new one for the session, under the flows' mutex. */
  function BuildBlock(t: Table, port: Word, session: FlowKey): Table {
    if port in t.flows then t else t.(flows := t.flows[port := session])
  }

  predicate Enabled(s: State, b: Block) {
    match b
    case LookUp(_) => s.stage.Idle?
    case ClearFront => s.stage.Evicting?
    case ClearBack => s.stage.Fronted?
    case Check => s.stage.Cleared?
    case Build => s.stage.Checked?
    case Erase1(_) => true
    case Erase2(_) => true
  }

  /** None if the lookup never returns.  A dropped packet leaves the handler idle after its check. */
  function Step(s: State, b: Block): Option<State>
    requires Enabled(s, b)
  {
    var t := s.table;
    match b
    case LookUp(key) => LookUpBlock(t, key)
    case ClearFront =>
      var (key, port, e) := (s.stage.key, s.stage.port, s.stage.evicted);
      Some(State(EraseFront(t, e), if e in t.flows then Fronted(key, port, e) else Cleared(key, port)))
    case ClearBack => Some(State(EraseBack(t, s.stage.evicted), Cleared(s.stage.key, s.stage.port)))
    case Check =>
      (match LookupBack(t.sessions, s.stage.port)
       case None => Some(State(t, Idle))
       case Some(session) => Some(State(t, Checked(session, s.stage.port))))
    case Build => Some(State(BuildBlock(t, s.stage.port, s.stage.key), Idle))
    case Erase1(port) => Some(s.(table := EraseFront(t, port)))
    case Erase2(port) => Some(s.(table := EraseBack(t, port)))
  }

  // ---- the invariant between blocks ----

  /** Every flow's port is live for the flow's own session, except the flow of an eviction not yet cleared. */
  ghost predicate Steady(s: State) {
    && Valid(s.table.sessions) && s.table.sessions.maxSessions == MAX_FLOWS
    && (forall p :: p in s.table.flows && !Excused(s.stage, p) ==>
          p in s.table.sessions.reverse && s.table.sessions.reverse[p] == s.table.flows[p])
    && StageFits(s)
  }

  predicate Excused(stage: Stage, p: Word) { stage.Evicting? && p == stage.evicted }

  /** While the port is live it is the packet's own; once its flow is out of the table it stays out. */
  ghost predicate StageFits(s: State) {
    && (!s.stage.Idle? && s.stage.port in s.table.sessions.reverse ==> s.table.sessions.reverse[s.stage.port] == s.stage.key)
    && (s.stage.Fronted? ==> s.stage.evicted !in s.table.flows)
  }

  /** The second half of an erasure finds a flow on its port again, or a flow is built on a port that has died. */
  predicate Breaks(s: State, b: Block) {
    match b
    case Erase2(port) => port in s.table.flows && !Excused(s.stage, port)
    case Build => s.stage.Checked? && s.stage.port !in s.table.sessions.reverse
    case _ => false
  }

  lemma LookUpKeepsSteady(t: Table, key: FlowKey)
    requires Consistent(t)
    ensures LookUpBlock(t, key).Some? && Steady(LookUpBlock(t, key).value)
  {
    LookupHangsIff(t.sessions, key);
    SessionsAfterLookup(t.sessions, key);
  }

  lemma EraseBackIs(t: Table, port: Word)
    requires Valid(t.sessions)
    ensures Valid(EraseBack(t, port).sessions) && EraseBack(t, port).sessions.reverse == t.sessions.reverse - {port}
    ensures EraseBack(t, port).sessions.maxSessions == t.sessions.maxSessions && EraseBack(t, port).flows == t.flows
  {
    EraseKeepsValid(t.sessions, port);
  }

  lemma EraseFrontIs(t: Table, port: Word)
    requires Valid(t.sessions)
    ensures var u := EraseFront(t, port);
            && Valid(u.sessions) && u.sessions.maxSessions == t.sessions.maxSessions && u.flows == t.flows - {port}
            && u.sessions.reverse == if port in t.flows then t.sessions.reverse else t.sessions.reverse - {port}
  {
    EraseKeepsValid(t.sessions, port);
    assert port !in t.flows ==> t.flows - {port} == t.flows;
  }

  lemma ClearFrontKeepsSteady(s: State)
    requires Steady(s) && s.stage.Evicting?
    ensures Steady(Step(s, ClearFront).value)
  {
    EraseFrontIs(s.table, s.stage.evicted);
  }

  lemma ClearBackKeepsSteady(s: State)
    requires Steady(s) && s.stage.Fronted?
    ensures Steady(Step(s, ClearBack).value)
  {
    EraseBackIs(s.table, s.stage.evicted);
  }

  lemma Erase1KeepsSteady(s: State, port: Word)
    requires Steady(s)
    ensures Steady(Step(s, Erase1(port)).value)
  {
    EraseFrontIs(s.table, port);
  }

  lemma BuildBreaksIff(s: State)
    requires Steady(s) && s.stage.Checked?
    ensures Steady(Step(s, Build).value) <==> s.stage.port in s.table.sessions.reverse
  {
    var u := Step(s, Build).value;
    assert s.stage.port in u.table.flows;
  }

  lemma Erase2KeepsSteady(s: State, port: Word)
    requires Steady(s) && (port in s.table.flows ==> Excused(s.stage, port))
    ensures Steady(Step(s, Erase2(port)).value)
  {
    EraseBackIs(s.table, port);
  }

  lemma Erase2Breaks(s: State, port: Word)
    requires Steady(s) && port in s.table.flows && !Excused(s.stage, port)
    ensures !Steady(Step(s, Erase2(port)).value)
  {
    EraseBackIs(s.table, port);
    var u := Step(s, Erase2(port)).value;
    assert port in u.table.flows && port !in u.table.sessions.reverse;
  }

  /** One block keeps the invariant if and only if it is neither of the two. */
  lemma BlockBreaksIff(s: State, b: Block)
    requires Steady(s) && Enabled(s, b)
    ensures Step(s, b).Some?
    ensures Steady(Step(s, b).value) <==> !Breaks(s, b)
  {
    match b
    case LookUp(key) => IdleLookUpKeepsSteady(s, key);
    case ClearFront => ClearFrontKeepsSteady(s);
    case ClearBack => ClearBackKeepsSteady(s);
    case Check => CheckKeepsSteady(s);
    case Build => BuildBreaksIff(s);
    case Erase1(port) => Erase1KeepsSteady(s, port);
    case Erase2(port) =>
      if Breaks(s, b) {
        Erase2Breaks(s, port);
      } else {
        Erase2KeepsSteady(s, port);
      }
  }

  lemma IdleLookUpKeepsSteady(s: State, key: FlowKey)
    requires Steady(s) && s.stage.Idle?
    ensures Step(s, LookUp(key)).Some? && Steady(Step(s, LookUp(key)).value)
  {
    assert Consistent(s.table);
    LookUpKeepsSteady(s.table, key);
  }

  lemma CheckKeepsSteady(s: State)
    requires Steady(s) && s.stage.Cleared?
    ensures Step(s, Check).Some? && Steady(Step(s, Check).value)
  {
  }

  // ---- whole interleavings ----

  /** Blocks in any order that the handler's stages allow, with the states before, between and after them. */
  datatype Weave = Weave(blocks: seq<Block>, states: seq<State>)

  predicate WeaveStep(w: Weave, i: nat)
    requires |w.states| == |w.blocks| + 1 && i < |w.blocks|
  {
    Enabled(w.states[i], w.blocks[i]) && Step(w.states[i], w.blocks[i]) == Some(w.states[i + 1])
  }

  ghost predicate IsWeave(w: Weave) {
    |w.states| == |w.blocks| + 1 && forall i :: 0 <= i < |w.blocks| ==> WeaveStep(w, i)
  }

  lemma StepAt(w: Weave, i: nat)
    requires IsWeave(w) && i < |w.blocks| && Steady(w.states[i])
    ensures Steady(w.states[i + 1]) <==> !Breaks(w.states[i], w.blocks[i])
  {
    assert WeaveStep(w, i);
    BlockBreaksIff(w.states[i], w.blocks[i]);
  }

  lemma SteadyStep(w: Weave, i: nat)
    requires IsWeave(w) && i < |w.blocks| && Steady(w.states[i]) && !Breaks(w.states[i], w.blocks[i])
    ensures Steady(w.states[i + 1])
  {
    StepAt(w, i);
  }

  lemma SteadyUpTo(w: Weave, n: nat)
    requires IsWeave(w) && n <= |w.blocks| && Steady(w.states[0])
    requires forall i :: 0 <= i < n ==> !Breaks(w.states[i], w.blocks[i])
    ensures Steady(w.states[n])
  {
    var steady := (i: int) => 0 <= i <= |w.blocks| && Steady(w.states[i]);
    forall i | 0 <= i < n && steady(i) ensures steady(i + 1) {
      SteadyStep(w, i);
    }
    Carried(steady, n);
  }

  /** An interleaving of locked blocks keeps the tables in step throughout if and only if none of its blocks breaks them. */
  lemma SteadyThroughoutIff(w: Weave)
    requires IsWeave(w) && Steady(w.states[0])
    ensures (forall i :: 0 <= i <= |w.blocks| ==> Steady(w.states[i])) <==>
            forall i :: 0 <= i < |w.blocks| ==> !Breaks(w.states[i], w.blocks[i])
  {
    if forall i :: 0 <= i < |w.blocks| ==> !Breaks(w.states[i], w.blocks[i]) {
      forall i | 0 <= i <= |w.blocks| ensures Steady(w.states[i]) {
        SteadyUpTo(w, i);
      }
    }
    if forall i :: 0 <= i <= |w.blocks| ==> Steady(w.states[i]) {
      forall i | 0 <= i < |w.blocks| ensures !Breaks(w.states[i], w.blocks[i]) {
        StepAt(w, i);
      }
    }
  }

  /** While the tables are in step a payload goes to a flow of its own 4-tuple, even where the build breaks them. */
  lemma SteadyBuildDelivers(s: State)
    requires Steady(s) && s.stage.Checked?
    ensures var t := Step(s, Build).value.table; s.stage.port in t.flows && t.flows[s.stage.port] == s.stage.key
  {
  }

  // ---- which packets are dropped ----

  /** The block erases the port's NAT session. */
  predicate Kills(s: State, b: Block, port: Word) {
    match b
    case ClearFront => s.stage.Evicting? && s.stage.evicted == port && port !in s.table.flows
    case ClearBack => s.stage.Fronted? && s.stage.evicted == port
    case Erase1(p) => p == port && port !in s.table.flows
    case Erase2(p) => p == port
    case _ => false
  }

  predicate Handling(s: State) { s.stage.Evicting? || s.stage.Fronted? || s.stage.Cleared? }

  lemma BlockKeepsPortIff(s: State, b: Block)
    requires Valid(s.table.sessions) && Handling(s) && Enabled(s, b) && b != Check && s.stage.port in s.table.sessions.reverse
    ensures Step(s, b).Some?
    ensures var u := Step(s, b).value;
            && Valid(u.table.sessions) && Handling(u) && u.stage.port == s.stage.port
            && (u.stage.port in u.table.sessions.reverse <==> !Kills(s, b, s.stage.port))
  {
    match b
    case ClearFront => EraseFrontIs(s.table, s.stage.evicted);
    case ClearBack => EraseBackIs(s.table, s.stage.evicted);
    case Erase1(port) => EraseFrontIs(s.table, port);
    case Erase2(port) => EraseBackIs(s.table, port);
  }

  lemma BlockKeepsDead(s: State, b: Block)
    requires Valid(s.table.sessions) && Handling(s) && Enabled(s, b) && b != Check && s.stage.port !in s.table.sessions.reverse
    ensures Step(s, b).Some?
    ensures var u := Step(s, b).value;
            Valid(u.table.sessions) && Handling(u) && u.stage.port == s.stage.port && u.stage.port !in u.table.sessions.reverse
  {
    match b
    case ClearFront => EraseFrontIs(s.table, s.stage.evicted);
    case ClearBack => EraseBackIs(s.table, s.stage.evicted);
    case Erase1(port) => EraseFrontIs(s.table, port);
    case Erase2(port) => EraseBackIs(s.table, port);
  }

  /** The packet loop is at work on a packet whose port was this one. */
  ghost predicate Holds(s: State, port: Word) { Valid(s.table.sessions) && Handling(s) && s.stage.port == port }

  lemma HoldsOn(w: Weave, k: nat, port: Word)
    requires IsWeave(w) && k < |w.blocks| && w.blocks[k] != Check && Holds(w.states[k], port)
    ensures Holds(w.states[k + 1], port)
    ensures port in w.states[k + 1].table.sessions.reverse <==>
            port in w.states[k].table.sessions.reverse && !Kills(w.states[k], w.blocks[k], port)
  {
    assert WeaveStep(w, k);
    if port in w.states[k].table.sessions.reverse {
      BlockKeepsPortIff(w.states[k], w.blocks[k]);
    } else {
      BlockKeepsDead(w.states[k], w.blocks[k]);
    }
  }

  /** From a lookup on, up to the packet's check, the port is live as long as no block has killed it. */
  lemma LiveUntilKilled(w: Weave, n: nat, port: Word)
    requires IsWeave(w) && n <= |w.blocks| && Valid(w.states[0].table.sessions) && Handling(w.states[0])
    requires w.states[0].stage.port == port && port in w.states[0].table.sessions.reverse
    requires forall i :: 0 <= i < n ==> w.blocks[i] != Check
    ensures Holds(w.states[n], port)
    ensures port in w.states[n].table.sessions.reverse <==> forall i :: 0 <= i < n ==> !Kills(w.states[i], w.blocks[i], port)
  {
    var follows := (k: int) => 0 <= k <= |w.blocks| && Holds(w.states[k], port)
      && (port in w.states[k].table.sessions.reverse <==> forall i :: 0 <= i < k ==> !Kills(w.states[i], w.blocks[i], port));
    forall k | 0 <= k < n && follows(k) ensures follows(k + 1) {
      HoldsOn(w, k, port);
    }
    Carried(follows, n);
  }

  /**
   A packet that has been looked up is dropped at its check, the n-th block after, if and only if some
   block between has erased its port: its own clearing of an evicted session, or a coroutine's erasure.
   */
  lemma DroppedIffKilled(w: Weave, n: nat, port: Word)
    requires IsWeave(w) && n < |w.blocks| && w.blocks[n] == Check && forall i :: 0 <= i < n ==> w.blocks[i] != Check
    requires Steady(w.states[0]) && Handling(w.states[0]) && w.states[0].stage.port == port && port in w.states[0].table.sessions.reverse
    ensures w.states[n + 1].stage.Idle? <==> exists i :: 0 <= i < n && Kills(w.states[i], w.blocks[i], port)
  {
    LiveUntilKilled(w, n, port);
    assert WeaveStep(w, n);
  }

  /** After a lookup the port is live, so the condition above applies. */
  lemma LookUpStarts(t: Table, key: FlowKey)
    requires Consistent(t)
    ensures var s := LookUpBlock(t, key);
            s.Some? && Steady(s.value) && Handling(s.value) && s.value.stage.key == key && s.value.stage.port in s.value.table.sessions.reverse
  {
    LookUpKeepsSteady(t, key);
    SessionsAfterLookup(t.sessions, key);
  }

  // ---- nothing in between, and one erasure in between ----

  function Cleaned(s: State): State {
    var fronted := if s.stage.Evicting? then Step(s, ClearFront).value else s;
    if fronted.stage.Fronted? then Step(fronted, ClearBack).value else fronted
  }

  /** The rest of a packet's stages without interruption. */
  function Finished(s: State): State
    requires Handling(s)
  {
    var checked := Step(Cleaned(s), Check).value;
    if checked.stage.Checked? then Step(checked, Build).value else checked
  }

  lemma CleanedIs(s: State)
    requires Handling(s)
    ensures Cleaned(s).stage == Cleared(s.stage.key, s.stage.port)
    ensures s.stage.Evicting? ==> Cleaned(s).table == EraseFlow(s.table, s.stage.evicted)
    ensures s.stage.Cleared? ==> Cleaned(s).table == s.table
  {
    if s.stage.Evicting? {
      HalvesMakeTheWhole(s.table, s.stage.evicted);
    }
  }

  lemma FinishedIs(s: State, cleared: Table)
    requires Handling(s) && Cleaned(s) == State(cleared, Cleared(s.stage.key, s.stage.port))
    ensures Finished(s) == State(match LookupBack(cleared.sessions, s.stage.port)
                                 case None => cleared
                                 case Some(session) => BuildBlock(cleared, s.stage.port, session), Idle)
  {
  }

  /** Then they are the single step of FlowTable. */
  lemma BlocksMakeHandle(t: Table, key: FlowKey)
    requires Consistent(t)
    ensures LookUpBlock(t, key).Some? && Handling(LookUpBlock(t, key).value) && Handle(t, key).Some?
    ensures Finished(LookUpBlock(t, key).value) == State(Handle(t, key).value.0, Idle)
  {
    LookupHangsIff(t.sessions, key);
    var s := LookUpBlock(t, key).value;
    CleanedIs(s);
    FinishedIs(s, LookupAndClear(t, key).value.0);
  }

  /** Between a lookup and its check one erasure of the new port, whose flow is not yet built, drops the packet in any table. */
  lemma OneErasureDrops(s: State)
    requires Steady(s) && s.stage.Cleared? && s.stage.port in s.table.sessions.reverse && s.stage.port !in s.table.flows
    ensures var u := Step(s, Erase1(s.stage.port)).value; Step(u, Check).value.stage.Idle? && Steady(Step(u, Check).value)
  {
    EraseFrontIs(s.table, s.stage.port);
    BlockBreaksIff(s, Erase1(s.stage.port));
  }

  /** Between the check and the build one erasure leaves a flow on a dead port, with no second half overtaken. */
  lemma OneErasureStrands(s: State)
    requires Steady(s) && s.stage.Checked? && s.stage.port in s.table.sessions.reverse && s.stage.port !in s.table.flows
    ensures var u := Step(Step(s, Erase1(s.stage.port)).value, Build).value;
            s.stage.port in u.table.flows && s.stage.port !in u.table.sessions.reverse && !Steady(u)
  {
    EraseFrontIs(s.table, s.stage.port);
    BlockBreaksIff(s, Erase1(s.stage.port));
    BuildBreaksIff(Step(s, Erase1(s.stage.port)).value);
  }
}
