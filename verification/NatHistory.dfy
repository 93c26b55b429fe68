/**
 Whole runs of a NAT table: every sequence of lookups and erasures from the empty table.
 The history is independent of the table: when a key was last looked up, and which ports
 the allocation cursor examined.
 */
module NatHistory {
  import opened Bytes
  import opened NatTable

  datatype Op = LookupOp(key: FlowKey) | EraseOp(port: Word)

  function Step(n: Nat, op: Op): Option<Nat> {
    match op
    case LookupOp(key) =>
      (match Lookup(n, key)
       case None => None
       case Some(f) => Some(f.table))
    case EraseOp(port) => Some(Erase(n, port))
  }

  function Last(ops: seq<Op>): Op
    requires ops != []
  {
    ops[|ops| - 1]
  }

  function Front(ops: seq<Op>): seq<Op>
    requires ops != []
  {
    ops[..|ops| - 1]
  }

  /** The table after the operations, or None if one of them never returns. */
  function Run(maxSessions: nat, ops: seq<Op>): Option<Nat> {
    if ops == [] then Some(Empty(maxSessions))
    else
      match Run(maxSessions, Front(ops))
      case None => None
      case Some(n) => Step(n, Last(ops))
  }

  /** One more than the index of the key's last lookup; 0 if there is none. */
  function LastUse(ops: seq<Op>, key: FlowKey): (t: nat)
    ensures t <= |ops|
  {
    if ops == [] then 0 else if Last(ops) == LookupOp(key) then |ops| else LastUse(Front(ops), key)
  }

  // ---- invariants of every run ----

  lemma {:induction false} EveryRunIsValid(maxSessions: nat, ops: seq<Op>)
    requires Run(maxSessions, ops).Some?
    ensures Valid(Run(maxSessions, ops).value)
    ensures Run(maxSessions, ops).value.maxSessions == maxSessions
  {
    if ops != [] {
      EveryRunIsValid(maxSessions, Front(ops));
      var n := Run(maxSessions, Front(ops)).value;
      match Last(ops)
      case LookupOp(key) => LookupKeepsValid(n, key);
      case EraseOp(port) => EraseKeepsValid(n, port);
    }
  }

  /** A table bounded by 1 to 55536 sessions completes every sequence of operations. */
  lemma {:induction false} BoundedTablesNeverHang(maxSessions: nat, ops: seq<Op>)
    requires 1 <= maxSessions <= 55536
    ensures Run(maxSessions, ops).Some?
  {
    if ops != [] {
      BoundedTablesNeverHang(maxSessions, Front(ops));
      EveryRunIsValid(maxSessions, Front(ops));
      var n := Run(maxSessions, Front(ops)).value;
      match Last(ops)
      case LookupOp(key) => LookupHangsIff(n, key);
      case EraseOp(_) =>
    }
  }

  /** A live session keeps its port through an operation unless that operation erases or evicts that port. */
  lemma PortIsStable(n: Nat, op: Op, port: Word)
    requires Valid(n) && port in n.reverse && Step(n, op).Some?
    ensures var key := n.reverse[port];
            var gone := match op
                        case LookupOp(k) => Lookup(n, k).value.evicted == Some(port)
                        case EraseOp(p) => p == port;
            var after := Step(n, op).value;
            (if gone then key !in after.forward else key in after.forward && after.forward[key] == port)
  {
    match op
    case LookupOp(k) =>
      if k !in n.forward {
        RoomIsMade(n, k);
        LookupHangsIff(n, k);
        var i := LookupMiss(n, k);
      }
      LookupKeepsValid(n, k);
    case EraseOp(p) =>
      EraseKeepsValid(n, p);
  }

  // ---- least recently used ----

  /** When each live port's session was last looked up. */
  ghost function Uses(reverse: map<Word, FlowKey>, ops: seq<Op>): map<Word, nat> {
    map p | p in reverse :: LastUse(ops, reverse[p])
  }

  ghost predicate Ascending(s: seq<Word>, uses: map<Word, nat>) {
    && (forall p :: p in s ==> p in uses)
    && forall i, j :: 0 <= i < j < |s| ==> uses[s[i]] < uses[s[j]]
  }

  lemma TailStaysAscending(s: seq<Word>, uses: map<Word, nat>)
    requires s != [] && Ascending(s, uses)
    ensures Ascending(s[1..], uses) && s[0] in uses
    ensures forall q :: q in s[1..] ==> q in uses && uses[s[0]] < uses[q]
  {
    var t := s[1..];
    forall i, j | 0 <= i < j < |t| ensures uses[t[i]] < uses[t[j]] {
      assert t[i] == s[i + 1] && t[j] == s[j + 1];
    }
    forall q | q in t ensures q in uses && uses[s[0]] < uses[q] {
      var i :| 0 <= i < |t| && t[i] == q;
      assert s[i + 1] == q && q in s;
    }
    assert s[0] in s;
  }

  lemma {:induction false} WithoutStaysAscending(s: seq<Word>, p: Word, uses: map<Word, nat>)
    requires Ascending(s, uses)
    ensures Ascending(Without(s, p), uses)
    ensures forall q :: q in Without(s, p) ==> q in s && q != p
  {
    if s != [] {
      TailStaysAscending(s, uses);
      if s[0] != p {
        WithoutStaysAscending(s[1..], p, uses);
        PrependAscends(s[0], Without(s[1..], p), uses);
      }
    }
  }

  lemma PrependAscends(p: Word, s: seq<Word>, uses: map<Word, nat>)
    requires p in uses && Ascending(s, uses) && forall q :: q in s ==> q in uses && uses[p] < uses[q]
    ensures Ascending([p] + s, uses)
  {
    var t := [p] + s;
    forall i, j | 0 <= i < j < |t| ensures uses[t[i]] < uses[t[j]] {
      assert t[j] == s[j - 1] && s[j - 1] in s;
      if i > 0 {
        assert t[i] == s[i - 1];
      }
    }
  }

  lemma SameTimesAscend(s: seq<Word>, before: map<Word, nat>, after: map<Word, nat>)
    requires Ascending(s, before)
    requires forall p :: p in s ==> p in after && after[p] == before[p]
    ensures Ascending(s, after)
  {
    forall i, j | 0 <= i < j < |s| ensures after[s[i]] < after[s[j]] {
      assert s[i] in s && s[j] in s;
    }
  }

  /** Everything listed keeps its time, and the new last entry is later than all of it. */
  lemma AppendAscends(s: seq<Word>, p: Word, before: map<Word, nat>, after: map<Word, nat>)
    requires Ascending(s, before) && p in after
    requires forall q :: q in s ==> q in after && after[q] == before[q] < after[p]
    ensures Ascending(s + [p], after)
  {
    forall i | 0 <= i < |s| ensures after[s[i]] == before[s[i]] < after[p] {
      assert s[i] in s;
    }
  }

  lemma {:induction false} LastUseAfter(ops: seq<Op>, op: Op, key: FlowKey)
    ensures LastUse(ops + [op], key) == if op == LookupOp(key) then |ops| + 1 else LastUse(ops, key)
  {
    assert Front(ops + [op]) == ops;
  }

  lemma ErasureKeepsTimes(reverse: map<Word, FlowKey>, left: map<Word, FlowKey>, past: seq<Op>, port: Word, p: Word)
    requires p in left && p in reverse && left[p] == reverse[p]
    ensures Uses(left, past + [EraseOp(port)])[p] == Uses(reverse, past)[p]
  {
    LastUseAfter(past, EraseOp(port), left[p]);
  }

  lemma EraseStaysAscending(n: Nat, past: seq<Op>, port: Word)
    requires Valid(n) && Ascending(n.lru, Uses(n.reverse, past))
    ensures var after := Erase(n, port); Ascending(after.lru, Uses(after.reverse, past + [EraseOp(port)]))
  {
    EraseKeepsValid(n, port);
    var lru, left := Erase(n, port).lru, n.reverse - {port};
    var before := Uses(n.reverse, past);
    WithoutStaysAscending(n.lru, port, before);
    ListsMembers(n.lru, n.reverse.Keys);
    ListsMembers(lru, left.Keys);
    assert Ascending(lru, before);
    forall p | p in lru ensures p in left && Uses(left, past + [EraseOp(port)])[p] == before[p] {
      ErasureKeepsTimes(n.reverse, left, past, port, p);
    }
    SameTimesAscend(lru, before, Uses(left, past + [EraseOp(port)]));
  }

  /** A lookup moves or adds its port to the end of the list, later than every other. */
  lemma NewestIsLast(rest: seq<Word>, port: Word, key: FlowKey, past: seq<Op>, reverse: map<Word, FlowKey>)
    requires Ascending(rest, Uses(reverse, past)) && port !in rest
    requires forall p :: p in rest ==> p in reverse && reverse[p] != key
    ensures Ascending(rest + [port], Uses(reverse[port := key], past + [LookupOp(key)]))
  {
    var more := reverse[port := key];
    forall p | p in rest ensures LastUse(past + [LookupOp(key)], more[p]) == LastUse(past, reverse[p]) {
      LastUseAfter(past, LookupOp(key), more[p]);
    }
    LastUseAfter(past, LookupOp(key), key);
    AppendAscends(rest, port, Uses(reverse, past), Uses(more, past + [LookupOp(key)]));
  }

  lemma HitStaysAscending(n: Nat, past: seq<Op>, key: FlowKey)
    requires Valid(n) && key in n.forward && Ascending(n.lru, Uses(n.reverse, past))
    ensures var after := Touch(n, n.forward[key]); Ascending(after.lru, Uses(after.reverse, past + [LookupOp(key)]))
  {
    var port := n.forward[key];
    WithoutStaysAscending(n.lru, port, Uses(n.reverse, past));
    assert n.reverse[port := key] == n.reverse;
    NewestIsLast(Without(n.lru, port), port, key, past, n.reverse);
  }

  lemma RoomStaysAscending(n: Nat, past: seq<Op>, key: FlowKey)
    requires Valid(n) && key !in n.forward && Ascending(n.lru, Uses(n.reverse, past))
    ensures var m := MakeRoom(n).0; Ascending(m.lru, Uses(m.reverse, past))
  {
    RoomIsMade(n, key);
    var m := MakeRoom(n).0;
    if m.lru != n.lru {
      TailAscends(n.lru, Uses(n.reverse, past), Uses(m.reverse, past));
    }
  }

  lemma TailAscends(s: seq<Word>, before: map<Word, nat>, after: map<Word, nat>)
    requires s != [] && Ascending(s, before)
    requires forall p :: p in before && p != s[0] ==> p in after && after[p] == before[p]
    ensures Ascending(s[1..], after)
  {
    TailStaysAscending(s, before);
    SameTimesAscend(s[1..], before, after);
  }

  lemma MissStaysAscending(n: Nat, past: seq<Op>, key: FlowKey)
    requires Valid(n) && key !in n.forward && Lookup(n, key).Some? && Ascending(n.lru, Uses(n.reverse, past))
    ensures var after := Lookup(n, key).value.table; Ascending(after.lru, Uses(after.reverse, past + [LookupOp(key)]))
  {
    LookupHangsIff(n, key);
    RoomIsMade(n, key);
    RoomStaysAscending(n, past, key);
    var k := LookupMiss(n, key);
    var m := MakeRoom(n).0;
    ListsMembers(m.lru, m.reverse.Keys);
    NewestIsLast(m.lru, Candidate(n.nextPort, k), key, past, m.reverse);
  }

  /** In every run the LRU list is sorted by the last lookup of each listed session. */
  lemma {:induction false} LruIsSortedByLastUse(maxSessions: nat, ops: seq<Op>)
    requires Run(maxSessions, ops).Some?
    ensures var n := Run(maxSessions, ops).value; Ascending(n.lru, Uses(n.reverse, ops))
  {
    if ops != [] {
      assert ops == Front(ops) + [Last(ops)];
      EveryRunIsValid(maxSessions, Front(ops));
      LruIsSortedByLastUse(maxSessions, Front(ops));
      var n := Run(maxSessions, Front(ops)).value;
      match Last(ops)
      case LookupOp(key) =>
        if key in n.forward {
          HitStaysAscending(n, Front(ops), key);
        } else {
          MissStaysAscending(n, Front(ops), key);
        }
      case EraseOp(port) => EraseStaysAscending(n, Front(ops), port);
    }
  }

  lemma {:induction false} HeadIsOldest(n: Nat, ops: seq<Op>)
    requires Valid(n) && n.lru != [] && Ascending(n.lru, Uses(n.reverse, ops))
    ensures n.lru[0] in n.reverse
    ensures forall q :: q in n.reverse && q != n.lru[0] ==> LastUse(ops, n.reverse[n.lru[0]]) < LastUse(ops, n.reverse[q])
  {
    ListsMembers(n.lru, n.reverse.Keys);
    assert n.lru[0] in n.lru;
    forall q | q in n.reverse && q != n.lru[0] ensures LastUse(ops, n.reverse[n.lru[0]]) < LastUse(ops, n.reverse[q]) {
      assert q in n.lru;
      var i :| 0 <= i < |n.lru| && n.lru[i] == q;
      assert Uses(n.reverse, ops)[n.lru[0]] < Uses(n.reverse, ops)[n.lru[i]];
    }
  }

  /**
   A lookup evicts exactly when its key is new and the bounded table is full, and the session
   it evicts was last used strictly before every other live session.
   */
  lemma {:induction false} EvictsLeastRecentlyUsed(maxSessions: nat, ops: seq<Op>, key: FlowKey)
    requires Run(maxSessions, ops).Some? && Lookup(Run(maxSessions, ops).value, key).Some?
    ensures var n := Run(maxSessions, ops).value;
            var evicted := Lookup(n, key).value.evicted;
            && (evicted.Some? <==> key !in n.forward && maxSessions != 0 && |n.reverse| == maxSessions)
            && (evicted.Some? ==>
                  && evicted.value in n.reverse
                  && forall q :: q in n.reverse && q != evicted.value ==>
                       LastUse(ops, n.reverse[evicted.value]) < LastUse(ops, n.reverse[q]))
  {
    LruIsSortedByLastUse(maxSessions, ops);
    EveryRunIsValid(maxSessions, ops);
    var n := Run(maxSessions, ops).value;
    if key !in n.forward {
      LookupHangsIff(n, key);
      RoomIsMade(n, key);
      var k := LookupMiss(n, key);
      if n.lru != [] {
        HeadIsOldest(n, ops);
      }
    }
  }

  // ---- the allocation cursor ----

  datatype Pass = Issued(port: Word) | InUse(port: Word)

  /** What one allocation examines, in order. */
  function AllocPasses(reverse: map<Word, FlowKey>, next: Word, fuel: nat): seq<Pass>
    decreases fuel, reverse
  {
    if fuel == 0 then []
    else if next == 0 then AllocPasses(reverse, FIRST_PORT, fuel - 1)
    else if next in reverse then [InUse(next)] + AllocPasses(reverse, After(next), fuel - 1)
    else [Issued(next)]
  }

  function StepPasses(n: Nat, op: Op): seq<Pass> {
    match op
    case LookupOp(key) =>
      if key in n.forward then []
      else
        var m := MakeRoom(n).0;
        AllocPasses(m.reverse, m.nextPort, ALLOC_LIMIT)
    case EraseOp(_) => []
  }

  function Passes(maxSessions: nat, ops: seq<Op>): seq<Pass>
    requires Run(maxSessions, ops).Some?
  {
    if ops == [] then []
    else Passes(maxSessions, Front(ops)) + StepPasses(Run(maxSessions, Front(ops)).value, Last(ops))
  }

  function PortAt(i: nat): Word { FIRST_PORT + i % PORT_COUNT }

  /** The examined ports are consecutive in the cycle, the first of them at place `start`. */
  ghost predicate WalksFrom(passes: seq<Pass>, start: nat) {
    forall i :: 0 <= i < |passes| ==> passes[i].port == PortAt(start + i)
  }

  /** The cursor stands at place `at` of the cycle. */
  ghost predicate StandsAt(next: Word, at: nat) {
    (next == 0 || FIRST_PORT <= next) && Position(next) == at % PORT_COUNT
  }

  lemma WalksOn(a: seq<Pass>, b: seq<Pass>, start: nat)
    requires WalksFrom(a, start) && WalksFrom(b, start + |a|)
    ensures WalksFrom(a + b, start)
  {
    forall i | 0 <= i < |a + b| ensures (a + b)[i].port == PortAt(start + i) {
      if i >= |a| {
        assert (a + b)[i] == b[i - |a|];
      }
    }
  }

  lemma {:induction false} AllocWalks(reverse: map<Word, FlowKey>, next: Word, fuel: nat, start: nat)
    requires StandsAt(next, start) && AllocLoop(reverse, next, fuel).Some?
    ensures var passes := AllocPasses(reverse, next, fuel);
            var (port, after) := AllocLoop(reverse, next, fuel).value;
            && passes != [] && passes[|passes| - 1] == Issued(port) && port !in reverse
            && (forall i :: 0 <= i < |passes| - 1 ==> passes[i].InUse? && passes[i].port in reverse)
            && WalksFrom(passes, start) && StandsAt(after, start + |passes|)
    decreases fuel
  {
    if next == 0 {
      AllocWalks(reverse, FIRST_PORT, fuel - 1, start);
    } else {
      CursorSteps(next, start);
      if next in reverse {
        AllocWalks(reverse, After(next), fuel - 1, start + 1);
        WalksOn([InUse(next)], AllocPasses(reverse, After(next), fuel - 1), start);
      }
    }
  }

  lemma CursorSteps(next: Word, start: nat)
    requires next != 0 && StandsAt(next, start)
    ensures next == PortAt(start) && StandsAt(After(next), start + 1)
  {
    CandidateStep(next, 0);
    StepInCycle(start);
  }

  lemma StepInCycle(i: nat)
    ensures (i + 1) % PORT_COUNT == if i % PORT_COUNT == PORT_COUNT - 1 then 0 else i % PORT_COUNT + 1
  {
  }

  lemma LookupWalks(n: Nat, key: FlowKey, start: nat)
    requires Valid(n) && key !in n.forward && Lookup(n, key).Some? && StandsAt(n.nextPort, start)
    ensures var passes := StepPasses(n, LookupOp(key));
            WalksFrom(passes, start) && StandsAt(Lookup(n, key).value.table.nextPort, start + |passes|)
  {
    EvictionKeepsCursor(n);
    LookupAllocates(n, key);
    var m := MakeRoom(n).0;
    AllocWalks(m.reverse, m.nextPort, ALLOC_LIMIT, start);
  }

  /** One operation continues the walk where the last one left it. */
  lemma StepWalks(n: Nat, op: Op, start: nat)
    requires Valid(n) && Step(n, op).Some? && StandsAt(n.nextPort, start)
    ensures var passes := StepPasses(n, op);
            WalksFrom(passes, start) && StandsAt(Step(n, op).value.nextPort, start + |passes|)
  {
    if op.LookupOp? && op.key !in n.forward {
      LookupWalks(n, op.key, start);
    }
  }

  /**
   Over a whole run the cursor examines 10000, 10001, ... in cyclic order without a gap, across all
   allocations: the i-th examination is of port 10000 + i mod 55536.
   */
  lemma {:induction false} CursorWalksTheCycle(maxSessions: nat, ops: seq<Op>)
    requires Run(maxSessions, ops).Some?
    ensures WalksFrom(Passes(maxSessions, ops), 0)
    ensures forall i :: 0 <= i < |Passes(maxSessions, ops)| ==> Passes(maxSessions, ops)[i].port == 10000 + i % 55536
    ensures StandsAt(Run(maxSessions, ops).value.nextPort, |Passes(maxSessions, ops)|)
  {
    if ops != [] {
      CursorWalksTheCycle(maxSessions, Front(ops));
      EveryRunIsValid(maxSessions, Front(ops));
      RunWalksOn(Run(maxSessions, Front(ops)).value, Last(ops), Passes(maxSessions, Front(ops)));
    }
  }

  lemma RunWalksOn(n: Nat, op: Op, past: seq<Pass>)
    requires Valid(n) && Step(n, op).Some? && WalksFrom(past, 0) && StandsAt(n.nextPort, |past|)
    ensures WalksFrom(past + StepPasses(n, op), 0)
    ensures StandsAt(Step(n, op).value.nextPort, |past + StepPasses(n, op)|)
  {
    StepWalks(n, op, |past|);
    WalksOn(past, StepPasses(n, op), 0);
  }

  lemma LookupAllocates(n: Nat, key: FlowKey)
    requires key !in n.forward && Lookup(n, key).Some?
    ensures var m := MakeRoom(n).0;
            && AllocLoop(m.reverse, m.nextPort, ALLOC_LIMIT).Some?
            && Lookup(n, key).value.port == AllocLoop(m.reverse, m.nextPort, ALLOC_LIMIT).value.0
            && Lookup(n, key).value.table.nextPort == AllocLoop(m.reverse, m.nextPort, ALLOC_LIMIT).value.1
  {
  }

  lemma {:induction false} EvictionKeepsCursor(n: Nat)
    ensures EvictOne(n).0.nextPort == n.nextPort
    decreases |n.lru|
  {
    if n.lru != [] {
      EvictionKeepsCursor(n.(lru := n.lru[1..]));
    }
  }

  /** A lookup of a new key examines live ports until it issues its own. */
  lemma PassesOfALookup(n: Nat, key: FlowKey)
    requires Valid(n) && key !in n.forward && Lookup(n, key).Some?
    ensures var passes := StepPasses(n, LookupOp(key));
            && passes != [] && passes[|passes| - 1] == Issued(Lookup(n, key).value.port)
            && forall i :: 0 <= i < |passes| - 1 ==> passes[i].InUse? && passes[i].port in MakeRoom(n).0.reverse
  {
    EvictionKeepsCursor(n);
    LookupAllocates(n, key);
    var m := MakeRoom(n).0;
    AllocWalks(m.reverse, m.nextPort, ALLOC_LIMIT, Position(m.nextPort));
  }

  lemma SamePlaceInCycle(i: nat, j: nat)
    requires i < j && i % PORT_COUNT == j % PORT_COUNT
    ensures i + PORT_COUNT <= j
  {
    assert j - i == PORT_COUNT * (j / PORT_COUNT - i / PORT_COUNT);
  }

  lemma NextAtPlace(i: nat, place: nat) returns (h: nat)
    requires place < PORT_COUNT && place != i % PORT_COUNT
    ensures i < h < i + PORT_COUNT && h % PORT_COUNT == place
  {
    var ahead := place - i % PORT_COUNT;
    h := i + (if ahead > 0 then ahead else ahead + PORT_COUNT);
    assert h == PORT_COUNT * (i / PORT_COUNT + (if ahead > 0 then 0 else 1)) + place;
  }

  /** Between two issues of one port, every other port was issued, or was in use when the cursor passed it. */
  lemma ReissueGoesRound(maxSessions: nat, ops: seq<Op>, i: nat, j: nat, other: Word) returns (h: nat)
    requires Run(maxSessions, ops).Some?
    requires i < j < |Passes(maxSessions, ops)|
    requires Passes(maxSessions, ops)[i].port == Passes(maxSessions, ops)[j].port
    requires 10000 <= other && other != Passes(maxSessions, ops)[i].port
    ensures j - i >= 55536
    ensures i < h < j && Passes(maxSessions, ops)[h].port == other
  {
    CursorWalksTheCycle(maxSessions, ops);
    SamePlaceInCycle(i, j);
    h := NextAtPlace(i, other - FIRST_PORT);
  }

  // ---- a lookup that never returns ----

  /** One 4-tuple for each source port. */
  function Key(port: Word): FlowKey { FlowKey(Ipv4(10, 0, 0, 1), port, Ipv4(1, 1, 1, 1), 53) }

  /** Lookups of n new keys in the unbounded table. */
  lemma {:induction false} ManyLookups(n: nat) returns (ops: seq<Op>)
    requires n <= PORT_COUNT
    ensures Run(0, ops).Some?
    ensures var t := Run(0, ops).value; |t.reverse| == n && forall i: Word :: n <= i ==> Key(i) !in t.forward
    decreases n
  {
    if n == 0 {
      ops := [];
    } else {
      var before := ManyLookups(n - 1);
      var t, key := Run(0, before).value, Key(n - 1);
      EveryRunIsValid(0, before);
      LookupHangsIff(t, key);
      SessionsAfterLookup(t, key);
      EvictsOnlyWhenFull(t, key);
      ops := before + [LookupOp(key)];
      assert Front(ops) == before;
    }
  }

  /** After 55536 lookups of new keys in the unbounded table one more never returns. */
  lemma HangIsReached() returns (ops: seq<Op>, key: FlowKey)
    ensures Run(0, ops).Some? && Run(0, ops + [LookupOp(key)]) == None
  {
    ops := ManyLookups(PORT_COUNT);
    key := Key(PORT_COUNT);
    EveryRunIsValid(0, ops);
    LookupHangsIff(Run(0, ops).value, key);
    assert Front(ops + [LookupOp(key)]) == ops;
  }
}
