/**
 The NAT table of src/inbound/tun_nat.cpp as a value, and what each operation
 does to it.  The class in TunNat.dfy implements these functions in place.
 */
module NatTable {
  import opened Bytes

  const FIRST_PORT: Word := 10000
  const PORT_COUNT: nat := 55536
  // the most iterations the allocator can need: every port once, and the wrap past 65535
  const ALLOC_LIMIT: nat := PORT_COUNT + 1

  datatype FlowKey = FlowKey(srcIp: Ipv4, srcPort: Word, dstIp: Ipv4, dstPort: Word)

  function Reversed(k: FlowKey): FlowKey { FlowKey(k.dstIp, k.dstPort, k.srcIp, k.srcPort) }

  datatype Nat = Nat(maxSessions: nat, nextPort: Word,
                     forward: map<FlowKey, Word>, reverse: map<Word, FlowKey>, lru: seq<Word>)

  datatype Found = Found(table: Nat, port: Word, evicted: Option<Word>)

  function Empty(maxSessions: nat): Nat {
    Nat(maxSessions, FIRST_PORT, map[], map[], [])
  }

  /** The sequence with its first occurrence of p erased, if there is one. */
  function Without(s: seq<Word>, p: Word): seq<Word> {
    if s == [] then [] else if s[0] == p then s[1..] else [s[0]] + Without(s[1..], p)
  }

  function Touch(n: Nat, p: Word): Nat {
    n.(lru := Without(n.lru, p) + [p])
  }

  function Drop(n: Nat, p: Word): Nat
    requires p in n.reverse
  {
    n.(forward := n.forward - {n.reverse[p]}, reverse := n.reverse - {p})
  }

  /** Pops stale entries until one is live, and removes that session. */
  function EvictOne(n: Nat): (Nat, Option<Word>)
    decreases |n.lru|
  {
    if n.lru == [] then (n, None)
    else
      var m := n.(lru := n.lru[1..]);
      if n.lru[0] !in n.reverse then EvictOne(m) else (Drop(m, n.lru[0]), Some(n.lru[0]))
  }

  function After(p: Word): Word { (p + 1) % 0x1_0000 }

  /**
   The allocator's loop cut off after `fuel` iterations: the free port it returns and
   the cursor it leaves, or None if it is still running.
   */
  function AllocLoop(reverse: map<Word, FlowKey>, next: Word, fuel: nat): Option<(Word, Word)>
    decreases fuel, reverse
  {
    if fuel == 0 then None
    else if next == 0 then AllocLoop(reverse, FIRST_PORT, fuel - 1)
    else if next in reverse then AllocLoop(reverse, After(next), fuel - 1)
    else Some((next, After(next)))
  }

  /** Evicts one session if the table is bounded and full. */
  function MakeRoom(n: Nat): (Nat, Option<Word>) {
    if n.maxSessions != 0 && |n.reverse| >= n.maxSessions then EvictOne(n) else (n, None)
  }

  function Insert(m: Nat, key: FlowKey, port: Word, next: Word): Nat {
    Touch(m.(nextPort := next, forward := m.forward[key := port], reverse := m.reverse[port := key]), port)
  }

  /** None when the allocator's loop never ends; LookupHangsIff says when that is. */
  function Lookup(n: Nat, key: FlowKey): Option<Found> {
    if key in n.forward then Some(Found(Touch(n, n.forward[key]), n.forward[key], None))
    else
      var (m, evicted) := MakeRoom(n);
      match AllocLoop(m.reverse, m.nextPort, ALLOC_LIMIT)
      case None => None
      case Some((port, next)) => Some(Found(Insert(m, key, port, next), port, evicted))
  }

  function Erase(n: Nat, p: Word): Nat {
    if p !in n.reverse then n else Drop(n, p).(lru := Without(n.lru, p))
  }

  function LookupBack(n: Nat, p: Word): Option<FlowKey> {
    if p in n.reverse then Some(n.reverse[p]) else None
  }

  // ---- the representation invariant ----

  ghost predicate Inverse(forward: map<FlowKey, Word>, reverse: map<Word, FlowKey>) {
    && (forall k :: k in forward ==> forward[k] in reverse && reverse[forward[k]] == k)
    && (forall p :: p in reverse ==> reverse[p] in forward && forward[reverse[p]] == p)
  }

  /** The list holds exactly the live ports, once each. */
  ghost predicate Lists(s: seq<Word>, live: set<Word>) {
    multiset(s) == multiset(live)
  }

  ghost predicate InRange(n: Nat) {
    && (forall p :: p in n.reverse ==> FIRST_PORT <= p)
    && (n.nextPort == 0 || FIRST_PORT <= n.nextPort)
    && (n.maxSessions != 0 ==> |n.reverse| <= n.maxSessions)
  }

  /** The two maps are inverses, the LRU list names exactly the live ports, once each, and the bounds hold. */
  ghost predicate Valid(n: Nat) {
    Inverse(n.forward, n.reverse) && Lists(n.lru, n.reverse.Keys) && InRange(n)
  }

  lemma {:induction false} WithoutRemovesOne(s: seq<Word>, p: Word)
    ensures multiset(Without(s, p)) == multiset(s) - multiset{p}
  {
    if s != [] {
      assert s == [s[0]] + s[1..];
      if s[0] != p {
        WithoutRemovesOne(s[1..], p);
      }
    }
  }

  lemma {:induction false} ListsWithout(s: seq<Word>, live: set<Word>, p: Word)
    requires Lists(s, live)
    ensures Lists(Without(s, p), live - {p})
  {
    WithoutRemovesOne(s, p);
  }

  lemma ListsTail(s: seq<Word>, live: set<Word>)
    requires Lists(s, live) && s != []
    ensures s[0] in live && Lists(s[1..], live - {s[0]})
  {
    assert s == [s[0]] + s[1..];
    assert s[0] in multiset(s);
    assert multiset(live - {s[0]}) == multiset(live) - multiset{s[0]};
    assert multiset(s[1..]) == multiset(s) - multiset{s[0]};
  }

  lemma ListsMore(s: seq<Word>, live: set<Word>, p: Word)
    requires Lists(s, live) && p !in live
    ensures p !in s && Lists(s + [p], live + {p})
  {
    assert p !in multiset(s);
  }

  lemma ListsMembers(s: seq<Word>, live: set<Word>)
    requires Lists(s, live)
    ensures forall p :: p in s <==> p in live
  {
    forall p ensures p in s <==> p in live {
      assert p in s <==> p in multiset(s);
    }
  }

  /** What the multiset equality says: no port twice, and membership in the list is being live. */
  lemma EachLivePortOnce(s: seq<Word>, live: set<Word>)
    requires Lists(s, live)
    ensures forall i, j :: 0 <= i < j < |s| ==> s[i] != s[j]
    ensures forall p :: p in s <==> p in live
  {
    ListsMembers(s, live);
    forall i, j | 0 <= i < j < |s| ensures s[i] != s[j] {
      assert s == s[..i] + [s[i]] + s[i + 1..j] + [s[j]] + s[j + 1..];
      assert multiset(s)[s[i]] <= 1;
    }
  }

  /** In a valid table the head of the LRU list is live: the stale-entry branch of the eviction loop is dead. */
  lemma {:induction false} EvictsTheHead(n: Nat)
    requires Valid(n) && |n.reverse| > 0
    ensures n.lru != [] && n.lru[0] in n.reverse
    ensures EvictOne(n) == (Drop(n.(lru := n.lru[1..]), n.lru[0]), Some(n.lru[0]))
  {
    assert |n.lru| == |multiset(n.lru)| == |multiset(n.reverse.Keys)| == |n.reverse.Keys| == |n.reverse|;
    ListsTail(n.lru, n.reverse.Keys);
  }

  lemma DropKeepsInverse(n: Nat, p: Word)
    requires Inverse(n.forward, n.reverse) && p in n.reverse
    ensures Inverse(Drop(n, p).forward, Drop(n, p).reverse)
    ensures Drop(n, p).reverse.Keys == n.reverse.Keys - {p}
    ensures |Drop(n, p).reverse| == |n.reverse| - 1
  {
    var d := Drop(n, p);
    assert d.reverse.Keys == n.reverse.Keys - {p};
  }

  lemma {:induction false} EvictKeepsValid(n: Nat)
    requires Valid(n) && |n.reverse| > 0
    ensures Valid(EvictOne(n).0)
    ensures |EvictOne(n).0.reverse| == |n.reverse| - 1
  {
    EvictsTheHead(n);
    DropKeepsInverse(n, n.lru[0]);
    ListsTail(n.lru, n.reverse.Keys);
  }

  lemma EraseKeepsValid(n: Nat, p: Word)
    requires Valid(n)
    ensures Valid(Erase(n, p))
    ensures Erase(n, p).reverse == n.reverse - {p}
  {
    if p in n.reverse {
      ListsWithout(n.lru, n.reverse.Keys, p);
      DropKeepsInverse(n, p);
    } else {
      assert n.reverse - {p} == n.reverse;
    }
  }

  // ---- the port allocator ----

  /** The cursor's place in the cycle of the 55536 ports; a wrapped cursor stands before the first of them. */
  function Position(next: Word): nat
    requires next == 0 || FIRST_PORT <= next
    ensures Position(next) < PORT_COUNT
  {
    if next == 0 then 0 else next - FIRST_PORT
  }

  /** The k-th port in cyclic order from the cursor. */
  function Candidate(next: Word, k: nat): Word
    requires next == 0 || FIRST_PORT <= next
  {
    FIRST_PORT + (Position(next) + k) % PORT_COUNT
  }

  ghost predicate FirstFree(reverse: map<Word, FlowKey>, next: Word, k: nat)
    requires next == 0 || FIRST_PORT <= next
  {
    Candidate(next, k) !in reverse && forall j: nat :: j < k ==> Candidate(next, j) in reverse
  }

  lemma CandidateStep(next: Word, k: nat)
    requires FIRST_PORT <= next
    ensures Candidate(After(next), k) == Candidate(next, k + 1)
  {
    if next == 0xFFFF {
      assert Position(next) + k + 1 == k + PORT_COUNT;
      assert (k + PORT_COUNT) % PORT_COUNT == k % PORT_COUNT;
    }
  }

  /** The iterations that reaching the k-th candidate takes: one each, and one more where the cursor wraps. */
  function Iterations(next: Word, k: nat): nat
    requires next == 0 || FIRST_PORT <= next
  {
    k + 1 + (if next == 0 || Position(next) + k >= PORT_COUNT then 1 else 0)
  }

  lemma {:induction false} AllocFindsFirstFree(reverse: map<Word, FlowKey>, next: Word, k: nat, fuel: nat)
    requires next == 0 || FIRST_PORT <= next
    requires k < PORT_COUNT && FirstFree(reverse, next, k) && Iterations(next, k) <= fuel
    ensures AllocLoop(reverse, next, fuel) == Some((Candidate(next, k), After(Candidate(next, k))))
    decreases fuel
  {
    if next == 0 {
      assert forall j: nat :: Candidate(FIRST_PORT, j) == Candidate(next, j);
      AllocFindsFirstFree(reverse, FIRST_PORT, k, fuel - 1);
    } else if k > 0 {
      assert Candidate(next, 0) == next;
      CandidateStep(next, k - 1);
      forall j: nat | j < k - 1 ensures Candidate(After(next), j) in reverse {
        CandidateStep(next, j);
        assert Candidate(next, j + 1) in reverse;
      }
      AllocFindsFirstFree(reverse, After(next), k - 1, fuel - 1);
    } else {
      assert Candidate(next, 0) == next;
    }
  }

  lemma {:induction false} AllocRunsForever(reverse: map<Word, FlowKey>, next: Word, fuel: nat)
    requires next == 0 || FIRST_PORT <= next
    requires forall p: Word :: FIRST_PORT <= p ==> p in reverse
    ensures AllocLoop(reverse, next, fuel) == None
    decreases fuel
  {
    if fuel > 0 {
      AllocRunsForever(reverse, if next == 0 then FIRST_PORT else After(next), fuel - 1);
    }
  }

  ghost function PortRange(n: nat): (ports: set<Word>)
    requires n <= PORT_COUNT
    ensures |ports| == n
    ensures forall p: Word :: p in ports <==> FIRST_PORT <= p < FIRST_PORT + n
  {
    if n == 0 then {} else PortRange(n - 1) + {FIRST_PORT + n - 1}
  }

  /** Pigeonhole: live ports fill the whole range exactly when there are 55536 of them. */
  lemma AllLiveIff(live: set<Word>)
    requires forall p :: p in live ==> 10000 <= p
    ensures |live| <= 55536
    ensures |live| == 55536 <==> forall p: Word :: 10000 <= p ==> p in live
  {
    var ports := PortRange(PORT_COUNT);
    SubsetCount(live, ports);
    if forall p: Word :: FIRST_PORT <= p ==> p in live {
      assert live == ports;
    }
    if |live| == PORT_COUNT {
      assert live == ports;
      assert forall p: Word :: FIRST_PORT <= p ==> p in ports;
    }
  }

  lemma SubsetCount(small: set<Word>, large: set<Word>)
    requires small <= large
    ensures |small| <= |large|
    ensures |small| == |large| ==> small == large
  {
    assert |large| == |small| + |large - small| by {
      assert large == small + (large - small);
    }
    if |small| == |large| {
      assert large - small == {};
    }
  }

  lemma SomeCandidateIsFree(reverse: map<Word, FlowKey>, next: Word) returns (k: nat)
    requires next == 0 || FIRST_PORT <= next
    requires exists p: Word :: FIRST_PORT <= p && p !in reverse
    ensures k < PORT_COUNT && FirstFree(reverse, next, k)
  {
    var p: Word :| FIRST_PORT <= p && p !in reverse;
    var d := p - FIRST_PORT - Position(next);
    var bound := if d >= 0 then d else d + PORT_COUNT;
    assert Candidate(next, bound) == p;
    k := 0;
    while Candidate(next, k) in reverse
      invariant k <= bound
      invariant forall j: nat :: j < k ==> Candidate(next, j) in reverse
      decreases bound - k
    {
      k := k + 1;
    }
  }

  /** With a free port the loop ends within 55537 iterations, on the first free port in cyclic order. */
  lemma AllocReturns(n: Nat) returns (k: nat)
    requires Valid(n) && |n.reverse| < PORT_COUNT
    ensures k < PORT_COUNT && FirstFree(n.reverse, n.nextPort, k)
    ensures AllocLoop(n.reverse, n.nextPort, ALLOC_LIMIT) == Some((Candidate(n.nextPort, k), After(Candidate(n.nextPort, k))))
  {
    AllLiveIff(n.reverse.Keys);
    assert |n.reverse| == |n.reverse.Keys|;
    k := SomeCandidateIsFree(n.reverse, n.nextPort);
    AllocFindsFirstFree(n.reverse, n.nextPort, k, ALLOC_LIMIT);
  }

  /** The allocator's loop ever ends if and only if fewer than 55536 ports are live. */
  lemma AllocEndsIff(n: Nat)
    requires Valid(n)
    ensures |n.reverse| < 55536 <==> exists fuel: nat :: AllocLoop(n.reverse, n.nextPort, fuel).Some?
    ensures |n.reverse| < PORT_COUNT <==> AllocLoop(n.reverse, n.nextPort, ALLOC_LIMIT).Some?
  {
    if |n.reverse| < PORT_COUNT {
      var k := AllocReturns(n);
    } else {
      AllLiveIff(n.reverse.Keys);
      assert |n.reverse| == |n.reverse.Keys|;
      forall fuel: nat ensures AllocLoop(n.reverse, n.nextPort, fuel) == None {
        AllocRunsForever(n.reverse, n.nextPort, fuel);
      }
    }
  }

  // ---- what the lookup keeps and promises ----

  /** A lookup hangs exactly when the key is new, every port is live and no session may be evicted. */
  ghost predicate HasRoom(n: Nat, key: FlowKey) {
    key in n.forward || |n.reverse| < PORT_COUNT || (n.maxSessions != 0 && |n.reverse| >= n.maxSessions)
  }

  lemma RoomIsMade(n: Nat, key: FlowKey)
    requires Valid(n) && key !in n.forward
    ensures var (m, evicted) := MakeRoom(n);
            && Valid(m) && key !in m.forward && m.nextPort == n.nextPort && m.maxSessions == n.maxSessions
            && (m.maxSessions != 0 ==> |m.reverse| < m.maxSessions)
            && (|m.reverse| < PORT_COUNT <==> HasRoom(n, key))
    ensures var (m, evicted) := MakeRoom(n);
            match evicted
            case None => m == n
            case Some(p) => n.lru != [] && p == n.lru[0] && p in n.reverse && m.reverse == n.reverse - {p} && m.lru == n.lru[1..]
  {
    AllLiveIff(n.reverse.Keys);
    assert |n.reverse| == |n.reverse.Keys|;
    if n.maxSessions != 0 && |n.reverse| >= n.maxSessions {
      EvictKeepsValid(n);
      EvictsTheHead(n);
    }
  }

  lemma LookupHangsIff(n: Nat, key: FlowKey)
    requires Valid(n)
    ensures Lookup(n, key).Some? <==> HasRoom(n, key)
    ensures 1 <= n.maxSessions <= 55536 ==> Lookup(n, key).Some?
  {
    if key !in n.forward {
      RoomIsMade(n, key);
      AllocEndsIff(MakeRoom(n).0);
    }
  }

  lemma InsertKeepsValid(m: Nat, key: FlowKey, port: Word, next: Word)
    requires Valid(m) && key !in m.forward && port !in m.reverse
    requires FIRST_PORT <= port && (next == 0 || FIRST_PORT <= next)
    requires m.maxSessions != 0 ==> |m.reverse| < m.maxSessions
    ensures Valid(Insert(m, key, port, next))
    ensures Insert(m, key, port, next).lru == m.lru + [port]
  {
    ListsMore(m.lru, m.reverse.Keys, port);
    WithoutAbsent(m.lru, port);
    assert m.reverse[port := key].Keys == m.reverse.Keys + {port};
    InsertKeepsInverse(m.forward, m.reverse, key, port);
  }

  lemma InsertKeepsInverse(forward: map<FlowKey, Word>, reverse: map<Word, FlowKey>, key: FlowKey, port: Word)
    requires Inverse(forward, reverse) && key !in forward && port !in reverse
    ensures Inverse(forward[key := port], reverse[port := key])
  {
  }

  /** A live key keeps its port and becomes the most recently used; nothing else changes. */
  lemma LookupHit(n: Nat, key: FlowKey)
    requires Valid(n) && key in n.forward
    ensures Valid(Touch(n, n.forward[key]))
  {
    var port := n.forward[key];
    ListsWithout(n.lru, n.reverse.Keys, port);
    ListsMore(Without(n.lru, port), n.reverse.Keys - {port}, port);
    assert n.reverse.Keys - {port} + {port} == n.reverse.Keys;
  }

  /** A new key gets the first free port in cyclic order, after at most one eviction. */
  lemma LookupMiss(n: Nat, key: FlowKey) returns (k: nat)
    requires Valid(n) && key !in n.forward && HasRoom(n, key)
    ensures var (m, evicted) := MakeRoom(n);
            && k < PORT_COUNT && FirstFree(m.reverse, n.nextPort, k)
            && var port := Candidate(n.nextPort, k);
            && Lookup(n, key) == Some(Found(Insert(m, key, port, After(port)), port, evicted))
            && Valid(Insert(m, key, port, After(port)))
            && Insert(m, key, port, After(port)).lru == m.lru + [port]
  {
    RoomIsMade(n, key);
    var m := MakeRoom(n).0;
    k := AllocReturns(m);
    InsertKeepsValid(m, key, Candidate(n.nextPort, k), After(Candidate(n.nextPort, k)));
  }

  lemma LookupKeepsValid(n: Nat, key: FlowKey)
    requires Valid(n) && Lookup(n, key).Some?
    ensures var f := Lookup(n, key).value;
            Valid(f.table) && f.table.maxSessions == n.maxSessions && key in f.table.forward && f.table.forward[key] == f.port
  {
    LookupHangsIff(n, key);
    if key in n.forward {
      LookupHit(n, key);
    } else {
      RoomIsMade(n, key);
      var k := LookupMiss(n, key);
    }
  }

  /** The sessions after a lookup: those before, less the evicted one, and the key at its port. */
  lemma SessionsAfterLookup(n: Nat, key: FlowKey)
    requires Valid(n) && Lookup(n, key).Some?
    ensures var f := Lookup(n, key).value;
            && Valid(f.table) && f.table.maxSessions == n.maxSessions
            && f.table.reverse == (match f.evicted case None => n.reverse case Some(e) => n.reverse - {e})[f.port := key]
            && (f.evicted.Some? ==> f.evicted.value in n.reverse && key !in n.forward)
            && (key in n.forward ==> f.evicted.None? && f.port == n.forward[key])
            && (key !in n.forward ==> f.port in n.reverse ==> f.evicted == Some(f.port))
  {
    LookupHangsIff(n, key);
    LookupKeepsValid(n, key);
    if key !in n.forward {
      RoomIsMade(n, key);
      var k := LookupMiss(n, key);
    } else {
      assert n.reverse[n.forward[key] := key] == n.reverse;
    }
  }

  lemma {:induction false} WithoutAbsent(s: seq<Word>, p: Word)
    requires p !in s
    ensures Without(s, p) == s
  {
    if s != [] {
      WithoutAbsent(s[1..], p);
    }
  }

  lemma {:induction false} WithoutLast(s: seq<Word>, p: Word)
    requires p !in s
    ensures Without(s + [p], p) == s
  {
    if s != [] {
      assert (s + [p])[1..] == s[1..] + [p];
      WithoutLast(s[1..], p);
    }
  }

  lemma EvictsOnlyWhenFull(t: Nat, key: FlowKey)
    requires Valid(t) && Lookup(t, key).Some? && key !in t.forward && (t.maxSessions == 0 || |t.reverse| < t.maxSessions)
    ensures var f := Lookup(t, key).value;
            f.evicted.None? && f.port !in t.reverse && f.table.forward == t.forward[key := f.port] && f.table.reverse == t.reverse[f.port := key]
  {
    LookupHangsIff(t, key);
    var k := LookupMiss(t, key);
  }
}
