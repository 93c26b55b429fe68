/**
 The packet handlers of src/inbound/tun_inbound.cpp in place: the packet buffer, the two NAT
 tables, the flow table, and the flows with their locked fields.
 */
module TunInbound {
  import opened Bytes
  import opened InternetChecksum
  import opened NatTable
  import opened TunPacket
  import opened TunUdpPacket
  import opened UdpFlowModel
  import opened FlowTable
  import TunNat

  class TunUdpFlow {
    const natPort: Word
    const session: FlowKey
    var pending: seq<Payload>
    var connecting: bool
    var connected: bool
    var sending: bool

    ghost function Fields(): Flow
      reads this
    {
      Flow(pending, connecting, connected, sending)
    }

    constructor (natPort: Word, session: FlowKey)
      ensures this.natPort == natPort && this.session == session && Fields() == IDLE
    {
      this.natPort, this.session := natPort, session;
      pending, connecting, connected, sending := [], false, false, false;
    }

    /** Returns what the caller spawns once it has released the mutex. */
    method Enqueue(payload: Payload) returns (spawn: Spawn)
      modifies this
      ensures (Fields(), spawn) == EnqueueBlock(old(Fields()), payload)
    {
      var shouldStart, shouldSend := false, false;
      pending := pending + [payload];
      if !connecting && !connected {
        connecting := true;
        shouldStart := true;
      } else if connected && !sending {
        sending := true;
        shouldSend := true;
      }
      return if shouldStart then SpawnStart else if shouldSend then SpawnSend else SpawnNothing;
    }

    /** The locked block of `start`. */
    method Connected() returns (shouldSend: bool)
      modifies this
      ensures (Fields(), shouldSend) == ConnectedBlock(old(Fields()))
    {
      shouldSend := false;
      connected := true;
      connecting := false;
      if !sending {
        sending := true;
        shouldSend := true;
      }
    }

    /** The locked block of `send_loop`; None means the loop returns. */
    method Take() returns (payload: Option<Payload>)
      modifies this
      ensures (Fields(), payload) == TakeBlock(old(Fields()))
    {
      if pending == [] {
        sending := false;
        return None;
      }
      payload := Some(pending[0]);
      pending := pending[1..];
    }
  }

  function SessionsOf(flows: map<Word, TunUdpFlow>): map<Word, FlowKey> {
    map p | p in flows :: flows[p].session
  }

  lemma SessionsWithout(flows: map<Word, TunUdpFlow>, port: Word)
    ensures SessionsOf(flows - {port}) == SessionsOf(flows) - {port}
    ensures port !in flows ==> flows - {port} == flows
  {
  }

  lemma ErasedIs(n: Nat, flows: map<Word, TunUdpFlow>, port: Word, without: map<Word, TunUdpFlow>)
    requires without == flows - {port}
    ensures Table(NatTable.Erase(n, port), SessionsOf(without)) == EraseFlow(Table(n, SessionsOf(flows)), port)
    ensures port !in flows ==> without == flows
  {
    SessionsWithout(flows, port);
  }

  lemma SessionsWith(flows: map<Word, TunUdpFlow>, port: Word, flow: TunUdpFlow)
    ensures SessionsOf(flows[port := flow]) == SessionsOf(flows)[port := flow.session]
  {
  }

  /** What the NAT lookup and the erasure of the evicted flow come to. */
  lemma ClearedIs(t: Table, key: FlowKey, f: Found)
    requires Consistent(t) && Lookup(t.sessions, key) == Some(f)
    ensures EvictedBy(t.sessions, key) == f.evicted
    ensures var looked := Table(f.table, t.flows);
            var cleared := if f.evicted.Some? then EraseFlow(looked, f.evicted.value) else looked;
            FlowTable.LookupAndClear(t, key) == Some((cleared, f.port)) && Consistent(cleared)
  {
    LookupThenClear(t, key);
  }

  function FlowsAfter(flows: map<Word, FlowKey>, port: Word, key: FlowKey): map<Word, FlowKey> {
    if port in flows then flows else flows[port := key]
  }

  /** What finding or creating a flow on the port comes to. */
  lemma HandledIs(t: Table, key: FlowKey, cleared: Table, port: Word)
    requires Consistent(t) && FlowTable.LookupAndClear(t, key) == Some((cleared, port))
    ensures match LookupBack(cleared.sessions, port)
            case None => Handle(t, key) == Some((cleared, None))
            case Some(session) =>
              var u := Table(cleared.sessions, FlowsAfter(cleared.flows, port, key));
              session == key && Handle(t, key) == Some((u, Some(port))) && Consistent(u) && u.flows[port] == key
  {
    HandleDelivers(t, key);
    LookupThenClear(t, key);
  }

  /** `write_be16` into a buffer. */
  method WriteBe16(p: array<Byte>, at: nat, value: Word)
    requires at + 2 <= p.Length
    modifies p
    ensures p[..] == Put16(old(p[..]), at, value)
  {
    p[at] := Hi(value);
    p[at + 1] := Lo(value);
  }

  /** The copy of an address into a buffer. */
  method CopyIp(p: array<Byte>, at: nat, ip: Ipv4)
    requires at + 4 <= p.Length
    modifies p
    ensures p[..] == PutIp(old(p[..]), at, ip)
  {
    p[at], p[at + 1], p[at + 2], p[at + 3] := ip.b0, ip.b1, ip.b2, ip.b3;
  }

  /** The port evicted to make room for a key, if one is. */
  ghost function EvictedBy(n: Nat, key: FlowKey): Option<Word> {
    match Lookup(n, key)
    case None => None
    case Some(f) => f.evicted
  }

  ghost function FlowsWithout(flows: map<Word, TunUdpFlow>, port: Option<Word>): map<Word, TunUdpFlow> {
    if port.Some? then flows - {port.value} else flows
  }

  ghost function FlowsWith(flows: map<Word, TunUdpFlow>, flow: Option<TunUdpFlow>): map<Word, TunUdpFlow> {
    if flow.Some? then flows[flow.value.natPort := flow.value] else flows
  }

  ghost function FlowAt(flows: map<Word, TunUdpFlow>, port: Option<Word>): seq<TunUdpFlow> {
    if port.Some? && port.value in flows then [flows[port.value]] else []
  }

  /**
   What a handler did: its false and true, the read past the packet's end that ReadsPastEndIff
   describes, and the lookup that never returns that LookupHangsIff describes.
   */
  datatype Verdict = Drop | Forward | Overrun | Hang

  class TunInbound {
    const config: Config
    const tcpNat: TunNat.TunNat
    const udpNat: TunNat.TunNat
    var flows: map<Word, TunUdpFlow>
    // packets handed to the adapter, and flows whose close has been posted
    var written: seq<seq<Byte>>
    var closing: seq<TunUdpFlow>
    var stopping: bool

    ghost function UdpTable(): Table
      reads this`flows, udpNat
    {
      Table(udpNat.State(), SessionsOf(flows))
    }

    ghost predicate Valid()
      reads this, tcpNat, udpNat
    {
      && tcpNat != udpNat
      && NatTable.Valid(tcpNat.State()) && tcpNat.maxSessions == 0
      && Consistent(UdpTable())
      && forall p :: p in flows ==> flows[p].natPort == p
    }

    constructor (config: Config)
      ensures Valid() && fresh(tcpNat) && fresh(udpNat)
      ensures this.config == config && UdpTable() == EMPTY && tcpNat.State() == Empty(0)
      ensures written == [] && closing == [] && !stopping
    {
      this.config := config;
      tcpNat := new TunNat.TunNat(0);
      udpNat := new TunNat.TunNat(MAX_FLOWS);
      flows, written, closing, stopping := map[], [], [], false;
    }

    // ---- TCP ----

    method Readdress(packet: array<Byte>, off: nat, to: FlowKey)
      requires packet.Length >= 20 && off + 4 <= packet.Length
      modifies packet
      ensures packet[..] == Readdressed(old(packet[..]), off, to)
    {
      CopyIp(packet, 12, to.srcIp);
      CopyIp(packet, 16, to.dstIp);
      WriteBe16(packet, off, to.srcPort);
      WriteBe16(packet, off + 2, to.dstPort);
    }

    /** What both directions end with. */
    method RewriteInPlace(packet: array<Byte>, off: nat, len: Word, to: FlowKey) returns (verdict: Verdict)
      requires packet.Length >= 20 && len >= 20 && off + len <= packet.Length
      modifies packet
      ensures verdict == match RewriteTcp(old(packet[..]), off, len, to) case None => Overrun case Some(_) => Forward
      ensures verdict == Forward ==> Some(packet[..]) == RewriteTcp(old(packet[..]), off, len, to)
      ensures verdict == Overrun ==> packet[..] == Spoiled(old(packet[..]), off, to)
    {
      Readdress(packet, off, to);
      if packet[0] % 16 * 4 > packet.Length {
        // the recalculation clears its field, and then reads on
        WriteBe16(packet, 10, 0);
        return Overrun;
      }
      RecalcIpv4Checksum(packet);
      RecalcTcpChecksum(packet, off, len);
      return Forward;
    }

    /** The verdict and packet that go with a step of the TCP table. */
    twostate predicate Rewrites(packet: array<Byte>, step: Option<(Nat, Outcome)>, verdict: Verdict)
      reads packet
    {
      match step
      case None => verdict == Hang && packet[..] == old(packet[..])
      case Some((_, Dropped)) => verdict == Drop && packet[..] == old(packet[..])
      case Some((_, Written(q))) => verdict == Forward && packet[..] == q
      case Some((_, PastEnd(q))) => verdict == Overrun && packet[..] == q
    }

    /** The table is unbounded, so a lookup in it may never return. */
    method HandleTcpPacket(packet: array<Byte>) returns (verdict: Verdict)
      requires Valid()
      modifies packet, tcpNat
      ensures Valid()
      ensures var step := TcpStep(old(tcpNat.State()), config, old(packet[..]));
              Rewrites(packet, step, verdict) && (step.Some? ==> tcpNat.State() == step.value.0)
    {
      if packet.Length < 20 || packet[0] / 16 != 4 || packet[9] != TCP {
        return Drop;
      }
      var off := packet[0] % 16 * 4;
      if packet.Length < off + 20 {
        return Drop;
      }
      var totalLen := Read16(packet[..], 2);
      if totalLen > packet.Length || totalLen < off + 20 {
        return Drop;
      }
      var len := totalLen - off;
      var s := Segment(off, len, ReadIp(packet[..], 12), Read16(packet[..], off), ReadIp(packet[..], 16), Read16(packet[..], off + 2));
      assert ParseTcp(packet[..]) == Some(s);
      if s.srcIp == config.tunIp && s.srcPort == config.listenPort {
        var session := tcpNat.LookupBack(s.dstPort);
        if session.None? {
          return Drop;
        }
        verdict := RewriteInPlace(packet, off, len, Reversed(session.value));
      } else {
        var found := tcpNat.LookupOrCreate(KeyOf(s));
        if found.None? {
          return Hang;
        }
        verdict := RewriteInPlace(packet, off, len, StackTarget(config, found.value.0));
      }
    }

    // ---- UDP ----

    /** The tests of `handle_udp_packet` and what it reads from a packet that passes them. */
    method ReadUdp(packet: array<Byte>) returns (datagram: Option<Datagram>)
      ensures datagram == ParseUdp(packet[..])
    {
      if packet.Length < 20 || packet[0] / 16 != 4 || packet[9] != UDP {
        return None;
      }
      var off := packet[0] % 16 * 4;
      if packet.Length < off + 8 {
        return None;
      }
      var totalLen := Read16(packet[..], 2);
      if totalLen > packet.Length || totalLen < off + 8 {
        return None;
      }
      if Read16(packet[..], 6) % 0x4000 != 0 {
        return None;
      }
      var udpLen := Read16(packet[..], off + 4);
      if udpLen < 8 || off + udpLen > totalLen {
        return None;
      }
      assert packet[..][off + 8..off + udpLen] == packet[off + 8..off + udpLen];
      return Some(Datagram(FlowKey(ReadIp(packet[..], 12), Read16(packet[..], off), ReadIp(packet[..], 16), Read16(packet[..], off + 2)),
                           packet[off + 8..off + udpLen]));
    }

    /** The table of 1024 sessions always has room. */
    method LookupUdp(key: FlowKey) returns (natPort: Word, evicted: Option<Word>)
      requires Valid()
      modifies udpNat
      ensures Lookup(old(udpNat.State()), key) == Some(Found(udpNat.State(), natPort, evicted))
      ensures NatTable.Valid(udpNat.State())
    {
      LookupHangsIff(udpNat.State(), key);
      var found := udpNat.LookupOrCreate(key);
      return found.value.0, found.value.1;
    }

    /** The NAT port for a 4-tuple; a session evicted to make room loses its flow. */
    method LookupAndClear(key: FlowKey) returns (natPort: Word)
      requires Valid()
      modifies this`flows, this`closing, udpNat
      ensures Valid()
      ensures FlowTable.LookupAndClear(old(UdpTable()), key) == Some((UdpTable(), natPort))
      ensures flows == FlowsWithout(old(flows), EvictedBy(old(udpNat.State()), key))
      ensures closing == old(closing) + FlowAt(old(flows), EvictedBy(old(udpNat.State()), key))
    {
      ghost var before := UdpTable();
      var evicted;
      natPort, evicted := LookupUdp(key);
      ClearedIs(before, key, Found(udpNat.State(), natPort, evicted));
      assert UdpTable() == Table(udpNat.State(), before.flows);
      if evicted.Some? {
        EraseUdpFlow(evicted.value);
      }
    }

    /** The flow on a port, created if there is none. */
    method FlowOn(natPort: Word, session: FlowKey) returns (flow: TunUdpFlow)
      requires natPort in flows ==> flows[natPort].natPort == natPort
      modifies this`flows
      ensures flows == old(flows)[natPort := flow] && flow.natPort == natPort
      ensures SessionsOf(flows) == FlowsAfter(SessionsOf(old(flows)), natPort, session)
      ensures if natPort in old(flows) then flow == old(flows)[natPort] && flow in old(flows.Values)
              else fresh(flow) && flow.session == session && flow.Fields() == IDLE
    {
      if natPort in flows {
        return flows[natPort];
      }
      flow := new TunUdpFlow(natPort, session);
      SessionsWith(flows, natPort, flow);
      flows := flows[natPort := flow];
    }

    /** The flow of a port's session, created if it has none; None if the session is gone. */
    method FlowOfSession(natPort: Word) returns (flow: Option<TunUdpFlow>)
      requires Valid()
      modifies this`flows
      ensures Valid()
      ensures match LookupBack(udpNat.State(), natPort)
              case None => flow == None && flows == old(flows)
              case Some(session) =>
                && flow.Some? && flow.value.natPort == natPort && flow.value.session == session
                && flows == old(flows)[natPort := flow.value]
                && SessionsOf(flows) == FlowsAfter(SessionsOf(old(flows)), natPort, session)
      ensures flow.Some? ==> flow.value in old(flows.Values) || (fresh(flow.value) && flow.value.Fields() == IDLE)
    {
      var session := udpNat.LookupBack(natPort);
      if session.None? {
        return None;
      }
      var found := FlowOn(natPort, session.value);
      return Some(found);
    }

    /** The flow for a 4-tuple, created if its port has none; None when the packet is to be dropped. */
    method FlowFor(key: FlowKey) returns (flow: Option<TunUdpFlow>)
      requires Valid()
      modifies this`flows, this`closing, udpNat
      ensures Valid()
      ensures Handle(old(UdpTable()), key) == Some((UdpTable(), if flow.None? then None else Some(flow.value.natPort)))
      ensures flow.Some? ==> flow.value.session == key
      ensures flows == FlowsWith(FlowsWithout(old(flows), EvictedBy(old(udpNat.State()), key)), flow)
      ensures closing == old(closing) + FlowAt(old(flows), EvictedBy(old(udpNat.State()), key))
      ensures flow.Some? ==> flow.value in old(flows.Values) || (fresh(flow.value) && flow.value.Fields() == IDLE)
    {
      ghost var before := UdpTable();
      var natPort := LookupAndClear(key);
      HandledIs(before, key, UdpTable(), natPort);
      assert flows.Values <= old(flows.Values);
      flow := FlowOfSession(natPort);
    }

    /**
     What a datagram does: both tables, the flows closed, and the payload enqueued on the flow of its own
     4-tuple.  `flow` got it; `spawn` is what its enqueue told the handler to spawn.
     */
    twostate predicate Delivered(d: Datagram, new flow: Option<TunUdpFlow>, spawn: Spawn)
      reads this`flows, this`closing, udpNat, if flow.Some? then {flow.value} else {}
    {
      var evicted := EvictedBy(old(udpNat.State()), d.key);
      && Handle(old(UdpTable()), d.key) == Some((UdpTable(), if flow.None? then None else Some(flow.value.natPort)))
      && flows == FlowsWith(FlowsWithout(old(flows), evicted), flow)
      && closing == old(closing) + FlowAt(old(flows), evicted)
      && (match flow
          case None => spawn == SpawnNothing
          case Some(f) =>
            && f.session == d.key
            && (if f in old(flows.Values) then (f.Fields(), spawn) == EnqueueBlock(old(f.Fields()), d.payload)
                else fresh(f) && (f.Fields(), spawn) == EnqueueBlock(IDLE, d.payload)))
    }

    /** A packet that is not a valid datagram changes nothing. */
    twostate predicate DeliveredIfValid(datagram: Option<Datagram>, new flow: Option<TunUdpFlow>, spawn: Spawn)
      reads this`flows, this`closing, udpNat, if flow.Some? then {flow.value} else {}
    {
      match datagram
      case Some(d) => Delivered(d, flow, spawn)
      case None =>
        && flow.None? && spawn == SpawnNothing
        && udpNat.State() == old(udpNat.State()) && flows == old(flows) && closing == old(closing)
    }

    /** A flow is handed a payload; the tables stay as they are. */
    method Hand(flow: TunUdpFlow, payload: Payload) returns (spawn: Spawn)
      requires Valid()
      modifies flow
      ensures Valid() && UdpTable() == old(UdpTable())
      ensures (flow.Fields(), spawn) == EnqueueBlock(old(flow.Fields()), payload)
    {
      spawn := flow.Enqueue(payload);
    }

    method Deliver(d: Datagram) returns (flow: Option<TunUdpFlow>, spawn: Spawn)
      requires Valid()
      modifies this`flows, this`closing, udpNat, flows.Values
      ensures Valid() && Delivered(d, flow, spawn)
      ensures forall g :: g in old(flows.Values) && flow != Some(g) ==> g.Fields() == old(g.Fields())
    {
      spawn := SpawnNothing;
      flow := FlowFor(d.key);
      if flow.Some? {
        ghost var was := flow.value.Fields();
        assert was == if flow.value in old(flows.Values) then old(flow.value.Fields()) else IDLE;
        spawn := Hand(flow.value, d.payload);
      }
    }

    method HandleUdpPacket(packet: array<Byte>) returns (flow: Option<TunUdpFlow>, spawn: Spawn)
      requires Valid()
      modifies this`flows, this`closing, udpNat, flows.Values
      ensures Valid() && DeliveredIfValid(ParseUdp(packet[..]), flow, spawn)
      ensures forall g :: g in old(flows.Values) && flow != Some(g) ==> g.Fields() == old(g.Fields())
    {
      flow, spawn := None, SpawnNothing;
      var datagram := ReadUdp(packet);
      if datagram.Some? {
        flow, spawn := Deliver(datagram.value);
      }
    }

    method EraseUdpFlow(natPort: Word)
      requires NatTable.Valid(udpNat.State())
      modifies this`flows, this`closing, udpNat
      ensures NatTable.Valid(udpNat.State())
      ensures UdpTable() == EraseFlow(old(UdpTable()), natPort)
      ensures flows == old(flows) - {natPort}
      ensures closing == old(closing) + (if natPort in old(flows) then [old(flows)[natPort]] else [])
    {
      ErasedIs(udpNat.State(), flows, natPort, flows - {natPort});
      if natPort !in flows {
        udpNat.Erase(natPort);
        return;
      }
      var flow := flows[natPort];
      flows := flows - {natPort};
      udpNat.Erase(natPort);
      closing := closing + [flow];
    }

    /** The adapter is handed a packet. */
    method Write(packet: seq<Byte>)
      modifies this`written
      ensures written == old(written) + [packet]
      ensures UdpTable() == old(UdpTable()) && (old(Valid()) ==> Valid())
    {
      written := written + [packet];
    }

    method FillHeaders(packet: array<Byte>, session: FlowKey, size: nat)
      requires size <= MAX_UDP_PAYLOAD && packet.Length == 28 + size && packet[..] == seq(28 + size, _ => 0)
      modifies packet
      ensures packet[..] == UdpHeaders(session, size)
    {
      packet[0] := 0x45;
      packet[8] := 64;
      packet[9] := UDP;
      assert packet[..] == seq(28 + size, _ => 0)[0 := 0x45][8 := 64][9 := UDP];
      WriteBe16(packet, 2, 28 + size);
      WriteBe16(packet, 6, 0x4000);
      CopyIp(packet, 12, session.dstIp);
      CopyIp(packet, 16, session.srcIp);
      WriteBe16(packet, 20, session.dstPort);
      WriteBe16(packet, 22, session.srcPort);
      WriteBe16(packet, 24, 8 + size);
    }

    /** A response longer than 65535 bytes is not written; otherwise UdpRoundTrip says how it reads. */
    method WriteUdpResponse(session: FlowKey, data: seq<Byte>)
      modifies this`written
      ensures written == old(written) + (match BuildUdp(session, data) case None => [] case Some(p) => [p])
    {
      var udpLen := 8 + |data|;
      var totalLen := 20 + udpLen;
      if totalLen > 65535 {
        return;
      }
      var packet := new Byte[totalLen](_ => 0);
      assert packet[..] == seq(28 + |data|, _ => 0);
      FillHeaders(packet, session, |data|);
      ghost var headers := packet[..];
      forall i | 0 <= i < |data| {
        packet[28 + i] := data[i];
      }
      assert packet[..] == headers[..28] + data;
      RecalcIpv4Checksum(packet);
      RecalcUdpChecksum(packet, 20, udpLen);
      Write(packet[..]);
    }

    /** The flow-table part of `stop`: every flow leaves the table and is closed once, in some order. */
    method Stop()
      requires Valid()
      modifies this`flows, this`closing, this`stopping
      ensures Valid() && stopping
      ensures old(stopping) ==> flows == old(flows) && closing == old(closing)
      ensures !old(stopping) ==> UdpTable() == FlowTable.Stop(old(UdpTable())) && flows == map[]
      ensures !old(stopping) ==> multiset(closing) == old(multiset(closing)) + multiset(old(flows.Values))
    {
      if stopping {
        return;
      }
      stopping := true;
      var open := flows.Values;
      flows := map[];
      assert SessionsOf(flows) == map[];
      PostCloses(open);
    }

    method PostCloses(open: set<TunUdpFlow>)
      modifies this`closing
      ensures multiset(closing) == old(multiset(closing)) + multiset(open)
    {
      var left := open;
      while left != {}
        invariant left <= open
        invariant multiset(closing) == old(multiset(closing)) + multiset(open - left)
        decreases |left|
      {
        var flow :| flow in left;
        assert open - (left - {flow}) == (open - left) + {flow};
        left := left - {flow};
        closing := closing + [flow];
      }
      assert open - left == open;
    }

    /** The dispatch of `handle_ipv4_packet`. */
    method HandleIpv4Packet(packet: array<Byte>) returns (verdict: Verdict, flow: Option<TunUdpFlow>, spawn: Spawn)
      requires Valid()
      modifies packet, tcpNat, udpNat, this`flows, this`closing, flows.Values
      ensures Valid()
      ensures var step := TcpStep(old(tcpNat.State()), config, old(packet[..]));
              Rewrites(packet, step, verdict) && (step.Some? ==> tcpNat.State() == step.value.0)
      ensures DeliveredIfValid(ParseUdp(old(packet[..])), flow, spawn)
      ensures forall g :: g in old(flows.Values) && flow != Some(g) ==> g.Fields() == old(g.Fields())
    {
      verdict, flow, spawn := Drop, None, SpawnNothing;
      if packet.Length < 20 || packet[0] / 16 != 4 {
        return;
      }
      if packet[9] == TCP {
        verdict := HandleTcpPacket(packet);
      } else if packet[9] == UDP {
        flow, spawn := HandleUdpPacket(packet);
      }
    }

    /** A turn of `packet_loop`: a packet that is forwarded is written back. */
    method TakePacket(packet: array<Byte>) returns (verdict: Verdict, flow: Option<TunUdpFlow>, spawn: Spawn)
      requires Valid()
      modifies packet, tcpNat, udpNat, this`flows, this`closing, this`written, flows.Values
      ensures Valid()
      ensures Rewrites(packet, TcpStep(old(tcpNat.State()), config, old(packet[..])), verdict)
      ensures DeliveredIfValid(ParseUdp(old(packet[..])), flow, spawn)
      ensures written == old(written) + (match TcpStep(old(tcpNat.State()), config, old(packet[..]))
                                         case Some((_, Written(q))) => [q]
                                         case _ => [])
    {
      verdict, flow, spawn := HandleIpv4Packet(packet);
      if verdict == Forward {
        Write(packet[..]);
      }
    }
  }
}
