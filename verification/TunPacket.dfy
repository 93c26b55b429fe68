/**
 TCP packets of src/inbound/tun_inbound.cpp as byte sequences: the header tests, the rewrite in
 both directions, and the round trip through the table.
 */
module TunPacket {
  import opened Bytes
  import opened InternetChecksum
  import opened NatTable
  import opened NatHistory

  const TCP: Byte := 6
  const UDP: Byte := 17

  /** The addresses of the tunnel and the port its relay listens on. */
  datatype Config = Config(tunIp: Ipv4, tunNextIp: Ipv4, listenPort: Word)

  predicate IsIpv4(p: seq<Byte>) { |p| >= 20 && p[0] / 16 == 4 }

  function PutIp(s: seq<Byte>, at: nat, ip: Ipv4): (r: seq<Byte>)
    requires at + 4 <= |s|
    ensures |r| == |s|
  {
    s[at := ip.b0][at + 1 := ip.b1][at + 2 := ip.b2][at + 3 := ip.b3]
  }

  // ---- TCP ----

  /** A TCP packet as the handler reads it: where its segment lies, and its two endpoints. */
  datatype Segment = Segment(off: nat, len: Word, srcIp: Ipv4, srcPort: Word, dstIp: Ipv4, dstPort: Word)

  /** The handler's tests; it does not ask for a header length of 20 or more. */
  predicate IsTcp(p: seq<Byte>) {
    && IsIpv4(p) && p[9] == TCP
    && |p| >= HeaderLen(p) + 20
    && HeaderLen(p) + 20 <= Read16(p, 2) <= |p|
  }

  function ParseTcp(p: seq<Byte>): (r: Option<Segment>)
    ensures r.Some? <==> IsTcp(p)
    ensures r.Some? ==> r.value.off == HeaderLen(p) && r.value.len >= 20 && r.value.off + r.value.len <= |p|
  {
    if !IsTcp(p) then None
    else
      var off := HeaderLen(p);
      Some(Segment(off, Read16(p, 2) - off, ReadIp(p, 12), Read16(p, off), ReadIp(p, 16), Read16(p, off + 2)))
  }

  function KeyOf(s: Segment): FlowKey { FlowKey(s.srcIp, s.srcPort, s.dstIp, s.dstPort) }

  function WithEndpoints(s: Segment, to: FlowKey): Segment {
    s.(srcIp := to.srcIp, srcPort := to.srcPort, dstIp := to.dstIp, dstPort := to.dstPort)
  }

  /** The packet with its addresses and ports overwritten, the checksums still stale. */
  function Readdressed(p: seq<Byte>, off: nat, to: FlowKey): (r: seq<Byte>)
    requires |p| >= 20 && off + 4 <= |p|
    ensures |r| == |p|
  {
    Put16(Put16(PutIp(PutIp(p, 12, to.srcIp), 16, to.dstIp), off, to.srcPort), off + 2, to.dstPort)
  }

  /**
   The rewrite both directions share.  The IPv4 recalculation reads the header length again, from
   the packet as overwritten; None when that makes it read past the end of the packet.
   */
  function RewriteTcp(p: seq<Byte>, off: nat, len: Word, to: FlowKey): (r: Option<seq<Byte>>)
    requires |p| >= 20 && len >= 20 && off + len <= |p|
    ensures r.Some? ==> |r.value| == |p|
  {
    var q := Readdressed(p, off, to);
    if HeaderLen(q) > |q| then None else Some(WithTcpChecksum(WithIpv4Checksum(q), off, len))
  }

  /** The bytes a rewrite may change: addresses, ports and the two checksum fields. */
  predicate Rewritten(i: nat, off: nat) {
    10 <= i < 20 || off <= i < off + 4 || off + 16 <= i < off + 18
  }

  /** The rewrite does what it is for: new endpoints, both checksums valid, nothing else changed. */
  ghost predicate Faithful(p: seq<Byte>, to: FlowKey)
    requires IsTcp(p)
  {
    var s := ParseTcp(p).value;
    var r := RewriteTcp(p, s.off, s.len, to);
    && r.Some?
    && ParseTcp(r.value) == Some(WithEndpoints(s, to))
    && Verifies(Prefix(r.value, s.off))
    && Verifies(Pseudo(r.value, TCP, s.off, s.len))
    && forall i :: 0 <= i < |p| && !Rewritten(i, s.off) ==> r.value[i] == p[i]
  }

  /** The rewrite stays inside the packet unless its header length is zero and the new port's high byte claims more. */
  lemma ReadsPastEndIff(p: seq<Byte>, to: FlowKey)
    requires IsTcp(p)
    ensures var s := ParseTcp(p).value;
            RewriteTcp(p, s.off, s.len, to).None? <==> s.off == 0 && Hi(to.srcPort) % 16 * 4 > |p|
  {
    var off := HeaderLen(p);
    assert off > 0 ==> Readdressed(p, off, to)[0] == p[0];
  }

  lemma ReaddressedReads(p: seq<Byte>, off: nat, to: FlowKey)
    requires 20 <= off && off + 4 <= |p|
    ensures var q := Readdressed(p, off, to);
            && ReadIp(q, 12) == to.srcIp && ReadIp(q, 16) == to.dstIp
            && Read16(q, off) == to.srcPort && Read16(q, off + 2) == to.dstPort
            && forall i :: 0 <= i < |p| && !(12 <= i < 20) && !(off <= i < off + 4) ==> q[i] == p[i]
  {
    var a := PutIp(PutIp(p, 12, to.srcIp), 16, to.dstIp);
    assert ReadIp(a, 12) == to.srcIp && ReadIp(a, 16) == to.dstIp;
    var b := Put16(a, off, to.srcPort);
    ReadBack(a, off, to.srcPort);
    ReadBack(b, off + 2, to.dstPort);
  }

  /** The two recalculations touch only the checksum fields, and leave both covered ranges verifying. */
  lemma RecalculatedVerifies(q: seq<Byte>, off: nat, len: Word)
    requires |q| >= 20 && off == HeaderLen(q) >= 20 && len >= 20 && off + len <= |q|
    ensures var r := WithTcpChecksum(WithIpv4Checksum(q), off, len);
            && Verifies(Prefix(r, off)) && Verifies(Pseudo(r, TCP, off, len))
            && forall i :: 0 <= i < |q| && i != 10 && i != 11 && i != off + 16 && i != off + 17 ==> r[i] == q[i]
  {
    Ipv4HeaderVerifiesIff(q);
    var h := WithIpv4Checksum(q);
    TcpSegmentVerifies(h, off, len);
    assert Prefix(WithTcpChecksum(h, off, len), off) == Prefix(h, off);
  }

  /** With a header length of at least 20 every rewrite is faithful. */
  lemma RewriteIsFaithful(p: seq<Byte>, to: FlowKey)
    requires IsTcp(p) && HeaderLen(p) >= 20
    ensures Faithful(p, to)
  {
    var s := ParseTcp(p).value;
    ReaddressedReads(p, s.off, to);
    RecalculatedVerifies(Readdressed(p, s.off, to), s.off, s.len);
  }

  ghost predicate AlwaysFaithful(off: nat) {
    forall p: seq<Byte>, to: FlowKey :: IsTcp(p) && HeaderLen(p) == off ==> Faithful(p, to)
  }

  /** A shortest TCP packet with the given header length. */
  function Smallest(words: Byte): (p: seq<Byte>)
    requires words < 16
    ensures IsTcp(p) && HeaderLen(p) == 4 * words
  {
    var n := 4 * words + 20;
    seq(n, i => if i == 0 then 0x40 + words else if i == 3 then n else if i == 9 then TCP else 0)
  }

  const SPOILED_TO: FlowKey := FlowKey(Ipv4(1, 2, 3, 4), 10000, Ipv4(1, 2, 3, 4), 80)

  lemma OneWordIsLeft(p: seq<Byte>, to: FlowKey)
    requires |p| == 24 && HeaderLen(p) == 4
    ensures var q := Readdressed(p, 4, to);
            HeaderLen(q) == 4 && Prefix(WithTcpChecksum(WithIpv4Checksum(q), 4, 20), 4) == Prefix(p, 4)
  {
  }

  lemma OneWordPacket()
    ensures |Smallest(1)| == 24 && Prefix(Smallest(1), 4) == [0x41, 0, 0, 24]
    ensures ParseTcp(Smallest(1)).value.off == 4 && ParseTcp(Smallest(1)).value.len == 20
  {
  }

  /** With one word of header the recalculation leaves it as it is, and it does not verify. */
  lemma OneWordSpoils()
    ensures !Faithful(Smallest(1), SPOILED_TO)
  {
    OneWordPacket();
    OneWordIsLeft(Smallest(1), SPOILED_TO);
    FirstWordDoesNotVerify(Prefix(Smallest(1), 4));
  }

  lemma FirstWordDoesNotVerify(s: seq<Byte>)
    requires s == [0x41, 0, 0, 24]
    ensures !Verifies(s)
  {
    assert OnesSumFrom(s, 4) == 0;
    assert OnesSumFrom(s, 2) == 24;
    assert OnesSumFrom(s, 0) == 0x4118;
  }

  /** With two to four words the ports overwrite the addresses or the other way round. */
  lemma OverlapSpoils(words: Byte)
    requires 2 <= words < 5
    ensures !Faithful(Smallest(words), SPOILED_TO)
  {
    var p := Smallest(words);
    ReadsPastEndIff(p, SPOILED_TO);
    var r := WithTcpChecksum(WithIpv4Checksum(Readdressed(p, 4 * words, SPOILED_TO)), 4 * words, 20);
    assert r[4 * words] == Hi(10000) && r[4 * words + 1] == Lo(10000);
  }

  /** Shorter headers overlap the fields that the rewrite writes; each length has a packet it spoils. */
  lemma ShortHeaderSpoils(words: Byte)
    requires words < 5
    ensures !Faithful(Smallest(words), SPOILED_TO)
  {
    if words == 0 {
      ReadsPastEndIff(Smallest(0), SPOILED_TO);
    } else if words == 1 {
      OneWordSpoils();
    } else {
      OverlapSpoils(words);
    }
  }

  /** The header lengths for which every rewrite is faithful are exactly those of at least 20 bytes. */
  lemma FaithfulExactlyFrom20(words: Byte)
    requires words < 16
    ensures AlwaysFaithful(4 * words) <==> words >= 5
  {
    if words >= 5 {
      forall p: seq<Byte>, to: FlowKey | IsTcp(p) && HeaderLen(p) == 4 * words ensures Faithful(p, to) {
        RewriteIsFaithful(p, to);
      }
    } else {
      ShortHeaderSpoils(words);
    }
  }

  // ---- the TCP handler and its table ----

  /** PastEnd has the packet as it stands when the IPv4 recalculation reads past its end. */
  datatype Outcome = Dropped | Written(packet: seq<Byte>) | PastEnd(packet: seq<Byte>)

  predicate FromRelay(c: Config, s: Segment) { s.srcIp == c.tunIp && s.srcPort == c.listenPort }

  /** The packet readdressed, its checksum field cleared. */
  function Spoiled(p: seq<Byte>, off: nat, to: FlowKey): seq<Byte>
    requires |p| >= 20 && off + 4 <= |p|
  {
    Put16(Readdressed(p, off, to), 10, 0)
  }

  function Rewrite(p: seq<Byte>, to: FlowKey): Outcome
    requires IsTcp(p)
  {
    var s := ParseTcp(p).value;
    match RewriteTcp(p, s.off, s.len, to)
    case None => PastEnd(Spoiled(p, s.off, to))
    case Some(q) => Written(q)
  }

  /** What a rewrite that reads past the end leaves: new endpoints, ports in the packet's first bytes, and a cleared checksum. */
  lemma PastEndLeaves(p: seq<Byte>, to: FlowKey)
    requires IsTcp(p) && Rewrite(p, to).PastEnd?
    ensures var q := Rewrite(p, to).packet;
            && |q| == |p| && Read16(q, 0) == to.srcPort && Read16(q, 2) == to.dstPort && Read16(q, 10) == 0
            && ReadIp(q, 12) == to.srcIp && ReadIp(q, 16) == to.dstIp
            && forall i :: 4 <= i < |p| && !(10 <= i < 20) ==> q[i] == p[i]
  {
    ReadsPastEndIff(p, to);
    var a := PutIp(PutIp(p, 12, to.srcIp), 16, to.dstIp);
    assert ReadIp(a, 12) == to.srcIp && ReadIp(a, 16) == to.dstIp;
    ReadBack(a, 0, to.srcPort);
    ReadBack(Put16(a, 0, to.srcPort), 2, to.dstPort);
  }

  function StackTarget(c: Config, port: Word): FlowKey { FlowKey(c.tunNextIp, port, c.tunIp, c.listenPort) }

  /** `handle_tcp_packet`; None when the table's lookup never returns. */
  function TcpStep(n: Nat, c: Config, p: seq<Byte>): Option<(Nat, Outcome)> {
    match ParseTcp(p)
    case None => Some((n, Dropped))
    case Some(s) =>
      if FromRelay(c, s) then
        match LookupBack(n, s.dstPort)
        case None => Some((n, Dropped))
        case Some(k) => Some((n, Rewrite(p, Reversed(k))))
      else
        match Lookup(n, KeyOf(s))
        case None => None
        case Some(f) => Some((f.table, Rewrite(p, StackTarget(c, f.port))))
  }

  function RunFrom(n: Nat, ops: seq<Op>): Option<Nat>
    decreases |ops|
  {
    if ops == [] then Some(n)
    else
      match Step(n, ops[0])
      case None => None
      case Some(m) => RunFrom(m, ops[1..])
  }

  lemma StepSpares(n: Nat, op: Op, port: Word)
    requires Valid(n) && n.maxSessions == 0 && port in n.reverse && op != EraseOp(port) && Step(n, op).Some?
    ensures var m := Step(n, op).value;
            Valid(m) && m.maxSessions == 0 && port in m.reverse && m.reverse[port] == n.reverse[port]
  {
    PortIsStable(n, op, port);
    match op
    case LookupOp(key) =>
      LookupKeepsValid(n, key);
    case EraseOp(p) => EraseKeepsValid(n, p);
  }

  /** An unbounded table never evicts, so a mapping lives until its port is erased. */
  lemma {:induction false} MappingSurvives(n: Nat, ops: seq<Op>, port: Word)
    requires Valid(n) && n.maxSessions == 0 && port in n.reverse
    requires EraseOp(port) !in ops && RunFrom(n, ops).Some?
    ensures var m := RunFrom(n, ops).value; port in m.reverse && m.reverse[port] == n.reverse[port]
    decreases |ops|
  {
    if ops != [] {
      StepSpares(n, ops[0], port);
      MappingSurvives(Step(n, ops[0]).value, ops[1..], port);
    }
  }
}
