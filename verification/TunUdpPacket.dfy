/**
 UDP packets of src/inbound/tun_inbound.cpp: what `handle_udp_packet` reads out of a packet,
 what `write_udp_response` builds, and that the first inverts the second.
 */
module TunUdpPacket {
  import opened Bytes
  import opened InternetChecksum
  import opened NatTable
  import opened TunPacket

  datatype Datagram = Datagram(key: FlowKey, payload: seq<Byte>)

  /** The header tests, in the program's order; fragments are refused, the don't-fragment bit is not looked at. */
  predicate IsUdp(p: seq<Byte>) {
    && IsIpv4(p) && p[9] == UDP
    && var off := HeaderLen(p);
    && |p| >= off + 8
    && off + 8 <= Read16(p, 2) <= |p|
    && Read16(p, 6) % 0x4000 == 0
    && 8 <= Read16(p, off + 4) && off + Read16(p, off + 4) <= Read16(p, 2)
  }

  function ParseUdp(p: seq<Byte>): (r: Option<Datagram>)
    ensures r.Some? <==> IsUdp(p)
  {
    if !IsUdp(p) then None
    else
      var off := HeaderLen(p);
      Some(Datagram(FlowKey(ReadIp(p, 12), Read16(p, off), ReadIp(p, 16), Read16(p, off + 2)),
                    p[off + 8..off + Read16(p, off + 4)]))
  }

  const MAX_UDP_PAYLOAD: nat := 65507

  /** A blank packet with the fixed fields, lengths and endpoints filled in, session reversed. */
  function UdpHeaders(session: FlowKey, size: nat): (r: seq<Byte>)
    requires size <= MAX_UDP_PAYLOAD
    ensures |r| == 28 + size
  {
    var blank := seq(28 + size, _ => 0);
    var fixed := Put16(Put16(blank[0 := 0x45][8 := 64][9 := UDP], 2, 28 + size), 6, 0x4000);
    var addressed := PutIp(PutIp(fixed, 12, session.dstIp), 16, session.srcIp);
    Put16(Put16(Put16(addressed, 20, session.dstPort), 22, session.srcPort), 24, 8 + size)
  }

  /** None when the packet would be longer than 65535 bytes: nothing is written. */
  function BuildUdp(session: FlowKey, data: seq<Byte>): Option<seq<Byte>> {
    if |data| > MAX_UDP_PAYLOAD then None
    else
      var filled := UdpHeaders(session, |data|)[..28] + data;
      Some(WithUdpChecksum(WithIpv4Checksum(filled), 20, 8 + |data|))
  }

  lemma HeadersRead(session: FlowKey, size: nat)
    requires size <= MAX_UDP_PAYLOAD
    ensures var h := UdpHeaders(session, size);
            && h[0] == 0x45 && h[9] == UDP && Read16(h, 2) == 28 + size && Read16(h, 6) == 0x4000
            && ReadIp(h, 12) == session.dstIp && ReadIp(h, 16) == session.srcIp
            && Read16(h, 20) == session.dstPort && Read16(h, 22) == session.srcPort && Read16(h, 24) == 8 + size
            && h[1] == 0 && Read16(h, 4) == 0 && h[8] == 64
  {
    var blank := seq(28 + size, _ => 0);
    var a := Put16(Put16(blank[0 := 0x45][8 := 64][9 := UDP], 2, 28 + size), 6, 0x4000);
    ReadBack(Put16(blank[0 := 0x45][8 := 64][9 := UDP], 2, 28 + size), 6, 0x4000);
    ReadBack(blank[0 := 0x45][8 := 64][9 := UDP], 2, 28 + size);
    var b := PutIp(PutIp(a, 12, session.dstIp), 16, session.srcIp);
    assert ReadIp(b, 12) == session.dstIp && ReadIp(b, 16) == session.srcIp;
    ReadBack(b, 20, session.dstPort);
    ReadBack(Put16(b, 20, session.dstPort), 22, session.srcPort);
    ReadBack(Put16(Put16(b, 20, session.dstPort), 22, session.srcPort), 24, 8 + size);
  }

  /** The two recalculations of a 20-byte header leave everything but bytes 10, 11, 26 and 27, and both verify. */
  lemma UdpRecalculatedVerifies(q: seq<Byte>, len: Word)
    requires |q| == 20 + len && len >= 8 && HeaderLen(q) == 20
    ensures var r := WithUdpChecksum(WithIpv4Checksum(q), 20, len);
            && Verifies(Prefix(r, 20)) && Verifies(Pseudo(r, UDP, 20, len)) && Read16(r, 26) != 0
            && forall i :: 0 <= i < |q| && i != 10 && i != 11 && i != 26 && i != 27 ==> r[i] == q[i]
  {
    Ipv4HeaderVerifiesIff(q);
    var h := WithIpv4Checksum(q);
    UdpDatagramVerifies(h, 20, len);
    assert Prefix(WithUdpChecksum(h, 20, len), 20) == Prefix(h, 20);
  }

  /** A packet with these headers and this payload, whatever its checksums, parses to them. */
  lemma HeadersParse(p: seq<Byte>, session: FlowKey, data: seq<Byte>)
    requires |data| <= MAX_UDP_PAYLOAD && |p| == 28 + |data|
    requires var h := UdpHeaders(session, |data|);
             forall i :: 0 <= i < 26 && i != 10 && i != 11 ==> p[i] == h[i]
    requires p[28..] == data
    ensures ParseUdp(p) == Some(Datagram(Reversed(session), data))
  {
    HeadersRead(session, |data|);
    assert p[28..28 + |data|] == p[28..];
  }

  /**
   For every session and every payload a response exists exactly up to 65507 bytes; it passes every
   header test, parses to the reversed session and that payload, and both of its checksums verify.
   */
  lemma UdpRoundTrip(session: FlowKey, data: seq<Byte>)
    ensures BuildUdp(session, data).Some? <==> |data| <= 65507
    ensures |data| <= 65507 ==>
              var p := BuildUdp(session, data).value;
              && |p| == 28 + |data|
              && ParseUdp(p) == Some(Datagram(Reversed(session), data))
              && Verifies(Prefix(p, 20)) && Verifies(Pseudo(p, UDP, 20, 8 + |data|))
              && Read16(p, 26) != 0
  {
    if |data| <= MAX_UDP_PAYLOAD {
      var headers := UdpHeaders(session, |data|);
      var filled := headers[..28] + data;
      HeadersRead(session, |data|);
      assert filled[0] == headers[0];
      UdpRecalculatedVerifies(filled, 8 + |data|);
      var p := BuildUdp(session, data).value;
      assert p[28..] == data;
      HeadersParse(p, session, data);
    }
  }
}
