/**
 IPv4 packets written from section 3.1 of RFC 791, with UDP datagrams of RFC 768 and TCP segments of
 section 3.1 of RFC 793 in them: which packets the handlers accept and what they read from them.
 */
module PacketLayout {
  import opened Bytes
  import opened InternetChecksum
  import opened NatTable
  import opened NatHistory
  import opened TunPacket
  import opened TunUdpPacket

  // ---- the internet header ----

  /** The fields but the lengths and the protocol; flags are reserved, don't fragment and more fragments, as 4, 2 and 1. */
  datatype Header = Header(tos: Byte, id: Word, flags: nat, fragment: nat, ttl: Byte, checksum: Word, src: Ipv4, dst: Ipv4, options: seq<Byte>)

  predicate IsHeader(h: Header) {
    h.flags < 8 && h.fragment < 0x2000 && |h.options| % 4 == 0 && |h.options| <= 40
  }

  predicate IsFragment(h: Header) { h.flags % 2 == 1 || h.fragment != 0 }

  function Size(h: Header): nat { 20 + |h.options| }

  function IpBytes(ip: Ipv4): (r: seq<Byte>)
    ensures |r| == 4
  {
    [ip.b0, ip.b1, ip.b2, ip.b3]
  }

  /** The twenty bytes every header has. */
  function Fixed(h: Header, protocol: Byte, total: Word): (r: seq<Byte>)
    requires IsHeader(h)
    ensures |r| == 20
  {
    var fragment := 0x2000 * h.flags + h.fragment;
    [0x45 + |h.options| / 4, h.tos, total / 0x100, total % 0x100,
     h.id / 0x100, h.id % 0x100, fragment / 0x100, fragment % 0x100,
     h.ttl, protocol, h.checksum / 0x100, h.checksum % 0x100,
     h.src.b0, h.src.b1, h.src.b2, h.src.b3, h.dst.b0, h.dst.b1, h.dst.b2, h.dst.b3]
  }

  predicate Fits(h: Header, body: seq<Byte>) { IsHeader(h) && Size(h) + |body| < 0x1_0000 }

  function EncodeHeader(h: Header, protocol: Byte, body: seq<Byte>): seq<Byte>
    requires Fits(h, body)
  {
    Fixed(h, protocol, Size(h) + |body|) + h.options
  }

  /** A packet, and what the buffer holds behind it. */
  function EncodeIp(h: Header, protocol: Byte, body: seq<Byte>, trailing: seq<Byte>): (p: seq<Byte>)
    requires Fits(h, body)
    ensures |p| == Size(h) + |body| + |trailing|
  {
    EncodeHeader(h, protocol, body) + (body + trailing)
  }

  lemma FixedIsRead(p: seq<Byte>, h: Header, protocol: Byte, total: Word)
    requires IsHeader(h) && HasAt(p, 0, Fixed(h, protocol, total))
    ensures p[0] / 16 == 4 && HeaderLen(p) == Size(h) && p[9] == protocol
    ensures Read16(p, 2) == total && Read16(p, 6) == 0x2000 * h.flags + h.fragment
    ensures ReadIp(p, 12) == h.src && ReadIp(p, 16) == h.dst && Read16(p, 10) == h.checksum
  {
    var f := Fixed(h, protocol, total);
    assert p[0] == f[0] && p[2] == f[2] && p[3] == f[3] && p[6] == f[6] && p[7] == f[7];
    assert p[9] == f[9] && p[10] == f[10] && p[11] == f[11];
    assert p[12] == f[12] && p[13] == f[13] && p[14] == f[14] && p[15] == f[15];
    assert p[16] == f[16] && p[17] == f[17] && p[18] == f[18] && p[19] == f[19];
  }

  lemma SliceOf(p: seq<Byte>, at: nat, part: seq<Byte>)
    requires HasAt(p, at, part)
    ensures p[at..at + |part|] == part
  {
    HasSlice(p, at, part);
    assert p[at..at + |part|] == Slice(p, at, |part|);
  }

  lemma PartsStand(h: Header, protocol: Byte, body: seq<Byte>, trailing: seq<Byte>)
    requires Fits(h, body)
    ensures var p := EncodeIp(h, protocol, body, trailing);
            && HasAt(p, 0, Fixed(h, protocol, Size(h) + |body|)) && p[20..Size(h)] == h.options && HasAt(p, Size(h), body)
  {
    var p := EncodeIp(h, protocol, body, trailing);
    HasItself(p);
    HasThree(p, 0, EncodeHeader(h, protocol, body), body, trailing);
    HasBoth(p, 0, Fixed(h, protocol, Size(h) + |body|), h.options);
    SliceOf(p, 20, h.options);
  }

  lemma PacketIsRead(h: Header, protocol: Byte, body: seq<Byte>, trailing: seq<Byte>)
    requires Fits(h, body)
    ensures var p := EncodeIp(h, protocol, body, trailing);
            && p[0] / 16 == 4 && HeaderLen(p) == Size(h) && p[9] == protocol
            && Read16(p, 2) == Size(h) + |body| && Read16(p, 6) == 0x2000 * h.flags + h.fragment
            && ReadIp(p, 12) == h.src && ReadIp(p, 16) == h.dst && Read16(p, 10) == h.checksum
            && HasAt(p, Size(h), body)
  {
    PartsStand(h, protocol, body, trailing);
    FixedIsRead(EncodeIp(h, protocol, body, trailing), h, protocol, Size(h) + |body|);
  }

  /** The fields of a packet that has a header of at least 20 bytes. */
  function HeaderOf(p: seq<Byte>): Header
    requires IsIpv4(p) && 20 <= HeaderLen(p) <= |p|
  {
    Header(p[1], Read16(p, 4), Read16(p, 6) / 0x2000, Read16(p, 6) % 0x2000, p[8], Read16(p, 10), ReadIp(p, 12), ReadIp(p, 16), p[20..HeaderLen(p)])
  }

  lemma FixedOf(p: seq<Byte>)
    requires IsIpv4(p) && 20 <= HeaderLen(p) <= |p|
    ensures IsHeader(HeaderOf(p)) && Size(HeaderOf(p)) == HeaderLen(p)
    ensures p[..20] == Fixed(HeaderOf(p), p[9], Read16(p, 2))
  {
    var h := HeaderOf(p);
    var f := Fixed(h, p[9], Read16(p, 2));
    assert f[0] == p[0] && f[1] == p[1] && f[2] == p[2] && f[3] == p[3] && f[4] == p[4];
    assert f[5] == p[5] && f[6] == p[6] && f[7] == p[7] && f[8] == p[8] && f[9] == p[9];
    assert f[10] == p[10] && f[11] == p[11] && f[12] == p[12] && f[13] == p[13] && f[14] == p[14];
    assert f[15] == p[15] && f[16] == p[16] && f[17] == p[17] && f[18] == p[18] && f[19] == p[19];
  }

  /** Any packet that holds its total length is one. */
  lemma PacketIsEncoded(p: seq<Byte>)
    requires IsIpv4(p) && 20 <= HeaderLen(p) <= Read16(p, 2) <= |p|
    ensures var body := p[HeaderLen(p)..Read16(p, 2)];
            Fits(HeaderOf(p), body) && p == EncodeIp(HeaderOf(p), p[9], body, p[Read16(p, 2)..])
  {
    FixedOf(p);
    var off, total := HeaderLen(p), Read16(p, 2);
    assert p == p[..20] + p[20..off] + (p[off..total] + p[total..]);
  }

  // ---- UDP ----

  /** A datagram in a packet; slack is what the packet holds behind the datagram. */
  datatype UdpPacket = UdpPacket(header: Header, srcPort: Word, dstPort: Word, checksum: Word, payload: seq<Byte>, slack: seq<Byte>, trailing: seq<Byte>)

  function Ports(srcPort: Word, dstPort: Word): (r: seq<Byte>)
    ensures |r| == 4
  {
    [srcPort / 0x100, srcPort % 0x100, dstPort / 0x100, dstPort % 0x100]
  }

  function UdpHeader(u: UdpPacket): (r: seq<Byte>)
    requires |u.payload| + 8 < 0x1_0000
    ensures |r| == 8
  {
    var len := 8 + |u.payload|;
    Ports(u.srcPort, u.dstPort) + [len / 0x100, len % 0x100, u.checksum / 0x100, u.checksum % 0x100]
  }

  function UdpBody(u: UdpPacket): (r: seq<Byte>)
    requires |u.payload| + 8 < 0x1_0000
    ensures |r| == 8 + |u.payload| + |u.slack|
  {
    UdpHeader(u) + (u.payload + u.slack)
  }

  predicate IsUdpPacket(u: UdpPacket) {
    |u.payload| + 8 < 0x1_0000 && Fits(u.header, UdpBody(u))
  }

  function EncodeUdp(u: UdpPacket): seq<Byte>
    requires IsUdpPacket(u)
  {
    EncodeIp(u.header, 17, UdpBody(u), u.trailing)
  }

  function KeyOfUdp(u: UdpPacket): FlowKey { FlowKey(u.header.src, u.srcPort, u.header.dst, u.dstPort) }

  lemma PortsAreRead(p: seq<Byte>, at: nat, srcPort: Word, dstPort: Word)
    requires HasAt(p, at, Ports(srcPort, dstPort))
    ensures Read16(p, at) == srcPort && Read16(p, at + 2) == dstPort
  {
    var f := Ports(srcPort, dstPort);
    assert p[at + 0] == f[0] && p[at + 1] == f[1] && p[at + 2] == f[2] && p[at + 3] == f[3];
  }

  lemma UdpHeaderIsRead(p: seq<Byte>, at: nat, u: UdpPacket)
    requires |u.payload| + 8 < 0x1_0000 && HasAt(p, at, UdpHeader(u))
    ensures Read16(p, at) == u.srcPort && Read16(p, at + 2) == u.dstPort && Read16(p, at + 4) == 8 + |u.payload| && Read16(p, at + 6) == u.checksum
  {
    var len := 8 + |u.payload|;
    var g := [len / 0x100, len % 0x100, u.checksum / 0x100, u.checksum % 0x100];
    HasBoth(p, at, Ports(u.srcPort, u.dstPort), g);
    PortsAreRead(p, at, u.srcPort, u.dstPort);
    assert p[at + 4 + 0] == g[0] && p[at + 4 + 1] == g[1] && p[at + 4 + 2] == g[2] && p[at + 4 + 3] == g[3];
  }

  lemma DatagramStands(u: UdpPacket)
    requires IsUdpPacket(u)
    ensures var p, off := EncodeUdp(u), Size(u.header);
            && Read16(p, off) == u.srcPort && Read16(p, off + 2) == u.dstPort && Read16(p, off + 4) == 8 + |u.payload|
            && Read16(p, off + 6) == u.checksum && p[off + 8..off + 8 + |u.payload|] == u.payload
  {
    var p, off := EncodeUdp(u), Size(u.header);
    PacketIsRead(u.header, 17, UdpBody(u), u.trailing);
    HasThree(p, off, UdpHeader(u), u.payload, u.slack);
    UdpHeaderIsRead(p, off, u);
    SliceOf(p, off + 8, u.payload);
  }

  /**
   Every datagram in every packet is read: the 4-tuple and the payload, whatever the other fields and the
   options are, and whatever stands behind the datagram and behind the packet.  A fragment is not.
   */
  lemma DatagramIsRead(u: UdpPacket)
    requires IsUdpPacket(u)
    ensures ParseUdp(EncodeUdp(u)) == if IsFragment(u.header) then None else Some(Datagram(KeyOfUdp(u), u.payload))
  {
    PacketIsRead(u.header, 17, UdpBody(u), u.trailing);
    DatagramStands(u);
    FragmentIff(u.header);
  }

  lemma FragmentIff(h: Header)
    requires IsHeader(h)
    ensures IsFragment(h) <==> (0x2000 * h.flags + h.fragment) % 0x4000 != 0
  {
    assert 0x2000 * h.flags + h.fragment == 0x4000 * (h.flags / 2) + (0x2000 * (h.flags % 2) + h.fragment);
  }

  function UdpPacketOf(p: seq<Byte>): UdpPacket
    requires IsUdp(p) && 20 <= HeaderLen(p)
  {
    var off, total := HeaderLen(p), Read16(p, 2);
    var end := off + Read16(p, off + 4);
    UdpPacket(HeaderOf(p), Read16(p, off), Read16(p, off + 2), Read16(p, off + 6), p[off + 8..end], p[end..total], p[total..])
  }

  lemma UdpHeaderOf(p: seq<Byte>)
    requires IsUdp(p) && 20 <= HeaderLen(p)
    ensures var off := HeaderLen(p); p[off..off + 8] == UdpHeader(UdpPacketOf(p))
  {
    var off := HeaderLen(p);
    var s, f := p[off..off + 8], UdpHeader(UdpPacketOf(p));
    assert s[0] == f[0] && s[1] == f[1] && s[2] == f[2] && s[3] == f[3];
    assert s[4] == f[4] && s[5] == f[5] && s[6] == f[6] && s[7] == f[7];
  }

  lemma CutInThree(p: seq<Byte>, a: nat, b: nat, c: nat, d: nat)
    requires a <= b <= c <= d <= |p|
    ensures p[a..d] == p[a..b] + (p[b..c] + p[c..d])
  {
  }

  lemma UdpBodyOf(p: seq<Byte>)
    requires IsUdp(p) && 20 <= HeaderLen(p)
    ensures UdpBody(UdpPacketOf(p)) == p[HeaderLen(p)..Read16(p, 2)]
  {
    UdpHeaderOf(p);
    CutInThree(p, HeaderLen(p), HeaderLen(p) + 8, HeaderLen(p) + Read16(p, HeaderLen(p) + 4), Read16(p, 2));
  }

  lemma DatagramIsEncoded(p: seq<Byte>)
    requires IsUdp(p) && 20 <= HeaderLen(p)
    ensures IsUdpPacket(UdpPacketOf(p)) && p == EncodeUdp(UdpPacketOf(p))
  {
    PacketIsEncoded(p);
    UdpBodyOf(p);
  }

  /** With a header of at least 20 bytes a packet is taken for a datagram if and only if it holds one and is no fragment. */
  lemma DatagramIsReadIff(p: seq<Byte>, d: Datagram)
    requires |p| > 0 && HeaderLen(p) >= 20
    ensures ParseUdp(p) == Some(d) <==>
            exists u :: IsUdpPacket(u) && !IsFragment(u.header) && p == EncodeUdp(u) && d == Datagram(KeyOfUdp(u), u.payload)
  {
    if ParseUdp(p).Some? {
      DatagramIsEncoded(p);
      DatagramIsRead(UdpPacketOf(p));
    }
    forall u | IsUdpPacket(u) && p == EncodeUdp(u) ensures IsFragment(u.header) || ParseUdp(p) == Some(Datagram(KeyOfUdp(u), u.payload)) {
      DatagramIsRead(u);
    }
  }

  /** A packet of 40 bytes whose header length is too short, the claimed datagram overlapping the header. */
  function ShortDatagram(words: Byte): seq<Byte>
    requires words < 5
  {
    seq(40, i => if i == 0 then 0x40 + words else if i == 3 then 40 else if i == 9 then 17 else if i == 4 * words + 5 then 8 else 0)
  }

  /** Without that there are packets that hold none and are taken for one: the header length is not checked. */
  lemma ShortHeaderIsRead(words: Byte)
    requires words < 5
    ensures HeaderLen(ShortDatagram(words)) == 4 * words && ParseUdp(ShortDatagram(words)).Some?
  {
    var p := ShortDatagram(words);
    assert p[0] == 0x40 + words && Read16(p, 2) == 40 && Read16(p, 6) == 0 && p[9] == UDP;
    assert Read16(p, 4 * words + 4) == if words == 1 then 17 else 8;
  }

  // ---- TCP ----

  /** A segment in a packet; rest is the segment behind its ports. */
  datatype TcpPacket = TcpPacket(header: Header, srcPort: Word, dstPort: Word, rest: seq<Byte>, trailing: seq<Byte>)

  function TcpBody(t: TcpPacket): (r: seq<Byte>)
    ensures |r| == 4 + |t.rest|
  {
    Ports(t.srcPort, t.dstPort) + t.rest
  }

  /** The segment has its twenty fixed bytes. */
  predicate IsTcpPacket(t: TcpPacket) { |t.rest| >= 16 && Fits(t.header, TcpBody(t)) }

  function EncodeTcp(t: TcpPacket): (p: seq<Byte>)
    requires IsTcpPacket(t)
    ensures |p| == Size(t.header) + 4 + |t.rest| + |t.trailing|
  {
    EncodeIp(t.header, 6, TcpBody(t), t.trailing)
  }

  function KeyOfTcp(t: TcpPacket): FlowKey { FlowKey(t.header.src, t.srcPort, t.header.dst, t.dstPort) }

  lemma SegmentStands(t: TcpPacket)
    requires IsTcpPacket(t)
    ensures var p, off := EncodeTcp(t), Size(t.header);
            Read16(p, off) == t.srcPort && Read16(p, off + 2) == t.dstPort && HasAt(p, off + 4, t.rest)
  {
    var p, off := EncodeTcp(t), Size(t.header);
    PacketIsRead(t.header, 6, TcpBody(t), t.trailing);
    HasBoth(p, off, Ports(t.srcPort, t.dstPort), t.rest);
    PortsAreRead(p, off, t.srcPort, t.dstPort);
  }

  /** Every segment in every packet is read; a fragment is not told from a whole packet. */
  lemma SegmentIsRead(t: TcpPacket)
    requires IsTcpPacket(t)
    ensures ParseTcp(EncodeTcp(t)) == Some(Segment(Size(t.header), 4 + |t.rest|, t.header.src, t.srcPort, t.header.dst, t.dstPort))
  {
    PacketIsRead(t.header, 6, TcpBody(t), t.trailing);
    SegmentStands(t);
  }

  function TcpPacketOf(p: seq<Byte>): TcpPacket
    requires IsTcp(p) && 20 <= HeaderLen(p)
  {
    var off, total := HeaderLen(p), Read16(p, 2);
    TcpPacket(HeaderOf(p), Read16(p, off), Read16(p, off + 2), p[off + 4..total], p[total..])
  }

  lemma TcpBodyOf(p: seq<Byte>)
    requires IsTcp(p) && 20 <= HeaderLen(p)
    ensures TcpBody(TcpPacketOf(p)) == p[HeaderLen(p)..Read16(p, 2)]
  {
    var off := HeaderLen(p);
    var s, f := p[off..off + 4], Ports(Read16(p, off), Read16(p, off + 2));
    assert s[0] == f[0] && s[1] == f[1] && s[2] == f[2] && s[3] == f[3];
    assert s == f;
    CutInThree(p, off, off + 4, Read16(p, 2), Read16(p, 2));
    assert p[off + 4..Read16(p, 2)] + p[Read16(p, 2)..Read16(p, 2)] == p[off + 4..Read16(p, 2)];
  }

  lemma SegmentIsEncoded(p: seq<Byte>)
    requires IsTcp(p) && 20 <= HeaderLen(p)
    ensures IsTcpPacket(TcpPacketOf(p)) && p == EncodeTcp(TcpPacketOf(p))
  {
    PacketIsEncoded(p);
    TcpBodyOf(p);
  }

  /** With a header of at least 20 bytes a packet is taken for a segment, and read so, if and only if it holds one. */
  lemma SegmentIsReadIff(p: seq<Byte>, s: Segment)
    requires |p| > 0 && HeaderLen(p) >= 20
    ensures ParseTcp(p) == Some(s) <==>
            exists t :: IsTcpPacket(t) && p == EncodeTcp(t)
                        && s == Segment(Size(t.header), 4 + |t.rest|, t.header.src, t.srcPort, t.header.dst, t.dstPort)
  {
    if ParseTcp(p).Some? {
      SegmentIsEncoded(p);
      SegmentIsRead(TcpPacketOf(p));
    }
    forall t | IsTcpPacket(t) && p == EncodeTcp(t)
      ensures ParseTcp(p) == Some(Segment(Size(t.header), 4 + |t.rest|, t.header.src, t.srcPort, t.header.dst, t.dstPort))
    {
      SegmentIsRead(t);
    }
  }

  // ---- checksums ----

  /** The pseudo-header in front of a segment (RFC 768, and section 3.1 of RFC 793). */
  function WithPseudoHeader(h: Header, protocol: Byte, segment: seq<Byte>): seq<Byte>
    requires |segment| < 0x1_0000
  {
    IpBytes(h.src) + IpBytes(h.dst) + [0, protocol, |segment| / 0x100, |segment| % 0x100] + segment
  }

  ghost predicate TcpVerifies(t: TcpPacket)
    requires IsTcpPacket(t)
  {
    Verifies(EncodeHeader(t.header, 6, TcpBody(t))) && Verifies(WithPseudoHeader(t.header, 6, TcpBody(t)))
  }

  lemma PseudoIs(p: seq<Byte>, h: Header, protocol: Byte, off: nat, segment: seq<Byte>)
    requires 20 <= off && |segment| < 0x1_0000 && HasAt(p, off, segment) && ReadIp(p, 12) == h.src && ReadIp(p, 16) == h.dst
    ensures Pseudo(p, protocol, off, |segment|) == WithPseudoHeader(h, protocol, segment)
  {
    var s, f := Pseudo(p, protocol, off, |segment|), WithPseudoHeader(h, protocol, segment);
    assert |s| == |f|;
    forall i | 0 <= i < |s| ensures s[i] == f[i] {
      if i >= 12 {
        assert segment[i - 12] == p[off + (i - 12)];
      }
    }
  }

  lemma PrefixIs(h: Header, protocol: Byte, body: seq<Byte>, trailing: seq<Byte>)
    requires Fits(h, body)
    ensures Prefix(EncodeIp(h, protocol, body, trailing), Size(h)) == EncodeHeader(h, protocol, body)
  {
  }

  lemma TcpVerifiesIff(t: TcpPacket)
    requires IsTcpPacket(t)
    ensures var p, off := EncodeTcp(t), Size(t.header);
            TcpVerifies(t) <==> Verifies(Prefix(p, off)) && Verifies(Pseudo(p, 6, off, 4 + |t.rest|))
  {
    PacketIsRead(t.header, 6, TcpBody(t), t.trailing);
    PrefixIs(t.header, 6, TcpBody(t), t.trailing);
    PseudoIs(EncodeTcp(t), t.header, 6, Size(t.header), TcpBody(t));
  }

  // ---- the TCP rewrite ----

  /** The packet with other endpoints and checksums. */
  function Redirected(t: TcpPacket, to: FlowKey, headerSum: Word, tcpSum: Word): TcpPacket
    requires |t.rest| >= 16
  {
    TcpPacket(t.header.(src := to.srcIp, dst := to.dstIp, checksum := headerSum), to.srcPort, to.dstPort,
              t.rest[12 := tcpSum / 0x100][13 := tcpSum % 0x100], t.trailing)
  }

  lemma FixedOthersAreRead(p: seq<Byte>, h: Header, protocol: Byte, total: Word)
    requires IsHeader(h) && HasAt(p, 0, Fixed(h, protocol, total))
    ensures p[1] == h.tos && Read16(p, 4) == h.id && p[8] == h.ttl
  {
    var f := Fixed(h, protocol, total);
    assert p[1] == f[1] && p[4] == f[4] && p[5] == f[5] && p[8] == f[8];
  }

  lemma FlagsAndOffset(flags: nat, fragment: nat)
    requires fragment < 0x2000
    ensures (0x2000 * flags + fragment) / 0x2000 == flags && (0x2000 * flags + fragment) % 0x2000 == fragment
  {
  }

  lemma HeaderOfEncoded(h: Header, protocol: Byte, body: seq<Byte>, trailing: seq<Byte>)
    requires Fits(h, body)
    ensures var p := EncodeIp(h, protocol, body, trailing); IsIpv4(p) && HeaderLen(p) == Size(h) && HeaderOf(p) == h
  {
    var p := EncodeIp(h, protocol, body, trailing);
    PacketIsRead(h, protocol, body, trailing);
    PartsStand(h, protocol, body, trailing);
    FixedOthersAreRead(p, h, protocol, Size(h) + |body|);
    FlagsAndOffset(h.flags, h.fragment);
  }

  lemma TcpPacketOfEncoded(t: TcpPacket)
    requires IsTcpPacket(t)
    ensures var p := EncodeTcp(t); IsTcp(p) && HeaderLen(p) == Size(t.header) && TcpPacketOf(p) == t
  {
    var p, off := EncodeTcp(t), Size(t.header);
    SegmentIsRead(t);
    PacketIsRead(t.header, 6, TcpBody(t), t.trailing);
    HeaderOfEncoded(t.header, 6, TcpBody(t), t.trailing);
    SegmentStands(t);
    SliceOf(p, off + 4, t.rest);
    assert p[off + 4 + |t.rest|..] == t.trailing;
  }

  lemma SameHeader(p: seq<Byte>, q: seq<Byte>)
    requires IsIpv4(p) && |q| == |p| && 20 <= HeaderLen(p) <= |p|
    requires forall i :: 0 <= i < HeaderLen(p) && !(10 <= i < 20) ==> q[i] == p[i]
    ensures IsIpv4(q) && HeaderLen(q) == HeaderLen(p)
    ensures HeaderOf(q) == HeaderOf(p).(src := ReadIp(q, 12), dst := ReadIp(q, 16), checksum := Read16(q, 10))
  {
    assert q[0] == p[0] && q[1] == p[1] && q[4] == p[4] && q[5] == p[5] && q[6] == p[6] && q[7] == p[7] && q[8] == p[8];
    assert q[20..HeaderLen(p)] == p[20..HeaderLen(p)];
  }

  lemma SameRest(p: seq<Byte>, q: seq<Byte>, off: nat, total: nat)
    requires off + 20 <= total <= |p| == |q|
    requires forall i :: off + 4 <= i < |p| && !(off + 16 <= i < off + 18) ==> q[i] == p[i]
    ensures q[off + 4..total] == p[off + 4..total][12 := q[off + 16]][13 := q[off + 17]] && q[total..] == p[total..]
  {
  }

  lemma SameParse(p: seq<Byte>, q: seq<Byte>, to: FlowKey)
    requires IsTcp(p) && ParseTcp(q) == Some(WithEndpoints(ParseTcp(p).value, to))
    ensures IsTcp(q) && HeaderLen(q) == HeaderLen(p) && Read16(q, 2) == Read16(p, 2)
    ensures ReadIp(q, 12) == to.srcIp && ReadIp(q, 16) == to.dstIp
    ensures Read16(q, HeaderLen(p)) == to.srcPort && Read16(q, HeaderLen(p) + 2) == to.dstPort
  {
  }

  lemma RewrittenFields(p: seq<Byte>, q: seq<Byte>, to: FlowKey)
    requires IsTcp(p) && IsTcp(q) && |q| == |p| && HeaderLen(q) == HeaderLen(p) >= 20 && Read16(q, 2) == Read16(p, 2)
    requires HeaderOf(q) == HeaderOf(p).(src := to.srcIp, dst := to.dstIp, checksum := Read16(q, 10))
    requires Read16(q, HeaderLen(p)) == to.srcPort && Read16(q, HeaderLen(p) + 2) == to.dstPort
    requires var off, total := HeaderLen(p), Read16(p, 2);
             q[off + 4..total] == p[off + 4..total][12 := q[off + 16]][13 := q[off + 17]] && q[total..] == p[total..]
    ensures TcpPacketOf(q) == Redirected(TcpPacketOf(p), to, Read16(q, 10), Read16(q, HeaderLen(p) + 16))
  {
  }

  lemma RewrittenIs(p: seq<Byte>, q: seq<Byte>, to: FlowKey)
    requires IsTcp(p) && HeaderLen(p) >= 20 && |q| == |p|
    requires ParseTcp(q) == Some(WithEndpoints(ParseTcp(p).value, to))
    requires forall i :: 0 <= i < |p| && !Rewritten(i, HeaderLen(p)) ==> q[i] == p[i]
    ensures IsTcp(q) && HeaderLen(q) >= 20
    ensures TcpPacketOf(q) == Redirected(TcpPacketOf(p), to, Read16(q, 10), Read16(q, HeaderLen(p) + 16))
  {
    SameParse(p, q, to);
    SameHeader(p, q);
    SameRest(p, q, HeaderLen(p), Read16(p, 2));
    RewrittenFields(p, q, to);
  }

  lemma VerifiedOf(q: seq<Byte>, u: TcpPacket)
    requires IsTcp(q) && HeaderLen(q) >= 20 && TcpPacketOf(q) == u
    requires Verifies(Prefix(q, HeaderLen(q))) && Verifies(Pseudo(q, 6, HeaderLen(q), Read16(q, 2) - HeaderLen(q)))
    ensures IsTcpPacket(u) && q == EncodeTcp(u) && TcpVerifies(u)
  {
    SegmentIsEncoded(q);
    TcpPacketOfEncoded(u);
    TcpVerifiesIff(u);
  }

  /** What a faithful rewrite gives. */
  lemma FaithfulGives(p: seq<Byte>, to: FlowKey, off: nat, len: Word, q: seq<Byte>)
    requires IsTcp(p) && off == HeaderLen(p) >= 20 && len == Read16(p, 2) - off && RewriteTcp(p, off, len, to) == Some(q)
    ensures |q| == |p| && ParseTcp(q) == Some(WithEndpoints(ParseTcp(p).value, to))
    ensures forall i :: 0 <= i < |p| && !Rewritten(i, off) ==> q[i] == p[i]
    ensures Verifies(Prefix(q, off)) && Verifies(Pseudo(q, 6, off, len))
  {
    RewriteIsFaithful(p, to);
  }

  lemma RewriteIs(p: seq<Byte>, to: FlowKey, off: nat, len: Word) returns (q: seq<Byte>)
    requires IsTcp(p) && off == HeaderLen(p) >= 20 && len == Read16(p, 2) - off
    ensures RewriteTcp(p, off, len, to) == Some(q) && Rewrite(p, to) == Written(q)
  {
    ReadsPastEndIff(p, to);
    q := RewriteTcp(p, off, len, to).value;
  }

  lemma RewriteOf(p: seq<Byte>, to: FlowKey) returns (q: seq<Byte>)
    requires IsTcp(p) && HeaderLen(p) >= 20
    ensures Rewrite(p, to) == Written(q) && IsTcp(q) && HeaderLen(q) == HeaderLen(p)
    ensures TcpPacketOf(q) == Redirected(TcpPacketOf(p), to, Read16(q, 10), Read16(q, HeaderLen(p) + 16))
    ensures Verifies(Prefix(q, HeaderLen(q))) && Verifies(Pseudo(q, 6, HeaderLen(q), Read16(q, 2) - HeaderLen(q)))
  {
    var off, len := HeaderLen(p), Read16(p, 2) - HeaderLen(p);
    q := RewriteIs(p, to, off, len);
    FaithfulGives(p, to, off, len, q);
    SameParse(p, q, to);
    RewrittenIs(p, q, to);
  }

  /** A rewrite of a packet changes its endpoints and checksums and nothing else, and leaves both checksums valid. */
  lemma RewriteRedirects(t: TcpPacket, to: FlowKey) returns (headerSum: Word, tcpSum: Word)
    requires IsTcpPacket(t)
    ensures var u := Redirected(t, to, headerSum, tcpSum);
            && IsTcpPacket(u) && TcpVerifies(u)
            && IsTcp(EncodeTcp(t)) && Rewrite(EncodeTcp(t), to) == Written(EncodeTcp(u))
  {
    TcpPacketOfEncoded(t);
    var q := RewriteOf(EncodeTcp(t), to);
    headerSum, tcpSum := Read16(q, 10), Read16(q, Size(t.header) + 16);
    VerifiedOf(q, Redirected(t, to, headerSum, tcpSum));
  }

  lemma PortsKeptIff(a: Word, b: Word, c: Word, d: Word)
    ensures Ports(a, b) == Ports(c, d) <==> a == c && b == d
  {
    var s, t := Ports(a, b), Ports(c, d);
    if s == t {
      assert s[0] == t[0] && s[1] == t[1] && s[2] == t[2] && s[3] == t[3];
    }
  }

  /**
   What stands behind the header is the data of a later fragment, which has no ports: a rewrite keeps it
   only if the ports and the checksum it writes happen to be there already.
   */
  lemma DataIsKeptIff(t: TcpPacket, to: FlowKey, headerSum: Word, tcpSum: Word)
    requires |t.rest| >= 16
    ensures TcpBody(Redirected(t, to, headerSum, tcpSum)) == TcpBody(t) <==>
            to.srcPort == t.srcPort && to.dstPort == t.dstPort && tcpSum == Read16(t.rest, 12)
  {
    var u := Redirected(t, to, headerSum, tcpSum);
    PortsKeptIff(to.srcPort, to.dstPort, t.srcPort, t.dstPort);
    assert TcpBody(u)[..4] == Ports(to.srcPort, to.dstPort) && TcpBody(u)[4..] == u.rest;
    assert TcpBody(t)[..4] == Ports(t.srcPort, t.dstPort) && TcpBody(t)[4..] == t.rest;
    assert u.rest[12] == tcpSum / 0x100 && u.rest[13] == tcpSum % 0x100;
    if tcpSum == Read16(t.rest, 12) {
      assert u.rest == t.rest;
    }
  }

  // ---- the TCP handler ----

  /** The packet leaves with these endpoints and nothing else changed but its checksums, which are valid; the table becomes m. */
  ghost predicate LeavesFor(n: Nat, c: Config, t: TcpPacket, m: Nat, to: FlowKey)
    requires IsTcpPacket(t)
  {
    exists headerSum: Word, tcpSum: Word :: IsSent(n, c, t, m, Redirected(t, to, headerSum, tcpSum))
  }

  ghost predicate IsSent(n: Nat, c: Config, t: TcpPacket, m: Nat, sent: TcpPacket)
    requires IsTcpPacket(t)
  {
    IsTcpPacket(sent) && TcpVerifies(sent) && TcpStep(n, c, EncodeTcp(t)) == Some((m, Written(EncodeTcp(sent))))
  }

  predicate IsFromRelay(c: Config, t: TcpPacket) { t.header.src == c.tunIp && t.srcPort == c.listenPort }

  /** A packet of the stack goes to the tunnel's address and the relay's port, from the next address and its NAT port. */
  lemma StackPacketLeaves(n: Nat, c: Config, t: TcpPacket)
    requires IsTcpPacket(t) && !IsFromRelay(c, t) && Lookup(n, KeyOfTcp(t)).Some?
    ensures var f := Lookup(n, KeyOfTcp(t)).value;
            LeavesFor(n, c, t, f.table, FlowKey(c.tunNextIp, f.port, c.tunIp, c.listenPort))
  {
    var f := Lookup(n, KeyOfTcp(t)).value;
    var to := FlowKey(c.tunNextIp, f.port, c.tunIp, c.listenPort);
    SegmentIsRead(t);
    var headerSum, tcpSum := RewriteRedirects(t, to);
    assert IsSent(n, c, t, f.table, Redirected(t, to, headerSum, tcpSum));
  }

  /** A packet of the relay to a live port goes to that session's source, from its destination; to any other port it is dropped. */
  lemma RelayPacketLeaves(n: Nat, c: Config, t: TcpPacket)
    requires IsTcpPacket(t) && IsFromRelay(c, t)
    ensures t.dstPort !in n.reverse ==> TcpStep(n, c, EncodeTcp(t)) == Some((n, Dropped))
    ensures t.dstPort in n.reverse ==>
              var k := n.reverse[t.dstPort]; LeavesFor(n, c, t, n, FlowKey(k.dstIp, k.dstPort, k.srcIp, k.srcPort))
  {
    SegmentIsRead(t);
    if t.dstPort in n.reverse {
      var k := n.reverse[t.dstPort];
      var to := FlowKey(k.dstIp, k.dstPort, k.srcIp, k.srcPort);
      var headerSum, tcpSum := RewriteRedirects(t, to);
      assert IsSent(n, c, t, n, Redirected(t, to, headerSum, tcpSum));
    }
  }

  /** What holds no segment is dropped and leaves the table alone. */
  lemma OtherPacketsAreDropped(n: Nat, c: Config, p: seq<Byte>)
    requires |p| > 0 ==> HeaderLen(p) >= 20
    requires forall t :: IsTcpPacket(t) ==> p != EncodeTcp(t)
    ensures TcpStep(n, c, p) == Some((n, Dropped))
  {
    if IsTcp(p) {
      SegmentIsEncoded(p);
      assert false;
    }
  }

  lemma SentIs(n: Nat, c: Config, t: TcpPacket, m: Nat, sent: TcpPacket)
    requires IsTcpPacket(t) && !IsFromRelay(c, t) && Lookup(n, KeyOfTcp(t)).Some?
    requires IsTcpPacket(sent) && TcpStep(n, c, EncodeTcp(t)) == Some((m, Written(EncodeTcp(sent))))
    ensures var f := Lookup(n, KeyOfTcp(t)).value;
            m == f.table && KeyOfTcp(sent) == FlowKey(c.tunNextIp, f.port, c.tunIp, c.listenPort)
  {
    StackPacketLeaves(n, c, t);
    var f := Lookup(n, KeyOfTcp(t)).value;
    var to := FlowKey(c.tunNextIp, f.port, c.tunIp, c.listenPort);
    var headerSum: Word, tcpSum: Word :| IsSent(n, c, t, f.table, Redirected(t, to, headerSum, tcpSum));
    TcpPacketOfEncoded(sent);
    TcpPacketOfEncoded(Redirected(t, to, headerSum, tcpSum));
  }

  /**
   The round trip.  A packet of the stack is sent to the relay; whatever the table does next short of
   erasing its port, every packet with the reverse of what was sent is taken as the relay's and comes
   back to the original source, from the original destination.
   */
  lemma {:induction false} TcpRoundTrip(n: Nat, c: Config, t: TcpPacket, m: Nat, sent: TcpPacket, later: seq<Op>, answer: TcpPacket)
    requires Valid(n) && n.maxSessions == 0
    requires IsTcpPacket(t) && !IsFromRelay(c, t) && Lookup(n, KeyOfTcp(t)).Some?
    requires IsTcpPacket(sent) && TcpStep(n, c, EncodeTcp(t)) == Some((m, Written(EncodeTcp(sent))))
    requires EraseOp(sent.srcPort) !in later && RunFrom(m, later).Some?
    requires IsTcpPacket(answer) && KeyOfTcp(answer) == FlowKey(sent.header.dst, sent.dstPort, sent.header.src, sent.srcPort)
    ensures answer.header.src == c.tunIp && answer.srcPort == c.listenPort
    ensures var last := RunFrom(m, later).value;
            LeavesFor(last, c, answer, last, FlowKey(t.header.dst, t.dstPort, t.header.src, t.srcPort))
  {
    SentIs(n, c, t, m, sent);
    LookupKeepsValid(n, KeyOfTcp(t));
    var f := Lookup(n, KeyOfTcp(t)).value;
    MappingSurvives(f.table, later, f.port);
    RelayPacketLeaves(RunFrom(m, later).value, c, answer);
  }

  // ---- the response packet ----

  ghost predicate UdpVerifies(u: UdpPacket)
    requires IsUdpPacket(u) && u.slack == []
  {
    Verifies(EncodeHeader(u.header, 17, UdpBody(u))) && Verifies(WithPseudoHeader(u.header, 17, UdpBody(u)))
  }

  /** The packet that answers a session: no options, no fragment, time to live 64, from the session's destination to its source. */
  function Response(session: FlowKey, data: seq<Byte>, headerSum: Word, udpSum: Word): UdpPacket {
    UdpPacket(Header(0, 0, 2, 0, 64, headerSum, session.dstIp, session.srcIp, []), session.dstPort, session.srcPort, udpSum, data, [], [])
  }

  /** All of its bytes: it is that packet, with two valid checksums, the second not zero. */
  lemma ResponseIs(session: FlowKey, data: seq<Byte>) returns (headerSum: Word, udpSum: Word)
    requires |data| <= 65507
    ensures var u := Response(session, data, headerSum, udpSum);
            IsUdpPacket(u) && BuildUdp(session, data) == Some(EncodeUdp(u)) && UdpVerifies(u) && udpSum != 0
  {
    UdpRoundTrip(session, data);
    var p := BuildUdp(session, data).value;
    headerSum, udpSum := Read16(p, 10), Read16(p, 26);
    ResponseHeaderIs(session, data, p);
    DatagramIsEncoded(p);
    ResponseVerifies(p, Response(session, data, headerSum, udpSum));
  }

  lemma ResponseHeaderIs(session: FlowKey, data: seq<Byte>, p: seq<Byte>)
    requires |data| <= 65507 && BuildUdp(session, data) == Some(p)
    ensures IsUdp(p) && HeaderLen(p) == 20
    ensures UdpPacketOf(p) == Response(session, data, Read16(p, 10), Read16(p, 26))
  {
    ResponseBytes(session, data, p);
    HeadersParse(p, session, data);
    ResponseFields(p, UdpHeaders(session, |data|), session, data);
  }

  lemma ResponseBytes(session: FlowKey, data: seq<Byte>, p: seq<Byte>)
    requires |data| <= 65507 && BuildUdp(session, data) == Some(p)
    ensures |p| == 28 + |data| && p[28..] == data
    ensures forall i :: 0 <= i < 26 && i != 10 && i != 11 ==> p[i] == UdpHeaders(session, |data|)[i]
  {
    var headers := UdpHeaders(session, |data|);
    var filled := headers[..28] + data;
    HeadersRead(session, |data|);
    assert filled[0] == headers[0];
    UdpRecalculatedVerifies(filled, 8 + |data|);
  }

  lemma ResponseFields(p: seq<Byte>, headers: seq<Byte>, session: FlowKey, data: seq<Byte>)
    requires |data| <= 65507 && |p| == 28 + |data| && headers == UdpHeaders(session, |data|)
    requires forall i :: 0 <= i < 26 && i != 10 && i != 11 ==> p[i] == headers[i]
    requires p[28..] == data && IsUdp(p)
    ensures HeaderLen(p) == 20 && UdpPacketOf(p) == Response(session, data, Read16(p, 10), Read16(p, 26))
  {
    HeadersRead(session, |data|);
    assert p[20..20] == [] && p[28..28 + |data|] == data && p[28 + |data|..28 + |data|] == [] && p[28 + |data|..] == [];
  }

  lemma ResponseVerifies(p: seq<Byte>, u: UdpPacket)
    requires IsUdpPacket(u) && u.slack == [] && p == EncodeUdp(u) && Size(u.header) == 20
    requires Verifies(Prefix(p, 20)) && Verifies(Pseudo(p, 17, 20, 8 + |u.payload|))
    ensures UdpVerifies(u)
  {
    PacketIsRead(u.header, 17, UdpBody(u), u.trailing);
    PrefixIs(u.header, 17, UdpBody(u), u.trailing);
    PseudoIs(p, u.header, 17, 20, UdpBody(u));
  }
}
