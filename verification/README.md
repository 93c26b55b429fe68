# cppbox: a model of the TUN datapath, the wire parsers and CIDR matching

cppbox is a proxy client. Its TUN inbound takes raw IPv4 packets from a virtual adapter, rewrites TCP
packets towards a local relay through a NAT table, and hands UDP payloads to per-session flows through a
second NAT table. Around it are a DNS wire codec, a TLS ClientHello sniffer, an HTTP proxy request
rewriter and CIDR rules. This project models those parts and proves what they promise over every
input, every run and every schedule.

Code that changes state in place is modelled in place: the NAT table, the packet buffers, the flow table
and the flows are classes and arrays whose methods are proved equal to functions on values; the parsers'
loops are methods with invariants, proved equal to recursive functions. The theorems are lemmas about
those functions. Run `dafny verify dfyconfig.toml` to check everything.

| file | part of the program |
|---|---|
| `Bytes.dfy` | bytes, words, addresses, reading at an offset |
| `NatTable.dfy`, `NatHistory.dfy`, `TunNat.dfy` | the NAT table as a value, its runs, the class |
| `InternetChecksum.dfy` | `checksum` and the three recalculations, against RFC 1071 |
| `TunPacket.dfy`, `TunUdpPacket.dfy` | TCP rewriting; UDP parsing and building |
| `PacketLayout.dfy` | IPv4, UDP and TCP packets from RFC 791, 768 and 793: what is accepted, what is read, what leaves |
| `UdpFlowModel.dfy` | a UDP flow and its coroutines as a transition system |
| `FlowTable.dfy`, `FlowRace.dfy` | the flow table beside the NAT table; the two halves of an erasure |
| `FlowBlocks.dfy` | packet handling and erasures as locked blocks in any order |
| `FlowInstances.dfy` | which flow stands on a port, and what an erasure by port hits |
| `TunInbound.dfy` | the packet handlers in place |
| `Witnesses.dfy` | runs from the empty tables to the states where the datapath goes wrong |
| `Numerals.dfy` | decimal and hexadecimal numerals, one for each number |
| `DnsName.dfy`, `DnsMessage.dfy`, `DnsResponse.dfy`, `DnsEncoder.dfy` | compressed names, queries, responses, an encoder from RFC 1035 |
| `TlsSniffer.dfy`, `TlsFrames.dfy` | the ClientHello sniffer, against an encoder from RFC 8446 and RFC 6066, and against extensions with any bodies |
| `HttpProxy.dfy`, `HttpRequest.dfy` | the request rewriter against a message splitter; authorities and ports |
| `HttpSession.dfy` | which whole requests are served, and what they become |
| `Cidr.dfy` | IPv4 and IPv6 prefix matching |

## Where the code differs from what one would expect

For each of these one theorem says exactly when the code does what is expected, and another gives an
input or a run from the empty tables on which it does not.

- **Short IP headers.** The handlers do not check that the header length is at least 20. Every rewrite is
  faithful exactly for header lengths of at least 20 bytes (`FaithfulExactlyFrom20`, `ShortHeaderSpoils`).
  With a header length of 0 the ports overwrite the packet's first byte, which the IPv4 recalculation then
  reads again; `ReadsPastEndIff` says when it reads past the packet's end, and `PastEndIsReached` that the
  very first packet can make it.
  The UDP handler reads a packet exactly as RFC 768 has it from 20 bytes on (`DatagramIsReadIff`); shorter
  headers, which hold no datagram, are accepted too (`ShortHeaderIsRead`).
- **Fragments.** A UDP fragment is ignored (`DatagramIsRead`). A TCP fragment is taken for a whole segment
  (`SegmentIsReadIff`), so the first bytes of a later one's data are read and overwritten as its ports; they
  are kept if and only if they happen to be what is written (`DataIsKeptIff`).
- **The allocator's loop.** `lookup_or_create` never returns if and only if the key is new, all 55536 ports
  are live and none can be evicted (`LookupHangsIff`). The UDP table has 1024 sessions, so there it always
  returns; the TCP table has no bound, and 55536 lookups of new keys bring it there (`HangIsReached`).
- **A valid UDP packet may be dropped.** With `handle_udp_packet` as one step it is, if and only if the
  table is full, the key is new and the cursor is about to reissue the port of the session just evicted
  (`DroppedIff`; `DropIsReached` gives a run). The same packet sent again gets through
  (`RetryAfterDropSucceeds`). But the packet loop has its own thread, and the coroutines' erasures come
  between its locked blocks. Block by block, a packet is dropped if and only if some block between its
  lookup and its check erases its port (`DroppedIffKilled`); one whole erasure there is enough, in a table
  that need not be full (`OneErasureDrops`).
- **Erasing a flow is two critical sections.** With `handle_udp_packet` as one step an interleaving breaks
  the tables if and only if a second section finds a flow at its port (`ConsistentThroughoutIff`). One packet
  of the flow's own 4-tuple between the two is enough (`OnePacketOvertakes`), and after a round of the
  allocator another 4-tuple is given the port and its payload goes to the flow that was left behind
  (`MisdeliveryIsReached`). Block by block there is a second way: a flow is built on a port that was erased
  after the check (`OneErasureStrands`). An interleaving of the locked blocks breaks the tables if and only
  if one of these two happens (`SteadyThroughoutIff`), and until then every payload goes to a flow of its own
  4-tuple (`SteadyBuildDelivers`).
- **Coroutines erase by port.** A flow's coroutines may end after the flow has left the table. Their erasure
  then removes another flow if and only if the port has been issued again since
  (`LateErasureHitsStrangerIff`), which takes a whole round of the allocator (`StrangersComeLate`) and does
  occur (`StrangerIsReached`).
- **The checksum's accumulator** has 32 bits. The result is the RFC's if and only if the sum stays below
  2^32, or wraps a multiple of 65535 times and leaves a remainder (`ComputedIsChecksumIff`); 65538 words of
  all ones are summed wrongly (`OneMoreWordOverflows`). No packet here has more than 65537 words.
- **A ClientHello without an extensions block** makes the sniffer read on behind the record. Among messages
  with well-formed name lists it is right whatever follows if and only if the message has the block
  (`SniffedRightIff`, `BlockBehindIsFound`). Name lists, too, are held only to the end of the data, not to
  their extension or the block. For extensions with any bodies, the walk ends as the message itself says,
  whatever follows, if and only if there is a block and every server_name body up to the first that yields a
  name is a name list that fits it (`VerdictIsOwnIff`); `StrayNameIsFound` is a complete message with an empty
  server_name extension, for which a name from behind the record is returned.
- **DNS names and aliases.** A pointer may point forwards and a name may be longer than 255 octets, which
  RFC 1035 rules out; `ReadNameIsStandardIff` says when a name that is read is one of the RFC's, and
  `ForwardPointerIsRead` and `AnyLengthIsRead` give names that are not. The encoder here, likewise, lets a
  pointer point anywhere. An alias is read from the start of the record's data without regard to the data's
  length: an accepted packet is the encoding of a response if and only if every alias fills its data exactly
  (`AcceptedIsEncodedIff`); `AliasRunsOn` is an accepted packet whose alias has no data at all.
- **The target of a rewritten request** is split at its first slash. That gives the authority of section 3.2
  of RFC 3986 and the origin form of section 3.2.1 of RFC 9112 if and only if no query starts before the
  slash and there is no fragment (`TargetIsReadRightIff`). `GET http://a?b HTTP/1.1` loses its query
  (`QueryIsLost`), and `GET http://a#b/c HTTP/1.1` is sent to the host `a#b` (`FragmentIsSent`).
- **A tunnel starts without the bytes read behind its header.** A CONNECT request loses nothing if and only if
  the read ended at the blank line (`TunnelLosesNothingIff`, `TunnelLosesBody`).

## Model

| member | source | states |
|---|---|---|
| NatTable.EvictsTheHead | src/inbound/tun_nat.cpp:31-47 | in a valid table the head of the LRU list is live, so the stale-entry branch of the eviction loop is never taken |
| NatTable.EvictKeepsValid | src/inbound/tun_nat.cpp:31-47 | eviction removes exactly one session and keeps both maps mutual inverses and the LRU list a listing of the live ports |
| NatTable.EraseKeepsValid | src/inbound/tun_nat.cpp:95-109 | erasing keeps the invariant and removes that port's session and no other |
| NatTable.EachLivePortOnce | src/inbound/tun_nat.hpp:45-51 | the invariant's listing means: no port twice in `lru_`, and a port is in it if and only if it is live |
| NatTable.AllLiveIff | src/inbound/tun_nat.cpp:82-93 | the pigeonhole bound: at most 55536 ports are live, and 55536 exactly when every port from 10000 up is |
| NatTable.AllocFindsFirstFree | src/inbound/tun_nat.cpp:82-93 | the allocator's loop ends on the first free port in cyclic order, across the wrap past 65535, with the cursor behind it |
| NatTable.AllocReturns | src/inbound/tun_nat.cpp:82-93 | with fewer than 55536 live ports it does so within 55537 iterations |
| NatTable.AllocEndsIff | src/inbound/tun_nat.cpp:82-93 | the loop ever ends if and only if fewer than 55536 ports are live |
| NatTable.LookupHangsIff | src/inbound/tun_nat.cpp:49-81 | a lookup returns if and only if its key is known, a port is free or a session can be evicted; always for a bound of 1 to 55536 |
| NatTable.LookupMiss | src/inbound/tun_nat.cpp:62-81 | a new key gets the first free port after at most one eviction, and that port becomes the most recently used |
| NatTable.LookupKeepsValid | src/inbound/tun_nat.cpp:49-81 | a lookup keeps the invariant and the capacity bound, and maps the key to the port it returns |
| NatTable.SessionsAfterLookup | src/inbound/tun_nat.cpp:49-81 | the sessions afterwards are those before, less the evicted one, plus the key's; the new port was free unless it is the evicted one |
| NatHistory.EveryRunIsValid | src/inbound/tun_nat.cpp:23-118 | the invariant holds after every sequence of operations |
| NatHistory.BoundedTablesNeverHang | src/inbound/tun_nat.cpp:62-93 | a table bounded by 1 to 55536 sessions completes every sequence of operations |
| NatHistory.PortIsStable | src/inbound/tun_nat.cpp:49-109 | a live key keeps its port through any operation, except exactly the one that erases or evicts that port |
| NatHistory.LruIsSortedByLastUse | src/inbound/tun_nat.cpp:23-29 | against the history of operations, the LRU list is strictly sorted by each live session's last lookup |
| NatHistory.EvictsLeastRecentlyUsed | src/inbound/tun_nat.cpp:62-75 | a lookup evicts if and only if the key is new and the table full, and the evicted session's last use is strictly the oldest |
| NatHistory.PassesOfALookup | src/inbound/tun_nat.cpp:82-93 | what one allocation examines: ports in use, then the one it issues |
| NatHistory.CursorWalksTheCycle | src/inbound/tun_nat.cpp:82-93 | over a whole run the i-th port examined is 10000 + i mod 55536, across all allocations |
| NatHistory.ReissueGoesRound | src/inbound/tun_nat.cpp:82-93 | between two issues of a port every other port was issued, or in use when the cursor passed it |
| TunNat.TunNat.constructor | src/inbound/tun_nat.hpp:45-51 | the fresh table is empty, with its cursor at 10000 |
| TunNat.TunNat.TouchLocked | src/inbound/tun_nat.cpp:23-29 | in place, the port moves to the back of the LRU list |
| TunNat.TunNat.EvictOneLocked | src/inbound/tun_nat.cpp:31-47 | the loop in place refines the eviction above |
| TunNat.TunNat.AllocatePortLocked | src/inbound/tun_nat.cpp:82-93 | on every valid table the loop in place refines the allocator above: the same port and cursor, or still running after 55537 iterations, and then for ever |
| TunNat.TunNat.LookupOrCreate | src/inbound/tun_nat.cpp:49-81 | on every valid table the method in place refines the lookup above, and never returns exactly when that does not |
| TunNat.TunNat.Erase | src/inbound/tun_nat.cpp:95-109 | in place, refines erasing |
| TunNat.TunNat.LookupBack | src/inbound/tun_nat.cpp:110-118 | the session of a live port, or none |
| InternetChecksum.FoldIsResidue | src/inbound/tun_checksum.cpp:20-22 | folding keeps the value modulo 65535, and yields zero only from zero |
| InternetChecksum.FoldedSumIsOnesSum | src/inbound/tun_checksum.cpp:7-25 | summing first and folding once is the one's-complement sum of section 1 of RFC 1071 |
| InternetChecksum.AddWords | src/inbound/tun_checksum.cpp:8-18 | the accumulation loop computes the sum of the big-endian words, an odd last byte padded, modulo 2^32 |
| InternetChecksum.FoldAndComplement | src/inbound/tun_checksum.cpp:20-24 | the folding loop ends, and its result is complemented |
| InternetChecksum.ComputedIsChecksumIff | src/inbound/tun_checksum.cpp:7-25 | for every input the wrapping sum gives the RFC's checksum if and only if it does not wrap, or wraps a multiple of 65535 times and leaves a remainder |
| InternetChecksum.ComputeChecksum | src/inbound/tun_checksum.cpp:7-25 | the loops in place compute the RFC's checksum exactly then, so on all inputs of up to 65537 words |
| InternetChecksum.OneMoreWordOverflows | src/inbound/tun_checksum.cpp:8-13 | the bound is exact: 65538 words of all ones are summed wrongly |
| InternetChecksum.RecalcIpv4Checksum | src/inbound/tun_checksum.cpp:27-36 | in place, the header with its checksum over the claimed header length |
| InternetChecksum.RecalcTcpChecksum | src/inbound/tun_checksum.cpp:38-58 | in place, the segment's checksum with the pseudo-header |
| InternetChecksum.RecalcUdpChecksum | src/inbound/tun_checksum.cpp:59-82 | in place, the datagram's checksum with the pseudo-header, zero replaced by 0xffff |
| InternetChecksum.Ipv4HeaderVerifiesIff | src/inbound/tun_checksum.cpp:27-36 | the header sums to all ones afterwards if and only if its length covers the checksum field or it did so before |
| InternetChecksum.TcpSegmentVerifies | src/inbound/tun_checksum.cpp:38-58 | the segment with its pseudo-header sums to all ones afterwards, odd lengths included |
| InternetChecksum.UdpDatagramVerifies | src/inbound/tun_checksum.cpp:59-82 | so does the datagram, and the stored checksum is never zero |
| TunPacket.ReadsPastEndIff | src/inbound/tun_inbound.cpp:240-278 | a rewrite stays inside the packet unless the header length is zero and the new port's high byte claims more than there is |
| TunPacket.PastEndLeaves | src/inbound/tun_inbound.cpp:240-278 | the bytes as they stand when it does not: the new endpoints, the ports in the packet's first bytes, a cleared checksum, and nothing else changed |
| TunPacket.RewriteIsFaithful | src/inbound/tun_inbound.cpp:240-278 | with a header length of at least 20: the new addresses and ports are read back, every other byte but the two checksums is unchanged, and both checksums verify |
| TunPacket.ShortHeaderSpoils | src/inbound/tun_inbound.cpp:206-238 | for each shorter header length a packet that the rewrite spoils |
| TunPacket.FaithfulExactlyFrom20 | src/inbound/tun_inbound.cpp:206-278 | the header lengths at which every rewrite is faithful are exactly those of at least 20 bytes |
| PacketLayout.SegmentIsReadIff | src/inbound/tun_inbound.cpp:206-238 | with a header of at least 20 bytes, a packet is taken for TCP, with these endpoints and this segment, if and only if it is laid out so by section 3.1 of RFC 791 and of RFC 793, whatever its options and other fields, and whatever stands behind it |
| Witnesses.PastEndIsReached | src/inbound/tun_inbound.cpp:206-278 | in an empty table, a shortest packet that claims no header is rewritten past its end |
| NatHistory.HangIsReached | src/inbound/tun_nat.cpp:49-93 | a run of the unbounded table after which one more lookup never returns |
| TunPacket.MappingSurvives | src/inbound/tun_nat.cpp:49-118 | in the unbounded TCP table a mapping lives through every run that does not erase its port |
| PacketLayout.RewriteRedirects | src/inbound/tun_inbound.cpp:240-278 | a rewrite of any TCP packet gives the packet with the new endpoints and two valid checksums, every other field, option and byte as it was |
| PacketLayout.DataIsKeptIff | src/inbound/tun_inbound.cpp:240-278 | the bytes behind the header, which in a later fragment are data, are kept if and only if the ports and the checksum written are there already |
| PacketLayout.StackPacketLeaves | src/inbound/tun_inbound.cpp:262-278 | a packet of the stack leaves from `tun_next_ip_` and its NAT port for `tun_ip_` and the relay's port |
| PacketLayout.RelayPacketLeaves | src/inbound/tun_inbound.cpp:240-260 | a packet of the relay leaves for the source of the session on its port, from that session's destination; without a session it is dropped |
| PacketLayout.OtherPacketsAreDropped | src/inbound/tun_inbound.cpp:206-238 | what holds no TCP segment is dropped and changes nothing |
| PacketLayout.TcpRoundTrip | src/inbound/tun_inbound.cpp:206-278 | a packet of the stack is sent on; after any run that does not erase its port, every packet with the reverse of the 4-tuple that was sent is taken as the relay's and comes back to the original source, from the original destination |
| TunUdpPacket.UdpRoundTrip | src/inbound/tun_inbound.cpp:417-518 | for every session and payload a response is built if and only if the payload has at most 65507 bytes; it passes all header tests and parses to the reversed 4-tuple and that payload, both checksums valid |
| PacketLayout.DatagramIsRead | src/inbound/tun_inbound.cpp:417-480 | every UDP datagram in every IPv4 packet is read, 4-tuple and payload, for any options, type of service, identification, don't-fragment bit, time to live, checksums and bytes behind it; no fragment is |
| PacketLayout.DatagramIsReadIff | src/inbound/tun_inbound.cpp:417-480 | with a header of at least 20 bytes, nothing else is |
| PacketLayout.ShortHeaderIsRead | src/inbound/tun_inbound.cpp:417-449 | for each shorter header length a packet that is taken for a datagram although it holds none |
| PacketLayout.ResponseIs | src/inbound/tun_inbound.cpp:483-518 | every byte of a response: no options, identification 0, don't fragment, time to live 64, from the session's destination to its source, the payload, and two valid checksums, the second not zero |
| TunUdpPacket.UdpRecalculatedVerifies | src/inbound/tun_inbound.cpp:513-514 | the two recalculations touch only the checksum fields, and both verify |
| UdpFlowModel.StepKeepsInv | src/inbound/tun_inbound.cpp:285-399 | every step of every coroutine keeps the flow's invariant |
| UdpFlowModel.NothingLostOrReordered | src/inbound/tun_inbound.cpp:285-376 | in every run: payloads sent, the one in flight or lost, and those waiting are exactly those enqueued, in order |
| UdpFlowModel.AtMostOneOfEach | src/inbound/tun_inbound.cpp:285-376 | in every run at most one send loop is owed or alive, none after a failed send, and `start` is spawned at most once |
| UdpFlowModel.NoLostWakeUp | src/inbound/tun_inbound.cpp:289-361 | before a failure waiting payloads have exactly one send loop, or one start in progress; `sending` implies `connected`; `connecting` and `connected` exclude each other |
| UdpFlowModel.ConnectAlwaysStartsSending | src/inbound/tun_inbound.cpp:310-333 | when a connect succeeds no send loop exists yet, so `start` always spawns one |
| UdpFlowModel.FailureIsFinal | src/inbound/tun_inbound.cpp:310-376 | after a failed connect or send the flow sends nothing more and never starts again |
| UdpFlowModel.EveryScheduleDelivers | src/inbound/tun_inbound.cpp:285-376 | however the coroutines are scheduled, without failures they come to rest within a bounded number of steps, with everything sent in order |
| UdpFlowModel.SomeScheduleDelivers | src/inbound/tun_inbound.cpp:285-376 | and they are never stuck before that |
| FlowTable.AtMost1024Flows | src/inbound/tun_inbound.hpp:70 | at most 1024 flows |
| FlowTable.HandleDelivers | src/inbound/tun_inbound.cpp:450-480 | handling a packet keeps every flow's port live for the flow's own session; the payload goes to the flow of its own 4-tuple, and is dropped if and only if the new port is the evicted one |
| FlowTable.ReissuesTheEvictedIff | src/inbound/tun_nat.cpp:62-93 | the new port is the evicted one if and only if the table is full, the key new, and every port from the cursor to the oldest session's is live |
| FlowTable.DroppedIff | src/inbound/tun_inbound.cpp:450-461 | a valid packet is dropped exactly then |
| FlowTable.RetryAfterDropSucceeds | src/inbound/tun_inbound.cpp:450-461 | the same packet again is delivered |
| FlowTable.EveryRunIsConsistent | src/inbound/tun_inbound.cpp:450-558 | every sequence of packets, erasures and stops completes with the two tables consistent |
| Witnesses.DropIsReached | src/inbound/tun_inbound.cpp:450-461 | a run from the empty tables after which a valid packet is dropped |
| FlowInstances.OwnerIsLastIssuer | src/inbound/tun_inbound.cpp:450-535 | in a run without a stop the flow on a port was built by the operation that last issued the port |
| FlowInstances.LateErasureHitsStrangerIff | src/inbound/tun_inbound.cpp:373-398 | a flow's erasure by port removes another flow if and only if the port was issued again since the flow was built; without a flow there it does nothing |
| FlowInstances.ReissueTakesARound | src/inbound/tun_nat.cpp:82-93 | between two issues of a port the allocator examines at least 55536 ports |
| FlowInstances.StrangersComeLate | src/inbound/tun_inbound.cpp:373-398 | so such an erasure comes a whole round of the allocator after the flow was built |
| FlowInstances.HistoryExists | src/inbound/tun_inbound.cpp:450-535 | every sequence of operations has the history that these speak of, and it ends in the run's table |
| Witnesses.StrangerIsReached | src/inbound/tun_inbound.cpp:373-398 | a run in which it does remove another flow |
| FlowRace.HalvesMakeTheWhole | src/inbound/tun_inbound.cpp:519-535 | the two locked blocks of an erasure with nothing in between are the single step |
| FlowRace.ConsistentThroughoutIff | src/inbound/tun_inbound.cpp:519-535 | an interleaving of whole handlers and half erasures is consistent throughout if and only if no second block finds a flow at its port |
| FlowRace.OnePacketOvertakes | src/inbound/tun_inbound.cpp:450-535 | for any flow in any table, one packet of its own 4-tuple between the halves leaves it without a session |
| FlowRace.Misdelivers | src/inbound/tun_inbound.cpp:450-480 | such a flow gets the payloads of whichever 4-tuple is given its port next |
| FlowBlocks.BlockBreaksIff | src/inbound/tun_inbound.cpp:450-535 | a locked block of the packet handler or of an erasure breaks the tables exactly if it is the second half of an erasure that finds a flow on its port again, or builds a flow on a port that has died |
| FlowBlocks.SteadyThroughoutIff | src/inbound/tun_inbound.cpp:450-535 | an interleaving of locked blocks keeps the tables in step throughout if and only if it has no such block |
| FlowBlocks.SteadyBuildDelivers | src/inbound/tun_inbound.cpp:463-480 | while they are in step, the payload goes to a flow of its own 4-tuple |
| FlowBlocks.DroppedIffKilled | src/inbound/tun_inbound.cpp:450-461 | however the blocks interleave, a packet is dropped if and only if a block between its lookup and its check erases its port |
| FlowBlocks.LookUpStarts | src/inbound/tun_inbound.cpp:450-455 | a lookup leaves the packet's port live, so that condition applies from every lookup on |
| FlowBlocks.BlocksMakeHandle | src/inbound/tun_inbound.cpp:450-472 | the blocks with nothing in between are the single step |
| FlowBlocks.OneErasureDrops | src/inbound/tun_inbound.cpp:450-461 | one erasure between lookup and check drops the packet, in any table |
| FlowBlocks.OneErasureStrands | src/inbound/tun_inbound.cpp:458-472 | one erasure between check and build leaves a flow on a dead port |
| Witnesses.MisdeliveryIsReached | src/inbound/tun_inbound.cpp:450-535 | an interleaving from the empty tables after which a payload goes to a flow of another 4-tuple |
| TunInbound.TunUdpFlow.Enqueue | src/inbound/tun_inbound.cpp:285-308 | the locked block in place, and what is spawned after it |
| TunInbound.TunUdpFlow.Connected | src/inbound/tun_inbound.cpp:319-328 | the locked block of `start` in place |
| TunInbound.TunUdpFlow.Take | src/inbound/tun_inbound.cpp:346-361 | the locked block of `send_loop` in place |
| TunInbound.TunInbound.RewriteInPlace | src/inbound/tun_inbound.cpp:240-278 | both directions' tail in place refines the rewrite above, or reads past the end exactly when that says so |
| TunInbound.TunInbound.HandleTcpPacket | src/inbound/tun_inbound.cpp:206-278 | verdict, packet bytes and NAT table after any packet are those of the step that `StackPacketLeaves`, `RelayPacketLeaves` and `OtherPacketsAreDropped` describe; the read past the end, with the bytes as they stand at that read, and the lookup that never returns are verdicts of their own |
| TunInbound.TunInbound.ReadUdp | src/inbound/tun_inbound.cpp:417-449 | in place, the 4-tuple and payload of exactly the packets that `DatagramIsReadIff` describes |
| TunInbound.TunInbound.LookupAndClear | src/inbound/tun_inbound.cpp:450-455 | the evicted session's flow leaves the table and is closed; nothing else does |
| TunInbound.TunInbound.FlowFor | src/inbound/tun_inbound.cpp:450-472 | the flow of the 4-tuple, found or created, and both tables and the closed flows afterwards |
| TunInbound.TunInbound.Deliver | src/inbound/tun_inbound.cpp:450-480 | the payload is enqueued on that flow and on no other |
| TunInbound.TunInbound.HandleUdpPacket | src/inbound/tun_inbound.cpp:417-481 | the same for any packet that holds a datagram; any other changes nothing |
| TunInbound.TunInbound.EraseUdpFlow | src/inbound/tun_inbound.cpp:519-535 | flow and session go together, the flow is closed, no other changes |
| TunInbound.TunInbound.WriteUdpResponse | src/inbound/tun_inbound.cpp:483-518 | exactly the packet of the round trip above is written, or nothing if it would be too long |
| TunInbound.TunInbound.Stop | src/inbound/tun_inbound.cpp:536-557 | every flow leaves the table and is closed once; a second stop does nothing |
| TunInbound.TunInbound.HandleIpv4Packet | src/inbound/tun_inbound.cpp:190-204 | for any packet both tables, the flows, the packet's bytes and the verdict: TCP and UDP go to their handlers, any other packet changes nothing |
| TunInbound.TunInbound.TakePacket | src/inbound/tun_inbound.cpp:160-172 | a packet is written back once, as rewritten, if and only if it is forwarded |
| DnsName.ReadNameInPlace | src/dns/dns_message.cpp:13-54 | the loop, recursive at pointers, terminates on all bytes in bounds and refines the reader below |
| DnsName.ReadNameIff | src/dns/dns_message.cpp:13-54 | a name is read if and only if one is spelled there in labels and pointers, which may point anywhere, within the depth limit; text and end are those of the spelling |
| DnsName.SpelledNamesAreRead | src/dns/dns_message.cpp:13-54 | complete: labels joined with dots, the offset behind the local part only |
| DnsName.ReadNamesAreSpelled | src/dns/dns_message.cpp:13-54 | sound: whatever is read was spelled |
| DnsName.ReadNameIsStandardIff | src/dns/dns_message.cpp:13-54 | a name that is read is one of RFC 1035's if and only if the pointers of its spelling all point to a prior place (section 4.1.4) and it has at most 255 octets (section 3.1) |
| DnsName.ForwardPointerIsRead | src/dns/dns_message.cpp:22-37 | a name behind a pointer that points forwards is read |
| DnsName.ReadNameIsMonotone | src/dns/dns_message.cpp:13-54 | a name read stays the same from a smaller depth and with bytes appended |
| DnsName.NameIsBounded | src/dns/dns_message.cpp:13-54 | a name has at most 17 times the packet's length and its local part ends inside it |
| DnsName.CyclesAreErrors | src/dns/dns_message.cpp:13-54 | a reading that runs into a cycle of labels and pointers is an error, from any depth |
| DnsMessage.BuildQueryInPlace | src/dns/dns_message.cpp:132-161 | the whole builder refines the encoding by pieces |
| DnsMessage.AppendLabels | src/dns/dns_message.cpp:140-156 | its loop appends the encoded labels or fails at the first bad one |
| DnsMessage.EncodeLabelsSpells | src/dns/dns_message.cpp:140-156 | encoding piece by piece succeeds exactly if all pieces are labels |
| DnsMessage.DomainsSplit | src/dns/dns_message.cpp:141-156 | every domain of labels of 1 to 63 bytes, with or without one trailing dot, splits into them |
| DnsMessage.SplitsAreDomains | src/dns/dns_message.cpp:141-156 | and whatever splits into labels is such a domain |
| DnsMessage.AnyLengthIsRead | src/dns/dns_message.cpp:13-54 | a name of any number of labels is read, over 255 octets too |
| DnsMessage.ParseQuestionInPlace | src/dns/dns_message.cpp:109-131 | the question parser, error by error |
| DnsMessage.ParseQuestionIff | src/dns/dns_message.cpp:109-131 | a request is read if and only if it counts a question and spells its name behind the header, with a type and a class after it; name and type are the first question's |
| DnsMessage.QueryRoundTrip | src/dns/dns_message.cpp:109-161 | a query is built exactly for those domains and the empty one; parsing it gives the domain, less one trailing dot, and the type |
| DnsEncoder.QueryIs | src/dns/dns_message.cpp:132-161 | every byte of a query: by the encoder below, a message with identifier 0x1234 that asks for recursion and has one question, for the domain, the type and class IN |
| DnsResponse.SkipQuestion | src/dns/dns_message.cpp:55-61 | one question is skipped |
| DnsResponse.Ipv6TextInPlace | src/dns/dns_message.cpp:68-82 | the loop over the groups |
| Numerals.NumeralIsUnique | src/dns/dns_message.cpp:62-82 | in any base from 2 to 16 a number has one numeral without leading zeros |
| DnsResponse.Ipv4TextReadsBack | src/dns/dns_message.cpp:62-67 | the text splits at its dots into the four decimal numerals of the bytes, without leading zeros |
| DnsResponse.Ipv4TextIs | src/dns/dns_message.cpp:62-67 | so it is those four numerals with dots between them, and no other text |
| DnsResponse.Ipv6TextReadsBack | src/dns/dns_message.cpp:68-82 | the text splits at its colons into the eight lower-case hexadecimal numerals of the groups, without leading zeros |
| DnsResponse.Ipv6TextIs | src/dns/dns_message.cpp:68-82 | so it is those eight numerals with colons between them, and no other text |
| DnsResponse.ReadAnswer | src/dns/dns_message.cpp:174-196 | one turn of the answer loop |
| DnsResponse.CollectAnswers | src/dns/dns_message.cpp:173-198 | the answer loop |
| DnsResponse.ParseResponseInPlace | src/dns/dns_message.cpp:162-199 | the parser's two loops refine the parser below |
| DnsResponse.ParseResponseIff | src/dns/dns_message.cpp:162-199 | it succeeds if and only if the packet is laid out in the sections of section 4.1 of RFC 1035 with acceptable answers, where an alias need not fill its data, pointers may point anywhere and names may have any length; it returns exactly their class-IN A, AAAA and CNAME records, in order |
| DnsResponse.AcceptedCountsFit | src/dns/dns_message.cpp:162-199 | on an accepted packet 5 times the question count plus 11 times the answer count is at most size - 12 |
| DnsEncoder.EncodedNameIsSpelled | src/dns/dns_message.cpp:13-54 | an encoded name, plain or ending in a pointer to where the rest is spelled, is spelled in the packet |
| DnsEncoder.EncodedAnswerIsLaidOut | src/dns/dns_message.cpp:174-183 | an encoded resource record (section 4.1.3 of RFC 1035) is laid out with its fields |
| DnsEncoder.ParserInvertsEncoder | src/dns/dns_message.cpp:162-199 | for all questions and records with plain or compressed names within the depth limit, parsing the encoded response returns exactly the class-IN A, AAAA and CNAME records, in order |
| DnsEncoder.AcceptedIsEncodedIff | src/dns/dns_message.cpp:162-199 | an accepted packet is the encoding of some response if and only if the data of every class-IN CNAME answer is exactly as long as the local part of the name at its start |
| DnsEncoder.LayoutIsUnique | src/dns/dns_message.cpp:162-199 | a packet has at most one layout, so those answers are the packet's |
| DnsEncoder.AliasRunsOn | src/dns/dns_message.cpp:190-194 | an accepted packet whose alias is read from behind its empty data |
| TlsSniffer.SniffTlsSni | src/protocol/tls_sniffer.cpp:17-154 | the cursor code with its early returns refines the recursive sniffer |
| TlsSniffer.WalkExtensions | src/protocol/tls_sniffer.cpp:98-151 | so do the nested loops, on any bytes, in bounds |
| TlsSniffer.FoundNameIsStable | src/protocol/tls_sniffer.cpp:17-154 | a name found in any bytes is a contiguous part of them and stays the same when bytes are appended |
| TlsSniffer.HelloIsSniffed | src/protocol/tls_sniffer.cpp:17-154 | for every well-formed ClientHello, any extension list and any trailing bytes: the first host name, or none if there is none |
| TlsSniffer.BareHelloReadsOn | src/protocol/tls_sniffer.cpp:88-96 | without an extensions block the result is exactly what the trailing bytes hold when taken for the block |
| TlsSniffer.BlockBehindIsFound | src/protocol/tls_sniffer.cpp:88-96 | so a name may be returned that the message does not have |
| TlsSniffer.SniffedRightIff | src/protocol/tls_sniffer.cpp:17-154 | the sniffer is right whatever follows the message if and only if the message has an extensions block |
| TlsFrames.OwnIsWholeIff | src/protocol/tls_sniffer.cpp:98-151 | the extensions, each read by its own body alone, are read to an end if and only if every server_name body up to the first that yields a name is a name list that fits it |
| TlsFrames.VerdictIsOwnIff | src/protocol/tls_sniffer.cpp:98-151 | for a message with extensions of any type and any body, or none: the walk ends as the message itself says, whatever follows it, if and only if there is a block and those lists fit |
| TlsFrames.FramedHelloIsSniffed | src/protocol/tls_sniffer.cpp:17-154 | and then that name, or none, is returned whatever follows |
| TlsFrames.StrayNameIsFound | src/protocol/tls_sniffer.cpp:115-143 | a complete message whose one server_name extension is empty, for which a name from behind the record is returned |
| TlsFrames.FoundNameIsHostName | src/protocol/tls_sniffer.cpp:98-151 | sound on any bytes: a returned name is the first host_name entry of the name list that begins in a server_name extension of the block, and no earlier extension's list has one; the entry may lie behind the extension, the block and the record |
| TlsFrames.SniffIff | src/protocol/tls_sniffer.cpp:17-154 | on any bytes: a name is returned if and only if they open a ClientHello in a record, both complete as far as their lengths say, with three vectors before a block, from which that name is reached |
| TlsFrames.CutMessageHasNoName | src/protocol/tls_sniffer.cpp:17-56 | a message cut short anywhere gives no name |
| HttpProxy.SplitOfJoined | src/protocol/http_proxy.cpp:164-170 | the independent splitter inverts joining lines and body |
| HttpProxy.JoinedOfSplit | src/protocol/http_proxy.cpp:164-170 | and joining inverts it |
| HttpProxy.BuildInitialPayload | src/protocol/http_proxy.cpp:101-160 | the line loop in place refines the payload function |
| HttpProxy.AppendKept | src/protocol/http_proxy.cpp:126-148 | that loop alone: it appends the kept lines of the header from any position on |
| HttpProxy.DroppedIffProxyField | src/protocol/http_proxy.cpp:133-145 | a line is dropped if and only if it begins with one of the two proxy field names, in any letter case |
| HttpProxy.FilteredInOrder | src/protocol/http_proxy.cpp:126-148 | which fields are kept: order is kept, and each is kept or dropped by its own beginning |
| HttpProxy.LoopFilters | src/protocol/http_proxy.cpp:126-148 | over a message's fields the loop keeps exactly the others, in order, and stops at the blank line |
| HttpProxy.RewritingFilters | src/protocol/http_proxy.cpp:101-160 | splitting the payload gives the new request line, the kept fields in order, and the over-read body unchanged |
| HttpProxy.BlankLineEndsHeader | src/protocol/http_proxy.cpp:164-170 | `header_size` from the first blank line is where the splitter ends the header |
| HttpProxy.TargetIsReadRightIff | src/protocol/http_proxy.cpp:82-115 | the text before the first slash is the authority of section 3.2 of RFC 3986 and the path the origin form of section 3.2.1 of RFC 9112, both defined from the RFCs alone, if and only if no query starts before the slash and there is no fragment |
| HttpRequest.ParsePortIff | src/protocol/http_proxy.cpp:20-32 | a port is accepted if and only if it is written in decimal digits only, for a number in 1..65535, and then as that number |
| HttpRequest.ParseAuthorityIff | src/protocol/http_proxy.cpp:34-80 | an authority gives a destination if and only if it is one of the ways to write it, with or without brackets and port, and the host is an address by the library's parser or, without brackets, a name of 1 to 255 bytes |
| HttpSession.RequestIsServedIff | src/protocol/http_proxy.cpp:164-199 | for every first line of three words, any fields and any body: the request is forwarded to a destination if and only if it is no CONNECT, its version begins with "HTTP/" and its target is "http://" and an authority for that destination, with nothing or a slash behind; it opens a tunnel if and only if it is a CONNECT to an authority with a port |
| HttpSession.ServedHasThreeWords | src/protocol/http_proxy.cpp:164-183 | no other request is served |
| HttpSession.ForwardedIs | src/protocol/http_proxy.cpp:101-199 | what is forwarded: verb, the target behind its authority or "/", and version with one space between them, the kept fields, and the body |
| HttpRequest.ForwardedRequestIsFiltered | src/protocol/http_proxy.cpp:164-199 | for every request that is forwarded, the payload is the filtered request and the destination is read from the text before the first slash; destination and request line are the RFCs' if and only if no query starts before it and there is no fragment |
| HttpRequest.BareRequestIsForwarded | src/protocol/http_proxy.cpp:164-199 | a request line in absolute form is forwarded to the destination it names |
| HttpRequest.QueryIsLost | src/protocol/http_proxy.cpp:107-115 | a request that is forwarded without its query |
| HttpRequest.FragmentIsSent | src/protocol/http_proxy.cpp:82-115 | a request with a fragment that is forwarded to a host with the fragment in its name |
| HttpRequest.TunnelLosesNothingIff | src/protocol/http_proxy.cpp:184-189 | a CONNECT request starts its tunnel with the bytes read behind its header if and only if there are none |
| HttpRequest.TunnelLosesBody | src/protocol/http_proxy.cpp:164-189 | a CONNECT line with any bytes behind its blank line is such a request |
| Cidr.MatchIpv6Cidr | src/route/router.cpp:102-128 | the byte loop with its early return refines the byte-wise test |
| Cidr.AndClears | src/route/router.cpp:98-99 | anding with the mask clears the low bits |
| Cidr.ShiftIsDivision | src/route/router.cpp:98-99 | and what is left is the quotient by a power of two |
| Cidr.Ipv4MatchIff | src/route/router.cpp:79-101 | two addresses match if and only if the prefix is 0..32 and that many first bits of their bytes in network order are the same; equivalently their big-endian numbers have the same quotient by 2^(32 - prefix) |
| Cidr.Ipv6MatchIff | src/route/router.cpp:102-128 | the same with 128 for the byte loop and its remainder mask |
| Cidr.Ipv4MatchingIsAnEquivalence | src/route/router.cpp:87-101 | at each prefix matching is an equivalence, and a match implies one at every shorter prefix |
| Cidr.Ipv6MatchingIsAnEquivalence | src/route/router.cpp:102-128 | the same for IPv6 |

## Left out

- The adapter, routes, registry and process code are foreign calls only; a packet handed to the adapter is an element of `written`.
- Sockets, TLS, WebSocket, VLESS and SOCKS5: a connect, send or receive is an event of `UdpFlowModel` that may succeed or fail.
- Configuration, logging and shutdown: copying and flags.
- `send_loop`, `start` and `recv_loop` are steps of a transition system, not methods with loops: a coroutine gives way at every await.
- Interleavings inside a NAT operation, which holds the NAT's mutex throughout, and inside a flow's locked blocks.
- The stop among the locked blocks of `FlowBlocks`, whose interleavings are those of packets and erasures.
- The stop while coroutines still run: what their erasures hit is said of runs without a stop.
- Closing a flow's socket: a flow whose close has been posted is an element of `closing`.
- TunNat.TunNat.AllocatePortLocked: watches the source's endless loop for 55537 iterations, since a method has no outcome for a loop that never ends; `AllocEndsIff` says that a longer watch changes nothing.
- TunInbound.TunInbound.HandleTcpPacket: ends at a read past the packet's end, with the bytes as they stand then, since what is read there is not known.
- The hash function of the NAT maps; maps are abstract, with no iteration order, so flows are closed in some order when stopping.
- Integers are unbounded where the program's width cannot matter; the 32-bit accumulator, the 16-bit cursor and truncated lengths are modelled. Shifts and masks by constants are written as division and remainder.
- The text forms of addresses and prefixes in rules, and rules without a slash, which are compared as texts; `Cidr` starts from parsed bytes.
- Domain rules, rule sets, outbound and DNS server selection: single string tests.
- The address library: which texts it takes for addresses is a parameter of `HttpRequest`.
- The names of DNS query types and their parsing: tables.
