# A verified model of clatto

clatto is a stateless NAT64/CLAT translator (RFC 7915, RFC 6052): it rewrites IPv4 packets into IPv6 ones and back,
with a table of static maps, one RFC 6052 prefix and an optional dynamic pool. This project models its four
I/O-free pieces in Dafny 4.11 and proves what they promise.

* **The packet translator.** `xlate.dfy` says, as functions on byte strings, which packets leave for a packet that
  comes in. The theorems about it are in `transport.dfy` (checksums), `roundtrip.dfy`, `fragmentation.dfy`, `icmp.dfy`
  and `emission.dfy` (what every emitted packet satisfies, and why packets cannot circulate), and, against the RFCs
  and the bytes alone, in `reception.dfy` (which packets are taken), `dispositions.dfy` (what is sent for each),
  `kinds.dfy` and `embedded.dfy` (what errors mean and when they get lost), `routing.dfy` and `vectors.dfy`. The code
  itself, which parses by setting fields, rewrites payloads inside the input buffer, shares that buffer with embedded
  packets and fills output buffers write by write, is in `pkt.dfy`, `buffers.dfy`, `senders.dfy`, `translator.dfy`,
  `emitter.dfy` and `engine.dfy`, proved to send exactly what `xlate.dfy` says.
* **The address map.** `prefix.dfy` and `table.dfy` hold prefixes, entries and lookups, `builder.dfy` the builder and
  its conflict check, `tablelaws.dfy` the laws of every table it accepts, `tableanswers.dfy` and `prefixbits.dfy` its
  answers told by entries and bits, `addressmap.dfy` and `mapper.dfy` the table at work on top of the pool,
  `poolruns.dfy` why what packets do to the pool is a run of its state machine.
* **The dynamic pool.** `poolspec.dfy` is the pool as a state machine with its laws over every run, `poolstart.dfy`
  says where addresses come from; `pool.dfy` is the class with bitmap and three indexes over shared hosts, proved to
  make the steps of the state machine with the help of `poolindex.dfy` and `bits.dfy`.
* **Interface reconciliation.** `netspec.dfy` and `netlaws.dfy` treat Apply and Update as sequences of kernel
  operations, `netmeaning.dfy` says what they leave by the options alone; `netconf.dfy` is the code over a kernel
  whose calls may fail at any point.

All of this stands on `bytes.dfy`, `netutil.dfy` (RFC 6052 embedding, address classes), `checksum.dfy`, `packet.dfy`
(parsing) and `headers.dfy`.

`endtoend.dfy` and `replies.dfy` put the pieces together: the packet round trip from IPv4 with the answers of an
accepted table, and the packet from an unknown IPv6 host whose replies arrive. The translator in `translator.dfy` asks
the table of `addressmap.dfy`, and `engine.dfy` shows that its answers are of the kind these are about and that a batch
is a run of the pool. `witnesses.dfy` holds packets for which the outcome may surprise.

## Reading guide

* `Xlate.Env` holds what surrounds one packet: addresses, MTUs, the UDP mode, the mapper's answer at each call and
  the random identification values. Laws quantify over all of them.
* 64-bit and 32-bit wrap-around, narrowing to 16 bits and masks are written out as arithmetic on integers. Checksums
  are sums modulo 65535, with 0 for an empty sum only.
* `hdrLen` counts the IPv4 header, or the IPv6 extension headers after the fixed header, as in the code.
* The class `Pkt` keeps offsets into its buffer where the code keeps sub-slices; an embedded packet is a second `Pkt`
  over the same buffer.
* The pool's lock-held sections are atomic steps. The store to the last use after a lookup has released the lock is
  the step `Touch`, and may hit a host that has left the pool.
* Calls to the kernel take effect completely or fail without effect. Which calls fail is arbitrary.

## Where the code differs from what one would expect

The model follows the code. Each point has a theorem with the exact condition, and an input that shows it.

* A derived own address does not map back (`TableLaws.MapsBackExactly`, `TableLaws.DerivedSelfLost`).
* From IPv6 to IPv4 and back is not the identity where IPv4 sides of static maps overlap
  (`TableLaws.ReturnsExactly`, `TableLaws.OverlapBreaksReturn`).
* Lines of a state file are not checked against the IPv6 side of the table (`TableLaws.PoolReturnsExactly`,
  `TableLaws.LoadBreaksReturn`).
* `calc` mode sums only the bytes at hand, so a first fragment or a truncated copy of a UDP datagram gets a checksum
  that its datagram does not pass (`TransportLaws.CalcStatus`, `Witnesses.CalcFragmentFails`).
* An ICMPv6 echo reply without content gets checksum 0 where 0xffff is needed (`TransportLaws.EchoPasses6to4`,
  `Witnesses.BlankReplyFails`).
* The total length in an embedded IPv4 header wraps for payloads above 65515 bytes
  (`IcmpErrors.ErrorTranslation6to4`, `Witnesses.EmbeddedTotalWraps`).
* A Packet Too Big with an MTU below 1280 does not keep that MTU through a second translation
  (`IcmpErrors.KindsSettle6to4`, `Witnesses.SmallMtuRaised`).
* The refusal of a routing header with segments left does not point to the octet that counts them
  (`Routing.PointerExactly`, `Witnesses.PointerMisses`).
* An empty fragment sends nothing (`Fragmentation.FragmentationLossless`, `Witnesses.EmptyFragmentLost`).

Documentation: the comment on Maintain in internal/addrmap/pool.go:296-297 speaks of a result; the method has none, and
neither has the model.
The comment on ValidIPv6 in internal/netutil/netutil.go:54-56 excepts the well-known prefix
from the reserved block; the code excepts all of 64:ff9b::/32 (`PrefixBits.ValidRanges`).

## Model

| member | source | states |
|---|---|---|
| EndToEnd.PacketReturns | internal/xlate/xlate4.go:172-237 | every option-free, unfragmented packet that leaves as one IPv6 packet, between two addresses that a table accepted by Build maps, neither being the derived own address, comes back after translation in both directions with the same addresses, TOS, protocol, length and payload, TTL less 2, and only a 0xffff checksum possibly turned into 0; the pool may be different in the two directions, except that a dynamic host that takes part still has its address |
| EndToEnd.CarriedBack | internal/addrmap/table.go:312-367 | an address outside the pool's range comes back whatever happened to the pool in between, a dynamic one if its host is still there, and neither turns into the translator's own address |
| EndToEnd.HostStays | internal/addrmap/pool.go:192-219 | a host used at t is still there after every run that maintains the pool within MinLease of t |
| EndToEnd.RunHosts | internal/addrmap/table.go:236-238 | over every run of the pool through the table, every dynamic host has an address that parseIPv6 admits and that the table does not register |
| EndToEnd.SelfRegistered | internal/addrmap/table.go:148-159 | the translator's own IPv6 address, derived or not, is never left to the pool |
| Replies.ReplyArrives | internal/addrmap/pool.go:207-286 | a packet from an IPv6 host that nothing maps leaves with the address the pool assigned to it, and after any run of the pool that is maintained within MinLease a packet to that address leaves for that host; transport checksums are right if and only if they were |
| Replies.AssignedHolds | internal/addrmap/pool.go:226-286 | the address assigned is one the table leaves to the pool, the host holds it from now on, and the pool stays as the table wants it |
| Replies.AnswerComesFrom | internal/addrmap/table.go:332-367 | a reply from where the packet went carries the address the packet was for, if and only if the longest match of its image is the entry that made it |
| RoundTrip.RoundTrip | internal/xlate/xlate6.go:197-243 | the same for any mapper whose answers invert each other on the two addresses, any two configurations with a second MTU not below the first, and any random identification values |
| RoundTrip.TransportBack | internal/xlate/xlate4.go:134-168 | two checksum adjustments with swapped address pairs restore TCP and checksummed UDP payloads, up to 0xffff becoming 0 in TCP |
| RoundTrip.EchoBack | internal/xlate/xlate6.go:146-158 | an echo message translated to ICMPv6 and back is restored |
| RoundTrip.ForwardWhole4 | internal/xlate/xlate4.go:218-237 | what exactly leaves for a forwardable packet without fragment header |
| RoundTrip.ForwardWhole6 | internal/xlate/xlate6.go:226-243 | what exactly leaves for a forwardable IPv6 packet |
| EndToEnd.ImageValid | internal/addrmap/table.go:312-329 | everything the table maps to, the derived own address aside, is an address that parseIPv6 admits |
| TransportLaws.Payload4to6KeepsStatus | internal/xlate/xlate4.go:113-169 | TCP, and UDP with a checksum: the output passes under the new pseudo-header if and only if the input passed under the old one, for a whole packet and for a first fragment followed by any rest of its datagram; no other byte changes; UDP never becomes 0 |
| TransportLaws.Payload6to4KeepsStatus | internal/xlate/xlate6.go:140-194 | the same from IPv6 to IPv4 |
| TransportLaws.ReaddressKeepsStatus | internal/xlate/checksum.go:55-60 | RFC 1624: adjusting the field for a change of address words keeps whether the datagram verifies, whatever follows |
| TransportLaws.CalcPasses | internal/xlate/xlate4.go:142-148 | `calc` mode gives a complete datagram a checksum that passes and is not 0 |
| TransportLaws.CalcStatus | internal/xlate/xlate4.go:142-148 | on a first fragment or a truncated datagram the checksum of `calc` mode passes for the whole datagram if and only if the words and the length of what is missing add up to nothing modulo 65535 |
| TransportLaws.CalcStatus4to6 | internal/xlate/xlate4.go:134-151 | the same for payload4to6 |
| TransportLaws.CalcStatus6to4 | internal/xlate/xlate6.go:159-176 | the same for payload6to4 |
| TransportLaws.SilentEven | internal/xlate/xlate4.go:142-148 | after an even number of bytes the condition is about the missing bytes alone; it holds if none is missing |
| Witnesses.CalcFragmentFails | internal/xlate/xlate4.go:142-148 | a first fragment that leaves with a checksum its datagram does not pass |
| TransportLaws.Echo4to6Status | internal/xlate/xlate4.go:120-133 | an echo message verifies as ICMPv6 if and only if it verified as ICMPv4 or was all zero bytes |
| TransportLaws.Echo6to4Status | internal/xlate/xlate6.go:146-158 | an echo message verifies as ICMPv4 if and only if it verified as ICMPv6 and is not a blank reply, whose ICMPv4 form would be all zero bytes |
| TransportLaws.EchoPasses4to6 | internal/xlate/xlate4.go:119-133 | every accepted echo message translated to IPv6 verifies |
| TransportLaws.EchoPasses6to4 | internal/xlate/xlate6.go:145-158 | every accepted echo message translated to IPv4 verifies if and only if it is not a blank reply |
| Witnesses.BlankReplyFails | internal/xlate/xlate6.go:145-158 | for all addresses, the blank echo reply is received, translated and sent with a checksum that does not verify |
| TransportLaws.EchoKeepsContent | internal/xlate/xlate6.go:149-157 | only type and checksum of an echo message change |
| TransportLaws.Untouched4to6 | internal/xlate/xlate4.go:113-169 | later fragments, other protocols and UDP without checksum in `forward` mode leave as they came |
| TransportLaws.Untouched6to4 | internal/xlate/xlate6.go:140-194 | the same from IPv6 |
| Fragmentation.FragmentationLossless | internal/xlate/xlate4.go:239-270 | the fragments sent share header, identification and next header, continue each other from the original offset without gap, overlap or 16-bit wrap, carry exactly the rewritten payload, set MF on all but the last, which keeps the original MF, carry the TOS in their first word, and each fits min(OfflinkMTU, MTU); nothing is sent if and only if the payload is empty |
| Fragmentation.FragmentsReassemble | internal/xlate/xlate4.go:244-269 | the same for the loop itself, from any offset with any payload |
| Fragmentation.FragmentsReturn | internal/xlate/xlate6.go:108-116 | every fragment translates back to one IPv4 fragment, and these have the original identification, offsets, MF and exactly the original bytes |
| Fragmentation.OneFragmentBack | internal/xlate/xlate6.go:103-136 | one IPv6 fragment becomes one IPv4 fragment at the same offset |
| Witnesses.EmptyFragmentLost | internal/xlate/xlate4.go:244-269 | a fragment without payload that is accepted and mapped, and for which nothing is sent |
| Emission.EmittedFine | internal/xlate/translator.go:132-146 | for every byte string and every answer of the mapper, each packet emitted has length fields equal to its size and, if IPv4, a verifying header, and is strictly below the input in the lexicographic order of rank and hop count |
| Emission.NoLoop | internal/xlate/xlate4.go:31-40 | no chain of packets, each emitted in response to the one before under any configuration and mapper, is longer than the measure of its first packet, which is below 768 |
| Dispositions.Disposition4 | internal/xlate/xlate4.go:6-271 | for every IPv4 packet received, on the bytes sent: to the own address an echo answer, nothing for other ICMP, or 3/2; at TTL 1 11/0; an unmapped destination 3/1 and an unmapped source 3/10, or nothing if dropped; too big with Don't Fragment 3/4 with the MTU less 20; else one packet, or fragments as big as fit, one hop further with the mapped addresses, TOS and protocol; nothing if and only if the transport header is short, a UDP checksum is missing in `drop` mode, or a fragment is empty; an error stays an error |
| Dispositions.Disposition6 | internal/xlate/xlate6.go:6-243 | for every IPv6 packet received: to the own address an echo answer that fits, nothing, or 4/1 with pointer 6; at hop limit 1 3/0; unmapped destination 1/0, source 1/5; too big 2/0 with the MTU; else one packet with traffic class as TOS, identification, DF, offset and MF as section 5.1 of RFC 7915 wants them |
| Dispositions.SegmentsLeft | internal/xlate/xlate6.go:6-20 | a packet refused for its routing header gets 4/0 with the pointer of the parse, whatever else is wrong with it |
| Dispositions.RefusedExactly4 | internal/xlate/xlate4.go:113-169 | a payload is refused if and only if it begins with a transport header that is too short, or with UDP without checksum in `drop` mode |
| Dispositions.RefusedExactly6 | internal/xlate/xlate6.go:140-194 | the same from IPv6 |
| Routing.RefusedExactly | internal/xlate/packet.go:126-186 | a packet that parses otherwise is refused for its routing headers if and only if the last of them has segments left |
| Routing.PointerExactly | internal/xlate/packet.go:126-186 | the pointer is never the octet that counts the segments; it is the one behind it, in the first routing header with segments left, if and only if no later one is without |
| Witnesses.PointerMisses | internal/xlate/packet.go:182-186 | a packet whose octet 43 counts the segments left and whose refusal points to octet 44 |
| Reception.ReceivedExactly4 | internal/xlate/packet.go:58-102 | the byte strings received are exactly the complete IPv4 packets with valid header checksum, TTL, length, addresses outside the barred ranges, and whole ICMP messages that verify, split at the header length |
| Reception.ReceivedExactly6 | internal/xlate/packet.go:108-187 | the same for IPv6: a chain of whole extension headers to the upper layer, fragments aligned and within 65535 bytes, no ICMPv4, no segments left |
| Reception.Ignored4 | internal/xlate/xlate4.go:6-19 | nothing is sent for any other byte string that claims to be IPv4 |
| Reception.Ignored6 | internal/xlate/xlate6.go:6-28 | nothing is sent for any other that claims to be IPv6, refused routing headers aside |
| Vectors.VectorThere | internal/xlate/xlate4.go:172-237 | one UDP packet with TOS 0xb8, all 30 bytes given, leaves as the 50 bytes given |
| Vectors.VectorBack | internal/xlate/xlate6.go:197-243 | and comes back as the 30 bytes given |
| IcmpErrors.ErrorTranslation4to6 | internal/xlate/xlate4.go:279-401 | a translated error verifies, is at most 1280 bytes, its addresses are the mapper's answers, its first word carries the TOS, it means in RFC 4443 what the original meant in RFC 792, its embedded header describes the whole original datagram with its TOS, and the embedded TCP, UDP or echo-request checksum is right for that datagram, however much of it was cut off, if and only if it was before |
| IcmpErrors.ErrorTranslation6to4 | internal/xlate/xlate6.go:251-379 | the same to IPv4 with at most 576 bytes; the embedded total length is right if and only if the payload is at most 65515 bytes |
| Kinds.KindMeans4to6 | internal/xlate/xlate4.go:314-367 | an ICMPv4 error has a translation if and only if ICMPv6 has an error of its meaning, and the translation has that meaning, with the general code, the first octet of the field complained about, and a zero word where nothing is to be said |
| Kinds.KindMeans6to4 | internal/xlate/xlate6.go:277-336 | the same from ICMPv6, a Packet Too Big with an MTU below 68 aside; the MTU passed on is the lesser of the reported and the own one, less 20 |
| EmbeddedPackets.Lost4 | internal/xlate/xlate4.go:279-389 | an ICMPv4 error that came in is not translated if and only if it has no embedded packet, an address of the embedded packet or the receiver is not mapped, the embedded payload is refused, or ICMPv6 cannot say what it means |
| EmbeddedPackets.Lost6 | internal/xlate/xlate6.go:251-366 | the same for ICMPv6 errors |
| EmbeddedPackets.EmbeddedExactly4 | internal/xlate/xlate4.go:279-303 | the embedded packet is what the bytes after the ICMP header, up to the length that RFC 4884 declares, parse as, cut to 1192 bytes of data; an embedded error is none |
| EmbeddedPackets.EmbeddedExactly6 | internal/xlate/xlate6.go:251-275 | the same for ICMPv6, cut to 528 bytes |
| EmbeddedPackets.TooShort4 | internal/xlate/xlate4.go:283-292 | an error that declares more than it has is not translated |
| EmbeddedPackets.TooShort6 | internal/xlate/xlate6.go:255-264 | the same for ICMPv6 |
| EmbeddedPackets.BeyondIgnored4 | internal/xlate/xlate4.go:283-292 | bytes beyond the declared length never reach the translated error: two errors that differ only there have the same translation |
| EmbeddedPackets.BeyondIgnored6 | internal/xlate/xlate6.go:255-264 | the same for ICMPv6 |
| EmbeddedPackets.DeclaredLength4 | internal/xlate/xlate4.go:283-292 | the length is four times the sixth octet for types 3, 11 and 12, as in section 4 of RFC 4884 |
| EmbeddedPackets.DeclaredLength6 | internal/xlate/xlate6.go:255-264 | the length is eight times the fifth octet for types 1 and 3 |
| Witnesses.EmbeddedTotalWraps | internal/xlate/xlate6.go:103-106 | an error about a packet with 65535 bytes of payload is sent with an embedded total length of 19, which does not parse |
| IcmpErrors.Error4Quotes | internal/xlate/xlate4.go:83-95 | an originated error goes to the sender, verifies, has the type, code and word asked for, quotes the packet from its beginning and is at most 576 bytes; there is none if and only if the packet is ICMP other than an echo request |
| IcmpErrors.Error6Quotes | internal/xlate/xlate6.go:88-99 | the same for ICMPv6, at most 1280 bytes |
| IcmpErrors.Icmp4Verifies | internal/xlate/xlate4.go:55-81 | header and message of an originated ICMPv4 packet verify, and TOS, TTL 64, identification, addresses, type, code, word and content read back |
| IcmpErrors.Icmp6Verifies | internal/xlate/xlate6.go:65-86 | the same for ICMPv6, under its own addresses |
| IcmpErrors.KindsSettle4to6 | internal/xlate/xlate4.go:314-367 | type, code and second word of every translated error stay as they are when translated back and forth again, and so does what they mean |
| IcmpErrors.KindsSettle6to4 | internal/xlate/xlate6.go:277-336 | the same from ICMPv6 if and only if it is not a Packet Too Big with an MTU below 1280 |
| IcmpErrors.TooBig4to6 | internal/xlate/xlate4.go:326-339 | the MTU reported onwards is between 1280 and the link MTU, and otherwise the reported or estimated one plus 20 |
| IcmpErrors.EstMTUIsPlateau | internal/xlate/packet.go:189-198 | the estimate is the largest plateau of RFC 1191 below the size that was too big, or 68 |
| IcmpErrors.EstimatesMTU | internal/xlate/packet.go:189-198 | the same with the plateaus of section 7 of RFC 1191 written out |
| IcmpErrors.EchoAnswered4 | internal/xlate/xlate4.go:44-52 | an echo request to the translator gets exactly one answer, with addresses swapped, the same identifier, sequence number and content, and valid checksums |
| IcmpErrors.EchoAnswered6 | internal/xlate/xlate6.go:53-62 | the same for IPv6, if and only if the answer fits into a packet |
| Headers.Hdr6Fields | internal/xlate/xlate4.go:98-109 | the first word of a written IPv6 header is 0x60000000 plus the traffic class times 0x100000, and its other fields read back |
| Headers.ClassIsTos6 | internal/xlate/xlate6.go:103-106 | the traffic class taken from an IPv6 header is bits 20 to 27 of its first word |
| Headers.Hdr4Fields | internal/xlate/xlate6.go:103-136 | the fields of a written IPv4 header read back and the sealed header verifies |
| Headers.FragHdrFields | internal/xlate/xlate4.go:239-258 | next header, a zero reserved byte, offset, MF and identification of a fragment header read back |
| Headers.ParseWhole6 | internal/xlate/packet.go:108-187 | a written IPv6 packet parses as exactly its parts |
| Headers.ParseFragment6 | internal/xlate/packet.go:149-168 | a written IPv6 fragment parses as exactly its parts |
| Headers.ParseWhole4 | internal/xlate/packet.go:58-102 | a written IPv4 packet parses as exactly its parts |
| Checksum.Sum16 | internal/xlate/checksum.go:11-23 | the 64-bit sum in eight-byte steps is acc plus the sum of the words as they are added, whenever that sum fits into 64 bits, and has the one's complement value of acc and the zero-padded 16-bit words |
| Checksum.WideIsWords | internal/xlate/checksum.go:5-23 | adding 32-bit words instead of 16-bit ones keeps the one's complement value |
| Checksum.Fold | internal/xlate/checksum.go:26-32 | the four steps give the one's complement value of any 64-bit accumulator; the final narrowing loses nothing |
| Checksum.OnesSumIsWords | internal/xlate/checksum.go:5-23 | the word-by-word one's complement addition of RFC 1071 equals the plain sum reduced modulo 65535 with 0 only for 0 |
| Checksum.Checksum | internal/xlate/checksum.go:36-38 | the complement of the one's complement sum of the data and the extra sum |
| Checksum.Verify | internal/xlate/checksum.go:41-43 | true if and only if that sum is 0xffff |
| Checksum.VerifiesMeans | internal/xlate/checksum.go:41-43 | verifying means a sum that is positive and divisible by 65535 |
| Checksum.PseudoHeader4 | internal/xlate/checksum.go:46-48 | the pseudo-header sum is that of the words of the pseudo-header of RFC 768 |
| Checksum.PseudoHeader6 | internal/xlate/checksum.go:51-53 | the same for section 8.1 of RFC 8200 |
| Checksum.ChecksumVerifies | internal/xlate/checksum.go:34-43 | storing the checksum in a zero field at an even offset makes the data verify |
| Checksum.Adjust | internal/xlate/checksum.go:58-60 | the code's incremental update computes the specified one |
| Checksum.AdjustedCongruent | internal/xlate/checksum.go:55-60 | the updated field plus the added words is congruent to the old field plus the removed ones, and it is 0xffff only in one case |
| Packet.Parse4Partitions | internal/xlate/packet.go:58-102 | a parsed packet splits into header, data and trailing bytes, with header and data within the declared length |
| Packet.Parse6Partitions | internal/xlate/packet.go:108-187 | the same for IPv6, the fragment header directly in front of the data |
| Packet.Parse6Chain | internal/xlate/packet.go:126-158 | what precedes the data is a whole chain of headers 0, 43 and 60 from the first next-header value to the protocol found |
| Packet.WalkFollowsChain | internal/xlate/packet.go:128-147 | where the loop ends, a chain in the sense of section 4 of RFC 8200 ends |
| Packet.WalkFindsChain | internal/xlate/packet.go:128-147 | if the bytes begin with a whole chain, the loop finds its end |
| Pkts.Pkt.ParseIPv4 | internal/xlate/packet.go:58-102 | the fields set are those of the specified parse, or its reason is reported |
| Pkts.CheckUpper4 | internal/xlate/packet.go:81-101 | given a good header, the packet parses if and only if no reason is found, as that header and those bytes, and otherwise fails with this reason |
| Pkts.Pkt.ParseIPv6 | internal/xlate/packet.go:108-187 | the fields set are those of the specified parse, or its reason and pointer are reported |
| Pkts.WalkHeaders | internal/xlate/packet.go:126-147 | the loop over extension headers terminates with the specified walk |
| Pkts.Pkt.ParseRest | internal/xlate/packet.go:149-186 | the rest of the parse after the extension headers |
| Pkts.Pkt.TakeFragment | internal/xlate/packet.go:149-167 | the fragment header is taken off and checked as specified |
| Pkts.Pkt.Finish | internal/xlate/packet.go:170-186 | the checks on the upper-layer protocol |
| Pkts.Pkt.RewriteTo6 | internal/xlate/xlate4.go:113-169 | the buffer changes in place to the specified payload and nowhere else, or not at all with the specified reason |
| Pkts.Pkt.RewriteTo4 | internal/xlate/xlate6.go:140-194 | the same from IPv6 to IPv4 |
| Pkts.Pkt.RewriteTransport | internal/xlate/xlate4.go:134-168 | the TCP and UDP cases, in place |
| Pkts.Pkt.CalcChecksum | internal/xlate/xlate4.go:142-148 | the computed UDP checksum, in place |
| Pkts.Pkt.AdjustChecksum | internal/xlate/xlate6.go:187-192 | the adjusted checksum, in place, from sums taken eight bytes at a time |
| Pkts.Pkt.RewriteEcho | internal/xlate/xlate4.go:125-132 | type and checksum of an echo message, in place |
| Buffers.PseudoSum4 | internal/xlate/checksum.go:46-48 | the unfolded pseudo-header sum has the specified one's complement value and leaves room in 64 bits |
| Buffers.PseudoSum6 | internal/xlate/checksum.go:51-53 | the same for IPv6 |
| Buffers.WriteHdr6 | internal/xlate/xlate6.go:71-77 | the field-by-field writes put exactly the specified header into the buffer, its first four bytes being the number 0x60000000 plus the class times 0x100000 |
| Buffers.WriteHdr4 | internal/xlate/xlate4.go:61-71 | the same for IPv4, with a zero checksum |
| Buffers.SealHdr4 | internal/xlate/xlate4.go:72-72 | the header checksum is the one of the header just written |
| Buffers.WriteIcmp | internal/xlate/xlate4.go:74-80 | the ICMP message in the buffer is the specified one, its checksum taken over what was written |
| Buffers.WriteFragHdr | internal/xlate/xlate4.go:239-242 | the fragment header in the buffer is the specified one |
| Senders.SendIcmp4 | internal/xlate/xlate4.go:55-81 | the emitter holds the specified packet after the earlier ones, or nothing new for an oversized one |
| Senders.SendIcmp6 | internal/xlate/xlate6.go:65-86 | the same for ICMPv6 |
| Senders.SendWhole | internal/xlate/xlate4.go:229-236 | a header and a payload leave as one packet |
| Senders.SendFragments | internal/xlate/xlate4.go:239-269 | the loop over headers that are patched in place sends exactly the specified fragments |
| Emitters.Emitter.Packet | internal/tundev/engine.go:84-98 | the buffer is one that no earlier packet of the batch uses; packets already handed out stay as they are |
| Emitters.Emitter.Recycle | internal/tundev/engine.go:100-105 | all buffers are spare again and still pairwise distinct |
| Translators.Translator.constructor | internal/xlate/translator.go:113-127 | the off-link MTU is at least 1280; any interface MTU is taken |
| Translators.Translator.Translate | internal/xlate/translator.go:134-146 | on any byte string, in any state of table, pool and buffers that do not share memory: the packets sent are those of the specification with the table's answers at the time the packet came in; of the pool, some mapped hosts were used now, and if the packet came to asking for a source that nothing maps, the pool made one assignment for it, whose address is the answer; no access is out of range; a pool filled through the table stays so |
| Translators.Translator.HandleIPv4 | internal/xlate/xlate4.go:6-41 | the packets sent, which Dispositions.Disposition4 describes byte by byte, and the hosts used, for one IPv4 packet |
| Translators.Translator.HandleIPv6 | internal/xlate/xlate6.go:6-50 | the same for one IPv6 packet, with Dispositions.Disposition6 |
| Translators.Translator.AskedValid | internal/xlate/xlate6.go:6-50 | only addresses that parseIPv6 admits are ever assigned |
| Translators.Translator.Accept4 | internal/xlate/xlate4.go:12-19 | the checks on TTL, header checksum, length and ICMP checksum |
| Translators.Translator.Accept6 | internal/xlate/xlate6.go:21-28 | the checks on hop limit, length and ICMPv6 checksum |
| Translators.Translator.AnswerSelf4 | internal/xlate/xlate4.go:44-52 | what is sent for a packet to the translator itself |
| Translators.Translator.AnswerSelf6 | internal/xlate/xlate6.go:53-62 | the same for IPv6 |
| Translators.Translator.SendError4 | internal/xlate/xlate4.go:86-95 | the specified error is sent |
| Translators.Translator.SendError6 | internal/xlate/xlate6.go:90-99 | the specified error is sent |
| Translators.HeaderTo6 | internal/xlate/xlate4.go:98-109 | header4to6 writes the specified header; its first word is 0x60000000 plus the TOS times 0x100000 |
| Translators.HeaderTo4 | internal/xlate/xlate6.go:103-136 | header6to4 writes the specified header in each of its three cases; its second byte is bits 20 to 27 of the first word of the IPv6 header |
| Translators.Translator.ChooseForm4 | internal/xlate/xlate4.go:203-216 | too big, whole or fragmented, as specified |
| Translators.Translator.RewriteAndEmit4 | internal/xlate/xlate4.go:218-270 | payload rewritten in place, then the specified packets sent |
| Translators.Translator.RewriteAndEmit6 | internal/xlate/xlate6.go:226-243 | payload rewritten in place, header sealed, one packet sent |
| Translators.Translator.TranslateData4 | internal/xlate/xlate4.go:172-271 | a data packet: destination asked first, source only if that is mapped, then the specified packets |
| Translators.Translator.TranslateData6 | internal/xlate/xlate6.go:197-243 | the same; the source is asked with allocation, and its answer is what the pool assigned |
| Translators.OpenEmbedded4 | internal/xlate/xlate4.go:279-303 | the embedded packet as a view into the same buffer, cut at the RFC 4884 length and to the size that fits |
| Translators.OpenEmbedded6 | internal/xlate/xlate6.go:251-275 | the same for ICMPv6 |
| Translators.RewriteInside4 | internal/xlate/xlate4.go:311-372 | the embedded packet is rewritten inside the buffer of the error, whose own header stays |
| Translators.RewriteInside6 | internal/xlate/xlate6.go:344-350 | the same for ICMPv6 |
| Translators.Translator.TranslateError4 | internal/xlate/xlate4.go:279-401 | an ICMPv4 error: the specified packet is sent or nothing |
| Translators.Translator.TranslateError6 | internal/xlate/xlate6.go:251-379 | an ICMPv6 error: the specified packet is sent or nothing |
| Translators.FillErrorTo6 | internal/xlate/xlate4.go:391-399 | header, message and embedded packet written into the output buffer, hop limit decremented in place, checksum last |
| Translators.FillErrorTo4 | internal/xlate/xlate6.go:368-377 | the same for IPv4 |
| Mappers.MapTo6 | internal/xlate/translator.go:148-157 | the answer is that of the table as of the beginning of the packet, and the pool step is that of the lookup: using hosts changes no answer |
| Mappers.MapTo4 | internal/xlate/translator.go:159-168 | the same without allocation |
| Mappers.MapSource | internal/xlate/translator.go:159-168 | with allocation: an address that something maps keeps its answer; any other gets the pool's assignment, and the pool makes exactly that step |
| Engines.TranslateBatch | internal/tundev/engine.go:149-155 | a batch is a round: each packet finds the pool as the one before left it, starting from the table's state and ending in it, and what is sent is, in order, what its packets give one by one; no packet overwrites another's input or earlier output |
| Engines.RoundLeads | internal/tundev/engine.go:149-155 | what a round does to the pool is a run of its state machine, by touches and assignments through the table at the times of the packets, so that the laws over every run apply |
| PoolRuns.MovedLeads | internal/xlate/translator.go:134-168 | the same for one packet |
| PoolRuns.UsedLeads | internal/addrmap/pool.go:201-212 | using hosts is a run of touches |
| Engines.Served | internal/xlate/translator.go:148-168 | the surroundings of every packet are the answers of the table, so that EndToEnd.PacketReturns applies |
| NetUtil.EmbedCarries | internal/netutil/netutil.go:111-136 | the result is the one address with the prefix octets, the IPv4 octets at the positions of RFC 6052 section 2.2 and zeros elsewhere |
| NetUtil.ExtractFinds | internal/netutil/netutil.go:138-186 | an address is extracted if and only if the address carries it |
| Vectors.ShortPrefixExamples | internal/netutil/netutil.go:111-136 | the examples of section 2.4 of RFC 6052 for 32, 40 and 48 bits |
| Vectors.LongPrefixExamples | internal/netutil/netutil.go:111-136 | those for 56, 64 and 96 bits |
| PrefixBits.Contains4Bits | internal/addrmap/table.go:287-297 | a prefix contains exactly the addresses that share its first bits |
| PrefixBits.Contains6Bits | internal/addrmap/table.go:299-309 | the same for IPv6 |
| PrefixBits.Masked4Bits | internal/addrmap/table.go:122-143 | a prefix is masked if and only if all other bits are zero |
| PrefixBits.Masked6Bits | internal/addrmap/table.go:122-143 | the same for IPv6 |
| PrefixBits.OverlapsExactly | internal/addrmap/table.go:222-229 | two prefixes overlap if and only if some address is in both |
| PrefixBits.ClassRanges | internal/netutil/netutil.go:38-53 | the invalid addresses are 0/8, 127/8, 224/4 and 255.255.255.255, the link-local ones 169.254/16 |
| PrefixBits.PrivateRanges | internal/netutil/netutil.go:75-95 | the private addresses by their ranges |
| PrefixBits.ValidRanges | internal/netutil/netutil.go:57-70 | an IPv6 address is valid outside ::/8, except under 64:ff9b::/32, ff00::/8 and fe80::/10 |
| TableBuilder.Builder.Build | internal/addrmap/table.go:172-240 | fails if and only if two entries have the same IPv4 prefix or overlapping registered IPv6 prefixes; otherwise the table indexes exactly the entries and the pool's hook reserves what the table maps by other means |
| TableBuilder.BuildIndexes | internal/addrmap/table.go:173-235 | the sorting, indexing and conflict loops |
| TableBuilder.Index4 | internal/addrmap/table.go:184-214 | the first loop: IPv4 hosts by address, nets by falling length, and the registered entries |
| TableBuilder.PoolIsStatic | internal/addrmap/table.go:215-221 | whether a static net has the prefix of the pool |
| TableBuilder.Index6 | internal/addrmap/table.go:224-235 | the pairwise overlap loop succeeds if and only if no two registered prefixes overlap |
| TableBuilder.SortDescending | internal/addrmap/table.go:179-182 | a permutation in falling order of prefix length in which equal lengths keep their order |
| TableBuilder.PairPermutes | internal/addrmap/table.go:179-232 | whether a conflicting pair exists does not depend on the order |
| TableBuilder.Builder.AddPrefix | internal/addrmap/table.go:98-118 | accepts exactly one well-formed, unreserved prefix |
| TableBuilder.Builder.AddStatic | internal/addrmap/table.go:122-143 | accepts exactly masked, equally sized, unreserved prefixes |
| TableBuilder.Builder.AddSelf | internal/addrmap/table.go:148-159 | a derived own address registers its IPv4 side only |
| TableBuilder.Builder.SetPool | internal/addrmap/table.go:162-169 | at most one pool |
| Table.Lookup4Longest | internal/addrmap/table.go:287-297 | the entry found is the unique longest match among all builder entries, and nothing is found only if none contains the address |
| Table.Lookup6Unique | internal/addrmap/table.go:299-309 | the entry found is the only registered one that contains the address, so the order of the index cannot matter |
| Table.Unique6 | internal/addrmap/table.go:222-229 | at most one registered entry contains an IPv6 address |
| Table.JoinThere | internal/addrmap/table.go:386-399 | joining to IPv6 stays in the prefix, gives a valid address and is undone by joining to IPv4 |
| Table.JoinBack | internal/addrmap/table.go:403-416 | joining to IPv4 stays in the prefix and is undone by joining to IPv6 |
| Table.EmbedThere | internal/addrmap/table.go:369-382 | an embedded address lies in the prefix, is valid and is extracted again |
| Table.Hairpin | internal/addrmap/table.go:347-364 | whatever maps to IPv4 through the prefix maps forward to the same IPv6 address, for all six lengths and both strictness settings |
| TableAnswers.Answer4 | internal/addrmap/table.go:312-329 | for the longest matching entry: a static map gives the address at the same offset; the prefix drops what is no unicast address, rejects a private address under 64:ff9b::/96 in a strict table, and else gives the address that carries it; the pool gives the host mapped there and rejects otherwise |
| TableAnswers.Unmatched4 | internal/addrmap/table.go:312-316 | what no entry contains is rejected |
| TableAnswers.Answer6 | internal/addrmap/table.go:332-367 | for the registered entry that contains the address: a static map gives the address at the same offset; under the prefix, what carries no IPv4 address is dropped, a private address is rejected as above, and the address carried is the answer if and only if it is unicast, not rejected, and the prefix is its longest match |
| TableAnswers.Unregistered6 | internal/addrmap/table.go:332-342 | an address that no registered entry contains is mapped if and only if it is that of a mapped dynamic host, to that host's address, and else rejected |
| TableAnswers.StrictExactly | internal/addrmap/table.go:369-382 | a private address under 64:ff9b::/96 is rejected if and only if the table is strict, in both directions |
| TableAnswers.StaticOffset | internal/addrmap/table.go:386-399 | a static map keeps the offset from the beginning of the net |
| TableAnswers.TakesExactly | internal/addrmap/table.go:98-143 | which prefixes are taken, by their lengths and bits |
| TableAnswers.ConflictsExactly | internal/addrmap/table.go:172-235 | valid entries conflict if and only if some IPv4 address lies in two prefixes of equal length or some IPv6 address in two registered ones |
| TableLaws.MapsBackExactly | internal/addrmap/table.go:312-367 | for every accepted table: what an IPv4 address maps to maps back to it if and only if it is not the derived own address |
| TableLaws.Injective | internal/addrmap/table.go:312-329 | for every accepted table the map from IPv4 to IPv6 is injective |
| TableLaws.DerivedSelfStays | internal/addrmap/table.go:145-159 | the derived own address does not map back, because its embedding hairpins |
| TableLaws.DerivedSelfLost | internal/addrmap/table.go:145-159 | a prefix and an own address derived from it, where it does not |
| TableLaws.ReturnsExactly | internal/addrmap/table.go:332-367 | from IPv6 to IPv4 and back is the identity if and only if the longest match of the IPv4 address is the entry that made it |
| TableLaws.OverlapBreaksReturn | internal/addrmap/table.go:345-346 | a static host inside a static net where it is not |
| TableLaws.RunStaysProper | internal/addrmap/table.go:236-238 | over every run of the pool through the table, no dynamic host has an IPv6 address that packets cannot have or that the table registers, or an IPv4 address the table maps otherwise |
| TableLaws.PoolBothWays | internal/addrmap/table.go:322-342 | over every such run from an empty pool, every mapped dynamic host maps there and back |
| TableLaws.PoolReturnsExactly | internal/addrmap/pool.go:418-431 | whatever the pool holds, a dynamic address comes back if and only if the table leaves the host's address to the pool or a static map sends the dynamic address to the same host |
| TableLaws.LoadBreaksReturn | internal/addrmap/pool.go:418-431 | a state file line after which it does not |
| AddressMap.AddressTable.FindIPv4 | internal/addrmap/table.go:287-297 | the loop finds the specified entry |
| AddressMap.AddressTable.FindIPv6 | internal/addrmap/table.go:299-309 | the loop finds the specified entry |
| AddressMap.AddressTable.MapIPv4ToIPv6 | internal/addrmap/table.go:312-329 | the answer of Map4to6, which TableAnswers.Answer4 and Unmatched4 describe by the entries; at most the last use of the host found changes |
| AddressMap.AddressTable.MapIPv6ToIPv4 | internal/addrmap/table.go:332-367 | the answer of Map6to4, which TableAnswers.Answer6 and Unregistered6 describe by the entries, and the pool step; a pool filled through the table with addresses of packets stays so |
| PoolSpec.RunKeepsInv | internal/addrmap/pool.go:225-321 | over every run of touches, assigns, maintenance and loads, with any clock, leases and reserved hook at each step: offsets are in 1..max and no two hosts share an IPv6 address |
| PoolSpec.NextKeepsInv | internal/addrmap/pool.go:395-454 | each step keeps that invariant |
| PoolSpec.AssignOutcome | internal/addrmap/pool.go:226-286 | assign fails if and only if the host is unknown, every offset is used or reserved and nothing is dormant; a steal needs a full pool and takes a dormant host of minimal last use; everything else stays |
| PoolSpec.ProbeVisitsOnce | internal/addrmap/pool.go:251-252 | the probe visits every offset exactly once |
| PoolSpec.ProbeComplete | internal/addrmap/pool.go:251-267 | if the probe finds nothing, no offset is free |
| PoolSpec.FoldHash | internal/addrmap/pool.go:247-249 | folding ends with a value of at most max |
| PoolSpec.Hash | internal/addrmap/pool.go:241-250 | the starting offset is at most max |
| PoolStart.FoldReduces | internal/addrmap/pool.go:247-249 | folding is reduction modulo max, with max for the multiples other than 0 |
| PoolStart.StartsAt | internal/addrmap/pool.go:241-250 | the starting offset is that residue, word after word, of the 32-bit sums |
| PoolStart.GetsFirstFree | internal/addrmap/pool.go:251-267 | an unknown host gets the first free offset from its starting offset on, around the end, if any is free |
| PoolStart.GetsStart | internal/addrmap/pool.go:251-259 | an unknown host whose starting offset is free gets it |
| PoolStart.StealsExactly | internal/addrmap/pool.go:269-286 | only the address handed out changes; it is taken from another host only if that one is dormant, none was idle longer, the new holder had none and no address is left |
| PoolStart.TouchesOnly | internal/addrmap/pool.go:201-212 | a lookup changes the last use of the host found and nothing else |
| PoolStart.AcceptsExactly | internal/addrmap/pool.go:415-431 | a line is taken if and only if it is sensible and neither of its addresses is in the pool |
| PoolStart.TakenFromLine | internal/addrmap/pool.go:404-442 | every host that a load adds comes from a sensible line, and the hosts already there stay as they are |
| PoolStart.LineTaken | internal/addrmap/pool.go:404-442 | a sensible line about addresses that no other line and no host has is taken |
| PoolStart.LoadedHost | internal/addrmap/pool.go:443-452 | what settling makes of a loaded host |
| PoolSpec.LeaseKept | internal/addrmap/pool.go:192-219 | over every run whose maintenance clocks are at most t + MinLease, a host used at t keeps its address mapped |
| PoolSpec.ChangesHandsOnly | internal/addrmap/pool.go:269-321 | over every run, an address changes hands only by expiry after MaxLease or by a steal from a full pool |
| PoolSpec.MaintainedWithinLeases | internal/addrmap/pool.go:298-321 | after maintenance no mapped or dormant host is past its lease |
| PoolSpec.MaintainedForgets | internal/addrmap/pool.go:304-320 | exactly the hosts past MaxLease that are dormant or past MinLease are forgotten, the others change at most their dormant flag |
| PoolSpec.SaveLoadRestores | internal/addrmap/pool.go:363-454 | reading what was written into a fresh pool gives the same triples, mapped if and only if last use + MinLease >= now |
| PoolIndex.IndexesAgree | internal/addrmap/pool.go:187-219 | the three indexes over shared hosts agree with the state: each host is in exactly one of mapped and dormant, under its own address |
| PoolIndex.SetMarks | internal/addrmap/pool.go:187-188 | setting a bit marks that offset and no other |
| PoolIndex.ClearUnmarks | internal/addrmap/pool.go:187-189 | clearing a bit unmarks that offset and no other |
| PoolIndex.AscendingIsSaved | internal/addrmap/pool.go:366-376 | the hosts in order of offset give the specified lines |
| DynamicPool.NewPool | internal/addrmap/pool.go:74-116 | a pool exists exactly for a masked, unreserved prefix of length 8 to 31, and is empty |
| DynamicPool.Pool.constructor | internal/addrmap/pool.go:87-116 | offset 0 is marked used and nothing else; leases default |
| DynamicPool.Pool.IsUsed | internal/addrmap/pool.go:187-187 | true exactly for offset 0 and the offsets of the hosts |
| DynamicPool.Pool.SetUsed | internal/addrmap/pool.go:188-188 | bitmap and offsets in step |
| DynamicPool.Pool.ClearUsed | internal/addrmap/pool.go:189-189 | bitmap and offsets in step |
| DynamicPool.Pool.Lookup4 | internal/addrmap/pool.go:192-203 | the host mapped at the offset, and its last use |
| DynamicPool.Pool.Lookup6 | internal/addrmap/pool.go:207-219 | the mapped host, or a new assignment on request |
| DynamicPool.Pool.Touch | internal/addrmap/pool.go:201-212 | the store after the lock is released changes only last use, also on a host that has left the pool |
| DynamicPool.Pool.Assign | internal/addrmap/pool.go:226-286 | bitmap, indexes and hosts make exactly the specified step; the pool is dirty after it exactly if it was or a new host got an address |
| DynamicPool.Pool.AssignNew | internal/addrmap/pool.go:241-286 | probe, allocation and steal; an address handed out makes the pool dirty |
| DynamicPool.Pool.StartingOffset | internal/addrmap/pool.go:243-250 | the hash loop computes the specified offset in 32-bit arithmetic |
| DynamicPool.Pool.FoldDown | internal/addrmap/pool.go:247-249 | the inner loop terminates with the specified value |
| DynamicPool.Pool.FindFree | internal/addrmap/pool.go:251-259 | the probe loop finds the specified offset |
| DynamicPool.Pool.FindOldest | internal/addrmap/pool.go:270-275 | a dormant host of minimal last use, or none if nothing is dormant |
| DynamicPool.Pool.Allocate | internal/addrmap/pool.go:260-266 | a new host in all indexes |
| DynamicPool.Pool.Reactivate | internal/addrmap/pool.go:235-239 | a dormant host is mapped again at its address |
| DynamicPool.Pool.Steal | internal/addrmap/pool.go:280-285 | the oldest dormant host changes hands |
| DynamicPool.Pool.Activate | internal/addrmap/pool.go:289-294 | the two indexes by address and the host after activate |
| DynamicPool.Pool.Maintain | internal/addrmap/pool.go:298-321 | the two loops make exactly the specified step; the pool is dirty after it exactly if it was or a host was released |
| DynamicPool.Pool.AgeMapped | internal/addrmap/pool.go:304-311 | the first loop |
| DynamicPool.Pool.ReleaseDormant | internal/addrmap/pool.go:312-320 | the second loop |
| DynamicPool.Pool.SetLeases | internal/addrmap/pool.go:122-132 | leases change, hosts do not |
| DynamicPool.Pool.Reserve | internal/addrmap/table.go:236-238 | the hook changes without a look at the hosts the pool has |
| DynamicPool.Pool.Read | internal/addrmap/pool.go:395-454 | the two loops make exactly the specified step on any lines, also when reading breaks off |
| DynamicPool.Pool.ReadLines | internal/addrmap/pool.go:404-442 | the first loop, and whether a loaded last use lies in the future |
| DynamicPool.Pool.AcceptsLine | internal/addrmap/pool.go:415-431 | which lines are taken |
| DynamicPool.Pool.Settle | internal/addrmap/pool.go:446-452 | the second loop |
| DynamicPool.Pool.Write | internal/addrmap/pool.go:363-378 | the lines of all hosts in order of offset |
| DynamicPool.Pool.UsedCount | internal/addrmap/pool.go:457-463 | the bits counted are mapped plus dormant hosts, at most max |
| NetLaws.FreshHistoryConverges | internal/netconf/netconf_linux.go:24-59 | after an Apply to a kernel free of the configured items and any sequence of Updates, each stopped anywhere any number of times before it went through, routes, addresses and rules are those of one Apply of the last options |
| NetLaws.HistoryConverges | internal/netconf/netconf_linux.go:28-59 | the same from any converged state |
| NetLaws.UpdateConverges | internal/netconf/netconf_linux.go:28-107 | a complete Update from anywhere on the way converges |
| NetLaws.StoppedStaysBetween | internal/netconf/netconf_linux.go:33-58 | an Update stopped after any operation is still on the way |
| NetLaws.ApplyConverges | internal/netconf/netconf_linux.go:172-210 | a complete Apply converges |
| NetLaws.ApplyIsUpdate | internal/netconf/netconf_linux.go:169-210 | Apply is Update from nothing |
| NetLaws.AfterApply | internal/netconf/netconf_linux.go:172-235 | the state after a complete Apply, field by field; NetMeaning.ApplyMeans says it by the options |
| NetMeaning.ApplyMeans | internal/netconf/netconf_linux.go:172-235 | after a complete Apply on any kernel: up; the addresses asked for; for a shared address exactly one rule for each filter, with its protocol, and its ports if it names a first one, or one rule for all; each route with its MTU and MSS in the main table, the route to the shared address in its table; every other address, rule and route as before; forwarding and the local rule as asked |
| NetMeaning.UpdateMeans | internal/netconf/netconf_linux.go:28-59 | the same after a complete Update, from anywhere on the way |
| NetMeaning.HistoryMeans | internal/netconf/netconf_linux.go:24-59 | the same after any history of Updates, each run as often as it takes |
| NetMeaning.ConvergedMeans | internal/netconf/netconf_linux.go:28-59 | being converged means holding exactly what the options ask for |
| NetMeaning.SharedMeans | internal/netconf/netconf_linux.go:216-235 | the policy routing of a shared address, by its filters |
| NetMeaning.UnusedIsFree | internal/netconf/netconf_linux.go:172-235 | free of the configured items means having none of what the options ask for |
| NetLaws.AfterRemove | internal/netconf/netconf_linux.go:33-51 | the state after the removals of Update |
| NetSpec.StaleRoutesAre | internal/netconf/netconf_linux.go:92-107 | stale are exactly the routes whose key is not wanted |
| NetSpec.MissingRoutesAre | internal/netconf/netconf_linux.go:76-90 | missing are exactly the routes wanted and not there with the same options |
| NetSpec.MissingPrefixesAre | internal/netconf/netconf_linux.go:61-74 | missing are exactly the prefixes wanted and not there |
| NetSpec.StaleRulesAre | internal/netconf/netconf_linux.go:296-304 | stale are exactly the rules not wanted |
| NetConf.Update | internal/netconf/netconf_linux.go:28-59 | the state after the first n operations of the specified sequence, all of them on success, for any pattern of failing calls, reading ones included |
| NetConf.UpdateOutcome | internal/netconf/netconf_linux.go:28-59 | such an Update, stopped or not, can be repeated with the same arguments, and once it goes through the kernel holds what NetMeaning.Configured says of the options |
| NetConf.ApplyOutcome | internal/netconf/netconf_linux.go:172-210 | an Apply that goes through leaves what NetMeaning.Configured says of the options |
| NetConf.Apply | internal/netconf/netconf_linux.go:172-210 | the same for Apply |
| NetConf.RemoveUnwanted | internal/netconf/netconf_linux.go:33-51 | the same for the removals |
| NetConf.ApplyShared | internal/netconf/netconf_linux.go:216-235 | the operations done before a failure; if all are done: one rule for each filter of the shared address, or one without filter if there is none, the route to it, the local rule at priority 2, and nothing else changed |
| NetConf.DemoteLocalRule | internal/netconf/netconf_linux.go:240-271 | the local rule ends at priority 2 only, whatever of it was done before; nothing changes if the rules cannot be listed |
| NetConf.RemoveStaleRules | internal/netconf/netconf_linux.go:296-316 | the rules that are not kept are removed |
| NetConf.EnableForwarding | internal/netconf/netconf_linux.go:199-208 | the sysctls asked for are on |
| NetConf.FindStaleRoutes | internal/netconf/netconf_linux.go:95-107 | the loops compute the specified list |
| NetConf.FindMissingRoutes | internal/netconf/netconf_linux.go:78-90 | the loops compute the specified list |
| NetConf.FindMissingPrefixes | internal/netconf/netconf_linux.go:62-74 | the loops compute the specified list |

## Left out

- RoundTrip.RoundTrip: speaks of TCP, UDP with a checksum, echo messages and opaque protocols; UDP without a checksum depends on the mode and does not come back unchanged in `calc` mode.
- Fragmentation.FragmentsReturn: speaks of protocols other than ICMP, and of UDP without a checksum only in `forward` mode.
- EndToEnd.PacketReturns: a dynamic host that takes part must still have its address on the way back; when it has is what EndToEnd.HostStays says.
- Translators.Translator.Translate: says that the hosts used are mapped ones, not which; Mappers.MapTo6 and Mappers.MapTo4 say it for each lookup.
- NetLaws.FreshHistoryConverges: leaves out the sysctls and the position of the local rule, which the code never reverts; they are only shown to be set when asked for.
- NetSpec.Do: the kernel's own default metric and its treatment of metric 0 in deletions are not modelled; a route is its prefix, metric and table.
- DynamicPool.Pool.Write: the text of the lines, their header and the replacement of the file are not modelled; a line is a triple or malformed.
- cmd/clatto, internal/admin, internal/observe and internal/daemon: start-up, HTTP, metrics, signals and reloading.
- internal/config: parsing; its guarantees (MTU from 1280 to 65535, unique route keys, a derived own address that is the embedding, a shared table other than the main one) appear as preconditions.
- Engine.Run outside the per-packet loop: the device, its errors and the counters.
- Events, logging and observers: no effect on results.
- Clocks and random identification values: parameters.
- Last-use times are unbounded integers instead of 64-bit ones.
- Names of interfaces: one interface is configured.
- Table.Entries, Pool.Assignments and Stats: listings for display.
