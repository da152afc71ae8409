/** Packets that the translator treats differently from what one would expect, each with what leaves for it. */
module Witnesses {
  import opened Bytes
  import opened NetUtil
  import opened Packet
  import opened Checksum
  import opened Xlate
  import opened Headers
  import opened TransportLaws
  import opened IcmpErrors
  import opened Dispositions
  import opened Routing

  const SRC4: Addr4 := [192, 0, 2, 1]
  const DST4: Addr4 := [198, 51, 100, 2]

  /** Both addresses of a packet from SRC4 to DST4 are mapped, and it is not for the translator. */
  ghost predicate Carries4(t: Env) {
    ValidEnv(t) && t.local4 != DST4 && t.map4(0, DST4).Mapped? && t.map4(1, SRC4).Mapped?
  }

  /** A UDP packet from SRC4 to DST4. */
  function Udp4(fo: U16, data: seq<Byte>): seq<Byte>
    requires |data| <= 0xffff - IP4_HDR
  {
    Seal4(Hdr4(0, IP4_HDR + |data|, 1, fo, 64, UDP, SRC4, DST4)) + data
  }

  lemma ReceivedUdp4(t: Env, fo: U16, data: seq<Byte>)
    requires Carries4(t) && |data| <= 0xffff - IP4_HDR && |data| % 8 == 0 && Offset4(fo) * 8 + |data| <= 65535
    ensures var p := Pkt4(Udp4(fo, data), IP4_HDR, data, UDP);
            && WellParsed4(p) && Accepted4(p) && p.raw[8] == 64 && Get16(p.raw, 6) == fo
            && Translate(t, p.raw) == Data4to6(t, p)
            && Data4to6(t, p) == Forward4(t, p, t.map4(1, SRC4).addr, t.map4(0, DST4).addr)
  {
    hide Hdr4, Seal4, Verifies, Forward4, Offset4, MF4;
    var raw := Udp4(fo, data);
    ParseWhole4(0, 1, fo, 64, UDP, SRC4, DST4, data);
    Hdr4Fields(0, IP4_HDR + |data|, 1, fo, 64, UDP, SRC4, DST4, data);
    Parse4Partitions(raw);
  }

  const PORTS: seq<Byte> := [0, 53, 0, 53, 0, 16, 0, 0]
  const REST: seq<Byte> := [1, 0, 0, 0, 0, 0, 0, 0]

  /** In `calc` mode the first fragment of this datagram gets a checksum that the datagram does not pass. */
  lemma CalcFragmentFails(t: Env) returns (q: seq<Byte>)
    requires Carries4(t) && t.udp == CalcZero
    ensures Translate(t, Udp4(0x2000, PORTS)) == [q]
    ensures |q| == 56 && q[8..24] == t.map4(1, SRC4).addr && q[24..40] == t.map4(0, DST4).addr
    ensures !Passes6(q[48..] + REST, q[8..40], UDP)
  {
    hide Hdr6, FragHdr, Verifies, Passes6, ChunkSize, OffsetField, Payload4to6, Silent, Udp4, Translate, Data4to6;
    hide Accepted4;
    var src: Addr6, dst: Addr6 := t.map4(1, SRC4).addr, t.map4(0, DST4).addr;
    ReceivedUdp4(t, 0x2000, PORTS);
    var p := Pkt4(Udp4(0x2000, PORTS), IP4_HDR, PORTS, UDP);
    CalcStatus4to6(t, p, src + dst, REST);
    assert !Silent(PORTS, REST) by { NotSilent(); }
    var data := Payload4to6(t, p, src + dst).data;
    var f := FragSpec4(t, p, src, dst);
    q := OneFragment(f, 0, true, data);
    assert Fragments(f, 0, data) == [q] by {
      assert data[..8] == data && data[8..] == [];
    }
    var more := FragHdr(f.nextHeader, OffsetField(0, true), f.id) + data;
    Hdr6Fields(f.tc, FRAG_HDR + |data|, FRAG, f.hop, src, dst, more);
    assert q == Hdr6(f.tc, FRAG_HDR + |data|, FRAG, f.hop, src, dst) + more;
    assert q[48..] == q[40..][8..] == data;
  }

  lemma NotSilent()
    ensures !Silent(PORTS, REST)
  {
    SilentEven(PORTS, REST);
    assert Words(REST) == 0x100 by {
      assert REST[2..] == [0, 0, 0, 0, 0, 0];
      WordsZero(REST[2..]);
    }
  }

  /** A fragment without payload is accepted, both of its addresses are mapped, and nothing leaves for it. */
  lemma EmptyFragmentLost(t: Env)
    requires Carries4(t)
    ensures Parse4(Udp4(1, [])).Good4? && Translate(t, Udp4(1, [])) == []
  {
    hide Seal4, Hdr4, Hdr6, Verifies, ChunkSize, Parse4, Translate, Data4to6, Accepted4;
    ReceivedUdp4(t, 1, []);
    ParseWhole4(0, 1, 1, 64, UDP, SRC4, DST4, []);
  }

  // ----- ICMPv6 -----

  lemma ReceivedIcmp6(t: Env, src: Addr6, dst: Addr6, typ: Byte, word: U32, payload: seq<Byte>)
    returns (p: Pkt6)
    requires ValidEnv(t) && ValidIPv6(src) && ValidIPv6(dst) && dst != t.local6 && ICMP_HDR + |payload| <= 65535
    ensures p.raw == Icmp6(0, src, dst, typ, 0, word, payload) && p.hdrLen == 0 && p.frag == None && p.proto == ICMP6
    ensures WellParsed6(p) && Accepted6(p) && p.raw[7] == 64 && p.raw[8..24] == src && p.raw[24..40] == dst
    ensures p.data[0] == typ && p.data[1] == 0 && Get32(p.data, 4) == word && p.data[8..] == payload
    ensures Translate(t, p.raw) == Dispatched6(t, p)
  {
    hide Hdr6, IcmpBody, Verifies, ValidIPv6, Dispatched6, Pseudo6, Get16, Get32, Parse6, WellParsed6;
    var raw := Icmp6(0, src, dst, typ, 0, word, payload);
    var n := ICMP_HDR + |payload|;
    var body := IcmpBody(typ, 0, word, payload, Pseudo6(src + dst, n, ICMP6));
    IcmpBodyVerifies(typ, 0, word, payload, Pseudo6(src + dst, n, ICMP6));
    ParseWhole6(0, ICMP6, 64, src, dst, body);
    Hdr6Fields(0, n, ICMP6, 64, src, dst, body);
    Icmp6Verifies(0, src, dst, typ, 0, word, payload);
    Parse6Partitions(raw);
    p := Pkt6(raw, 0, None, body, ICMP6);
  }

  /** An echo reply without identifier, sequence number and content leaves with a checksum that does not verify. */
  lemma BlankReplyFails(t: Env, src: Addr6, dst: Addr6) returns (q: seq<Byte>)
    requires ValidEnv(t) && ValidIPv6(src) && ValidIPv6(dst) && dst != t.local6
    requires t.map6(0, dst, false).Mapped? && t.map6(1, src, true).Mapped?
    ensures Translate(t, Icmp6(0, src, dst, 129, 0, 0, [])) == [q] && |q| == 28 && q[9] == ICMP && !Verifies(q[20..], 0)
  {
    hide Hdr4, Hdr6to4, Seal4, Icmp6, Verifies, ValidIPv6, Accepted6, Echo6to4, Payload6to4;
    var p := ReceivedIcmp6(t, src, dst, 129, 0, []);
    var src4: Addr4, dst4: Addr4 := t.map6(1, src, true).addr, t.map6(0, dst, false).addr;
    EchoPasses6to4(t, p, src4 + dst4);
    assert BlankReply(p.data) by { BlankBody(p.data); }
    var data := Payload6to4(t, p, src4 + dst4).data;
    Hdr6to4Fields(p, |p.data|, p.raw[7] - 1, src4, dst4, t.ident(0), data);
    q := Seal4(Hdr6to4(p, |p.data|, p.raw[7] - 1, src4, dst4, t.ident(0))) + data;
  }

  lemma BlankBody(d: seq<Byte>)
    requires |d| == 8 && d[0] == 129 && d[1] == 0 && Get32(d, 4) == 0
    ensures BlankReply(d)
  {
  }

  /** The header of an IPv6 packet with 65535 bytes of payload and no transport protocol. */
  function HugeHeader(src: Addr6, dst: Addr6): seq<Byte> { Hdr6(0, 65535, 59, 64, src, dst) }

  /** A host-unreachable error about a packet with 65535 bytes of payload: the embedded total length comes out as 19. */
  lemma EmbeddedTotalWraps(t: Env, src: Addr6, dst: Addr6) returns (q: seq<Byte>)
    requires ValidEnv(t) && ValidIPv6(src) && ValidIPv6(dst) && dst != t.local6
    requires t.map6(0, dst, false).Mapped? && t.map6(1, src, false).Mapped? && t.map6(3, dst, false).Mapped?
    ensures Translate(t, Icmp6(0, src, dst, 1, 0, 0, HugeHeader(dst, src))) == [q]
    ensures |q| == 48 && q[20] == 3 && q[21] == 1 && Get16(q, 30) == 19 && Parse4(q[28..]) == Bad4(IPHeaderInvalid)
  {
    hide Icmp6, ValidIPv6, Accepted6, Hdr6, Embedded6, Inner4, Message4, Parse4, Translate, Get16;
    var em := HugeHeader(dst, src);
    var p := ReceivedIcmp6(t, src, dst, 1, 0, em);
    var e := Pkt6(em, 0, None, [], 59);
    assert WellParsed6(e) && Embedded6(p) == Some(e) && em[8..24] == dst && em[24..40] == src
           && Get16(em, 4) == 65535 by {
      EmbeddedHuge(p, src, dst);
    }
    var inner := Inner4(e, t.map6(0, dst, false).addr, t.map6(1, src, false).addr, t.ident(0), []);
    assert InnerError6(t, p) == Some((ErrorKind(3, 1, 0), inner));
    var m2 := t.map6(2, src, false);
    var from, to := if m2.Mapped? then m2.addr else t.local4, t.map6(3, dst, false).addr;
    q := Message4(p, ErrorKind(3, 1, 0), inner, from, to, t.ident(1));
    HugeInner(e, t.map6(0, dst, false).addr, t.map6(1, src, false).addr, t.ident(0));
    MessageShape(p, inner, from, to, t.ident(1));
    Get16Shift(q, 28, 2);
  }

  lemma MessageShape(p: Pkt6, inner: seq<Byte>, from: Addr4, to: Addr4, id: U16)
    requires WellParsed6(p) && p.raw[7] >= 2
    ensures var q := Message4(p, ErrorKind(3, 1, 0), inner, from, to, id);
            |q| == 28 + |inner| && q[20] == 3 && q[21] == 1 && q[28..] == inner
  {
    hide Hdr6to4, Seal4, IcmpBody, Verifies;
    var body := IcmpBody(3, 1, 0, inner, 0);
    IcmpBodyVerifies(3, 1, 0, inner, 0);
    Hdr6to4Fields(p, ICMP_HDR + |inner|, p.raw[7] - 1, from, to, id, body);
    var q := Message4(p, ErrorKind(3, 1, 0), inner, from, to, id);
    assert q[28..] == q[20..][8..] && q[20] == q[20..][0] && q[21] == q[20..][1];
  }

  lemma HugeInner(e: Pkt6, src: Addr4, dst: Addr4, id: U16)
    requires WellParsed6(e) && e.hdrLen == 0 && Get16(e.raw, 4) == 65535
    ensures var inner := Inner4(e, src, dst, id, []);
            |inner| == 20 && Get16(inner, 2) == 19 && Parse4(inner) == Bad4(IPHeaderInvalid)
  {
    hide Hdr6to4, Seal4, Verifies, ClassifyIPv4;
    Hdr6to4Fields(e, 65535, e.raw[7], src, dst, id, []);
  }

  lemma EmbeddedHuge(p: Pkt6, src: Addr6, dst: Addr6)
    requires WellParsed6(p) && p.proto == ICMP6 && ValidIPv6(src) && ValidIPv6(dst)
    requires p.data[0] == 1 && Get32(p.data, 4) == 0 && p.data[8..] == HugeHeader(dst, src)
    ensures var em := HugeHeader(dst, src);
            var e := Pkt6(em, 0, None, [], 59);
            WellParsed6(e) && Embedded6(p) == Some(e) && em[8..24] == dst && em[24..40] == src && Get16(em, 4) == 65535
  {
    hide Hdr6, ValidIPv6;
    var em := HugeHeader(dst, src);
    Hdr6Fields(0, 65535, 59, 64, dst, src, []);
    assert em + [] == em;
    assert Body6(em) == [];
    Parse6Partitions(em);
  }

  /** A Packet Too Big for 1000 bytes passes an IPv4 stretch as one for 1280. */
  lemma SmallMtuRaised(mtu: nat, emTotal: nat)
    requires MTU_MIN <= mtu <= MAX_PACKET
    ensures ErrorKind6to4(mtu, 2, 0, 1000) == Some(ErrorKind(3, 4, 980))
    ensures ErrorKind4to6(mtu, 3, 4, 980, emTotal) == Some(ErrorKind(2, 0, 1280))
  {
  }

  /** A routing header with one segment left, and a UDP header. */
  const ROUTED: seq<Byte> := [17, 0, 0, 1, 0, 0, 0, 0, 0, 53, 0, 53, 0, 8, 0, 0]

  /** The octet 43 counts the segment that is left; the refusal points to the octet 44. */
  lemma PointerMisses(t: Env, src: Addr6, dst: Addr6) returns (q: seq<Byte>)
    requires ValidEnv(t) && ValidIPv6(src) && ValidIPv6(dst)
    ensures var raw := Hdr6(0, 16, 43, 64, src, dst) + ROUTED;
            && CountsSegments(raw, 43) && raw[43] == 1
            && Translate(t, raw) == [q] && |q| >= 48 && q[40] == 4 && q[41] == 0 && Get32(q, 44) == 44
  {
    hide Hdr6, Translate, ValidIPv6, Passes6, Parse6, Reaches, WellParsed6, Get16;
    var raw := Hdr6(0, 16, 43, 64, src, dst) + ROUTED;
    Hdr6Fields(0, 16, 43, 64, src, dst, ROUTED);
    RoutedParses(raw);
    SegmentsLeft(t, raw);
    q := Translate(t, raw)[0];
    assert raw[43] == raw[40..][3];
  }

  lemma RoutedParses(raw: seq<Byte>)
    requires |raw| == 56 && raw[0] / 0x10 == 6 && Get16(raw, 4) == 16 && raw[6] == 43 && raw[40..] == ROUTED
    requires ValidIPv6(raw[8..24]) && ValidIPv6(raw[24..40])
    ensures Parse6(raw) == Routed6(Pkt6(raw, 8, None, ROUTED[8..], 17), 44) && CountsSegments(raw, 43)
  {
    hide ValidIPv6, Get16;
    assert Body6(raw) == ROUTED;
    assert WalkExtensions(ROUTED, 0, 43, 0, 40) == WalkExtensions(ROUTED, 8, 17, 1, 40) == Walk(8, 17, 1, 40);
    assert RoutingAt(ROUTED, 43, 0);
  }
}
