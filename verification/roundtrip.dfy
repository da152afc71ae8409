/** A packet translated to IPv6 and back. */
module RoundTrip {
  import opened Bytes
  import opened NetUtil
  import opened Packet
  import opened Checksum
  import opened Xlate
  import opened Headers
  import opened TransportLaws

  /** Where the checksum field is, for the protocols whose checksum the translator rewrites. */
  function FieldAt(proto: Byte): nat {
    if proto == ICMP then 2 else ChecksumAt(proto)
  }

  /** The payload that comes back: a checksum of 0xffff, which equals 0 in one's complement, is 0 outside UDP. */
  function Returned(proto: Byte, data: seq<Byte>): seq<Byte> {
    if (proto == TCP || proto == ICMP) && FieldAt(proto) + 2 <= |data| && Get16(data, FieldAt(proto)) == 0xffff
    then Put16(data, FieldAt(proto), 0)
    else data
  }

  /**
   * Payloads that survive the trip: TCP, UDP with a checksum, echo messages, and anything the translator does not look
   * into.
   */
  predicate Survives(proto: Byte, data: seq<Byte>) {
    match proto
    case 6 => |data| >= 20
    case 17 => |data| >= 8 && Get16(data, 6) != 0
    case 1 => |data| >= 8 && (data[0] == 8 || data[0] == 0)
    case _ => true
  }

  lemma PutTwice(b: seq<Byte>, i: nat, v: U16, w: U16)
    requires i + 2 <= |b|
    ensures Put16(Put16(b, i, v), i, w) == Put16(b, i, w)
  {
  }

  lemma PutSame(b: seq<Byte>, i: nat)
    requires i + 2 <= |b|
    ensures Put16(b, i, Get16(b, i)) == b
  {
  }

  lemma SameField(x: U16, y: U16)
    requires x % 0xffff == y % 0xffff
    ensures x == y || (x == 0 && y == 0xffff) || (x == 0xffff && y == 0)
  {
  }

  /** Adjusting for a change of addresses and then for its reverse. */
  lemma AdjustBack(field: U16, mid: U16, x: nat, y: nat)
    requires mid % 0xffff == Adjusted(field, x, y) % 0xffff && x > 0
    ensures Adjusted(mid, y, x) % 0xffff == field % 0xffff
    ensures Adjusted(mid, y, x) != 0xffff
  {
    hide Adjusted;
    var a, b := Adjusted(field, x, y), Adjusted(mid, y, x);
    AdjustedCongruent(field, x, y);
    AdjustedCongruent(mid, y, x);
    var i := Multiple(a + y, field + x);
    var j := Multiple(b + x, mid + y);
    var k := Multiple(mid, a);
    Congruent(b, field, i + j + k);
  }

  lemma TransportBack(mode: UDPMode, mode': UDPMode, proto: Byte, data: seq<Byte>, from: seq<Byte>, to: seq<Byte>,
                      ps: nat, ps': nat)
    requires Survives(proto, data) && proto != ICMP && Words(from) > 0
    ensures var r := Transport(mode, proto, data, from, to, ps);
            && r.Rewritten? && |r.data| == |data|
            && Transport(mode', proto, r.data, to, from, ps') == Rewritten(Returned(proto, data))
  {
    hide Words, Adjusted, Put16;
    var x, y := Words(from), Words(to);
    if proto == TCP || proto == UDP {
      var at := ChecksumAt(proto);
      var field := Get16(data, at);
      var ck := Adjusted(field, x, y);
      NonZeroCongruent(ck, 0);
      var mid := if proto == UDP then NonZero(ck) else ck;
      AdjustBack(field, mid, x, y);
      var back := Adjusted(mid, y, x);
      NonZeroCongruent(back, 0);
      PutTwice(data, at, mid, if proto == UDP then NonZero(back) else back);
      SameField(if proto == UDP then NonZero(back) else back, field);
      PutSame(data, at);
    }
  }

  lemma EchoBack(data: seq<Byte>, ps: nat)
    requires Survives(ICMP, data)
    ensures |Echo4to6(data, ps)| == |data| && Echo6to4(Echo4to6(data, ps), ps) == Returned(ICMP, data)
  {
    hide Ones;
    var request := data[0] == 8;
    var delta := if request then 0x7800 else 0x8100;
    var field := Get16(data, 2);
    var x := 0xffff - field + ps + delta;
    var mid := 0xffff - Ones(x);
    var i := OnesSplit(x);
    var y := 0xffff - mid + (0xffff - Ones(ps)) + (0xffff - delta);
    var back := 0xffff - Ones(y);
    var j := OnesSplit(y);
    var k := OnesSplit(ps);
    Congruent(back, field, i + j - k - 2);
    SameField(back, field);
    PutSame(data, 2);
    var e := Echo4to6(data, ps);
    assert e[0] == if request then 128 else 129;
    assert Echo6to4(e, ps) == Put16(data, 2, back);
  }

  // ----- The packet a forwarded packet becomes -----

  /** handleIPv4 takes the packet to xlate4to6Data. */
  ghost predicate Forwardable4(t: Env, p: Pkt4) {
    && ValidEnv(t) && WellParsed4(p) && Accepted4(p)
    && p.raw[16..20] != t.local4 && p.raw[8] >= 2
    && (p.proto == ICMP ==> p.data[0] == 8 || p.data[0] == 0)
  }

  ghost predicate Forwardable6(t: Env, p: Pkt6) {
    && ValidEnv(t) && WellParsed6(p) && Accepted6(p)
    && p.raw[24..40] != t.local6 && p.raw[7] >= 2
    && (p.proto == ICMP6 ==> p.data[0] == 128 || p.data[0] == 129)
  }

  lemma HandleForwards4(t: Env, p: Pkt4)
    requires Parse4(p.raw) == Good4(p) && Forwardable4(t, p)
    ensures Translate(t, p.raw) == Data4to6(t, p)
  {
  }

  lemma HandleForwards6(t: Env, p: Pkt6)
    requires Parse6(p.raw) == Good6(p) && Forwardable6(t, p)
    ensures Translate(t, p.raw) == Data6to4(t, p)
  {
  }

  lemma PayloadLength4(t: Env, p: Pkt4, addrs: seq<Byte>)
    requires WellParsed4(p)
    ensures Payload4to6(t, p, addrs).Rewritten? ==> |Payload4to6(t, p, addrs).data| == |p.data|
  {
  }

  lemma PayloadLength6(t: Env, p: Pkt6, addrs: seq<Byte>)
    requires WellParsed6(p)
    ensures Payload6to4(t, p, addrs).Rewritten? ==> |Payload6to4(t, p, addrs).data| == |p.data|
  {
  }

  /** One IPv6 packet without a fragment header. */
  lemma ForwardWhole4(t: Env, p: Pkt4, src: Addr6, dst: Addr6, data: seq<Byte>)
    requires Parse4(p.raw) == Good4(p) && Forwardable4(t, p)
    requires t.map4(0, p.raw[16..20]) == Mapped(dst) && t.map4(1, p.raw[12..16]) == Mapped(src)
    requires Whole4(t, p) && !TooBig4(t, p) && Payload4to6(t, p, src + dst) == Rewritten(data)
    ensures |data| == |p.data| && IP6_HDR + |data| <= t.mtu
    ensures Translate(t, p.raw) == [Hdr6(p.raw[1], |data|, NextHeader(p.proto), p.raw[8] - 1, src, dst) + data]
  {
    hide Payload4to6, Parse4, Accepted4, Error4, Hdr6, Fragments, Translate, Verifies;
    HandleForwards4(t, p);
    PayloadLength4(t, p, src + dst);
  }

  /** One IPv4 packet. */
  lemma ForwardWhole6(t: Env, p: Pkt6, src: Addr4, dst: Addr4, data: seq<Byte>)
    requires Parse6(p.raw) == Good6(p) && Forwardable6(t, p)
    requires t.map6(0, p.raw[24..40], false) == Mapped(dst) && t.map6(1, p.raw[8..24], true) == Mapped(src)
    requires IP6_HDR + p.hdrLen + |p.data| <= t.mtu && Payload6to4(t, p, src + dst) == Rewritten(data)
    ensures |data| == |p.data|
    ensures Translate(t, p.raw) == [Seal4(Hdr6to4(p, |data|, p.raw[7] - 1, src, dst, t.ident(0))) + data]
  {
    hide Payload6to4, Parse6, Accepted6, Hdr6to4, Error6, Seal4, Translate, Verifies;
    HandleForwards6(t, p);
    PayloadLength6(t, p, src + dst);
  }

  // ----- There and back -----

  /** The packets the round trip is about. */
  ghost predicate Traveller(t: Env, p: Pkt4) {
    && Forwardable4(t, p)
    && p.hdrLen == IP4_HDR && p.raw[8] >= 3
    && Whole4(t, p) && !TooBig4(t, p)
    && Survives(p.proto, p.data)
  }

  /** The mapper takes both addresses across, and the second pass takes them back. */
  ghost predicate MapsBack(t: Env, t': Env, src4: Addr4, dst4: Addr4, src6: Addr6, dst6: Addr6) {
    && t.map4(0, dst4) == Mapped(dst6) && t.map4(1, src4) == Mapped(src6)
    && t'.map6(0, dst6, false) == Mapped(dst4) && t'.map6(1, src6, true) == Mapped(src4)
    && ValidIPv6(src6) && ValidIPv6(dst6) && dst6 != t'.local6
  }

  /** r is p after two hops: same addresses, type of service, protocol, length and payload. */
  ghost predicate ArrivedBack(p: Pkt4, r: seq<Byte>)
    requires WellParsed4(p)
  {
    && |r| == p.hdrLen + |p.data| && p.hdrLen == IP4_HDR
    && r[0] == 0x45 && r[1] == p.raw[1]
    && Get16(r, 2) == Get16(p.raw, 2)
    && r[8] as int == p.raw[8] as int - 2 && r[9] == p.raw[9]
    && r[12..20] == p.raw[12..20]
    && r[20..] == Returned(p.proto, p.data)
    && Verifies(r[..20], 0)
  }

  lemma AddressSum(p: Pkt4)
    requires WellParsed4(p) && !ClassifyIPv4(p.raw[12..16]).Invalid?
    ensures Words(p.raw[12..20]) > 0
  {
    WordsZero(p.raw[12..20]);
    assert p.raw[12..20][0] == p.raw[12..16][0];
  }

  /** The outward packet as the second pass parses it. */
  lemma OutwardParses(t: Env, t': Env, p: Pkt4, src: Addr6, dst: Addr6, data: seq<Byte>)
    requires ValidEnv(t') && Traveller(t, p) && ValidIPv6(src) && ValidIPv6(dst) && dst != t'.local6
    requires Payload4to6(t, p, src + dst) == Rewritten(data)
    ensures |data| == |p.data| <= 65535
    ensures var q := Hdr6(p.raw[1], |data|, NextHeader(p.proto), p.raw[8] - 1, src, dst) + data;
            var p' := Pkt6(q, 0, None, data, NextHeader(p.proto));
            Parse6(q) == Good6(p') && Forwardable6(t', p') && Tos6(q) == p.raw[1]
  {
    hide Words, Ones, Verifies, Payload4to6, Hdr6, Parse6, ValidIPv6, ClassifyIPv4, Whole4, TooBig4, Survives;
    var nh := NextHeader(p.proto);
    PayloadLength4(t, p, src + dst);
    var q := Hdr6(p.raw[1], |data|, nh, p.raw[8] - 1, src, dst) + data;
    ParseWhole6(p.raw[1], nh, p.raw[8] - 1, src, dst, data);
    Hdr6Fields(p.raw[1], |data|, nh, p.raw[8] - 1, src, dst, data);
    Parse6Partitions(q);
    if p.proto == ICMP { OutwardEcho(t, p, src + dst, data); }
  }

  lemma OutwardEcho(t: Env, p: Pkt4, addrs: seq<Byte>, data: seq<Byte>)
    requires Traveller(t, p) && p.proto == ICMP && Payload4to6(t, p, addrs) == Rewritten(data)
    ensures |data| >= ICMP_HDR && (data[0] == 128 || data[0] == 129)
    ensures Verifies(data, Pseudo6(addrs, |p.data|, ICMP6))
  {
    hide Words, Ones, Verifies, Echo4to6;
    var ps := Pseudo6(addrs, |p.data|, ICMP6);
    Echo4to6Status(p.data, [], ps);
    assert p.data + [] == p.data && Echo4to6(p.data, ps) + [] == Echo4to6(p.data, ps);
    EchoKeepsContent(p.data, ps);
  }

  /** The payload after both passes. */
  lemma PayloadBack(t: Env, t': Env, p: Pkt4, p': Pkt6, addrs: seq<Byte>)
    requires Traveller(t, p) && WellParsed6(p') && p'.proto == NextHeader(p.proto) && p'.frag.None? && p'.hdrLen == 0
    requires Payload4to6(t, p, addrs).Rewritten? && p'.data == Payload4to6(t, p, addrs).data
    requires p'.raw[8..40] == addrs && Get16(p'.raw, 4) == |p.data| && Words(p.raw[12..20]) > 0
    ensures Payload6to4(t', p', p.raw[12..20]) == Rewritten(Returned(p.proto, p.data))
  {
    hide Words, Ones, Verifies, Echo4to6, Echo6to4, Transport, Returned, Survives, TooBig4, Pseudo4, Pseudo6;
    if p.proto == ICMP {
      EchoBack(p.data, Pseudo6(addrs, |p.data|, ICMP6));
    } else {
      TransportBack(t.udp, t'.udp, p.proto, p.data, p.raw[12..20], addrs, Pseudo6(addrs, |p.data|, UDP),
                    Pseudo4(p.raw[12..20], |p'.data|, UDP));
    }
  }

  /** End to end: every traveller comes back with only its hop count, and possibly a 0xffff checksum, changed. */
  lemma RoundTrip(t: Env, t': Env, p: Pkt4, src6: Addr6, dst6: Addr6)
    requires Parse4(p.raw) == Good4(p) && Traveller(t, p)
    requires ValidEnv(t') && t.mtu <= t'.mtu
    requires MapsBack(t, t', p.raw[12..16], p.raw[16..20], src6, dst6)
    ensures exists q, r :: Translate(t, p.raw) == [q] && Translate(t', q) == [r] && ArrivedBack(p, r)
  {
    hide Payload4to6, Payload6to4, Returned, Hdr4, Hdr6, Seal4, Parse4, Parse6, Translate, Words, Ones, Verifies;
    hide Survives;
    var src4, dst4 := p.raw[12..16], p.raw[16..20];
    var addrs := src6 + dst6;
    TravellerPayload(t, p, addrs);
    var data := Payload4to6(t, p, addrs).data;
    ForwardWhole4(t, p, src6, dst6, data);
    OutwardParses(t, t', p, src6, dst6, data);
    var nh := NextHeader(p.proto);
    var q := Hdr6(p.raw[1], |data|, nh, p.raw[8] - 1, src6, dst6) + data;
    Hdr6Fields(p.raw[1], |data|, nh, p.raw[8] - 1, src6, dst6, data);
    var p' := Pkt6(q, 0, None, data, nh);
    GoodHeader4(p);
    AddressSum(p);
    PayloadBack(t, t', p, p', addrs);
    assert src4 + dst4 == p.raw[12..20];
    var back := Returned(p.proto, p.data);
    ForwardWhole6(t', p', src4, dst4, back);
    var r := Seal4(Hdr6to4(p', |back|, q[7] - 1, src4, dst4, t'.ident(0))) + back;
    Returning(p, p', src4, dst4, t'.ident(0), back);
    assert Translate(t, p.raw) == [q] && Translate(t', q) == [r] && ArrivedBack(p, r);
  }

  lemma GoodHeader4(p: Pkt4)
    requires Parse4(p.raw) == Good4(p)
    ensures WellParsed4(p) && !ClassifyIPv4(p.raw[12..16]).Invalid? && !ClassifyIPv4(p.raw[16..20]).Invalid?
  {
    Parse4Partitions(p.raw);
  }

  lemma TravellerPayload(t: Env, p: Pkt4, addrs: seq<Byte>)
    requires Traveller(t, p)
    ensures Payload4to6(t, p, addrs).Rewritten?
  {
  }

  /** The header of the returning packet. */
  lemma Returning(p: Pkt4, p': Pkt6, src: Addr4, dst: Addr4, id: U16, back: seq<Byte>)
    requires WellParsed4(p) && WellParsed6(p') && p'.frag.None? && p'.proto == NextHeader(p.proto)
    requires p.hdrLen == IP4_HDR && p.hdrLen + |p.data| == Get16(p.raw, 2) && p.raw[8] >= 3
    requires Tos6(p'.raw) == p.raw[1] && p'.raw[7] == p.raw[8] - 1
    requires src == p.raw[12..16] && dst == p.raw[16..20] && back == Returned(p.proto, p.data)
    ensures |back| == |p.data|
    ensures ArrivedBack(p, Seal4(Hdr6to4(p', |back|, p'.raw[7] - 1, src, dst, id)) + back)
  {
    hide Seal4, Hdr4, Verifies;
    assert |back| == |p.data|;
    var small := p'.hdrLen + |back| <= MTU_MIN;
    Hdr4Fields(p.raw[1], IP4_HDR + |back|, if small then id else 0, if small then 0 else 0x4000, p.raw[8] - 2, p.proto,
               src, dst, back);
    assert src + dst == p.raw[12..20];
  }
}
