/** Reading back the headers that the translator writes. */
module Headers {
  import opened Bytes
  import opened NetUtil
  import opened Packet
  import opened Checksum
  import opened Xlate

  /** The traffic class is the byte after the four bits of the version; the flow label is zero. */
  lemma Hdr6Fields(tc: Byte, len: U16, nh: Byte, hop: Byte, src: Addr6, dst: Addr6, rest: seq<Byte>)
    ensures var q := Hdr6(tc, len, nh, hop, src, dst) + rest;
            && q[0] / 0x10 == 6 && Tos6(q) == tc && Get32(q, 0) == Word6(tc)
            && Get16(q, 4) == len && q[6] == nh && q[7] == hop
            && q[8..24] == src && q[24..40] == dst && q[8..40] == src + dst && q[40..] == rest
  {
    var h := Hdr6(tc, len, nh, hop, src, dst);
    var q := h + rest;
    assert q[0] == h[0] && q[1] == h[1] && q[2] == q[3] == 0;
    assert h[4..6] == Enc16(len);
    assert Get16(q, 4) == Get16(h[4..6], 0);
    assert q[8..24] == src;
    assert q[24..40] == dst;
    assert q[8..40] == src + dst;
    assert q[40..] == rest;
  }

  /** Section 3 of RFC 8200: version 6, the traffic class and a flow label of zero. */
  function Word6(tc: Byte): U32 {
    0x6000_0000 + tc * 0x10_0000
  }

  /** The traffic class of a packet. */
  function Class6(raw: seq<Byte>): Byte
    requires |raw| >= 4
  {
    Get32(raw, 0) / 0x10_0000 % 0x100
  }

  lemma ClassIsTos6(raw: seq<Byte>)
    requires |raw| >= 4
    ensures Class6(raw) == Tos6(raw)
  {
    var a: int, b: int, c: int, d: int := raw[0], raw[1], raw[2], raw[3];
    var low := b % 0x10 * 0x1_0000 + c * 0x100 + d;
    assert Get32(raw, 0) == (a * 0x10 + b / 0x10) * 0x10_0000 + low && 0 <= low < 0x10_0000;
    assert Get32(raw, 0) / 0x10_0000 == a * 0x10 + b / 0x10;
    assert a * 0x10 + b / 0x10 == a / 0x10 * 0x100 + Tos6(raw);
  }

  lemma FragHdrFields(nh: Byte, field: U16, id: U32)
    ensures var f := FragHdr(nh, field, id); f[0] == nh && f[1] == 0 && Get16(f, 2) == field && Get32(f, 4) == id
  {
    var f := FragHdr(nh, field, id);
    assert f[2..4] == Enc16(field);
    assert f[4..8] == Enc32(id);
    assert Get16(f, 2) == Get16(f[2..4], 0);
    assert Get32(f, 4) == Get32(f[4..8], 0);
  }

  /** The fields of a sealed IPv4 header, which verifies. */
  lemma Hdr4Fields(tos: Byte, total: U16, id: U16, fo: U16, ttl: Byte, proto: Byte, src: Addr4, dst: Addr4,
                   rest: seq<Byte>)
    ensures var q := Seal4(Hdr4(tos, total, id, fo, ttl, proto, src, dst)) + rest;
            && q[0] == 0x45 && q[1] == tos
            && Get16(q, 2) == total && Get16(q, 4) == id && Get16(q, 6) == fo
            && q[8] == ttl && q[9] == proto
            && q[12..16] == src && q[16..20] == dst && q[12..20] == src + dst && q[20..] == rest
            && Verifies(q[..20], 0)
  {
    var h := Hdr4(tos, total, id, fo, ttl, proto, src, dst);
    var s := Seal4(h);
    var q := s + rest;
    assert h[2..4] == Enc16(total);
    assert h[4..6] == Enc16(id);
    assert h[6..8] == Enc16(fo);
    assert Get16(q, 2) == Get16(h[2..4], 0);
    assert Get16(q, 4) == Get16(h[4..6], 0);
    assert Get16(q, 6) == Get16(h[6..8], 0);
    assert h[10] == 0 && h[11] == 0;
    assert q[12..16] == h[12..16] == src;
    assert q[16..20] == h[16..20] == dst;
    assert q[12..20] == src + dst;
    assert q[..20] == s;
    assert q[20..] == rest;
    ChecksumVerifies(h, 10, 0);
  }

  /** A packet without extension headers parses to its own payload. */
  lemma ParseWhole6(tc: Byte, nh: Byte, hop: Byte, src: Addr6, dst: Addr6, data: seq<Byte>)
    requires |data| <= 65535 && !Extension(nh) && nh != FRAG
    ensures var q := Hdr6(tc, |data|, nh, hop, src, dst) + data;
            if ValidIPv6(src) && ValidIPv6(dst)
            then Parse6(q) == Finish6(Pkt6(q, 0, None, data, nh), 0, IP6_HDR)
            else Parse6(q) == Bad6(IPHeaderInvalid)
  {
    var q := Hdr6(tc, |data|, nh, hop, src, dst) + data;
    Hdr6Fields(tc, |data|, nh, hop, src, dst, data);
    assert Body6(q) == data;
  }

  /** A packet with a fragment header only. */
  lemma ParseFragment6(tc: Byte, hop: Byte, src: Addr6, dst: Addr6, nh: Byte, field: U16, id: U32, data: seq<Byte>)
    requires FRAG_HDR + |data| <= 65535
    ensures var f := FragHdr(nh, field, id);
            var q := Hdr6(tc, FRAG_HDR + |data|, FRAG, hop, src, dst) + f + data;
            if !ValidIPv6(src) || !ValidIPv6(dst) then Parse6(q) == Bad6(IPHeaderInvalid)
            else if MF6(field) && |data| % 8 != 0 then Parse6(q) == Bad6(FragmentMisaligned)
            else if Offset6(field) + |data| > 65535 then Parse6(q) == Bad6(FragmentTooLong)
            else Parse6(q) == Finish6(Pkt6(q, FRAG_HDR, Some(f), data, nh), 0, IP6_HDR)
  {
    var f := FragHdr(nh, field, id);
    var h := Hdr6(tc, FRAG_HDR + |data|, FRAG, hop, src, dst);
    var q := h + f + data;
    assert q == h + (f + data);
    Hdr6Fields(tc, FRAG_HDR + |data|, FRAG, hop, src, dst, f + data);
    FragHdrFields(nh, field, id);
    assert Body6(q) == f + data;
    assert (f + data)[0..8] == f;
    assert (f + data)[8..] == data;
  }

  /** An option-free packet whose length field is right. */
  lemma ParseWhole4(tos: Byte, id: U16, fo: U16, ttl: Byte, proto: Byte, src: Addr4, dst: Addr4, data: seq<Byte>)
    requires IP4_HDR + |data| <= 65535
    ensures var q := Seal4(Hdr4(tos, IP4_HDR + |data|, id, fo, ttl, proto, src, dst)) + data;
            if ClassifyIPv4(src).Invalid? || ClassifyIPv4(dst).Invalid? then Parse4(q) == Bad4(IPHeaderInvalid)
            else if proto == ICMP && Fragmented4(fo) then Parse4(q) == Bad4(ICMPFragmented)
            else if proto == ICMP && |data| < ICMP_HDR then Parse4(q) == Bad4(ICMPHeaderLength)
            else if proto != ICMP && IPv6Only(proto) then Parse4(q) == Bad4(IPv6OnlyProto)
            else if proto != ICMP && MF4(fo) && |data| % 8 != 0 then Parse4(q) == Bad4(FragmentMisaligned)
            else if proto != ICMP && Offset4(fo) * 8 + |data| > 65535 then Parse4(q) == Bad4(FragmentTooLong)
            else Parse4(q) == Good4(Pkt4(q, IP4_HDR, data, proto))
  {
    hide Seal4, Hdr4, Verifies, ClassifyIPv4;
    var q := Seal4(Hdr4(tos, IP4_HDR + |data|, id, fo, ttl, proto, src, dst)) + data;
    Hdr4Fields(tos, IP4_HDR + |data|, id, fo, ttl, proto, src, dst, data);
    assert q[20..Min(|q|, IP4_HDR + |data|)] == data;
  }
}
