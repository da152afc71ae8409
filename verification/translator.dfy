/** The translator at work: packets rewritten in place, buffers filled, addresses asked of the table. */
module Translators {
  import opened Bytes
  import opened NetUtil
  import opened Packet
  import opened Checksum
  import opened Table
  import opened AddressMap
  import X = Xlate
  import opened Buffers
  import opened Emitters
  import opened Senders
  import opened Headers
  import opened Pkts
  import opened Mappers
  import RoundTrip

  type Env = X.Env

  /** header4to6: the IPv6 header for the IPv4 packet p, its hop limit still the TTL. */
  method HeaderTo6(p: Pkt, h: array<Byte>, at: nat, payloadLen: nat, src: Addr6, dst: Addr6)
    requires p.Parsed4() && at + IP6_HDR <= h.Length && h != p.buf
    modifies h
    ensures h[..] == Splice(old(h[..]), at,
            X.Hdr6(p.Raw()[1], payloadLen % 0x1_0000, X.NextHeader(p.proto), p.Raw()[8], src, dst))
    ensures h[at..at + 4] == Enc32(0x6000_0000 + p.Raw()[1] as int * 0x10_0000)
  {
    hide Splice, X.Hdr6, Get16;
    var next := if p.proto == ICMP then ICMP6 else p.proto;
    WriteHdr6(h, at, p.Raw()[1], payloadLen % 0x1_0000, next, p.Raw()[8], src, dst);
  }

  /** header6to4: the IPv4 header for the IPv6 packet p, its checksum zero and its TTL still the hop limit. */
  method HeaderTo4(p: Pkt, h: array<Byte>, at: nat, payloadLen: nat, src: Addr4, dst: Addr4, random: U16)
    requires p.Parsed6() && at + IP4_HDR <= h.Length && h != p.buf
    modifies h
    ensures h[..] == Splice(old(h[..]), at, X.Hdr6to4(p.View6(), payloadLen, p.Raw()[7], src, dst, random))
    ensures h[at + 1] == Get32(p.Raw(), 0) / 0x10_0000 % 0x100
  {
    hide Splice, X.Hdr4, Get16, Get32, MF6, X.Tos6;
    var raw := p.Raw();
    var id: U16, fo: U16;
    if p.fragAt.Some? {
      var fh := p.buf[p.fragAt.value..p.fragAt.value + FRAG_HDR];
      var of := Get16(fh, 2);
      id, fo := Get32(fh, 4) % 0x1_0000, of / 8;
      if MF6(of) {
        fo := fo + 0x2000;
      }
    } else if p.hdrLen + payloadLen <= X.MTU_MIN {
      id, fo := random, 0;
    } else {
      id, fo := 0, 0x4000;
    }
    WriteHdr4(h, at, X.Tos6(raw), (IP4_HDR + payloadLen) % 0x1_0000, id, fo, raw[7],
      if p.proto == ICMP6 then ICMP else p.proto, src, dst);
    ClassWritten(h[..], at, p.View6(), payloadLen, raw[7], src, dst, random, old(h[..]));
  }

  lemma ClassWritten(s: seq<Byte>, at: nat, v: Pkt6, payloadLen: nat, ttl: Byte, src: Addr4, dst: Addr4, id: U16,
                     before: seq<Byte>)
    requires WellParsed6(v) && at + IP4_HDR <= |before|
             && s == Splice(before, at, X.Hdr6to4(v, payloadLen, ttl, src, dst, id))
    ensures |s| == |before| && s[at + 1] == Get32(v.raw, 0) / 0x10_0000 % 0x100
  {
    hide X.Tos6, Get32, Get16, Enc16, WellParsedFrag;
    ClassIsTos6(v.raw);
    assert s[at + 1] == X.Hdr6to4(v, payloadLen, ttl, src, dst, id)[1];
  }

  lemma TtlSplices(p: Pkt6, payloadLen: nat, ttl: Byte, src: Addr4, dst: Addr4, id: U16, ttl': Byte)
    requires WellParsed6(p)
    ensures X.Hdr6to4(p, payloadLen, ttl, src, dst, id)[8] == ttl
    ensures Splice(X.Hdr6to4(p, payloadLen, ttl, src, dst, id), 8, [ttl'])
            == X.Hdr6to4(p, payloadLen, ttl', src, dst, id)
  {
    hide Enc16, WellParsed6, Get16, Get32, X.Tos6;
  }

  lemma HopSplices(tc: Byte, len: U16, nh: Byte, hop: Byte, src: Addr6, dst: Addr6, hop': Byte)
    ensures X.Hdr6(tc, len, nh, hop, src, dst)[7] == hop
    ensures Splice(X.Hdr6(tc, len, nh, hop, src, dst), 7, [hop']) == X.Hdr6(tc, len, nh, hop', src, dst)
  {
    hide Enc16;
  }

  lemma NextSplices(tc: Byte, len: U16, nh: Byte, hop: Byte, src: Addr6, dst: Addr6, nh': Byte)
    ensures X.Hdr6(tc, len, nh, hop, src, dst)[6] == nh
    ensures Splice(X.Hdr6(tc, len, nh, hop, src, dst), 6, [nh']) == X.Hdr6(tc, len, nh', hop, src, dst)
  {
    hide Enc16;
  }

  class Translator {
    const local4: Addr4
    const local6: Addr6
    const mtu: nat
    const offlink: nat
    const udp: X.UDPMode
    const table: AddressTable

    /** New: the off-link MTU is never below the IPv6 minimum; the interface MTU is the caller's business. */
    constructor (local4: Addr4, local6: Addr6, mtu: nat, offlink: nat, udp: X.UDPMode, table: AddressTable)
      ensures Configured() <==> X.MTU_MIN <= mtu <= X.MAX_PACKET
      ensures this.local4 == local4 && this.local6 == local6 && this.mtu == mtu && this.udp == udp
              && this.table == table
      ensures this.offlink == if offlink < X.MTU_MIN then X.MTU_MIN else offlink
    {
      this.local4, this.local6, this.mtu, this.udp, this.table := local4, local6, mtu, udp, table;
      this.offlink := if offlink < X.MTU_MIN then X.MTU_MIN else offlink;
    }

    predicate Configured() {
      X.MTU_MIN <= mtu <= X.MAX_PACKET && X.MTU_MIN <= offlink
    }

    /** t has the parameters of this translator. */
    ghost predicate Runs(t: Env) {
      t.local4 == local4 && t.local6 == local6 && t.mtu == mtu && t.offlink == offlink && t.udp == udp
    }

    /** sendICMPv4Error. */
    method SendError4(em: Emitter, typ: Byte, code: Byte, word: U32, p: Pkt, ghost t: Env)
      requires em.Valid() && p.Parsed4() && p.buf !in em.Held() && Runs(t)
      modifies em, em.Spare()
      ensures em.Valid() && em.Spare() <= old(em.Spare()) && fresh(em.Held() - old(em.Held()))
      ensures em.Sent() == old(em.Sent()) + X.Error4(t, old(p.View4()), typ, code, word)
    {
      hide X.Icmp4, PacketsOf, Get16;
      var raw := p.Raw();
      if p.proto == ICMP && p.buf[p.dataAt] != 8 {
        return;
      }
      var n := p.hdrLen + (p.dataEnd - p.dataAt);
      if n > X.ICMP4_MAX - IP4_HDR - ICMP_HDR {
        n := X.ICMP4_MAX - IP4_HDR - ICMP_HDR;
      }
      SendIcmp4(em, 0, local4, raw[12..16], typ, code, word, raw[..n]);
    }

    /** sendICMPv6Error. */
    method SendError6(em: Emitter, typ: Byte, code: Byte, word: U32, p: Pkt, ghost t: Env)
      requires em.Valid() && p.Parsed6() && p.buf !in em.Held() && Runs(t)
      modifies em, em.Spare()
      ensures em.Valid() && em.Spare() <= old(em.Spare()) && fresh(em.Held() - old(em.Held()))
      ensures em.Sent() == old(em.Sent()) + X.Error6(t, old(p.View6()), typ, code, word)
    {
      hide X.Icmp6, PacketsOf, Get16;
      var raw := p.Raw();
      if p.proto == ICMP6 && p.buf[p.dataAt] != 128 {
        return;
      }
      var n := IP6_HDR + p.hdrLen + (p.dataEnd - p.dataAt);
      if n > X.MTU_MIN - IP6_HDR - ICMP_HDR {
        n := X.MTU_MIN - IP6_HDR - ICMP_HDR;
      }
      SendIcmp6(em, 0, local6, raw[8..24], typ, code, word, raw[..n]);
    }

    /** The header of the forwarded packet, one hop further. */
    method ForwardHeader4(p: Pkt, src: Addr6, dst: Addr6) returns (h: array<Byte>)
      requires p.Parsed4() && p.Raw()[8] >= 2
      ensures fresh(h)
      ensures h[..] == X.Hdr6(p.Raw()[1], |p.Data()| % 0x1_0000, X.NextHeader(p.proto), p.Raw()[8] - 1, src, dst)
    {
      hide Splice, X.Hdr6, Get16;
      var raw, len := p.Raw(), p.dataEnd - p.dataAt;
      h := new Byte[IP6_HDR](_ => 0);
      WholeSplice(h[..], X.Hdr6(raw[1], len % 0x1_0000, X.NextHeader(p.proto), raw[8], src, dst));
      HeaderTo6(p, h, 0, len, src, dst);
      HopSplices(raw[1], len % 0x1_0000, X.NextHeader(p.proto), raw[8], src, dst, raw[8] - 1);
      PutByte(h, 7, h[7] - 1);
    }

    /** The end of xlate4to6Data: one packet, or the fragments. */
    method EmitData4(em: Emitter, h: array<Byte>, whole: bool, f: X.FragSpec, off: nat, data: seq<Byte>, ghost len: U16)
      requires em.Valid() && h !in em.Held() && 0 < f.size <= X.MAX_PACKET - IP6_HDR - FRAG_HDR
      requires h[..] == X.Hdr6(f.tc, len, f.nextHeader, f.hop, f.src, f.dst)
      modifies em, em.Spare(), h
      ensures em.Valid() && em.Spare() <= old(em.Spare()) && fresh(em.Held() - old(em.Held()))
      ensures em.Sent() == old(em.Sent()) + if whole then X.Emit(old(h[..]) + data) else X.Fragments(f, off, data)
    {
      hide Splice, X.Hdr6, PacketsOf, X.Fragments, Emitter.Valid;
      if whole {
        SendWhole(em, h[..], data);
        return;
      }
      NextSplices(f.tc, len, f.nextHeader, f.hop, f.src, f.dst, FRAG);
      PutByte(h, 6, FRAG);
      SendFragments(em, f, off, data, h);
    }

    /** Whether the packet is too big for the link, and whether it leaves without a fragment header. */
    method ChooseForm4(p: Pkt, ghost t: Env) returns (tooBig: bool, whole: bool)
      requires p.Parsed4() && Runs(t) && Configured()
      ensures tooBig == X.TooBig4(t, p.View4()) && (!tooBig ==> whole == X.Whole4(t, p.View4()))
    {
      hide Get16;
      var raw, n := p.Raw(), p.dataEnd - p.dataAt;
      var fo := Get16(raw, 6);
      var fragSize := Min(offlink, mtu) - IP6_HDR;
      whole := false;
      if Offset4(fo) == 0 && !MF4(fo) {
        if DF4(fo) {
          if mtu - X.MTU_ADJ < p.hdrLen + n {
            return true, false;
          }
          whole := true;
        } else if n <= fragSize {
          whole := true;
        }
      }
      return false, whole;
    }

    /** Rewrites the payload in place and sends the result. */
    method RewriteAndEmit4(p: Pkt, em: Emitter, src: Addr6, dst: Addr6, whole: bool, ghost t: Env)
      requires em.Valid() && p.Parsed4() && p.buf !in em.Held() && Runs(t) && Configured() && p.Raw()[8] >= 2
               && whole == X.Whole4(t, p.View4())
      modifies em, em.Spare(), p.buf
      ensures em.Valid() && em.Spare() <= old(em.Spare()) && fresh(em.Held() - old(em.Held()))
      ensures em.Sent() == old(em.Sent()) + X.Rewritten4(t, old(p.View4()), src, dst)
    {
      hide Splice, X.Hdr6, PacketsOf, X.Fragments, Emitter.Valid, Get16, WellParsed4, X.Payload4to6, Became, X.Whole4;
      ghost var v := p.View4();
      var raw, n := p.Raw(), p.dataEnd - p.dataAt;
      FieldsOf4(v);
      var h := ForwardHeader4(p, src, dst);
      var reason := p.RewriteTo6(udp, src + dst, t);
      PayloadIs4(old(p.buf[..]), p.dataAt, t, v, src + dst, reason, p.buf[..]);
      if reason != NoReason {
        return;
      }
      var fo, fragSize := Get16(raw, 6), Min(offlink, mtu) - IP6_HDR - FRAG_HDR;
      var f := X.FragSpec(raw[1], raw[8] - 1, src, dst, if p.proto == ICMP then ICMP6 else p.proto, Get16(raw, 4),
        fragSize - fragSize % 8, MF4(fo));
      EmitData4(em, h, whole, f, Offset4(fo) * 8, p.Data(), n % 0x1_0000);
    }

    /** The rest of xlate4to6Data, once both addresses are mapped. */
    method ForwardData4(p: Pkt, em: Emitter, src: Addr6, dst: Addr6, ghost t: Env)
      requires em.Valid() && p.Parsed4() && p.buf !in em.Held() && Runs(t) && Configured() && p.Raw()[8] >= 2
      modifies em, em.Spare(), p.buf
      ensures em.Valid() && em.Spare() <= old(em.Spare()) && fresh(em.Held() - old(em.Held()))
      ensures em.Sent() == old(em.Sent()) + X.Forward4(t, old(p.View4()), src, dst)
    {
      hide PacketsOf, Emitter.Valid, Get16, WellParsed4, X.TooBig4, X.Whole4, X.Error4, X.Rewritten4;
      var tooBig, whole := ChooseForm4(p, t);
      if tooBig {
        SendError4(em, 3, 4, mtu - X.MTU_ADJ, p, t);
        return;
      }
      RewriteAndEmit4(p, em, src, dst, whole, t);
    }

    /** The header of the forwarded packet, one hop further, without its checksum. */
    method ForwardHeader6(p: Pkt, src: Addr4, dst: Addr4, random: U16) returns (h: array<Byte>)
      requires p.Parsed6() && p.Raw()[7] >= 2
      ensures fresh(h) && h[..] == X.Hdr6to4(p.View6(), |p.Data()|, p.Raw()[7] - 1, src, dst, random)
    {
      hide Splice, X.Hdr6to4, Get16;
      var raw, len := p.Raw(), p.dataEnd - p.dataAt;
      h := new Byte[IP4_HDR](_ => 0);
      WholeSplice(h[..], X.Hdr6to4(p.View6(), len, raw[7], src, dst, random));
      HeaderTo4(p, h, 0, len, src, dst, random);
      TtlSplices(p.View6(), len, raw[7], src, dst, random, raw[7] - 1);
      PutByte(h, 8, h[8] - 1);
    }

    method RewriteAndEmit6(p: Pkt, em: Emitter, src: Addr4, dst: Addr4, random: U16, ghost t: Env)
      requires em.Valid() && p.Parsed6() && p.buf !in em.Held() && Runs(t) && p.Raw()[7] >= 2 && random == t.ident(0)
      modifies em, em.Spare(), p.buf
      ensures em.Valid() && em.Spare() <= old(em.Spare()) && fresh(em.Held() - old(em.Held()))
      ensures em.Sent() == old(em.Sent()) + X.Rewritten6(t, old(p.View6()), src, dst)
    {
      hide Splice, X.Hdr6to4, X.Seal4, PacketsOf, Emitter.Valid, Get16, WellParsed6, X.Payload6to4, Became;
      ghost var v := p.View6();
      FieldsOf6(v);
      var h := ForwardHeader6(p, src, dst, random);
      ghost var hdr := h[..];
      var reason := p.RewriteTo4(udp, src + dst, t);
      PayloadIs6(old(p.buf[..]), p.dataAt, t, v, src + dst, reason, p.buf[..]);
      if reason != NoReason {
        return;
      }
      WholeSplice(hdr, hdr);
      WholeSplice(hdr, X.Seal4(hdr));
      SealHdr4(h, 0, hdr, hdr);
      SendWhole(em, h[..], p.Data());
    }

    /** The rest of xlate6to4Data, once both addresses are mapped. */
    method ForwardData6(p: Pkt, em: Emitter, src: Addr4, dst: Addr4, random: U16, ghost t: Env)
      requires em.Valid() && p.Parsed6() && p.buf !in em.Held() && Runs(t) && Configured() && p.Raw()[7] >= 2
               && random == t.ident(0)
      modifies em, em.Spare(), p.buf
      ensures em.Valid() && em.Spare() <= old(em.Spare()) && fresh(em.Held() - old(em.Held()))
      ensures em.Sent() == old(em.Sent()) + X.Forward6(t, old(p.View6()), src, dst)
    {
      hide PacketsOf, Emitter.Valid, Get16, WellParsed6, X.Error6, X.Rewritten6;
      if IP6_HDR + p.hdrLen + (p.dataEnd - p.dataAt) > mtu {
        SendError6(em, 2, 0, mtu, p, t);
        return;
      }
      RewriteAndEmit6(p, em, src, dst, random, t);
    }

    // ----- With the table -----

    /** The packet, the output buffers and the pool do not share memory. */
    ghost predicate Apart(p: Pkt, em: Emitter)
      reads em, table.pool
    {
      p.buf !in em.Held() && Owned(table) !! em.Held() + {p.buf, p, em}
    }

    /** t answers for IPv4 addresses as the table does in the view pv. */
    ghost predicate Answers4(t: Env, pv: PoolView) {
      forall k, a :: t.map4(k, a) == Map4to6(table.t, pv, a)
    }

    /** The destination first; the source is asked for only if there is one. */
    method AskData4(src4: Addr4, dst4: Addr4, now: int, ghost pv: PoolView)
      returns (src: X.MapResult<Addr6>, dst: X.MapResult<Addr6>)
      requires Ready(pv, now, StateOf(table))
      modifies Owned(table)
      ensures dst == Map4to6(table.t, pv, dst4) && (dst.Mapped? ==> src == Map4to6(table.t, pv, src4))
      ensures Kept(pv, now, old(StateOf(table)), StateOf(table)) && Owned(table) == old(Owned(table))
    {
      hide AddressTable.Valid, AddressTable.Tidy, Used, Map4to6, Owned;
      src := X.Drop;
      dst := MapTo6(table, dst4, now, pv);
      if dst.Mapped? {
        src := MapTo6(table, src4, now, pv);
      }
    }

    method DataAnswered4(p: Pkt, em: Emitter, src: X.MapResult<Addr6>, dst: X.MapResult<Addr6>, ghost t: Env)
      requires em.Valid() && p.Parsed4() && p.buf !in em.Held() && Runs(t) && Configured() && p.Raw()[8] >= 2
      requires dst == t.map4(0, p.Raw()[16..20]) && (dst.Mapped? ==> src == t.map4(1, p.Raw()[12..16]))
      modifies em, em.Spare(), p.buf
      ensures em.Valid() && em.Spare() <= old(em.Spare()) && fresh(em.Held() - old(em.Held()))
      ensures em.Sent() == old(em.Sent()) + X.Data4to6(t, old(p.View4()))
    {
      hide PacketsOf, Emitter.Valid, Get16, WellParsed4, X.Error4, X.Forward4;
      FieldsOf4(p.View4());
      if dst.Reject? {
        SendError4(em, 3, 1, 0, p, t);
      } else if dst.Mapped? {
        if src.Reject? {
          SendError4(em, 3, 10, 0, p, t);
        } else if src.Mapped? {
          ForwardData4(p, em, src.addr, dst.addr, t);
        }
      }
    }

    /** xlate4to6Data. */
    method TranslateData4(p: Pkt, em: Emitter, now: int, ghost pv: PoolView, ghost t: Env)
      requires em.Valid() && p.Parsed4() && Runs(t) && Configured() && p.Raw()[8] >= 2
      requires Ready(pv, now, StateOf(table)) && Answers4(t, pv) && Apart(p, em)
      modifies Owned(table), em, em.Spare(), p.buf
      ensures em.Valid() && em.Spare() <= old(em.Spare()) && fresh(em.Held() - old(em.Held()))
      ensures em.Sent() == old(em.Sent()) + X.Data4to6(t, old(p.View4()))
      ensures Kept(pv, now, old(StateOf(table)), StateOf(table)) && Owned(table) == old(Owned(table))
    {
      hide PacketsOf, Emitter.Valid, Get16, WellParsed4, X.Data4to6, StateOf, Ready, Answered, Map4to6;
      FieldsOf4(p.View4());
      var raw := p.Raw();
      var src, dst := AskData4(raw[12..16], raw[16..20], now, pv);
      DataAnswered4(p, em, src, dst, t);
    }

    // ----- ICMPv4 errors -----

    /** Writes a translated ICMPv6 error: the header for p one hop further, and the message with the embedded packet. */
    method SendErrorTo6(em: Emitter, p: Pkt, kind: X.ErrorKind, inner: seq<Byte>, src: Addr6, dst: Addr6)
      requires em.Valid() && p.Parsed4() && p.buf !in em.Held() && p.Raw()[8] >= 2
      modifies em, em.Spare()
      ensures em.Valid() && em.Spare() <= old(em.Spare()) && fresh(em.Held() - old(em.Held()))
      ensures em.Sent() == old(em.Sent()) + X.Emit(X.Message6(p.Raw(), p.proto, kind, inner, src, dst))
    {
      hide Splice, PacketsOf, X.Hdr6, X.IcmpBody, Get16, Pseudo6, WellParsed4;
      FieldsOf4(p.View4());
      var n := IP6_HDR + ICMP_HDR + |inner|;
      ghost var sent := em.Sent();
      var b := em.Packet(n);
      if b == null {
        return;
      }
      ghost var s := b[..];
      FillErrorTo6(b, p, kind, inner, src, dst);
      SentNext(old(em.out), b, n, sent, X.Message6(p.Raw(), p.proto, kind, inner, src, dst), s);
    }

    /** The addresses of the embedded packet, and the kind of the new error. */
    method Judge4(data: seq<Byte>, eraw: seq<Byte>, now: int, ghost pv: PoolView, ghost t: Env)
      returns (r: Option<(Addr6, Addr6, X.ErrorKind)>)
      requires |data| >= ICMP_HDR && |eraw| >= IP4_HDR && Runs(t) && Configured() && Ready(pv, now, StateOf(table))
               && Answers4(t, pv)
      modifies Owned(table)
      ensures r == X.Verdict4(t, data, eraw)
      ensures Kept(pv, now, old(StateOf(table)), StateOf(table)) && Owned(table) == old(Owned(table))
    {
      hide AddressTable.Valid, AddressTable.Tidy, Used, Map4to6, Owned, X.ErrorKind4to6, Get16, Get32;
      var kind := X.ErrorKind4to6(mtu, data[0], data[1], Get32(data, 4), Get16(eraw, 2));
      var src := MapTo6(table, eraw[12..16], now, pv);
      var dst := MapTo6(table, eraw[16..20], now, pv);
      if !src.Mapped? || !dst.Mapped? || kind.None? {
        return None;
      }
      return Some((src.addr, dst.addr, kind.value));
    }

    /** The embedded packet e of p: judged, and rewritten in place. */
    method InnerOf4(p: Pkt, e: Pkt, now: int, ghost pv: PoolView, ghost t: Env, ghost v: Pkt4, ghost ev: Pkt4)
      returns (r: Option<(X.ErrorKind, seq<Byte>)>)
      requires p.Parsed4() && v == p.View4() && p.proto == ICMP && e.Parsed4() && ev == e.View4() && e.buf == p.buf
               && p.dataAt <= e.start
      requires WellParsed4(v) && WellParsed4(ev) && X.Embedded4(v) == Some(ev) && Runs(t) && Configured()
      requires Ready(pv, now, StateOf(table)) && Answers4(t, pv) && Owned(table) !! {p, p.buf, e}
      modifies Owned(table), p.buf
      ensures r == X.InnerError4(t, v)
      ensures p.Parsed4() && p.Raw()[..IP4_HDR] == v.raw[..IP4_HDR]
      ensures Kept(pv, now, old(StateOf(table)), StateOf(table)) && Owned(table) == old(Owned(table))
    {
      hide Get16, WellParsed4, StateOf, Ready, Answered, Map4to6, X.InnerPacket4, X.Verdict4, X.Embedded4;
      HeaderInData4(v);
      FieldsOf4(ev);
      var verdict := Judge4(p.Data(), e.Raw(), now, pv, t);
      if verdict.None? {
        return None;
      }
      r := RewriteInside4(udp, p, e, verdict.value.0, verdict.value.1, verdict.value.2, t);
    }

    /** xlate4to6ICMPError up to the rewritten embedded packet. */
    method InnerTo6(p: Pkt, now: int, ghost pv: PoolView, ghost t: Env, ghost v: Pkt4)
      returns (r: Option<(X.ErrorKind, seq<Byte>)>)
      requires p.Parsed4() && v == p.View4() && WellParsed4(v) && p.proto == ICMP && Runs(t) && Configured()
      requires Ready(pv, now, StateOf(table)) && Answers4(t, pv) && Owned(table) !! {p, p.buf}
      modifies Owned(table), p.buf
      ensures r == X.InnerError4(t, v)
      ensures p.Parsed4() && p.Raw()[..IP4_HDR] == v.raw[..IP4_HDR]
      ensures Kept(pv, now, old(StateOf(table)), StateOf(table)) && Owned(table) == old(Owned(table))
    {
      hide Get16, WellParsed4, StateOf, Ready, Answered, Map4to6, X.Embedded4;
      var e := OpenEmbedded4(p);
      if e == null {
        return None;
      }
      r := InnerOf4(p, e, now, pv, t, v, e.View4());
    }

    method AskOuter4(src4: Addr4, dst4: Addr4, now: int, ghost pv: PoolView)
      returns (src: X.MapResult<Addr6>, dst: X.MapResult<Addr6>)
      requires Ready(pv, now, StateOf(table))
      modifies Owned(table)
      ensures src == Map4to6(table.t, pv, src4) && dst == Map4to6(table.t, pv, dst4)
      ensures Kept(pv, now, old(StateOf(table)), StateOf(table)) && Owned(table) == old(Owned(table))
    {
      hide AddressTable.Valid, AddressTable.Tidy, Used, Map4to6, Owned;
      src := MapTo6(table, src4, now, pv);
      dst := MapTo6(table, dst4, now, pv);
    }

    /** Everything an error asks of the table, the embedded packet rewritten on the way. */
    method ResolveError4(p: Pkt, now: int, ghost pv: PoolView, ghost t: Env, ghost v: Pkt4)
      returns (inner: Option<(X.ErrorKind, seq<Byte>)>, src: X.MapResult<Addr6>, dst: X.MapResult<Addr6>)
      requires p.Parsed4() && v == p.View4() && WellParsed4(v) && p.proto == ICMP && Runs(t) && Configured()
               && Ready(pv, now, StateOf(table)) && Answers4(t, pv)
      requires Owned(table) !! {p, p.buf}
      modifies Owned(table), p.buf
      ensures inner == X.InnerError4(t, v)
      ensures inner.Some? ==> OuterAnswers4(t, v, src, dst)
      ensures p.Parsed4() && p.Raw()[..IP4_HDR] == v.raw[..IP4_HDR]
      ensures Kept(pv, now, old(StateOf(table)), StateOf(table)) && Owned(table) == old(Owned(table))
    {
      hide Get16, WellParsed4, X.InnerError4, StateOf, Ready, Answered, Map4to6;
      FieldsOf4(p.View4());
      src, dst := X.Drop, X.Drop;
      inner := InnerTo6(p, now, pv, t, v);
      if inner.Some? {
        FieldsOf4(p.View4());
        SameHeader4(p.Raw(), v.raw);
        src, dst := AskOuter4(p.Raw()[12..16], p.Raw()[16..20], now, pv);
      }
    }

    /** Sends the translated error; a source without mapping is replaced by the translator's own address. */
    method ErrorAnswered4(p: Pkt, em: Emitter, inner: Option<(X.ErrorKind, seq<Byte>)>, src: X.MapResult<Addr6>,
                          dst: X.MapResult<Addr6>, ghost t: Env, ghost v: Pkt4)
      requires em.Valid() && p.Parsed4() && p.buf !in em.Held() && Runs(t) && X.ValidEnv(t) && WellParsed4(v)
               && v.raw[8] >= 2
      requires p.proto == v.proto == ICMP && p.Raw()[..IP4_HDR] == v.raw[..IP4_HDR] && inner == X.InnerError4(t, v)
      requires inner.Some? ==> OuterAnswers4(t, v, src, dst)
      modifies em, em.Spare()
      ensures em.Valid() && em.Spare() <= old(em.Spare()) && fresh(em.Held() - old(em.Held()))
      ensures em.Sent() == old(em.Sent()) + X.IcmpError4to6(t, v)
    {
      hide PacketsOf, Emitter.Valid, Get16, WellParsed4, X.InnerError4, X.Message6;
      FieldsOf4(v);
      FieldsOf4(p.View4());
      SameHeader4(p.Raw(), v.raw);
      if inner.Some? && dst.Mapped? {
        SameMessage6(p.Raw(), v.raw, p.proto, inner.value.0, inner.value.1, if src.Mapped? then src.addr else local6,
          dst.addr);
        SendErrorTo6(em, p, inner.value.0, inner.value.1, if src.Mapped? then src.addr else local6, dst.addr);
      }
    }

    /** xlate4to6ICMPError. */
    method TranslateError4(p: Pkt, em: Emitter, now: int, ghost pv: PoolView, ghost t: Env)
      requires em.Valid() && p.Parsed4() && p.proto == ICMP && Runs(t) && Configured() && p.Raw()[8] >= 2
      requires Ready(pv, now, StateOf(table)) && Answers4(t, pv) && Apart(p, em)
      modifies Owned(table), em, em.Spare(), p.buf
      ensures em.Valid() && em.Spare() <= old(em.Spare()) && fresh(em.Held() - old(em.Held()))
      ensures em.Sent() == old(em.Sent()) + X.IcmpError4to6(t, old(p.View4()))
      ensures Kept(pv, now, old(StateOf(table)), StateOf(table)) && Owned(table) == old(Owned(table))
    {
      hide PacketsOf, Emitter.Valid, Get16, WellParsed4, X.InnerError4, X.IcmpError4to6, StateOf, Ready, Answered;
      hide Map4to6;
      ghost var v := p.View4();
      FieldsOf4(v);
      var inner, src, dst := ResolveError4(p, now, pv, t, v);
      ErrorAnswered4(p, em, inner, src, dst, t, v);
    }

    // ----- The IPv6 side -----

    /** t answers for IPv6 addresses as the table does in the view pv, as long as nothing is allocated. */
    ghost predicate Answers6(t: Env, pv: PoolView)
      requires WellFormed(table.t) && GoodView(pv)
    {
      forall k, x :: t.map6(k, x, false) == Map6to4(table.t, pv, x)
    }

    /**
     * What surrounds one packet: the parameters, the table as it was in the view pv, and r1 for a source that asks the
     * pool.
     */
    ghost function EnvOf(pv: PoolView, r1: X.MapResult<Addr4>, ids: nat -> U16): (t: Env)
      requires WellFormed(table.t) && GoodView(pv)
      ensures Runs(t) && t.ident == ids && Answers4(t, pv) && Answers6(t, pv)
      ensures forall k, x :: t.map6(k, x, true) == if Asks(table.t, pv, x, true) then r1 else Map6to4(table.t, pv, x)
    {
      var tt := table.t;
      X.Env(local4, local6, mtu, offlink, udp,
            (k: nat, a: Addr4) => Map4to6(tt, pv, a),
            (k: nat, x: Addr6, allocate: bool) => if allocate && Asks(tt, pv, x, true) then r1 else Map6to4(tt, pv, x),
            ids)
    }

    /** The destination first; a source without mapping gets one if the pool has room. */
    method AskData6(src6: Addr6, dst6: Addr6, now: int, ghost pv: PoolView)
      returns (src: X.MapResult<Addr4>, dst: X.MapResult<Addr4>)
      requires WellFormed(table.t) && GoodView(pv) && Ready(pv, now, StateOf(table))
      modifies Owned(table)
      ensures dst == Map6to4(table.t, pv, dst6)
      ensures dst.Mapped? && !Asks(table.t, pv, src6, true) ==> src == Map6to4(table.t, pv, src6)
      ensures Answered(table.t, pv, if dst.Mapped? then Some(src6) else None, now, src, old(StateOf(table)),
              StateOf(table))
      ensures fresh(Owned(table) - old(Owned(table)))
    {
      hide AddressTable.Valid, AddressTable.Tidy, Used, GoodView, Map6to4, WellFormed, Asks, Assigned, ValidIPv6;
      src := X.Drop;
      dst := MapTo4(table, dst6, now, pv);
      if dst.Mapped? {
        src := MapSource(table, src6, now, pv);
      }
    }

    method DataAnswered6(p: Pkt, em: Emitter, src: X.MapResult<Addr4>, dst: X.MapResult<Addr4>, random: U16,
                         ghost t: Env)
      requires em.Valid() && p.Parsed6() && p.buf !in em.Held() && Runs(t) && Configured() && p.Raw()[7] >= 2
               && random == t.ident(0)
      requires dst == t.map6(0, p.Raw()[24..40], false) && (dst.Mapped? ==> src == t.map6(1, p.Raw()[8..24], true))
      modifies em, em.Spare(), p.buf
      ensures em.Valid() && em.Spare() <= old(em.Spare()) && fresh(em.Held() - old(em.Held()))
      ensures em.Sent() == old(em.Sent()) + X.Data6to4(t, old(p.View6()))
    {
      hide PacketsOf, Emitter.Valid, Get16, WellParsed6, X.Error6, X.Forward6;
      FieldsOf6(p.View6());
      if dst.Reject? {
        SendError6(em, 1, 0, 0, p, t);
      } else if dst.Mapped? {
        if src.Reject? {
          SendError6(em, 1, 5, 0, p, t);
        } else if src.Mapped? {
          ForwardData6(p, em, src.addr, dst.addr, random, t);
        }
      }
    }

    /** The source that xlate6to4Data asks for: none if the destination is not mapped. */
    ghost function DataSource(pv: PoolView, v: Pkt6): Option<Addr6>
      requires WellFormed(table.t) && GoodView(pv) && |v.raw| >= IP6_HDR
    {
      if Map6to4(table.t, pv, v.raw[24..40]).Mapped? then Some(v.raw[8..24]) else None
    }

    /** xlate6to4Data. */
    method TranslateData6(p: Pkt, em: Emitter, now: int, random: U16, ghost pv: PoolView, ghost ids: nat -> U16)
      returns (ghost r1: X.MapResult<Addr4>)
      requires em.Valid() && p.Parsed6() && Configured() && p.Raw()[7] >= 2 && random == ids(0)
      requires WellFormed(table.t) && GoodView(pv) && Ready(pv, now, StateOf(table)) && Apart(p, em)
      modifies Owned(table), em, em.Spare(), p.buf
      ensures em.Valid() && em.Spare() <= old(em.Spare()) && fresh(em.Held() - old(em.Held()))
      ensures em.Sent() == old(em.Sent()) + X.Data6to4(EnvOf(pv, r1, ids), old(p.View6()))
      ensures Answered(table.t, pv, DataSource(pv, old(p.View6())), now, r1, old(StateOf(table)), StateOf(table))
      ensures fresh(Owned(table) - old(Owned(table)))
    {
      hide PacketsOf, Emitter.Valid, Get16, WellParsed6, X.Data6to4, StateOf, Ready, Answered, Map6to4;
      hide Map4to6, WellFormed, GoodView, EnvOf, Asks, ValidIPv6;
      FieldsOf6(p.View6());
      var raw := p.Raw();
      var src, dst := AskData6(raw[8..24], raw[24..40], now, pv);
      r1 := src;
      DataAnswered6(p, em, src, dst, random, EnvOf(pv, r1, ids));
    }

    // ----- ICMPv6 errors -----

    /** Writes a translated ICMPv4 error. */
    method SendErrorTo4(em: Emitter, p: Pkt, kind: X.ErrorKind, inner: seq<Byte>, src: Addr4, dst: Addr4, random: U16)
      requires em.Valid() && p.Parsed6() && p.buf !in em.Held() && p.Raw()[7] >= 2
      modifies em, em.Spare()
      ensures em.Valid() && em.Spare() <= old(em.Spare()) && fresh(em.Held() - old(em.Held()))
      ensures em.Sent() == old(em.Sent()) + X.Emit(X.Message4(p.View6(), kind, inner, src, dst, random))
    {
      hide Splice, PacketsOf, X.Hdr6to4, X.Seal4, X.IcmpBody, Get16, WellParsed6;
      FieldsOf6(p.View6());
      var n := IP4_HDR + ICMP_HDR + |inner|;
      ghost var sent := em.Sent();
      var b := em.Packet(n);
      if b == null {
        return;
      }
      ghost var s := b[..];
      FillErrorTo4(b, p, kind, inner, src, dst, random);
      SentNext(old(em.out), b, n, sent, X.Message4(p.View6(), kind, inner, src, dst, random), s);
    }

    method Judge6(data: seq<Byte>, eraw: seq<Byte>, now: int, ghost pv: PoolView, ghost t: Env)
      returns (r: Option<(Addr4, Addr4, X.ErrorKind)>)
      requires |data| >= ICMP_HDR && |eraw| >= IP6_HDR && Runs(t) && Configured()
      requires WellFormed(table.t) && GoodView(pv) && Ready(pv, now, StateOf(table)) && Answers6(t, pv)
      modifies Owned(table)
      ensures r == X.Verdict6(t, data, eraw)
      ensures Kept(pv, now, old(StateOf(table)), StateOf(table)) && Owned(table) == old(Owned(table))
    {
      hide AddressTable.Valid, AddressTable.Tidy, Used, Map6to4, GoodView, WellFormed, Owned, X.ErrorKind6to4, Get32;
      var kind := X.ErrorKind6to4(mtu, data[0], data[1], Get32(data, 4));
      var src := MapTo4(table, eraw[8..24], now, pv);
      var dst := MapTo4(table, eraw[24..40], now, pv);
      if !src.Mapped? || !dst.Mapped? || kind.None? {
        return None;
      }
      return Some((src.addr, dst.addr, kind.value));
    }

    /** The embedded packet e of p: judged, and rewritten in place. */
    method InnerOf6(p: Pkt, e: Pkt, now: int, random: U16, ghost pv: PoolView, ghost t: Env, ghost v: Pkt6,
                    ghost ev: Pkt6) returns (r: Option<(X.ErrorKind, seq<Byte>)>)
      requires p.Parsed6() && v == p.View6() && p.proto == ICMP6 && e.Parsed6() && ev == e.View6() && e.buf == p.buf
               && p.dataAt <= e.start
      requires WellParsed6(v) && WellParsed6(ev) && X.Embedded6(v) == Some(ev) && Runs(t) && Configured()
               && random == t.ident(0)
      requires WellFormed(table.t) && GoodView(pv) && Ready(pv, now, StateOf(table)) && Answers6(t, pv)
               && Owned(table) !! {p, p.buf, e}
      modifies Owned(table), p.buf
      ensures r == X.InnerError6(t, v)
      ensures p.Parsed6() && SameHeader6(p.View6(), v)
      ensures Kept(pv, now, old(StateOf(table)), StateOf(table)) && Owned(table) == old(Owned(table))
    {
      hide Get16, WellParsed6, StateOf, Ready, Answered, Map6to4, GoodView, WellFormed, X.InnerPacket6, X.Verdict6;
      hide X.Embedded6;
      HeaderInData6(v);
      FieldsOf6(ev);
      var verdict := Judge6(p.Data(), e.Raw(), now, pv, t);
      if verdict.None? {
        return None;
      }
      r := RewriteInside6(udp, p, e, verdict.value.0, verdict.value.1, verdict.value.2, random, t);
    }

    /** xlate6to4ICMPError up to the rewritten embedded packet. */
    method InnerTo4(p: Pkt, now: int, random: U16, ghost pv: PoolView, ghost t: Env, ghost v: Pkt6)
      returns (r: Option<(X.ErrorKind, seq<Byte>)>)
      requires p.Parsed6() && v == p.View6() && WellParsed6(v) && p.proto == ICMP6 && Runs(t) && Configured()
               && random == t.ident(0)
      requires WellFormed(table.t) && GoodView(pv) && Ready(pv, now, StateOf(table)) && Answers6(t, pv)
               && Owned(table) !! {p, p.buf}
      modifies Owned(table), p.buf
      ensures r == X.InnerError6(t, v)
      ensures p.Parsed6() && SameHeader6(p.View6(), v)
      ensures Kept(pv, now, old(StateOf(table)), StateOf(table)) && Owned(table) == old(Owned(table))
    {
      hide Get16, WellParsed6, StateOf, Ready, Answered, Map6to4, GoodView, WellFormed, X.Embedded6, SameHeader6;
      var e := OpenEmbedded6(p);
      if e == null {
        SameAsItself(v);
        return None;
      }
      r := InnerOf6(p, e, now, random, pv, t, v, e.View6());
    }

    method AskOuter6(src6: Addr6, dst6: Addr6, now: int, ghost pv: PoolView)
      returns (src: X.MapResult<Addr4>, dst: X.MapResult<Addr4>)
      requires WellFormed(table.t) && GoodView(pv) && Ready(pv, now, StateOf(table))
      modifies Owned(table)
      ensures src == Map6to4(table.t, pv, src6) && dst == Map6to4(table.t, pv, dst6)
      ensures Kept(pv, now, old(StateOf(table)), StateOf(table)) && Owned(table) == old(Owned(table))
    {
      hide AddressTable.Valid, AddressTable.Tidy, Used, GoodView, Map6to4, Owned, WellFormed;
      src := MapTo4(table, src6, now, pv);
      dst := MapTo4(table, dst6, now, pv);
    }

    method ResolveError6(p: Pkt, now: int, random: U16, ghost pv: PoolView, ghost t: Env, ghost v: Pkt6)
      returns (inner: Option<(X.ErrorKind, seq<Byte>)>, src: X.MapResult<Addr4>, dst: X.MapResult<Addr4>)
      requires p.Parsed6() && v == p.View6() && WellParsed6(v) && p.proto == ICMP6 && Runs(t) && Configured()
               && random == t.ident(0)
      requires WellFormed(table.t) && GoodView(pv) && Ready(pv, now, StateOf(table)) && Answers6(t, pv)
      requires Owned(table) !! {p, p.buf}
      modifies Owned(table), p.buf
      ensures inner == X.InnerError6(t, v)
      ensures inner.Some? ==> OuterAnswers6(t, v, src, dst)
      ensures p.Parsed6() && SameHeader6(p.View6(), v)
      ensures Kept(pv, now, old(StateOf(table)), StateOf(table)) && Owned(table) == old(Owned(table))
    {
      hide Get16, WellParsed6, X.InnerError6, StateOf, Ready, Answered, Map6to4, GoodView, WellFormed;
      FieldsOf6(p.View6());
      src, dst := X.Drop, X.Drop;
      inner := InnerTo4(p, now, random, pv, t, v);
      if inner.Some? {
        FieldsOf6(p.View6());
        SameAddresses6(p.Raw(), v.raw);
        src, dst := AskOuter6(p.Raw()[8..24], p.Raw()[24..40], now, pv);
      }
    }

    method ErrorAnswered6(p: Pkt, em: Emitter, inner: Option<(X.ErrorKind, seq<Byte>)>, src: X.MapResult<Addr4>,
                          dst: X.MapResult<Addr4>, random: U16, ghost t: Env, ghost v: Pkt6)
      requires em.Valid() && p.Parsed6() && p.buf !in em.Held() && Runs(t) && X.ValidEnv(t) && WellParsed6(v)
               && v.raw[7] >= 2 && random == t.ident(1)
      requires p.proto == v.proto == ICMP6 && SameHeader6(p.View6(), v) && inner == X.InnerError6(t, v)
      requires inner.Some? ==> OuterAnswers6(t, v, src, dst)
      modifies em, em.Spare()
      ensures em.Valid() && em.Spare() <= old(em.Spare()) && fresh(em.Held() - old(em.Held()))
      ensures em.Sent() == old(em.Sent()) + X.IcmpError6to4(t, v)
    {
      hide PacketsOf, Emitter.Valid, Get16, WellParsed6, X.InnerError6, X.Message4;
      FieldsOf6(v);
      FieldsOf6(p.View6());
      SameAddresses6(p.Raw(), v.raw);
      if inner.Some? && dst.Mapped? {
        SameMessage4(p.View6(), v, inner.value.0, inner.value.1, if src.Mapped? then src.addr else local4, dst.addr,
          random);
        SendErrorTo4(em, p, inner.value.0, inner.value.1, if src.Mapped? then src.addr else local4, dst.addr, random);
      }
    }

    /** xlate6to4ICMPError. */
    method TranslateError6(p: Pkt, em: Emitter, now: int, random0: U16, random1: U16, ghost pv: PoolView, ghost t: Env)
      requires em.Valid() && p.Parsed6() && p.proto == ICMP6 && Runs(t) && Configured() && p.Raw()[7] >= 2
      requires random0 == t.ident(0) && random1 == t.ident(1)
      requires WellFormed(table.t) && GoodView(pv) && Ready(pv, now, StateOf(table)) && Answers6(t, pv) && Apart(p, em)
      modifies Owned(table), em, em.Spare(), p.buf
      ensures em.Valid() && em.Spare() <= old(em.Spare()) && fresh(em.Held() - old(em.Held()))
      ensures em.Sent() == old(em.Sent()) + X.IcmpError6to4(t, old(p.View6()))
      ensures Kept(pv, now, old(StateOf(table)), StateOf(table)) && Owned(table) == old(Owned(table))
    {
      hide PacketsOf, Emitter.Valid, Get16, WellParsed6, X.InnerError6, X.IcmpError6to4, StateOf, Ready, Answered;
      hide Map6to4, GoodView, WellFormed;
      ghost var v := p.View6();
      FieldsOf6(v);
      var inner, src, dst := ResolveError6(p, now, random0, pv, t, v);
      ErrorAnswered6(p, em, inner, src, dst, random1, t, v);
    }

    // ----- Entry points -----

    /** The checks of handleIPv4 on a parsed packet. */
    method Accept4(p: Pkt) returns (ok: bool)
      requires p.Parsed4()
      ensures ok == X.Accepted4(p.View4())
    {
      hide Verifies, Get16;
      LengthOf4(p.View4());
      var raw := p.Raw();
      var n := p.dataEnd - p.dataAt;
      var header := Verify(raw[..p.hdrLen], 0);
      if raw[8] == 0 || !header || p.hdrLen + n != Get16(raw, 2) {
        return false;
      }
      if p.proto == ICMP {
        ok := Verify(p.Data(), 0);
        return;
      }
      return true;
    }

    /** hostICMPv4, and the answer to anything else sent to the translator. */
    method AnswerSelf4(p: Pkt, em: Emitter, ghost t: Env)
      requires em.Valid() && p.Parsed4() && p.buf !in em.Held() && Runs(t)
      modifies em, em.Spare()
      ensures em.Valid() && em.Spare() <= old(em.Spare()) && fresh(em.Held() - old(em.Held()))
      ensures em.Sent() == old(em.Sent()) + X.Self4(t, p.View4())
    {
      hide PacketsOf, Emitter.Valid, Get32, Get16, X.Icmp4, X.Error4, WellParsed4;
      FieldsOf4(p.View4());
      HeaderInData4(p.View4());
      if p.proto == ICMP {
        var raw, data := p.Raw(), p.Data();
        if data[0] == 8 {
          SendIcmp4(em, raw[1], raw[16..20], raw[12..16], 0, data[1], Get32(data, 4), data[ICMP_HDR..]);
        }
      } else {
        SendError4(em, 3, 2, 0, p, t);
      }
    }

    /** handleIPv4 for a packet that passed the checks. */
    method Dispatch4(p: Pkt, em: Emitter, now: int, ghost pv: PoolView, ghost t: Env, ghost v: Pkt4)
      requires em.Valid() && p.Parsed4() && v == p.View4() && WellParsed4(v) && v.raw[8] != 0 && Runs(t) && Configured()
      requires Ready(pv, now, StateOf(table)) && Answers4(t, pv) && Apart(p, em)
      modifies Owned(table), em, em.Spare(), p.buf
      ensures em.Valid() && em.Spare() <= old(em.Spare()) && fresh(em.Held() - old(em.Held()))
      ensures em.Sent() == old(em.Sent()) + X.Dispatched4(t, v)
      ensures Kept(pv, now, old(StateOf(table)), StateOf(table)) && Owned(table) == old(Owned(table))
    {
      hide PacketsOf, Emitter.Valid, Get16, WellParsed4, X.Data4to6, X.IcmpError4to6, X.Error4, X.Self4, StateOf, Ready;
      hide Answered, Answers4;
      FieldsOf4(v);
      HeaderInData4(v);
      var raw := p.Raw();
      if raw[16..20] == local4 {
        AnswerSelf4(p, em, t);
      } else if raw[8] == 1 {
        SendError4(em, 11, 0, 0, p, t);
      } else if p.proto != ICMP || p.buf[p.dataAt] == 8 || p.buf[p.dataAt] == 0 {
        TranslateData4(p, em, now, pv, t);
      } else {
        TranslateError4(p, em, now, pv, t);
      }
    }

    /** The input buffer, the output buffers and the pool do not share memory. */
    ghost predicate Separate(buf: array<Byte>, em: Emitter)
      reads em, table.pool
    {
      buf !in em.Held() && Owned(table) !! em.Held() + {buf, em}
    }

    /** A packet that parses and passes the checks. */
    method Receive4(buf: array<Byte>, start: nat, end: nat) returns (p: Pkt?)
      requires start <= end <= buf.Length
      ensures p == null ==>
                match Parse4(buf[start..end]) case Bad4(_) => true case Good4(v) => WellParsed4(v) && !X.Accepted4(v)
      ensures p != null ==>
                fresh(p) && p.buf == buf && p.Parsed4() && p.Raw()[8] != 0 && X.Accepted4(p.View4())
                && Parse4(buf[start..end]) == Good4(p.View4())
    {
      hide WellParsed4, Parse4, X.Accepted4;
      p := new Pkt(buf, start, end);
      var reason := p.ParseIPv4();
      if reason != NoReason {
        return null;
      }
      FieldsOf4(p.View4());
      var ok := Accept4(p);
      if !ok {
        return null;
      }
      AcceptedAlive4(p.View4());
    }

    /** handleIPv4. */
    method HandleIPv4(buf: array<Byte>, start: nat, end: nat, em: Emitter, now: int, ghost pv: PoolView, ghost t: Env)
      requires start <= end <= buf.Length && em.Valid() && Runs(t) && Configured()
      requires Ready(pv, now, StateOf(table)) && Answers4(t, pv) && Separate(buf, em)
      modifies Owned(table), em, em.Spare(), buf
      ensures em.Valid() && em.Spare() <= old(em.Spare()) && fresh(em.Held() - old(em.Held()))
      ensures em.Sent() == old(em.Sent()) + X.Handle4(t, old(buf[start..end]))
      ensures Kept(pv, now, old(StateOf(table)), StateOf(table)) && Owned(table) == old(Owned(table))
    {
      hide PacketsOf, Emitter.Valid, WellParsed4, Parse4, X.Dispatched4, X.Accepted4, StateOf, Ready, Answered;
      hide Answers4;
      var p := Receive4(buf, start, end);
      if p != null {
        Dispatch4(p, em, now, pv, t, p.View4());
      }
    }

    /** The checks of handleIPv6 on a parsed packet. */
    method Accept6(p: Pkt) returns (ok: bool)
      requires p.Parsed6()
      ensures ok == X.Accepted6(p.View6())
    {
      hide Verifies, Get16, Pseudo6, Ones;
      LengthOf6(p.View6());
      var raw := p.Raw();
      var n := p.dataEnd - p.dataAt;
      if raw[7] == 0 || p.hdrLen + n != Get16(raw, 4) {
        return false;
      }
      if p.proto == ICMP6 {
        var ps := PseudoSum6(raw[8..40], n, ICMP6);
        SameChecksum(p.Data(), ps, Pseudo6(raw[8..40], n, ICMP6));
        ok := Verify(p.Data(), ps);
        return;
      }
      return true;
    }

    /** hostICMPv6, and the answer to anything else sent to the translator. */
    method AnswerSelf6(p: Pkt, em: Emitter, ghost t: Env)
      requires em.Valid() && p.Parsed6() && p.buf !in em.Held() && Runs(t)
      modifies em, em.Spare()
      ensures em.Valid() && em.Spare() <= old(em.Spare()) && fresh(em.Held() - old(em.Held()))
      ensures em.Sent() == old(em.Sent()) + X.Self6(t, p.View6())
    {
      hide PacketsOf, Emitter.Valid, Get32, Get16, X.Icmp6, X.Error6, WellParsed6, X.Tos6;
      FieldsOf6(p.View6());
      HeaderInData6(p.View6());
      if p.proto == ICMP6 {
        var raw, data := p.Raw(), p.Data();
        if data[0] == 128 {
          SendIcmp6(em, X.Tos6(raw), raw[24..40], raw[8..24], 129, data[1], Get32(data, 4), data[ICMP_HDR..]);
        }
      } else {
        SendError6(em, 4, 1, 6, p, t);
      }
    }

    /** The source that handling an accepted packet asks for, if it comes to that. */
    ghost function Asked6(pv: PoolView, v: Pkt6): Option<Addr6>
      requires WellFormed(table.t) && GoodView(pv) && WellParsed6(v)
    {
      if v.raw[24..40] == local6 || v.raw[7] == 1 || !X.IsData6(v) then None else DataSource(pv, v)
    }

    /** The source that handling the bytes raw asks for, if it comes to that. */
    ghost function Asked(pv: PoolView, raw: seq<Byte>): Option<Addr6>
      requires WellFormed(table.t) && GoodView(pv)
    {
      if !Parse6(raw).Good6? then None
      else
        Parse6Partitions(raw);
        if X.Accepted6(Parse6(raw).p) then Asked6(pv, Parse6(raw).p) else None
    }

    lemma AskedValid(pv: PoolView, raw: seq<Byte>)
      requires WellFormed(table.t) && GoodView(pv)
      ensures Asked(pv, raw).Some? ==> ValidIPv6(Asked(pv, raw).value)
    {
      hide Map6to4, WellFormed, GoodView, ValidIPv6, X.Accepted6, WellParsed6;
      if Parse6(raw).Good6? { Parse6Partitions(raw); }
    }

    /** handleIPv6 for a packet that passed the checks. */
    method Dispatch6(p: Pkt, em: Emitter, now: int, random0: U16, random1: U16, ghost pv: PoolView,
                     ghost ids: nat -> U16, ghost v: Pkt6) returns (ghost r1: X.MapResult<Addr4>)
      requires em.Valid() && p.Parsed6() && v == p.View6() && WellParsed6(v) && v.raw[7] != 0 && Configured()
               && random0 == ids(0) && random1 == ids(1)
      requires WellFormed(table.t) && GoodView(pv) && Ready(pv, now, StateOf(table)) && Apart(p, em)
      modifies Owned(table), em, em.Spare(), p.buf
      ensures em.Valid() && em.Spare() <= old(em.Spare()) && fresh(em.Held() - old(em.Held()))
      ensures em.Sent() == old(em.Sent()) + X.Dispatched6(EnvOf(pv, r1, ids), v)
      ensures Answered(table.t, pv, Asked6(pv, v), now, r1, old(StateOf(table)), StateOf(table))
      ensures fresh(Owned(table) - old(Owned(table)))
    {
      hide PacketsOf, Emitter.Valid, Get16, WellParsed6, X.Data6to4, X.IcmpError6to4, X.Error6, X.Self6, StateOf, Ready;
      hide Answered;
      hide EnvOf, Map6to4, Map4to6, WellFormed, GoodView, Answers4, Answers6, DataSource;
      FieldsOf6(v);
      HeaderInData6(v);
      r1 := X.Drop;
      ghost var t := EnvOf(pv, r1, ids);
      var raw := p.Raw();
      ghost var st := StateOf(table);
      KeptAnswers(table.t, pv, now, r1, st, st);
      if raw[24..40] == local6 {
        AnswerSelf6(p, em, t);
      } else if raw[7] == 1 {
        SendError6(em, 3, 0, 0, p, t);
      } else if p.proto != ICMP6 || p.buf[p.dataAt] == 128 || p.buf[p.dataAt] == 129 {
        r1 := TranslateData6(p, em, now, random0, pv, ids);
      } else {
        TranslateError6(p, em, now, random0, random1, pv, t);
        KeptAnswers(table.t, pv, now, r1, st, StateOf(table));
      }
    }

    /** A packet that parses and passes the checks, or one with segments left in a routing header. */
    method Receive6(buf: array<Byte>, start: nat, end: nat) returns (p: Pkt?, segPtr: Option<nat>)
      requires start <= end <= buf.Length
      ensures p == null ==>
                match Parse6(buf[start..end]) case Bad6(_) => true case Routed6(_,
                _) => false case Good6(v) => WellParsed6(v) && !X.Accepted6(v)
      ensures p != null ==> fresh(p) && p.buf == buf && p.Parsed6()
      ensures p != null && segPtr.Some? ==> Parse6(buf[start..end]) == Routed6(p.View6(), segPtr.value)
      ensures p != null && segPtr.None? ==>
                p.Raw()[7] != 0 && X.Accepted6(p.View6()) && Parse6(buf[start..end]) == Good6(p.View6())
    {
      hide WellParsed6, Parse6, X.Accepted6;
      segPtr := None;
      p := new Pkt(buf, start, end);
      var reason, ptr := p.ParseIPv6();
      if reason == RoutingHeaderSegmentsLeft {
        return p, Some(ptr);
      }
      if reason != NoReason {
        return null, None;
      }
      FieldsOf6(p.View6());
      var ok := Accept6(p);
      if !ok {
        return null, None;
      }
      AcceptedAlive6(p.View6());
    }

    /** handleIPv6. */
    method HandleIPv6(buf: array<Byte>, start: nat, end: nat, em: Emitter, now: int, random0: U16, random1: U16,
                      ghost pv: PoolView, ghost ids: nat -> U16)
      returns (ghost r1: X.MapResult<Addr4>)
      requires start <= end <= buf.Length && em.Valid() && Configured() && random0 == ids(0) && random1 == ids(1)
      requires WellFormed(table.t) && GoodView(pv) && Ready(pv, now, StateOf(table)) && Separate(buf, em)
      modifies Owned(table), em, em.Spare(), buf
      ensures em.Valid() && em.Spare() <= old(em.Spare()) && fresh(em.Held() - old(em.Held()))
      ensures em.Sent() == old(em.Sent()) + X.Handle6(EnvOf(pv, r1, ids), old(buf[start..end]))
      ensures Answered(table.t, pv, Asked(pv, old(buf[start..end])), now, r1, old(StateOf(table)), StateOf(table))
      ensures fresh(Owned(table) - old(Owned(table)))
    {
      hide PacketsOf, Emitter.Valid, WellParsed6, Parse6, X.Dispatched6, X.Accepted6, X.Error6, StateOf, Ready;
      hide Answered;
      hide EnvOf, Map6to4, Map4to6, WellFormed, GoodView, Answers4, Answers6, Asked6;
      ghost var raw := buf[start..end];
      r1 := X.Drop;
      var p, segPtr := Receive6(buf, start, end);
      ghost var st := StateOf(table);
      KeptAnswers(table.t, pv, now, r1, st, st);
      if p == null {
        return;
      }
      if segPtr.Some? {
        SendError6(em, 4, 0, segPtr.value % 0x1_0000_0000, p, EnvOf(pv, r1, ids));
        return;
      }
      r1 := Dispatch6(p, em, now, random0, random1, pv, ids, p.View6());
    }

    /**
     * Translate: the packets sent are those of the specification, for the table as it was when the packet came in. Of
     * the pool's hosts some are used now; a source that nothing maps asks the pool, and r1 is what the pool assigns.
     */
    method Translate(buf: array<Byte>, start: nat, end: nat, em: Emitter, now: int, random0: U16, random1: U16)
      returns (ghost pv: PoolView, ghost r1: X.MapResult<Addr4>)
      requires start <= end <= buf.Length && em.Valid() && Configured() && table.Valid() && Separate(buf, em)
      modifies Owned(table), em, em.Spare(), buf
      ensures pv == old(table.View()) && WellFormed(table.t) && GoodView(pv)
      ensures em.Valid() && em.Spare() <= old(em.Spare()) && fresh(em.Held() - old(em.Held()))
      ensures em.Sent() == old(em.Sent()) + X.Translate(EnvOf(pv, r1, Idents(random0, random1)), old(buf[start..end]))
      ensures Moved(table.t, pv, table.View(), Asked(pv, old(buf[start..end])), now, Hook(table), r1)
      ensures table.Valid() && fresh(Owned(table) - old(Owned(table))) && Hook(table) == old(Hook(table))
      ensures old(table.Tidy()) ==> table.Tidy()
    {
      hide PacketsOf, Emitter.Valid, X.Handle6, X.Handle4, AddressTable.Valid, AddressTable.Tidy;
      hide Used, EnvOf, Map6to4, Map4to6, WellFormed, GoodView, Answers4, Answers6, Idents, Asked6;
      pv, r1 := table.View(), X.Drop;
      ViewGood(table);
      UsedSame(pv, now);
      ghost var ids := Idents(random0, random1);
      IdentsAt(random0, random1);
      assert start < end ==> buf[start..end][0] == buf[start];
      VersionSix(buf[start..end]);
      if start < end {
        if buf[start] / 0x10 == 4 {
          HandleIPv4(buf, start, end, em, now, pv, EnvOf(pv, r1, ids));
        } else if buf[start] / 0x10 == 6 {
          AskedValid(pv, buf[start..end]);
          r1 := HandleIPv6(buf, start, end, em, now, random0, random1, pv, ids);
        }
      }
    }
  }

  /** The table's answers for the addresses of the error itself. */
  ghost predicate OuterAnswers4(t: Env, v: Pkt4, src: X.MapResult<Addr6>, dst: X.MapResult<Addr6>) {
    |v.raw| >= IP4_HDR && src == t.map4(2, v.raw[12..16]) && dst == t.map4(3, v.raw[16..20])
  }

  ghost predicate OuterAnswers6(t: Env, v: Pkt6, src: X.MapResult<Addr4>, dst: X.MapResult<Addr4>) {
    |v.raw| >= IP6_HDR && src == t.map6(2, v.raw[8..24], false) && dst == t.map6(3, v.raw[24..40], false)
  }

  lemma SameHeader4(r: seq<Byte>, s: seq<Byte>)
    requires |r| >= IP4_HDR && |s| >= IP4_HDR && r[..IP4_HDR] == s[..IP4_HDR]
    ensures r[1] == s[1] && r[8] == s[8] && r[12..16] == s[12..16] && r[16..20] == s[16..20]
  {
    assert r[1] == r[..IP4_HDR][1] && r[8] == r[..IP4_HDR][8];
    assert r[12..16] == r[..IP4_HDR][12..16] && s[12..16] == s[..IP4_HDR][12..16];
    assert r[16..20] == r[..IP4_HDR][16..20] && s[16..20] == s[..IP4_HDR][16..20];
  }

  lemma SameMessage6(r: seq<Byte>, s: seq<Byte>, proto: Byte, kind: X.ErrorKind, inner: seq<Byte>, src: Addr6,
                     dst: Addr6)
    requires |r| >= IP4_HDR && |s| >= IP4_HDR && r[1] == s[1] && r[8] == s[8] >= 2
    ensures X.Message6(r, proto, kind, inner, src, dst) == X.Message6(s, proto, kind, inner, src, dst)
  {
  }

  lemma FrontKept4(p: Pkt, at: nat, s: seq<Byte>, v: Pkt4)
    requires p.InBounds() && |s| == p.buf.Length && p.dataAt <= at <= |s| && p.buf[..at] == s[..at]
    requires WellParsed4(v) && v == Pkt4(s[p.start..p.end], p.hdrLen, s[p.dataAt..p.dataEnd], p.proto)
             && p.dataAt == p.start + p.hdrLen
    ensures p.Parsed4() && p.Raw()[..IP4_HDR] == v.raw[..IP4_HDR]
  {
    hide Get16;
    SamePart(p.buf[..], s, at, p.start, p.end, IP4_HDR);
    SliceSlice(p.buf[..], p.start, p.end, p.hdrLen, p.dataEnd - p.start);
    StillParsed4(v, p.View4());
  }

  lemma SamePart(s: seq<Byte>, s': seq<Byte>, at: nat, a: nat, b: nat, n: nat)
    requires |s| == |s'| && a + n <= at <= |s| && s[..at] == s'[..at] && a + n <= b <= |s|
    ensures s[a..b][..n] == s'[a..b][..n]
  {
    forall i | 0 <= i < n ensures s[a..b][i] == s'[a..b][i] { assert s[..at][a + i] == s'[..at][a + i]; }
  }

  /** Cuts the data of a parsed packet to at most max bytes. */
  method CutData(e: Pkt, max: nat)
    requires e.InBounds()
    modifies e`dataEnd
    ensures e.InBounds() && e.Data() == old(e.Data())[..Min(|old(e.Data())|, max)]
  {
    if e.dataEnd - e.dataAt > max {
      SliceSlice(e.buf[..], e.dataAt, e.dataEnd, 0, max);
      e.dataEnd := e.dataAt + max;
    }
  }

  /** Where the embedded packet of an error message ends, given the RFC 4884 length. */
  method EmbeddedEnd(p: Pkt, emLen: nat) returns (end: Option<nat>)
    requires p.InBounds() && p.dataEnd - p.dataAt >= ICMP_HDR
    ensures end.None? ==> X.Embedded(p.Data(), emLen) == None
    ensures end.Some? ==>
              p.dataAt + ICMP_HDR <= end.value <= p.dataEnd && X.Embedded(p.Data(), emLen)
              == Some(p.buf[p.dataAt + ICMP_HDR..end.value])
  {
    if emLen == 0 {
      SliceSlice(p.buf[..], p.dataAt, p.dataEnd, ICMP_HDR, p.dataEnd - p.dataAt);
      return Some(p.dataEnd);
    }
    if p.dataEnd - p.dataAt - ICMP_HDR < emLen {
      return None;
    }
    SliceSlice(p.buf[..], p.dataAt, p.dataEnd, ICMP_HDR, ICMP_HDR + emLen);
    return Some(p.dataAt + ICMP_HDR + emLen);
  }

  /** The packet embedded in an ICMPv4 error, as a view into the same buffer. */
  method OpenEmbedded4(p: Pkt) returns (e: Pkt?)
    requires p.Parsed4() && p.proto == ICMP
    ensures e == null ==> X.Embedded4(p.View4()) == None
    ensures e != null ==>
              fresh(e) && e.buf == p.buf && e.start == p.dataAt + ICMP_HDR && e.Parsed4()
              && X.Embedded4(p.View4()) == Some(e.View4())
  {
    hide Parse4, WellParsed4, X.EmbeddedLen4, X.Truncate4, X.Embedded4, X.Embedded;
    HeaderInData4(p.View4());
    Embedded4Is(p.View4());
    var end := EmbeddedEnd(p, X.EmbeddedLen4(p.Data()));
    if end.None? {
      return null;
    }
    e := new Pkt(p.buf, p.dataAt + ICMP_HDR, end.value);
    var reason := e.ParseIPv4();
    if reason != NoReason {
      return null;
    }
    var ok := AdmitEmbedded4(e, e.View4());
    if !ok {
      return null;
    }
  }

  /**
   * An error about an ICMP message other than an echo request is not translated; the data is cut so that the new error
   * fits.
   */
  method AdmitEmbedded4(e: Pkt, ghost v: Pkt4) returns (ok: bool)
    requires e.Parsed4() && v == e.View4() && WellParsed4(v)
    modifies e`dataEnd
    ensures ok <==> !(v.proto == ICMP && v.data[0] != 8)
    ensures ok ==> e.Parsed4() && e.View4() == X.Truncate4(v)
  {
    hide WellParsed4, X.Truncate4;
    HeaderInData4(v);
    if e.proto == ICMP && e.buf[e.dataAt] != 8 {
      return false;
    }
    CutData(e, X.MTU_MIN - 2 * IP6_HDR - ICMP_HDR);
    Truncated4(v, e.View4());
    return true;
  }

  lemma Embedded4Is(p: Pkt4)
    requires WellParsed4(p) && p.proto == ICMP
    ensures match X.Embedded(p.data, X.EmbeddedLen4(p.data))
            case None => X.Embedded4(p) == None
            case Some(raw) =>
              match Parse4(raw)
              case Bad4(_) => X.Embedded4(p) == None
              case Good4(q) => WellParsed4(q) && X.Embedded4(p) == if q.proto == ICMP
                && q.data[0] != 8 then None else Some(X.Truncate4(q))
  {
    hide X.Embedded, X.EmbeddedLen4, Parse4;
    var r := X.Embedded(p.data, X.EmbeddedLen4(p.data));
    if r.Some? && Parse4(r.value).Good4? { Parse4Partitions(r.value); }
  }

  lemma HeaderInData4(p: Pkt4)
    requires WellParsed4(p)
    ensures p.proto == ICMP ==> |p.data| >= ICMP_HDR
  {
  }

  lemma Truncated4(p: Pkt4, r: Pkt4)
    requires WellParsed4(p) && r == p.(data := p.data[..Min(|p.data|, X.MTU_MIN - 2 * IP6_HDR - ICMP_HDR)])
    ensures r == X.Truncate4(p) && WellParsed4(r)
  {
  }

  /** Writing behind the header of a parsed packet leaves it parsed. */
  lemma StillParsed4(v: Pkt4, v': Pkt4)
    requires WellParsed4(v) && |v'.raw| == |v.raw| && v'.raw[..IP4_HDR] == v.raw[..IP4_HDR]
    requires v'.hdrLen == v.hdrLen && v'.proto == v.proto && |v'.data| == |v.data|
             && v'.raw[v.hdrLen..v.hdrLen + |v.data|] == v'.data
    ensures WellParsed4(v')
  {
    assert Get16(v'.raw, 2) == Get16(v'.raw[..IP4_HDR], 2) == Get16(v.raw[..IP4_HDR], 2) == Get16(v.raw, 2);
    assert Get16(v'.raw, 6) == Get16(v'.raw[..IP4_HDR], 6) == Get16(v.raw[..IP4_HDR], 6) == Get16(v.raw, 6);
    assert v'.raw[0] == v'.raw[..IP4_HDR][0] && v'.raw[9] == v'.raw[..IP4_HDR][9];
  }

  /** The embedded packet with its new header; its payload is rewritten in the buffer it shares with the error. */
  method RewriteEmbedded4(udp: X.UDPMode, e: Pkt, src: Addr6, dst: Addr6, kind: X.ErrorKind, ghost t: Env)
    returns (r: Option<(X.ErrorKind, seq<Byte>)>)
    requires e.Parsed4() && udp == t.udp
    modifies e.buf
    ensures r == X.InnerPacket4(t, old(e.View4()), src, dst, kind)
    ensures e.buf[..e.dataAt] == old(e.buf[..e.dataAt])
  {
    hide Splice, X.Hdr6, Get16, WellParsed4, X.Payload4to6, Became;
    ghost var v := e.View4();
    LengthOf4(v);
    var raw := e.Raw();
    var h := new Byte[IP6_HDR](_ => 0);
    var len := Get16(raw, 2) - e.hdrLen;
    WholeSplice(h[..], X.Hdr6(raw[1], len % 0x1_0000, X.NextHeader(e.proto), raw[8], src, dst));
    HeaderTo6(e, h, 0, len, src, dst);
    var reason := e.RewriteTo6(udp, src + dst, t);
    PayloadIs4(old(e.buf[..]), e.dataAt, t, v, src + dst, reason, e.buf[..]);
    RewriteKeepsFront(old(e.buf[..]), e.dataAt, X.Payload4to6(t, v, src + dst), reason, e.buf[..]);
    if reason != NoReason {
      return None;
    }
    return Some((kind, h[..] + e.Data()));
  }

  /** The same, seen from the packet that e is embedded in. */
  method RewriteInside4(udp: X.UDPMode, p: Pkt, e: Pkt, src: Addr6, dst: Addr6, kind: X.ErrorKind, ghost t: Env)
    returns (r: Option<(X.ErrorKind, seq<Byte>)>)
    requires p.Parsed4() && e.Parsed4() && e.buf == p.buf && p.dataAt <= e.start && udp == t.udp
    modifies p.buf
    ensures r == X.InnerPacket4(t, old(e.View4()), src, dst, kind)
    ensures p.Parsed4() && p.Raw()[..IP4_HDR] == old(p.Raw())[..IP4_HDR]
  {
    hide Get16, WellParsed4, X.InnerPacket4;
    ghost var v := p.View4();
    r := RewriteEmbedded4(udp, e, src, dst, kind, t);
    FrontKept4(p, e.dataAt, old(p.buf[..]), v);
  }

  lemma LengthOf4(p: Pkt4)
    requires WellParsed4(p)
    ensures |p.raw| >= IP4_HDR && 0 <= Get16(p.raw, 2) - p.hdrLen
  {
  }

  lemma RewriteKeepsFront(s: seq<Byte>, at: nat, r: X.Payload, reason: Reason, s': seq<Byte>)
    requires at <= |s| && Became(s, at, r, reason, s')
    ensures |s'| == |s| && s'[..at] == s[..at]
  {
    if r.Rewritten? { SpliceReads(s, at, r.data); }
  }

  method FillErrorTo6(b: array<Byte>, p: Pkt, kind: X.ErrorKind, inner: seq<Byte>, src: Addr6, dst: Addr6)
    requires Capacious(b) && IP6_HDR + ICMP_HDR + |inner| <= X.MAX_PACKET && p.Parsed4() && p.Raw()[8] >= 2
             && b != p.buf
    modifies b
    ensures b[..] == Splice(old(b[..]), OFFSET, X.Message6(p.Raw(), p.proto, kind, inner, src, dst))
  {
    hide Splice, X.Hdr6, X.IcmpBody, Ones, Pseudo6, Get16, WellParsed4;
    FieldsOf4(p.View4());
    var raw, n := p.Raw(), ICMP_HDR + |inner|;
    ghost var s := b[..];
    ghost var h := X.Hdr6(raw[1], n % 0x1_0000, X.NextHeader(p.proto), raw[8], src, dst);
    HeaderTo6(p, b, OFFSET, n, src, dst);
    HopSplices(raw[1], n % 0x1_0000, X.NextHeader(p.proto), raw[8], src, dst, raw[8] - 1);
    SpliceReads(s, OFFSET, h);
    assert b[OFFSET + 7] == b[OFFSET..OFFSET + IP6_HDR][7];
    PutByte(b, OFFSET + 7, b[OFFSET + 7] - 1);
    SpliceInside(s, OFFSET, h, 7, [raw[8] - 1]);
    var ps := PseudoSum6(src + dst, n, ICMP6);
    WriteIcmp(b, OFFSET + IP6_HDR, kind.typ, kind.code, kind.word, inner, ps, Pseudo6(src + dst, n, ICMP6));
    SpliceNext(s, OFFSET, X.Hdr6(raw[1], n % 0x1_0000, X.NextHeader(p.proto), raw[8] - 1, src, dst),
               X.IcmpBody(kind.typ, kind.code, kind.word, inner, Pseudo6(src + dst, n, ICMP6)));
  }

  lemma FieldsOf6(p: Pkt6)
    requires WellParsed6(p)
    ensures |p.raw| >= IP6_HDR
  {
  }

  lemma PayloadIs6(s: seq<Byte>, at: nat, t: Env, p: Pkt6, addrs: seq<Byte>, reason: Reason, s': seq<Byte>)
    requires WellParsed6(p) && Became(s, at, X.Payload6to4(t, p, addrs), reason, s')
    ensures var r := X.Payload6to4(t, p, addrs);
            && (reason == NoReason <==> r.Rewritten?)
            && (reason == NoReason ==> |r.data| == |p.data| && at + |r.data| <= |s'| && s'[at..at + |r.data|] == r.data)
  {
    var r := X.Payload6to4(t, p, addrs);
    RoundTrip.PayloadLength6(t, p, addrs);
    if r.Rewritten? { SpliceReads(s, at, r.data); }
  }

  lemma FieldsOf4(p: Pkt4)
    requires WellParsed4(p)
    ensures |p.raw| >= IP4_HDR
  {
  }

  /** What the report of the rewriting says about it. */
  lemma PayloadIs4(s: seq<Byte>, at: nat, t: Env, p: Pkt4, addrs: seq<Byte>, reason: Reason, s': seq<Byte>)
    requires WellParsed4(p) && Became(s, at, X.Payload4to6(t, p, addrs), reason, s')
    ensures var r := X.Payload4to6(t, p, addrs);
            && (reason == NoReason <==> r.Rewritten?)
            && (reason == NoReason ==> |r.data| == |p.data| && at + |r.data| <= |s'| && s'[at..at + |r.data|] == r.data)
  {
    var r := X.Payload4to6(t, p, addrs);
    RoundTrip.PayloadLength4(t, p, addrs);
    if r.Rewritten? { SpliceReads(s, at, r.data); }
  }

  // ----- The same for ICMPv6 errors -----

  method FillErrorTo4(b: array<Byte>, p: Pkt, kind: X.ErrorKind, inner: seq<Byte>, src: Addr4, dst: Addr4, random: U16)
    requires Capacious(b) && IP4_HDR + ICMP_HDR + |inner| <= X.MAX_PACKET && p.Parsed6() && p.Raw()[7] >= 2
             && b != p.buf
    modifies b
    ensures b[..] == Splice(old(b[..]), OFFSET, X.Message4(p.View6(), kind, inner, src, dst, random))
  {
    hide Splice, X.Hdr6to4, X.Seal4, X.IcmpBody, Ones, Get16, WellParsed6;
    FieldsOf6(p.View6());
    var raw, n := p.Raw(), ICMP_HDR + |inner|;
    ghost var s, v := b[..], p.View6();
    ghost var h, h' := X.Hdr6to4(v, n, raw[7], src, dst, random), X.Hdr6to4(v, n, raw[7] - 1, src, dst, random);
    HeaderTo4(p, b, OFFSET, n, src, dst, random);
    TtlSplices(v, n, raw[7], src, dst, random, raw[7] - 1);
    SpliceReads(s, OFFSET, h);
    assert b[OFFSET + 8] == b[OFFSET..OFFSET + IP4_HDR][8];
    PutByte(b, OFFSET + 8, b[OFFSET + 8] - 1);
    SpliceInside(s, OFFSET, h, 8, [raw[7] - 1]);
    SealHdr4(b, OFFSET, s, h');
    WriteIcmp(b, OFFSET + IP4_HDR, kind.typ, kind.code, kind.word, inner, 0, 0);
    SpliceNext(s, OFFSET, X.Seal4(h'), X.IcmpBody(kind.typ, kind.code, kind.word, inner, 0));
  }

  method OpenEmbedded6(p: Pkt) returns (e: Pkt?)
    requires p.Parsed6() && p.proto == ICMP6
    ensures e == null ==> X.Embedded6(p.View6()) == None
    ensures e != null ==>
              fresh(e) && e.buf == p.buf && e.start == p.dataAt + ICMP_HDR && e.Parsed6()
              && X.Embedded6(p.View6()) == Some(e.View6())
  {
    hide WellParsed6, X.EmbeddedLen6, X.Truncate6, X.Embedded6, X.Embedded, Parse6;
    ghost var v := p.View6();
    HeaderInData6(v);
    Embedded6Is(v);
    var end := EmbeddedEnd(p, X.EmbeddedLen6(p.Data()));
    if end.None? {
      return null;
    }
    e := ParseEmbedded6(p.buf, p.dataAt + ICMP_HDR, end.value);
    assert p.View6() == v;
  }

  /** A view of the IPv6 packet in buf[start..end], if it can be embedded in an error. */
  method ParseEmbedded6(buf: array<Byte>, start: nat, end: nat) returns (e: Pkt?)
    requires start <= end <= buf.Length
    ensures e == null ==> match Parse6(buf[start..end])
                          case Good6(q) => q.proto == ICMP6 && |q.data| > 0 && q.data[0] != 128
                          case _ => true
    ensures e != null ==> fresh(e) && e.buf == buf && e.start == start && e.Parsed6() && Parse6(buf[start..end]).Good6?
    ensures e != null ==>
              var q := Parse6(buf[start..end]).p;
              WellParsed6(q) && !(q.proto == ICMP6 && q.data[0] != 128) && e.View6() == X.Truncate6(q)
  {
    hide WellParsed6, X.Truncate6, Parse6;
    e := new Pkt(buf, start, end);
    var reason, _ := e.ParseIPv6();
    if reason != NoReason {
      return null;
    }
    HeaderInData6(e.View6());
    var ok := AdmitEmbedded6(e, e.View6());
    if !ok {
      return null;
    }
  }

  /**
   * An error about an ICMP message other than an echo request is not translated; the data is cut so that the new error
   * fits.
   */
  method AdmitEmbedded6(e: Pkt, ghost v: Pkt6) returns (ok: bool)
    requires e.Parsed6() && v == e.View6() && WellParsed6(v)
    modifies e`dataEnd
    ensures ok <==> !(v.proto == ICMP6 && v.data[0] != 128)
    ensures ok ==> e.Parsed6() && e.View6() == X.Truncate6(v)
  {
    hide WellParsed6, X.Truncate6;
    HeaderInData6(v);
    if e.proto == ICMP6 && e.buf[e.dataAt] != 128 {
      return false;
    }
    CutData(e, X.ICMP4_MAX - 2 * IP4_HDR - ICMP_HDR);
    Truncated6(v, e.View6());
    return true;
  }

  lemma HeaderInData6(p: Pkt6)
    requires WellParsed6(p)
    ensures p.proto == ICMP6 ==> |p.data| >= ICMP_HDR
  {
  }

  lemma Truncated6(p: Pkt6, r: Pkt6)
    requires WellParsed6(p) && r == p.(data := p.data[..Min(|p.data|, X.ICMP4_MAX - 2 * IP4_HDR - ICMP_HDR)])
    ensures r == X.Truncate6(p) && WellParsed6(r)
  {
  }

  lemma Embedded6Is(p: Pkt6)
    requires WellParsed6(p) && p.proto == ICMP6
    ensures match X.Embedded(p.data, X.EmbeddedLen6(p.data))
            case None => X.Embedded6(p) == None
            case Some(raw) =>
              match Parse6(raw)
              case Bad6(_) => X.Embedded6(p) == None
              case Routed6(_, _) => X.Embedded6(p) == None
              case Good6(q) => WellParsed6(q) && X.Embedded6(p) == if q.proto == ICMP6
                && q.data[0] != 128 then None else Some(X.Truncate6(q))
  {
    hide X.Embedded, X.EmbeddedLen6, Parse6;
    var r := X.Embedded(p.data, X.EmbeddedLen6(p.data));
    if r.Some? && Parse6(r.value).Good6? { Parse6Partitions(r.value); }
  }

  /** Everything that the headers of translated packets are made of. */
  ghost predicate SameHeader6(v: Pkt6, w: Pkt6) {
    && |v.raw| == |w.raw| >= IP6_HDR && v.raw[..IP6_HDR] == w.raw[..IP6_HDR]
    && v.hdrLen == w.hdrLen && v.frag == w.frag && v.proto == w.proto
  }

  lemma SameAsItself(v: Pkt6)
    requires WellParsed6(v)
    ensures SameHeader6(v, v)
  {
  }

  lemma SameAddresses6(r: seq<Byte>, s: seq<Byte>)
    requires |r| >= IP6_HDR && |s| >= IP6_HDR && r[..IP6_HDR] == s[..IP6_HDR]
    ensures r[0] == s[0] && r[1] == s[1] && r[7] == s[7] && r[8..24] == s[8..24] && r[24..40] == s[24..40]
  {
    assert r[0] == r[..IP6_HDR][0] && r[1] == r[..IP6_HDR][1] && r[7] == r[..IP6_HDR][7];
    assert r[8..24] == r[..IP6_HDR][8..24] && s[8..24] == s[..IP6_HDR][8..24];
    assert r[24..40] == r[..IP6_HDR][24..40] && s[24..40] == s[..IP6_HDR][24..40];
  }

  lemma SameMessage4(v: Pkt6, w: Pkt6, kind: X.ErrorKind, inner: seq<Byte>, src: Addr4, dst: Addr4, id: U16)
    requires WellParsed6(v) && WellParsed6(w) && SameHeader6(v, w) && v.raw[7] >= 2 && w.raw[7] >= 2
    ensures X.Message4(v, kind, inner, src, dst, id) == X.Message4(w, kind, inner, src, dst, id)
  {
    hide X.Seal4, X.IcmpBody, X.Hdr4, WellParsed6, Get16, Get32;
    SameAddresses6(v.raw, w.raw);
  }

  /** Writing behind the headers of a parsed packet leaves it parsed. */
  lemma StillParsed6(v: Pkt6, v': Pkt6)
    requires WellParsed6(v) && SameHeader6(v', v) && |v'.data| == |v.data|
    requires v'.raw[IP6_HDR + v.hdrLen..IP6_HDR + v.hdrLen + |v.data|] == v'.data
    requires v'.raw[..IP6_HDR + v.hdrLen] == v.raw[..IP6_HDR + v.hdrLen]
    ensures WellParsed6(v')
  {
    assert Get16(v'.raw, 4) == Get16(v'.raw[..IP6_HDR], 4) == Get16(v.raw[..IP6_HDR], 4) == Get16(v.raw, 4);
    if v.frag.Some? {
      var a, b := IP6_HDR + v.hdrLen - FRAG_HDR, IP6_HDR + v.hdrLen;
      assert v'.raw[a..b] == v'.raw[..b][a..b] && v.raw[a..b] == v.raw[..b][a..b];
    }
  }

  lemma SameSlice(s: seq<Byte>, s': seq<Byte>, at: nat, a: nat, b: nat)
    requires |s| == |s'| && a <= b <= at <= |s| && s[..at] == s'[..at]
    ensures s[a..b] == s'[a..b]
  {
    forall i | a <= i < b ensures s[i] == s'[i] { assert s[..at][i] == s'[..at][i]; }
  }

  lemma FrontKept6(p: Pkt, at: nat, s: seq<Byte>, v: Pkt6)
    requires p.InBounds() && |s| == p.buf.Length && p.dataAt <= at <= |s| && p.buf[..at] == s[..at]
    requires p.dataAt == p.start + IP6_HDR + p.hdrLen && (p.fragAt.Some? ==> p.fragAt.value == p.dataAt - FRAG_HDR)
    requires WellParsed6(v) && v.raw == s[p.start..p.end] && v.hdrLen == p.hdrLen && v.proto == p.proto
             && v.data == s[p.dataAt..p.dataEnd]
    requires v.frag == if p.fragAt.Some? then Some(s[p.fragAt.value..p.fragAt.value + FRAG_HDR]) else None
    ensures p.Parsed6() && SameHeader6(p.View6(), v)
  {
    hide Get16, WellParsed6;
    FieldsOf6(v);
    var w := p.View6();
    assert w.raw[..IP6_HDR] == v.raw[..IP6_HDR] by { SamePart(p.buf[..], s, at, p.start, p.end, IP6_HDR); }
    assert w.raw[..IP6_HDR + v.hdrLen] == v.raw[..IP6_HDR + v.hdrLen] by {
      SamePart(p.buf[..], s, at, p.start, p.end, IP6_HDR + p.hdrLen);
    }
    assert w.frag == v.frag by { if p.fragAt.Some? { SameSlice(p.buf[..], s, at, p.fragAt.value, p.dataAt); } }
    assert w.raw[IP6_HDR + v.hdrLen..IP6_HDR + v.hdrLen + |w.data|] == w.data by {
      SliceSlice(p.buf[..], p.start, p.end, IP6_HDR + p.hdrLen, p.dataEnd - p.start);
    }
    StillParsed6(v, w);
  }

  method RewriteEmbedded6(udp: X.UDPMode, e: Pkt, src: Addr4, dst: Addr4, kind: X.ErrorKind, random: U16, ghost t: Env)
    returns (r: Option<(X.ErrorKind, seq<Byte>)>)
    requires e.Parsed6() && udp == t.udp && random == t.ident(0)
    modifies e.buf
    ensures r == X.InnerPacket6(t, old(e.View6()), src, dst, kind)
    ensures e.buf[..e.dataAt] == old(e.buf[..e.dataAt])
  {
    hide Splice, X.Hdr6to4, X.Seal4, Get16, WellParsed6, X.Payload6to4, Became;
    ghost var v := e.View6();
    LengthOf6(v);
    var raw := e.Raw();
    var h := new Byte[IP4_HDR](_ => 0);
    var len := Get16(raw, 4) - e.hdrLen;
    ghost var hdr := X.Hdr6to4(v, len, raw[7], src, dst, random);
    WholeSplice(h[..], hdr);
    HeaderTo4(e, h, 0, len, src, dst, random);
    var reason := e.RewriteTo4(udp, src + dst, t);
    PayloadIs6(old(e.buf[..]), e.dataAt, t, v, src + dst, reason, e.buf[..]);
    RewriteKeepsFront(old(e.buf[..]), e.dataAt, X.Payload6to4(t, v, src + dst), reason, e.buf[..]);
    if reason != NoReason {
      return None;
    }
    WholeSplice(hdr, hdr);
    WholeSplice(hdr, X.Seal4(hdr));
    SealHdr4(h, 0, hdr, hdr);
    return Some((kind, h[..] + e.Data()));
  }

  lemma LengthOf6(p: Pkt6)
    requires WellParsed6(p)
    ensures |p.raw| >= IP6_HDR && 0 <= Get16(p.raw, 4) - p.hdrLen
  {
  }

  method RewriteInside6(udp: X.UDPMode, p: Pkt, e: Pkt, src: Addr4, dst: Addr4, kind: X.ErrorKind, random: U16,
                        ghost t: Env) returns (r: Option<(X.ErrorKind, seq<Byte>)>)
    requires p.Parsed6() && e.Parsed6() && e.buf == p.buf && p.dataAt <= e.start && udp == t.udp && random == t.ident(0)
    modifies p.buf
    ensures r == X.InnerPacket6(t, old(e.View6()), src, dst, kind)
    ensures p.Parsed6() && SameHeader6(p.View6(), old(p.View6()))
  {
    hide Get16, WellParsed6, X.InnerPacket6, SameHeader6;
    ghost var v := p.View6();
    r := RewriteEmbedded6(udp, e, src, dst, kind, random, t);
    FrontKept6(p, e.dataAt, old(p.buf[..]), v);
  }

  // ----- The entry points, in the order they decide -----

  lemma AcceptedAlive4(p: Pkt4)
    requires WellParsed4(p) && X.Accepted4(p)
    ensures p.raw[8] != 0
  {
  }

  lemma AcceptedAlive6(p: Pkt6)
    requires WellParsed6(p) && X.Accepted6(p)
    ensures p.raw[7] != 0
  {
  }

  /** The identification values drawn while one packet is handled. */
  ghost function Idents(random0: U16, random1: U16): nat -> U16 {
    (k: nat) => if k == 0 then random0 else random1
  }

  lemma IdentsAt(random0: U16, random1: U16)
    ensures Idents(random0, random1)(0) == random0 && Idents(random0, random1)(1) == random1
  {
  }

  lemma VersionSix(raw: seq<Byte>)
    ensures |raw| == 0 || raw[0] / 0x10 != 6 ==> Parse6(raw).Bad6?
  {
  }
}
