/** Exactly which byte strings are taken as packets. */
module Reception {
  import opened Bytes
  import opened NetUtil
  import opened PrefixBits
  import opened Packet
  import opened Checksum
  import opened Xlate
  import opened TransportLaws
  import opened Routing

  // ----- IPv4 -----

  /** 0.0.0.0/8, 127.0.0.0/8, 224.0.0.0/4 and 255.255.255.255. */
  predicate Barred4(a: U32) {
    a <= 0x00ff_ffff || 0x7f00_0000 <= a <= 0x7fff_ffff || 0xe000_0000 <= a <= 0xefff_ffff || a == 0xffff_ffff
  }

  /** A complete IPv4 packet: header, addresses and checksums are right, and it is not what only IPv6 has. */
  ghost predicate Receivable4(raw: seq<Byte>) {
    && |raw| >= 20 && raw[0] / 0x10 == 4
    && var ihl, total, fo := raw[0] % 0x10 * 4, Get16(raw, 2), Get16(raw, 6);
    && 20 <= ihl <= total <= |raw| && raw[8] != 0 && Verifies(raw[..ihl], 0)
    && !Barred4(Get32(raw, 12)) && !Barred4(Get32(raw, 16))
    && if raw[9] == 1 then fo % 0x4000 == 0 && total - ihl >= 8 && Verifies(raw[ihl..total], 0)
       else
         && raw[9] !in {0, 43, 44, 58, 60}
         && (fo / 0x2000 % 2 == 1 ==> (total - ihl) % 8 == 0) && fo % 0x2000 * 8 + (total - ihl) <= 65535
  }

  lemma BarredExactly(raw: seq<Byte>, at: nat)
    requires at + 4 <= |raw|
    ensures ClassifyIPv4(raw[at..at + 4]).Invalid? <==> Barred4(Get32(raw, at))
  {
    ClassRanges(raw[at..at + 4]);
    assert Get32(raw[at..at + 4], 0) == Get32(raw, at);
  }

  /** These and no others are received, as header, data and protocol. */
  lemma ReceivedExactly4(raw: seq<Byte>)
    ensures Parse4(raw).Good4? ==> WellParsed4(Parse4(raw).p)
    ensures Receivable4(raw) <==> Parse4(raw).Good4? && Accepted4(Parse4(raw).p)
    ensures Receivable4(raw) ==>
              var ihl := raw[0] % 0x10 * 4; Parse4(raw).p == Pkt4(raw, ihl, raw[ihl..Get16(raw, 2)], raw[9])
  {
    hide ClassifyIPv4, Barred4, Verifies, Get16;
    if |raw| >= 20 {
      BarredExactly(raw, 12);
      BarredExactly(raw, 16);
      FieldBits(Get16(raw, 6));
    }
    if Parse4(raw).Good4? { Parse4Partitions(raw); }
  }

  lemma FieldBits(fo: U16)
    ensures Fragmented4(fo) <==> fo % 0x4000 != 0
    ensures MF4(fo) <==> fo / 0x2000 % 2 == 1
    ensures Offset4(fo) == fo % 0x2000
  {
  }

  /** Nothing is sent for anything else. */
  lemma Ignored4(t: Env, raw: seq<Byte>)
    requires ValidEnv(t) && |raw| > 0 && raw[0] / 0x10 == 4 && !Receivable4(raw)
    ensures Translate(t, raw) == []
  {
    hide Receivable4, Parse4, Accepted4, Dispatched4;
    ReceivedExactly4(raw);
  }

  // ----- IPv6 -----

  /** ::/8 but for 64:ff9b::/32, fe80::/10 and ff00::/8. */
  predicate Barred6(a: U32) {
    (a <= 0x00ff_ffff && a != 0x0064_ff9b) || 0xfe80_0000 <= a <= 0xfebf_ffff || 0xff00_0000 <= a
  }

  lemma BarredExactly6(raw: seq<Byte>, at: nat)
    requires at + 16 <= |raw|
    ensures ValidIPv6(raw[at..at + 16]) <==> !Barred6(Get32(raw, at))
  {
    ValidRanges(raw[at..at + 16]);
    assert Get32(raw[at..at + 16], 0) == Get32(raw, at);
  }

  /** The upper layer as the chain of extension headers leads to it, with the fragment header if there is one. */
  ghost predicate Layered(body: seq<Byte>, first: Byte, p: Pkt6) {
    && p.hdrLen <= |body| && p.data == body[p.hdrLen..]
    && match p.frag
       case None => ExtensionChain(body, 0, p.hdrLen, first, p.proto) && p.proto != 44
       case Some(fh) =>
         && p.hdrLen >= 8 && fh == body[p.hdrLen - 8..p.hdrLen] && p.proto == fh[0]
         && ExtensionChain(body, 0, p.hdrLen - 8, first, 44)
         && (Get16(fh, 2) % 2 == 1 ==> |p.data| % 8 == 0) && Get16(fh, 2) / 8 * 8 + |p.data| <= 65535
  }

  /** An ICMPv6 message in one piece. */
  ghost predicate Whole6(p: Pkt6) {
    && |p.data| >= 8
    && (p.frag.Some? ==>
          |p.frag.value| == 8 && Get16(p.frag.value, 2) / 8 == 0 && Get16(p.frag.value, 2) % 2 == 0)
  }

  ghost predicate Receivable6(p: Pkt6) {
    && |p.raw| >= 40 && p.raw[0] / 0x10 == 6 && p.raw[7] != 0
    && !Barred6(Get32(p.raw, 8)) && !Barred6(Get32(p.raw, 24))
    && 40 + Get16(p.raw, 4) <= |p.raw|
    && var body := p.raw[40..40 + Get16(p.raw, 4)];
    && Layered(body, p.raw[6], p) && p.proto != 1
    && (p.proto == 58 ==> Whole6(p) && Passes6(p.data, p.raw[8..40], 58))
    && forall k: nat :: LastRouting(body, 0, p.raw[6], k) ==> Left(body, k) == 0
  }

  lemma OffsetBits(of: U16)
    ensures Offset6(of) == of / 8 * 8 && (MF6(of) <==> of % 2 == 1)
  {
  }

  /** Parsing finds the layers, unless the packet is refused for a routing header. */
  lemma LayersFound(raw: seq<Byte>, p: Pkt6)
    requires |raw| >= 40 && raw[0] / 0x10 == 6 && !Barred6(Get32(raw, 8)) && !Barred6(Get32(raw, 24)) && p.raw == raw
    requires Layered(Body6(raw), raw[6], p) && p.proto != 1 && (p.proto == 58 ==> Whole6(p))
    ensures !Parse6(raw).Bad6? && Parse6(raw).p == p
  {
    hide Barred6, ValidIPv6, Get32, Body6, WalkExtensions, Reaches;
    BarredExactly6(raw, 8);
    BarredExactly6(raw, 24);
    var body := Body6(raw);
    if p.frag.None? {
      WalkFindsChain(body, 0, raw[6], 0, IP6_HDR, p.hdrLen, p.proto);
    } else {
      WalkFindsChain(body, 0, raw[6], 0, IP6_HDR, p.hdrLen - 8, 44);
      OffsetBits(Get16(p.frag.value, 2));
    }
  }

  lemma FoundLayers(raw: seq<Byte>)
    requires !Parse6(raw).Bad6?
    ensures var p := Parse6(raw).p;
            && |raw| >= 40 && p.raw == raw && raw[0] / 0x10 == 6 && !Barred6(Get32(raw, 8)) && !Barred6(Get32(raw, 24))
            && Layered(Body6(raw), raw[6], p) && p.proto != 1 && (p.proto == 58 ==> Whole6(p))
  {
    hide Barred6, ValidIPv6, Get32, Body6, Reaches, WalkExtensions;
    var body := Body6(raw);
    WalkFollowsChain(body, 0, raw[6], 0, IP6_HDR);
    BarredExactly6(raw, 8);
    BarredExactly6(raw, 24);
    var p := Parse6(raw).p;
    if p.frag.Some? { OffsetBits(Get16(p.frag.value, 2)); }
  }

  /** These and no others are received. */
  lemma ReceivedExactly6(p: Pkt6)
    ensures Parse6(p.raw) == Good6(p) ==> WellParsed6(p)
    ensures Receivable6(p) <==> Parse6(p.raw) == Good6(p) && Accepted6(p)
  {
    hide Barred6, Get32, Layered, Whole6, Parse6, WellParsedFrag, Verifies, Pseudo6;
    if !Parse6(p.raw).Bad6? {
      Parse6Partitions(p.raw);
      FoundLayers(p.raw);
      RefusedExactly(p.raw);
    }
    if Receivable6(p) {
      assert Body6(p.raw) == p.raw[40..40 + Get16(p.raw, 4)];
      LayersFound(p.raw, p);
      Parse6Partitions(p.raw);
      RefusedExactly(p.raw);
      LayeredLength(Body6(p.raw), p.raw[6], p);
    }
  }

  lemma LayeredLength(body: seq<Byte>, first: Byte, p: Pkt6)
    requires Layered(body, first, p)
    ensures p.hdrLen + |p.data| == |body|
  {
  }

  /** Nothing is sent for anything else, except the refusal of a routing header with segments left. */
  lemma Ignored6(t: Env, raw: seq<Byte>)
    requires ValidEnv(t) && |raw| > 0 && raw[0] / 0x10 == 6 && !Parse6(raw).Routed6?
    requires forall p: Pkt6 :: p.raw == raw ==> !Receivable6(p)
    ensures Translate(t, raw) == []
  {
    hide Receivable6, Parse6, Accepted6, Dispatched6;
    if Parse6(raw).Good6? {
      Parse6Partitions(raw);
      ReceivedExactly6(Parse6(raw).p);
    }
  }
}
