/** The packets the translator originates, written into emitter buffers. */
module Senders {
  import opened Bytes
  import opened Packet
  import opened Checksum
  import opened Xlate
  import opened Buffers
  import opened Emitters

  /** A packet written into the buffer handed out last is what the emitter sends after the earlier ones. */
  lemma SentNext(out: seq<Slice>, b: array<Byte>, n: nat, sent: seq<seq<Byte>>, packet: seq<Byte>, before: seq<Byte>)
    requires Capacious(b) && n <= MAX_PACKET && PacketsOf(out) == sent
    requires |before| == b.Length && |packet| == n && b[..] == Splice(before, OFFSET, packet)
    ensures PacketsOf(out + [Slice(b, OFFSET + n)]) == sent + [packet]
  {
    hide Splice;
    SpliceReads(before, OFFSET, packet);
    assert b[OFFSET..OFFSET + n] == b[..][OFFSET..OFFSET + n];
    assert (out + [Slice(b, OFFSET + n)])[..|out|] == out;
  }

  /** sendICMPv4 after Packet. */
  method FillIcmp4(b: array<Byte>, tos: Byte, src: Addr4, dst: Addr4, typ: Byte, code: Byte, word: U32,
                   payload: seq<Byte>)
    requires Capacious(b) && IP4_HDR + ICMP_HDR + |payload| <= MAX_PACKET
    modifies b
    ensures b[..] == Splice(old(b[..]), OFFSET, Icmp4(tos, src, dst, typ, code, word, payload))
  {
    hide Splice, Hdr4, Seal4, IcmpBody, Ones;
    var n := IP4_HDR + ICMP_HDR + |payload|;
    ghost var s := b[..];
    WriteHdr4(b, OFFSET, tos, n % 0x1_0000, 0, 0, 64, ICMP, src, dst);
    ghost var h := Hdr4(tos, n % 0x1_0000, 0, 0, 64, ICMP, src, dst);
    SealHdr4(b, OFFSET, s, h);
    WriteIcmp(b, OFFSET + IP4_HDR, typ, code, word, payload, 0, 0);
    SpliceNext(s, OFFSET, Seal4(h), IcmpBody(typ, code, word, payload, 0));
  }

  /** sendICMPv4. */
  method SendIcmp4(em: Emitter, tos: Byte, src: Addr4, dst: Addr4, typ: Byte, code: Byte, word: U32, payload: seq<Byte>)
    requires em.Valid()
    modifies em, em.Spare()
    ensures em.Valid() && em.Spare() <= old(em.Spare()) && fresh(em.Held() - old(em.Held()))
    ensures em.Sent() == old(em.Sent()) + Emit(Icmp4(tos, src, dst, typ, code, word, payload))
  {
    hide Splice, Hdr4, Seal4, IcmpBody, PacketsOf;
    var n := IP4_HDR + ICMP_HDR + |payload|;
    ghost var sent := em.Sent();
    var b := em.Packet(n);
    if b == null {
      return;
    }
    ghost var s := b[..];
    FillIcmp4(b, tos, src, dst, typ, code, word, payload);
    SentNext(old(em.out), b, n, sent, Icmp4(tos, src, dst, typ, code, word, payload), s);
  }

  /** sendICMPv6 after Packet. */
  method FillIcmp6(b: array<Byte>, tc: Byte, src: Addr6, dst: Addr6, typ: Byte, code: Byte, word: U32,
                   payload: seq<Byte>)
    requires Capacious(b) && IP6_HDR + ICMP_HDR + |payload| <= MAX_PACKET
    modifies b
    ensures b[..] == Splice(old(b[..]), OFFSET, Icmp6(tc, src, dst, typ, code, word, payload))
  {
    hide Splice, Hdr6, IcmpBody, Ones, Pseudo6;
    var n := ICMP_HDR + |payload|;
    ghost var s := b[..];
    WriteHdr6(b, OFFSET, tc, n % 0x1_0000, ICMP6, 64, src, dst);
    var ps := PseudoSum6(src + dst, n, ICMP6);
    WriteIcmp(b, OFFSET + IP6_HDR, typ, code, word, payload, ps, Pseudo6(src + dst, n, ICMP6));
    SpliceNext(s, OFFSET, Hdr6(tc, n % 0x1_0000, ICMP6, 64, src, dst),
      IcmpBody(typ, code, word, payload, Pseudo6(src + dst, n, ICMP6)));
  }

  /** sendICMPv6. */
  method SendIcmp6(em: Emitter, tc: Byte, src: Addr6, dst: Addr6, typ: Byte, code: Byte, word: U32, payload: seq<Byte>)
    requires em.Valid()
    modifies em, em.Spare()
    ensures em.Valid() && em.Spare() <= old(em.Spare()) && fresh(em.Held() - old(em.Held()))
    ensures em.Sent() == old(em.Sent()) + Emit(Icmp6(tc, src, dst, typ, code, word, payload))
  {
    hide Splice, Hdr6, IcmpBody, PacketsOf, Pseudo6;
    var n := IP6_HDR + ICMP_HDR + |payload|;
    ghost var sent := em.Sent();
    var b := em.Packet(n);
    if b == null {
      return;
    }
    ghost var s := b[..];
    FillIcmp6(b, tc, src, dst, typ, code, word, payload);
    SentNext(old(em.out), b, n, sent, Icmp6(tc, src, dst, typ, code, word, payload), s);
  }

  /** A translated data packet: header h, then the payload. */
  method SendWhole(em: Emitter, h: seq<Byte>, data: seq<Byte>)
    requires em.Valid()
    modifies em, em.Spare()
    ensures em.Valid() && em.Spare() <= old(em.Spare()) && fresh(em.Held() - old(em.Held()))
    ensures em.Sent() == old(em.Sent()) + Emit(h + data)
  {
    hide Splice, PacketsOf;
    ghost var sent := em.Sent();
    var b := em.Packet(|h| + |data|);
    if b == null {
      return;
    }
    ghost var s := b[..];
    Copy(b, OFFSET, h);
    Copy(b, OFFSET + |h|, data);
    SpliceNext(s, OFFSET, h, data);
    SentNext(old(em.out), b, |h| + |data|, sent, h + data, s);
  }

  lemma PayloadLenSplices(tc: Byte, len: U16, len': U16, nh: Byte, hop: Byte, src: Addr6, dst: Addr6)
    ensures Splice(Hdr6(tc, len, nh, hop, src, dst), 4, Enc16(len')) == Hdr6(tc, len', nh, hop, src, dst)
  {
    hide Enc16;
  }

  lemma FragFieldSplices(nh: Byte, field: U16, field': U16, id: U32)
    ensures Splice(FragHdr(nh, field, id), 2, Enc16(field')) == FragHdr(nh, field', id)
  {
    hide Enc16, Enc32;
  }

  /** One fragment, from the two headers and a piece of the payload. */
  method SendFragment(em: Emitter, h: seq<Byte>, fh: seq<Byte>, chunk: seq<Byte>)
    requires em.Valid() && |h| + |fh| + |chunk| <= MAX_PACKET
    modifies em, em.Spare()
    ensures em.Valid() && em.Spare() <= old(em.Spare()) && fresh(em.Held() - old(em.Held()))
    ensures em.Sent() == old(em.Sent()) + [h + fh + chunk]
  {
    SendWhole(em, h + fh, chunk);
  }

  /** The headers of the fragments: the IPv6 header h and the fragment header fh, their variable fields open. */
  ghost predicate FragmentHeaders(f: FragSpec, h: seq<Byte>, fh: seq<Byte>) {
    && (exists len: U16 :: h == Hdr6(f.tc, len, FRAG, f.hop, f.src, f.dst))
    && (exists field: U16 :: fh == FragHdr(f.nextHeader, field, f.id))
  }

  /** One round of the loop: the first n bytes of the payload leave. */
  method SendNext(em: Emitter, f: FragSpec, off: nat, data: seq<Byte>, h: array<Byte>, fh: array<Byte>) returns (n: nat)
    requires em.Valid() && 0 < f.size <= MAX_PACKET - IP6_HDR - FRAG_HDR && |data| > 0
    requires h !in em.Held() && fh !in em.Held() && h != fh && FragmentHeaders(f, h[..], fh[..])
    modifies em, em.Spare(), h, fh
    ensures em.Valid() && em.Spare() <= old(em.Spare()) && fresh(em.Held() - old(em.Held()))
    ensures FragmentHeaders(f, h[..], fh[..]) && n == Min(f.size, |data|)
    ensures em.Sent() == old(em.Sent()) + [OneFragment(f, off, |data| > n || f.mf, data[..n])]
  {
    hide Splice, Hdr6, FragHdr, Emitter.Valid, PacketsOf, OffsetField;
    n := Min(f.size, |data|);
    ghost var len: U16 :| h[..] == Hdr6(f.tc, len, FRAG, f.hop, f.src, f.dst);
    ghost var field: U16 :| fh[..] == FragHdr(f.nextHeader, field, f.id);
    PayloadLenSplices(f.tc, len, FRAG_HDR + n, FRAG, f.hop, f.src, f.dst);
    PutU16(h, 4, FRAG_HDR + n);
    var flags := OffsetField(off, |data| > n || f.mf);
    FragFieldSplices(f.nextHeader, field, flags, f.id);
    PutU16(fh, 2, flags);
    SendFragment(em, h[..], fh[..], data[..n]);
    assert h[..] == Hdr6(f.tc, FRAG_HDR + n, FRAG, f.hop, f.src, f.dst) && fh[..] == FragHdr(f.nextHeader, flags, f.id);
  }

  /** The fragmentation loop of xlate4to6Data. */
  method SendFragments(em: Emitter, f: FragSpec, off0: nat, data0: seq<Byte>, h: array<Byte>)
    requires em.Valid() && 0 < f.size <= MAX_PACKET - IP6_HDR - FRAG_HDR && h !in em.Held()
    requires exists len: U16 :: h[..] == Hdr6(f.tc, len, FRAG, f.hop, f.src, f.dst)
    modifies em, em.Spare(), h
    ensures em.Valid() && em.Spare() <= old(em.Spare()) && fresh(em.Held() - old(em.Held()))
    ensures em.Sent() == old(em.Sent()) + Fragments(f, off0, data0)
  {
    hide Splice, Hdr6, FragHdr, Emitter.Valid, PacketsOf, OneFragment, Fragments;
    var fh := new Byte[FRAG_HDR](_ => 0);
    WholeSplice(fh[..], FragHdr(f.nextHeader, 0, f.id));
    WriteFragHdr(fh, 0, f.nextHeader, 0, f.id);
    var data, off: nat := data0, off0;
    ghost var sent := em.Sent();
    while |data| > 0
      invariant em.Valid() && em.Spare() <= old(em.Spare()) && fresh(em.Held() - old(em.Held()))
      invariant allocated(fh) && h !in em.Held() && fh !in em.Held() && FragmentHeaders(f, h[..], fh[..])
      invariant sent + Fragments(f, off0, data0) == em.Sent() + Fragments(f, off, data)
    {
      ghost var soFar, held := em.Sent(), em.Held();
      var n := SendNext(em, f, off, data, h, fh);
      assert fh !in em.Held();
      FragmentsNext(f, off, data, n, soFar);
      data, off := data[n..], off + n;
    }
    FragmentsEnd(f, off, data);
    assert em.Sent() + Fragments(f, off, data) == em.Sent();
  }

  lemma FragmentsNext(f: FragSpec, off: nat, data: seq<Byte>, n: nat, sent: seq<seq<Byte>>)
    requires 0 < f.size <= 0xfff0 && |data| > 0 && n == Min(f.size, |data|)
    ensures sent + Fragments(f, off, data) == sent + [OneFragment(f, off, |data| > n || f.mf, data[..n])]
            + Fragments(f, off + n, data[n..])
  {
  }

  lemma FragmentsEnd(f: FragSpec, off: nat, data: seq<Byte>)
    requires 0 < f.size <= 0xfff0 && |data| == 0
    ensures Fragments(f, off, data) == []
  {
  }

  lemma WholeSplice(s: seq<Byte>, c: seq<Byte>)
    requires |s| == |c|
    ensures Splice(s, 0, c) == c
  {
  }
}
