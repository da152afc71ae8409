/** The IPv4-to-IPv6 fragmentation loop. */
module Fragmentation {
  import opened Bytes
  import opened NetUtil
  import opened Packet
  import opened Checksum
  import opened Xlate
  import opened Headers
  import opened TransportLaws
  import opened RoundTrip

  // ----- What a receiver reads from a fragment (section 4.5 of RFC 8200) -----

  ghost predicate HasFragHeader(q: seq<Byte>) {
    && |q| >= IP6_HDR + FRAG_HDR
    && q[0] / 0x10 == 6 && q[6] == FRAG && Get16(q, 4) == |q| - IP6_HDR
  }

  function FragOffset(q: seq<Byte>): nat
    requires |q| >= 48
  {
    Get16(q, 42) / 8 * 8
  }

  predicate MoreFragments(q: seq<Byte>)
    requires |q| >= 48
  {
    Get16(q, 42) % 2 == 1
  }

  /** All but the addresses: every fragment of one packet carries these. */
  ghost predicate SharesHeader(q: seq<Byte>, f: FragSpec) {
    && HasFragHeader(q)
    && Get32(q, 0) == Word6(f.tc) && q[7] == f.hop && q[8..24] == f.src && q[24..40] == f.dst
    && q[40] == f.nextHeader && q[41] == 0 && Get32(q, 44) == f.id
  }

  /**
   * Reassembly: the packets continue each other without gap or overlap from byte offset `off`, carry exactly `data`,
   * and all but the last announce more fragments; the last says what `mf` says.
   */
  ghost predicate Reassembles(qs: seq<seq<Byte>>, f: FragSpec, off: nat, data: seq<Byte>) {
    if |qs| == 0 then data == []
    else
      && SharesHeader(qs[0], f)
      && var n := |qs[0]| - 48;
         && 0 < n <= |data|
         && FragOffset(qs[0]) == off
         && (MoreFragments(qs[0]) <==> |qs| > 1 || f.mf)
         && qs[0][48..] == data[..n]
         && Reassembles(qs[1..], f, off + n, data[n..])
  }

  lemma Mod8(k: nat, r: nat)
    requires r < 8
    ensures (8 * k + r) % 8 == r
  {
  }

  lemma Mod2(k: nat, r: nat)
    requires r < 2
    ensures (2 * k + r) % 2 == r
  {
  }

  /** The offset and the more-fragments bit share a field without disturbing each other. */
  lemma FieldOf(k: nat, more: bool)
    requires 8 * k <= 65535
    ensures Offset6(OffsetField(8 * k, more)) == 8 * k && (MF6(OffsetField(8 * k, more)) <==> more)
    ensures OffsetField(8 * k, more) / 8 * 8 == 8 * k && (OffsetField(8 * k, more) % 2 == 1 <==> more)
  {
    Mod8(k, if more then 1 else 0);
    Mod2(4 * k, 0);
    Mod2(4 * k, if more then 1 else 0);
  }

  lemma OneFragmentReads(f: FragSpec, k: nat, more: bool, chunk: seq<Byte>)
    requires 8 * k <= 65535 && FRAG_HDR + |chunk| <= 65535
    ensures var q := OneFragment(f, 8 * k, more, chunk);
            && SharesHeader(q, f) && |q| == 48 + |chunk| && q[48..] == chunk
            && FragOffset(q) == 8 * k && (MoreFragments(q) <==> more)
  {
    hide Hdr6, FragHdr, OffsetField, Offset6, MF6;
    FieldOf(k, more);
    var field := OffsetField(8 * k, more);
    var h := Hdr6(f.tc, FRAG_HDR + |chunk|, FRAG, f.hop, f.src, f.dst);
    var fh := FragHdr(f.nextHeader, field, f.id);
    var q := OneFragment(f, 8 * k, more, chunk);
    assert q == h + (fh + chunk);
    Hdr6Fields(f.tc, FRAG_HDR + |chunk|, FRAG, f.hop, f.src, f.dst, fh + chunk);
    FragHdrFields(f.nextHeader, field, f.id);
    assert q[40..48] == fh;
    assert Get16(q, 42) == Get16(q[40..48], 2);
    assert Get32(q, 44) == Get32(q[40..48], 4);
    assert q[40] == q[40..48][0] && q[41] == q[40..48][1];
    assert q[48..] == chunk;
  }

  lemma ReassembleStep(q: seq<Byte>, rest: seq<seq<Byte>>, f: FragSpec, off: nat, data: seq<Byte>)
    requires SharesHeader(q, f) && 48 < |q| <= 48 + |data|
    requires FragOffset(q) == off && (MoreFragments(q) <==> rest != [] || f.mf)
    requires q[48..] == data[..|q| - 48]
    requires Reassembles(rest, f, off + (|q| - 48), data[|q| - 48..])
    ensures Reassembles([q] + rest, f, off, data)
  {
    hide SharesHeader, FragOffset, MoreFragments;
    assert ([q] + rest)[1..] == rest;
  }

  lemma FragmentsNonEmpty(f: FragSpec, off: nat, data: seq<Byte>)
    requires 0 < f.size <= 0xfff0
    ensures Fragments(f, off, data) == [] <==> data == []
  {
  }

  lemma FragmentsUnfold(f: FragSpec, off: nat, data: seq<Byte>)
    requires 0 < f.size <= 0xfff0 && data != []
    ensures var n := Min(f.size, |data|);
            Fragments(f, off, data) == [OneFragment(f, off, |data| > n || f.mf, data[..n])]
              + Fragments(f, off + n, data[n..])
  {
  }

  /** Nothing is lost, duplicated or reordered, and no offset wraps. */
  lemma {:induction false} FragmentsReassemble(f: FragSpec, c: nat, k: nat, data: seq<Byte>)
    requires 0 < f.size <= 0xfff0 && f.size == 8 * c && 8 * k + |data| <= 65535
    ensures Reassembles(Fragments(f, 8 * k, data), f, 8 * k, data)
    decreases |data|
  {
    hide OneFragment, SharesHeader, FragOffset, MoreFragments, Reassembles, Fragments;
    if data == [] {
      NothingReassembles(f, 8 * k, data);
    } else {
      var n := Min(f.size, |data|);
      var chunk, tail := data[..n], data[n..];
      var more := |data| > n || f.mf;
      var q, rest := OneFragment(f, 8 * k, more, chunk), Fragments(f, 8 * k + n, tail);
      FragmentsUnfold(f, 8 * k, data);
      OneFragmentReads(f, k, more, chunk);
      FragmentsNonEmpty(f, 8 * k + n, tail);
      if n == f.size {
        FragmentsReassemble(f, c, k + c, tail);
      } else {
        NothingReassembles(f, 8 * k + n, tail);
      }
      ReassembleStep(q, rest, f, 8 * k, data);
    }
  }

  lemma NothingReassembles(f: FragSpec, off: nat, data: seq<Byte>)
    requires data == [] && 0 < f.size <= 0xfff0
    ensures Fragments(f, off, data) == [] && Reassembles([], f, off, data)
  {
  }

  /** Every fragment fits. */
  lemma {:induction false} FragmentsFit(f: FragSpec, off: nat, data: seq<Byte>, i: nat)
    requires 0 < f.size <= 0xfff0 && i < |Fragments(f, off, data)|
    ensures |Fragments(f, off, data)[i]| <= 48 + f.size
    decreases i
  {
    var n := Min(f.size, |data|);
    if i > 0 { FragmentsFit(f, off + n, data[n..], i - 1); }
  }

  /** A data packet that needs fragment headers. */
  ghost predicate Fragmenting(t: Env, p: Pkt4, src: Addr6, dst: Addr6) {
    && Parse4(p.raw) == Good4(p) && Forwardable4(t, p)
    && t.map4(0, p.raw[16..20]) == Mapped(dst) && t.map4(1, p.raw[12..16]) == Mapped(src)
    && !TooBig4(t, p) && !Whole4(t, p) && Payload4to6(t, p, src + dst).Rewritten?
  }

  lemma ForwardFragments(t: Env, p: Pkt4, src: Addr6, dst: Addr6)
    requires Fragmenting(t, p, src, dst)
    ensures var data := Payload4to6(t, p, src + dst).data;
            && |data| == |p.data|
            && Translate(t, p.raw) == Fragments(FragSpec4(t, p, src, dst), 8 * Offset4(Get16(p.raw, 6)), data)
  {
    hide Payload4to6, Parse4, Accepted4, Error4, Hdr6, Fragments, Translate, Verifies, FragSpec4;
    HandleForwards4(t, p);
    PayloadLength4(t, p, src + dst);
  }

  /**
   * Fragmentation is lossless and bounded: what goes out for a packet that cannot go whole reassembles to exactly the
   * rewritten payload at the original offset, and every piece fits the link and the path.
   */
  lemma FragmentationLossless(t: Env, p: Pkt4, src: Addr6, dst: Addr6)
    requires Fragmenting(t, p, src, dst)
    ensures Reassembles(Translate(t, p.raw), FragSpec4(t, p, src, dst), 8 * Offset4(Get16(p.raw, 6)),
                        Payload4to6(t, p, src + dst).data)
    ensures forall i :: 0 <= i < |Translate(t, p.raw)| ==> |Translate(t, p.raw)[i]| <= Min(t.offlink, t.mtu)
    ensures Translate(t, p.raw) == [] <==> p.data == []
  {
    hide Payload4to6, Parse4, Translate, Fragments, Reassembles, Accepted4;
    ForwardFragments(t, p, src, dst);
    var f := FragSpec4(t, p, src, dst);
    var k, data := Offset4(Get16(p.raw, 6)), Payload4to6(t, p, src + dst).data;
    FragmentsReassemble(f, f.size / 8, k, data);
    FragmentsNonEmpty(f, 8 * k, data);
    forall i | 0 <= i < |Translate(t, p.raw)| ensures |Translate(t, p.raw)[i]| <= Min(t.offlink, t.mtu) {
      FragmentsFit(f, 8 * k, data, i);
    }
  }

  // ----- The fragments translated back -----

  /** One fragment on its way back, given what happens to its bytes. */
  lemma OneFragmentBack(t: Env, f: FragSpec, k: nat, more: bool, chunk: seq<Byte>, src: Addr4, dst: Addr4,
                        back: seq<Byte>)
    requires ValidEnv(t) && 8 * k + |chunk| <= 65535 && 48 + |chunk| <= t.mtu && (more ==> |chunk| % 8 == 0)
    requires ValidIPv6(f.src) && ValidIPv6(f.dst) && f.dst != t.local6 && f.hop >= 2
    requires f.nextHeader != ICMP && f.nextHeader != ICMP6
    requires t.map6(0, f.dst, false) == Mapped(dst) && t.map6(1, f.src, true) == Mapped(src)
    requires if k == 0
             then Transport(t.udp, f.nextHeader, chunk, f.src + f.dst, src + dst, Pseudo4(src + dst, |chunk|, UDP))
               == Rewritten(back)
             else back == chunk
    ensures |back| == |chunk| && k < 0x2000
    ensures Translate(t, OneFragment(f, 8 * k, more, chunk)) ==
            [Seal4(Hdr4(f.tc, IP4_HDR + |chunk|, f.id % 0x1_0000, if more then k + 0x2000 else k, f.hop - 1,
              f.nextHeader, src, dst))
             + back]
  {
    hide Hdr6, FragHdr, Hdr4, Seal4, Transport, Parse6, Translate, ValidIPv6, OffsetField, Finish6;
    FieldOf(k, more);
    var q := OneFragment(f, 8 * k, more, chunk);
    var fh := FragHdr(f.nextHeader, OffsetField(8 * k, more), f.id);
    FragHdrFields(f.nextHeader, OffsetField(8 * k, more), f.id);
    ParseFragment6(f.tc, f.hop, f.src, f.dst, f.nextHeader, OffsetField(8 * k, more), f.id, chunk);
    var p := Pkt6(q, FRAG_HDR, Some(fh), chunk, f.nextHeader);
    FragmentFinishes(p);
    OneFragmentReads(f, k, more, chunk);
    Parse6Partitions(q);
    FieldShift(k, more);
    assert q[8..40] == f.src + f.dst;
    ForwardWhole6(t, p, src, dst, back);
  }

  lemma FragmentFinishes(p: Pkt6)
    requires p.proto != ICMP && p.proto != ICMP6
    ensures Finish6(p, 0, IP6_HDR) == Good6(p)
  {
  }

  /** Offsets are counted in eight-byte units on both sides. */
  lemma FieldShift(k: nat, more: bool)
    requires 8 * k <= 65535
    ensures k < 0x2000 && OffsetField(8 * k, more) / 8 == k
  {
    FieldOf(k, more);
  }

  /** What the returning IPv4 fragments have in common. */
  datatype Spec4 = Spec4(tos: Byte, ttl: Byte, id: U16, proto: Byte, src: Addr4, dst: Addr4, mf: bool)

  ghost predicate SharesHeader4(r: seq<Byte>, g: Spec4) {
    && |r| >= IP4_HDR
    && r[0] == 0x45 && r[1] == g.tos && Get16(r, 2) == |r| && Get16(r, 4) == g.id
    && r[8] == g.ttl && r[9] == g.proto && r[12..16] == g.src && r[16..20] == g.dst
    && Verifies(r[..20], 0)
  }

  /** Reassembly on the IPv4 side (RFC 791). */
  ghost predicate Reassembles4(rs: seq<seq<Byte>>, g: Spec4, off: nat, data: seq<Byte>) {
    if |rs| == 0 then data == []
    else
      && SharesHeader4(rs[0], g)
      && var n, fo := |rs[0]| - 20, Get16(rs[0], 6);
         && 0 < n <= |data|
         && 8 * (fo % 0x2000) == off && fo / 0x4000 == 0
         && (fo / 0x2000 % 2 == 1 <==> |rs| > 1 || g.mf)
         && rs[0][20..] == data[..n]
         && Reassembles4(rs[1..], g, off + n, data[n..])
  }

  function Back4(f: FragSpec, k: nat, more: bool, src: Addr4, dst: Addr4, back: seq<Byte>): seq<Byte>
    requires k < 0x2000 && |back| <= 65515 && f.hop >= 1
  {
    Seal4(Hdr4(f.tc, IP4_HDR + |back|, f.id % 0x1_0000, if more then k + 0x2000 else k, f.hop - 1, f.nextHeader, src,
      dst)) + back
  }

  function Spec4Of(f: FragSpec, src: Addr4, dst: Addr4): Spec4
    requires f.hop >= 1
  {
    Spec4(f.tc, f.hop - 1, f.id % 0x1_0000, f.nextHeader, src, dst, f.mf)
  }

  lemma Back4Reads(f: FragSpec, k: nat, more: bool, src: Addr4, dst: Addr4, back: seq<Byte>)
    requires k < 0x2000 && |back| <= 65515 && f.hop >= 1
    ensures var r := Back4(f, k, more, src, dst, back);
            && SharesHeader4(r, Spec4Of(f, src, dst)) && |r| == 20 + |back| && r[20..] == back
            && Get16(r, 6) % 0x2000 == k && Get16(r, 6) / 0x4000 == 0 && (Get16(r, 6) / 0x2000 % 2 == 1 <==> more)
  {
    hide Seal4, Hdr4, Verifies;
    Hdr4Fields(f.tc, IP4_HDR + |back|, f.id % 0x1_0000, if more then k + 0x2000 else k, f.hop - 1, f.nextHeader, src,
      dst, back);
  }

  /** Every packet of qs becomes the one packet of rs at the same place. */
  ghost predicate BecomeOneByOne(t: Env, qs: seq<seq<Byte>>, rs: seq<seq<Byte>>)
    requires ValidEnv(t)
  {
    |rs| == |qs| && forall i :: 0 <= i < |qs| ==> Translate(t, qs[i]) == [rs[i]]
  }

  lemma BecomeStep(t: Env, q: seq<Byte>, qs: seq<seq<Byte>>, r: seq<Byte>, rs: seq<seq<Byte>>)
    requires ValidEnv(t) && Translate(t, q) == [r] && BecomeOneByOne(t, qs, rs)
    ensures BecomeOneByOne(t, [q] + qs, [r] + rs)
  {
    hide Translate;
    forall i | 0 <= i < |[q] + qs| ensures Translate(t, ([q] + qs)[i]) == [([r] + rs)[i]] {
      if i > 0 { assert ([q] + qs)[i] == qs[i - 1] && ([r] + rs)[i] == rs[i - 1]; }
    }
  }

  lemma Reassemble4Step(r: seq<Byte>, rest: seq<seq<Byte>>, g: Spec4, off: nat, data: seq<Byte>)
    requires SharesHeader4(r, g) && 20 < |r| <= 20 + |data|
    requires 8 * (Get16(r, 6) % 0x2000) == off && Get16(r, 6) / 0x4000 == 0
    requires Get16(r, 6) / 0x2000 % 2 == 1 <==> rest != [] || g.mf
    requires r[20..] == data[..|r| - 20]
    requires Reassembles4(rest, g, off + (|r| - 20), data[|r| - 20..])
    ensures Reassembles4([r] + rest, g, off, data)
  {
    hide SharesHeader4;
    assert ([r] + rest)[1..] == rest;
  }

  /** The second pass takes packets between these addresses back to these IPv4 addresses. */
  ghost predicate Returns(t: Env, f: FragSpec, src: Addr4, dst: Addr4) {
    && ValidEnv(t) && 48 + f.size <= t.mtu
    && ValidIPv6(f.src) && ValidIPv6(f.dst) && f.dst != t.local6 && f.hop >= 2
    && f.nextHeader != ICMP && f.nextHeader != ICMP6
    && t.map6(0, f.dst, false) == Mapped(dst) && t.map6(1, f.src, true) == Mapped(src)
  }

  /** What becomes of the bytes: only a first fragment, which starts at offset 0, is looked into. */
  ghost predicate BytesBack(t: Env, f: FragSpec, k: nat, data: seq<Byte>, src: Addr4, dst: Addr4, back: seq<Byte>) {
    var n := Min(f.size, |data|);
    && |back| == |data|
    && (k > 0 ==> back == data)
    && (k == 0 ==>
         Transport(t.udp, f.nextHeader, data[..n], f.src + f.dst, src + dst, Pseudo4(src + dst, n, UDP))
         == Rewritten(back[..n])
                   && back[n..] == data[n..])
  }

  lemma {:induction false} FragmentsBack(t: Env, f: FragSpec, c: nat, k: nat, data: seq<Byte>, src: Addr4, dst: Addr4,
                                         back: seq<Byte>)
      returns (rs: seq<seq<Byte>>)
    requires 0 < f.size <= 0xffc8 && f.size == 8 * c && 8 * k + |data| <= 65535 && (f.mf ==> |data| % 8 == 0)
    requires Returns(t, f, src, dst) && BytesBack(t, f, k, data, src, dst, back)
    ensures BecomeOneByOne(t, Fragments(f, 8 * k, data), rs)
    ensures Reassembles4(rs, Spec4Of(f, src, dst), 8 * k, back)
    decreases |data|
  {
    hide OneFragment, SharesHeader4, Reassembles4, Fragments, BecomeOneByOne, Translate, Transport, Back4, Pseudo4;
    hide ValidIPv6;
    if data == [] {
      rs := [];
      NothingBack(t, f, 8 * k, data, Spec4Of(f, src, dst), back);
    } else {
      var n := Min(f.size, |data|);
      var chunk, tail := data[..n], data[n..];
      var more := |data| > n || f.mf;
      FragmentsUnfold(f, 8 * k, data);
      FragmentsNonEmpty(f, 8 * k + n, tail);
      OneFragmentBackAs(t, f, k, more, chunk, src, dst, back[..n]);
      Back4Reads(f, k, more, src, dst, back[..n]);
      var r := Back4(f, k, more, src, dst, back[..n]);
      var rest;
      if n == f.size {
        rest := FragmentsBack(t, f, c, k + c, tail, src, dst, back[n..]);
      } else {
        rest := [];
        NothingBack(t, f, 8 * k + n, tail, Spec4Of(f, src, dst), back[n..]);
      }
      BecomeSameLength(t, Fragments(f, 8 * k + n, tail), rest);
      BecomeStep(t, OneFragment(f, 8 * k, more, chunk), Fragments(f, 8 * k + n, tail), r, rest);
      Reassemble4Step(r, rest, Spec4Of(f, src, dst), 8 * k, back);
      rs := [r] + rest;
    }
  }

  lemma BecomeSameLength(t: Env, qs: seq<seq<Byte>>, rs: seq<seq<Byte>>)
    requires ValidEnv(t) && BecomeOneByOne(t, qs, rs)
    ensures rs == [] <==> qs == []
  {
  }

  lemma NothingBack(t: Env, f: FragSpec, off: nat, data: seq<Byte>, g: Spec4, back: seq<Byte>)
    requires ValidEnv(t) && data == [] && back == [] && 0 < f.size <= 0xfff0
    ensures BecomeOneByOne(t, Fragments(f, off, data), []) && Reassembles4([], g, off, back)
  {
  }

  lemma OneFragmentBackAs(t: Env, f: FragSpec, k: nat, more: bool, chunk: seq<Byte>, src: Addr4, dst: Addr4,
                          back: seq<Byte>)
    requires Returns(t, f, src, dst) && 8 * k + |chunk| <= 65535 && |chunk| <= f.size <= 0xffc8
             && (more ==> |chunk| % 8 == 0)
    requires if k == 0
             then Transport(t.udp, f.nextHeader, chunk, f.src + f.dst, src + dst, Pseudo4(src + dst, |chunk|, UDP))
               == Rewritten(back)
             else back == chunk
    ensures k < 0x2000 && |back| == |chunk|
    ensures Translate(t, OneFragment(f, 8 * k, more, chunk)) == [Back4(f, k, more, src, dst, back)]
  {
    hide OneFragment, Translate, Transport, Pseudo4, ValidIPv6, Seal4, Hdr4;
    OneFragmentBack(t, f, k, more, chunk, src, dst, back);
  }

  /** Payloads that come back: what RoundTrip.Survives says, and UDP without a checksum when both passes forward it. */
  ghost predicate ComesBack(t: Env, t': Env, proto: Byte, data: seq<Byte>) {
    || Survives(proto, data)
    || (proto == UDP && |data| >= 8 && t.udp == ForwardZero && t'.udp == ForwardZero)
  }

  /** Rewriting the beginning of a payload is the beginning of the rewritten payload, if the header is in it. */
  lemma TransportPrefix(t: Env, t': Env, proto: Byte, data: seq<Byte>, from: seq<Byte>, to: seq<Byte>, ps: nat,
                        ps': nat, n: nat)
    requires ComesBack(t, t', proto, data) && proto != ICMP && n <= |data| && (n >= 20 || n == |data|)
    ensures var r, s := Transport(t.udp, proto, data, from, to, ps), Transport(t.udp, proto, data[..n], from, to, ps');
            && r.Rewritten? && s.Rewritten? && |r.data| == |data| && s.data == r.data[..n] && r.data[n..] == data[n..]
            && ComesBack(t, t', proto, data[..n]) && Returned(proto, data[..n]) == Returned(proto, data)[..n]
            && |Returned(proto, data)| == |data| && Returned(proto, data)[n..] == data[n..]
  {
    hide Words, Adjusted, Ones;
    if proto == TCP || proto == UDP {
      var at := ChecksumAt(proto);
      assert Get16(data[..n], at) == Get16(data, at);
      PutPrefix(data, at, n);
    } else {
      assert data[..n] == data[..n];
    }
  }

  lemma PutPrefix(data: seq<Byte>, at: nat, n: nat)
    requires at + 2 <= n <= |data|
    ensures forall v: U16 :: Put16(data[..n], at, v) == Put16(data, at, v)[..n] && Put16(data, at, v)[n..] == data[n..]
  {
  }

  /** The first chunk after both passes. */
  lemma FirstChunkBack(t: Env, t': Env, proto: Byte, data: seq<Byte>, from: seq<Byte>, to: seq<Byte>, ps: nat, ps': nat,
                       n: nat)
    requires ComesBack(t, t', proto, data) && proto != ICMP && n <= |data| && (n >= 20 || n == |data|)
             && Words(from) > 0
    ensures var r := Transport(t.udp, proto, data, from, to, ps);
            && r.Rewritten? && |r.data| == |data| == |Returned(proto, data)|
            && Transport(t'.udp, proto, r.data[..n], to, from, ps') == Rewritten(Returned(proto, data)[..n])
            && r.data[n..] == data[n..] == Returned(proto, data)[n..]
  {
    hide Words, Returned;
    TransportPrefix(t, t', proto, data, from, to, ps, ps, n);
    if Survives(proto, data[..n]) {
      hide Transport;
      TransportBack(t.udp, t'.udp, proto, data[..n], from, to, ps, ps');
    } else {
      UDPUntouched(data[..n]);
    }
  }

  lemma UDPUntouched(data: seq<Byte>)
    ensures Returned(UDP, data) == data
  {
  }

  /** A packet whose fragments can come back. */
  ghost predicate FragmentTraveller(t: Env, t': Env, p: Pkt4, src6: Addr6, dst6: Addr6) {
    && Fragmenting(t, p, src6, dst6) && ValidEnv(t') && t.mtu <= t'.mtu
    && MapsBack(t, t', p.raw[12..16], p.raw[16..20], src6, dst6)
    && p.proto != ICMP && p.raw[8] >= 3
    && (Offset4(Get16(p.raw, 6)) == 0 ==> ComesBack(t, t', p.proto, p.data))
  }

  /** The payload that comes back. */
  function ReturnedPart(p: Pkt4): seq<Byte>
    requires WellParsed4(p)
  {
    if Offset4(Get16(p.raw, 6)) == 0 then Returned(p.proto, p.data) else p.data
  }

  /**
   * Every fragment sent for a packet translates back to one IPv4 fragment, and together these carry the packet's
   * identification, its offset and exactly its bytes.
   */
  lemma FragmentsReturn(t: Env, t': Env, p: Pkt4, src6: Addr6, dst6: Addr6) returns (rs: seq<seq<Byte>>)
    requires FragmentTraveller(t, t', p, src6, dst6)
    ensures BecomeOneByOne(t', Translate(t, p.raw), rs)
    ensures Reassembles4(rs, Spec4(p.raw[1], p.raw[8] - 2, Get16(p.raw, 4), p.proto, p.raw[12..16], p.raw[16..20],
            MF4(Get16(p.raw, 6))),
                         8 * Offset4(Get16(p.raw, 6)), ReturnedPart(p))
  {
    hide Payload4to6, Parse4, Translate, Fragments, Reassembles4, BecomeOneByOne, Accepted4, Survives, ComesBack;
    hide ReturnedPart, BytesBack;
    ForwardFragments(t, p, src6, dst6);
    var f := FragSpec4(t, p, src6, dst6);
    var k, data := Offset4(Get16(p.raw, 6)), Payload4to6(t, p, src6 + dst6).data;
    var src4, dst4 := p.raw[12..16], p.raw[16..20];
    PartBack(t, t', p, src6, dst6);
    rs := FragmentsBack(t', f, f.size / 8, k, data, src4, dst4, ReturnedPart(p));
  }

  lemma PartBack(t: Env, t': Env, p: Pkt4, src6: Addr6, dst6: Addr6)
    requires FragmentTraveller(t, t', p, src6, dst6)
    ensures var f := FragSpec4(t, p, src6, dst6);
            BytesBack(t', f, Offset4(Get16(p.raw, 6)), Payload4to6(t, p, src6 + dst6).data, p.raw[12..16],
              p.raw[16..20], ReturnedPart(p))
  {
    hide Parse4, Accepted4, Transport, Returned, Words, ComesBack;
    var addrs := src6 + dst6;
    assert p.raw[12..16] + p.raw[16..20] == p.raw[12..20];
    GoodHeader4(p);
    AddressSum(p);
    if Offset4(Get16(p.raw, 6)) == 0 {
      var n := Min(ChunkSize(t), |p.data|);
      FirstChunkBack(t, t', p.proto, p.data, p.raw[12..20], addrs, Pseudo6(addrs, |p.data|, UDP),
        Pseudo4(p.raw[12..20], n, UDP), n);
    }
  }
}
