/** What happens to every packet that is received, told by the bytes that leave. */
module Dispositions {
  import opened Bytes
  import opened Packet
  import opened Checksum
  import opened Xlate
  import opened Headers
  import opened TransportLaws
  import opened RoundTrip
  import opened IcmpErrors
  import opened Fragmentation

  // ----- IPv4 -----

  /** out is the ICMPv4 error of this kind about p, or nothing if p is ICMP other than an echo request. */
  ghost predicate Report4(t: Env, p: Pkt4, out: seq<seq<Byte>>, typ: Byte, code: Byte, word: U32)
    requires WellParsed4(p)
  {
    if p.proto == 1 && p.data[0] != 8 then out == []
    else
      && |out| == 1
      && var q := out[0];
      && |q| == 28 + Min(p.hdrLen + |p.data|, 548) && q[0] == 0x45 && q[1] == 0 && q[8] == 64 && q[9] == 1
      && q[12..16] == t.local4 && q[16..20] == p.raw[12..16]
      && q[20] == typ && q[21] == code && Get32(q, 24) == word && q[28..] == p.raw[..|q| - 28]
      && Verifies(q[..20], 0) && Verifies(q[20..], 0)
  }

  lemma Reports4(t: Env, p: Pkt4, typ: Byte, code: Byte, word: U32)
    requires WellParsed4(p)
    ensures Report4(t, p, Error4(t, p, typ, code, word), typ, code, word)
  {
    hide Icmp4, Verifies, Get16, Get32;
    var quote := p.raw[..Min(p.hdrLen + |p.data|, ICMP4_MAX - IP4_HDR - ICMP_HDR)];
    Icmp4Verifies(0, t.local4, p.raw[12..16], typ, code, word, quote);
  }

  /** Data, or an echo message, as opposed to an error. */
  predicate Data4(p: Pkt4)
    requires WellParsed4(p)
  {
    p.proto != 1 || p.data[0] == 8 || p.data[0] == 0
  }

  /** Don't Fragment is set and respected: the packet is no fragment. */
  predicate Unbreakable(p: Pkt4)
    requires WellParsed4(p)
  {
    Get16(p.raw, 6) % 0x4000 == 0 && Get16(p.raw, 6) / 0x4000 % 2 == 1
  }

  /** The packet leaves without a fragment header. */
  predicate Plain4(t: Env, p: Pkt4)
    requires WellParsed4(p)
  {
    Get16(p.raw, 6) % 0x4000 == 0 && (Unbreakable(p) || 40 + |p.data| <= Min(t.offlink, t.mtu))
  }

  /** The transport header is too short, or a UDP checksum is missing and the mode is `drop`. */
  predicate Unusable(mode: UDPMode, proto: Byte, data: seq<Byte>) {
    || (proto == 6 && |data| < 20)
    || (proto == 17 && (|data| < 8 || (Get16(data, 6) == 0 && mode == DropZero)))
  }

  /** The IPv6 header for p, one hop further; with a fragment header if there has to be one. */
  ghost predicate Carried4(t: Env, p: Pkt4, q: seq<Byte>, src: Addr6, dst: Addr6)
    requires WellParsed4(p)
  {
    var next := if p.proto == 1 then 58 else p.proto;
    && |q| >= 40 && Get32(q, 0) == 0x6000_0000 + p.raw[1] as int * 0x10_0000 && Get16(q, 4) == |q| - 40
    && q[7] as int == p.raw[8] as int - 1 && q[8..24] == src && q[24..40] == dst
    && (if Plain4(t, p) then q[6] == next && |q| == 40 + |p.data|
        else
          && 48 < |q| <= Min(t.offlink, t.mtu) && q[6] == 44
          && q[40] == next && q[41] == 0 && Get32(q, 44) == Get16(p.raw, 4))
  }

  /** What leaves for a data packet between mapped addresses; the fragments but the last are as big as they can be. */
  ghost predicate Leaves4(t: Env, p: Pkt4, out: seq<seq<Byte>>, src: Addr6, dst: Addr6)
    requires WellParsed4(p)
  {
    && (out == [] <==>
         (Get16(p.raw, 6) % 0x2000 == 0 && Unusable(t.udp, p.proto, p.data)) || (p.data == [] && !Plain4(t, p)))
    && (Plain4(t, p) ==> |out| <= 1)
    && (forall i :: 0 <= i < |out| ==> Carried4(t, p, out[i], src, dst))
    && (forall i :: 0 <= i < |out| - 1 ==> |out[i]| + 8 > Min(t.offlink, t.mtu))
  }

  /** What is sent for a packet that is received. */
  ghost predicate Disposed4(t: Env, p: Pkt4, out: seq<seq<Byte>>)
    requires WellParsed4(p)
  {
    var dst, src := t.map4(0, p.raw[16..20]), t.map4(1, p.raw[12..16]);
    if p.raw[16..20] == t.local4 then
      if p.proto != 1 then Report4(t, p, out, 3, 2, 0)
      else if p.data[0] == 8 then |out| == 1 && Answers4(out[0], p)
      else out == []
    else if p.raw[8] == 1 then Report4(t, p, out, 11, 0, 0)
    else if !Data4(p) then |out| <= 1 && forall q :: q in out ==> |q| >= 88 && q[0] / 0x10 == 6 && q[6] == 58
    else if dst.Reject? then Report4(t, p, out, 3, 1, 0)
    else if dst.Drop? then out == []
    else if src.Reject? then Report4(t, p, out, 3, 10, 0)
    else if src.Drop? then out == []
    else if Unbreakable(p) && p.hdrLen + |p.data| > t.mtu - 20 then
      0 <= t.mtu - 20 < 0x1_0000_0000 && Report4(t, p, out, 3, 4, t.mtu - 20)
    else Leaves4(t, p, out, src.addr, dst.addr)
  }

  ghost predicate Received4(t: Env, p: Pkt4) {
    ValidEnv(t) && Parse4(p.raw) == Good4(p) && WellParsed4(p) && Accepted4(p)
  }

  lemma DispatchOf4(t: Env, p: Pkt4)
    requires Received4(t, p)
    ensures p.raw[8] != 0 && Translate(t, p.raw) == Dispatched4(t, p)
  {
    hide Dispatched4, Verifies;
  }

  lemma PlainIsWhole(t: Env, p: Pkt4)
    requires WellParsed4(p)
    ensures Plain4(t, p) <==> Whole4(t, p)
    ensures Unbreakable(p) && p.hdrLen + |p.data| > t.mtu - 20 <==> TooBig4(t, p)
  {
  }

  lemma RefusedExactly4(t: Env, p: Pkt4, addrs: seq<Byte>)
    requires WellParsed4(p)
    ensures Payload4to6(t, p, addrs).Refused? <==> Get16(p.raw, 6) % 0x2000 == 0 && Unusable(t.udp, p.proto, p.data)
  {
    hide Readdress, Echo4to6, Pseudo6, ChecksumOf;
  }

  lemma LeavesWhole4(t: Env, p: Pkt4, src: Addr6, dst: Addr6, data: seq<Byte>)
    requires Received4(t, p) && Forwardable4(t, p) && Plain4(t, p) && !TooBig4(t, p)
    requires t.map4(0, p.raw[16..20]) == Mapped(dst) && t.map4(1, p.raw[12..16]) == Mapped(src)
    requires Payload4to6(t, p, src + dst) == Rewritten(data)
    ensures Leaves4(t, p, Translate(t, p.raw), src, dst)
  {
    hide Payload4to6, Parse4, Accepted4, Hdr6, Translate, Plain4, Unusable, TooBig4;
    PlainIsWhole(t, p);
    RefusedExactly4(t, p, src + dst);
    ForwardWhole4(t, p, src, dst, data);
    Hdr6Fields(p.raw[1], |data|, NextHeader(p.proto), p.raw[8] - 1, src, dst, data);
  }

  lemma {:induction false} AllShare(qs: seq<seq<Byte>>, f: FragSpec, off: nat, data: seq<Byte>, i: nat)
    requires Reassembles(qs, f, off, data) && i < |qs|
    ensures SharesHeader(qs[i], f) && |qs[i]| > 48
    decreases i
  {
    hide SharesHeader, FragOffset, MoreFragments;
    if i > 0 {
      var n := |qs[0]| - 48;
      AllShare(qs[1..], f, off + n, data[n..], i - 1);
    }
  }

  lemma {:induction false} FragmentsFull(f: FragSpec, off: nat, data: seq<Byte>, i: nat)
    requires 0 < f.size <= 0xfff0 && i < |Fragments(f, off, data)| - 1
    ensures |Fragments(f, off, data)[i]| == 48 + f.size
    decreases i
  {
    hide OneFragment, Fragments;
    var n := Min(f.size, |data|);
    FragmentsNonEmpty(f, off, data);
    FragmentsUnfold(f, off, data);
    FragmentsNonEmpty(f, off + n, data[n..]);
    if i > 0 {
      FragmentsFull(f, off + n, data[n..], i - 1);
    } else {
      FragmentSize(f, off, |data| > n || f.mf, data[..n]);
    }
  }

  lemma FragmentSize(f: FragSpec, off: nat, more: bool, chunk: seq<Byte>)
    requires FRAG_HDR + |chunk| <= 65535
    ensures |OneFragment(f, off, more, chunk)| == 48 + |chunk|
  {
  }

  lemma LeavesFragments4(t: Env, p: Pkt4, src: Addr6, dst: Addr6)
    requires Received4(t, p) && Forwardable4(t, p) && !Plain4(t, p) && !TooBig4(t, p)
    requires t.map4(0, p.raw[16..20]) == Mapped(dst) && t.map4(1, p.raw[12..16]) == Mapped(src)
    requires Payload4to6(t, p, src + dst).Rewritten?
    ensures Leaves4(t, p, Translate(t, p.raw), src, dst)
  {
    hide Payload4to6, Parse4, Accepted4, Hdr6, Translate, Plain4, Unusable, TooBig4, Reassembles, Fragments, Whole4;
    PlainIsWhole(t, p);
    RefusedExactly4(t, p, src + dst);
    FragmentationLossless(t, p, src, dst);
    ForwardFragments(t, p, src, dst);
    var out, f := Translate(t, p.raw), FragSpec4(t, p, src, dst);
    var off, data := 8 * Offset4(Get16(p.raw, 6)), Payload4to6(t, p, src + dst).data;
    forall i | 0 <= i < |out| ensures Carried4(t, p, out[i], src, dst) {
      AllShare(out, f, off, data, i);
    }
    forall i | 0 <= i < |out| - 1 ensures |out[i]| + 8 > Min(t.offlink, t.mtu) {
      FragmentsFull(f, off, data, i);
    }
  }

  lemma Forwards4(t: Env, p: Pkt4, src: Addr6, dst: Addr6)
    requires Received4(t, p) && Forwardable4(t, p) && !TooBig4(t, p)
    requires t.map4(0, p.raw[16..20]) == Mapped(dst) && t.map4(1, p.raw[12..16]) == Mapped(src)
    ensures Leaves4(t, p, Translate(t, p.raw), src, dst)
  {
    hide Payload4to6, Parse4, Accepted4, Translate, Plain4, Unusable, TooBig4;
    if Payload4to6(t, p, src + dst).Refused? {
      RefusedExactly4(t, p, src + dst);
      HandleForwards4(t, p);
    } else if Plain4(t, p) {
      LeavesWhole4(t, p, src, dst, Payload4to6(t, p, src + dst).data);
    } else {
      LeavesFragments4(t, p, src, dst);
    }
  }

  /** Every IPv4 packet that is received is disposed of in this way. */
  lemma Disposition4(t: Env, p: Pkt4)
    requires Received4(t, p)
    ensures Disposed4(t, p, Translate(t, p.raw))
  {
    hide Parse4, Accepted4, Translate, TooBig4, Error4, IcmpError4to6, Forward4, Leaves4, Report4, Host4, Answers4;
    DispatchOf4(t, p);
    PlainIsWhole(t, p);
    var dst, src := t.map4(0, p.raw[16..20]), t.map4(1, p.raw[12..16]);
    if p.raw[16..20] == t.local4 {
      if p.proto == ICMP && p.data[0] == 8 { EchoAnswered4(t, p); }
      Reports4(t, p, 3, 2, 0);
      NoAnswer4(p);
    } else if p.raw[8] == 1 {
      Reports4(t, p, 11, 0, 0);
    } else if !Data4(p) {
      ErrorsBecome6(t, p);
    } else {
      Reports4(t, p, 3, 1, 0);
      Reports4(t, p, 3, 10, 0);
      Reports4(t, p, 3, 4, t.mtu - 20);
      if dst.Mapped? && src.Mapped? && !TooBig4(t, p) { Forwards4(t, p, src.addr, dst.addr); }
      ForwardTooBig4(t, p);
    }
  }

  lemma NoAnswer4(p: Pkt4)
    requires WellParsed4(p)
    ensures p.proto == ICMP && p.data[0] != 8 ==> Host4(p) == []
  {
  }

  lemma ForwardTooBig4(t: Env, p: Pkt4)
    requires ValidEnv(t) && WellParsed4(p) && p.raw[8] >= 2
    ensures TooBig4(t, p) ==>
              forall src: Addr6, dst: Addr6 :: Forward4(t, p, src, dst) == Error4(t, p, 3, 4, t.mtu - MTU_ADJ)
  {
  }

  lemma ErrorsBecome6(t: Env, p: Pkt4)
    requires ValidEnv(t) && WellParsed4(p) && p.raw[8] >= 2 && p.proto == ICMP
    ensures |IcmpError4to6(t, p)| <= 1
    ensures forall q :: q in IcmpError4to6(t, p) ==> |q| >= 88 && q[0] / 0x10 == 6 && q[6] == 58
  {
    hide InnerError4, Message6;
    forall q | q in IcmpError4to6(t, p) ensures |q| >= 88 && q[0] / 0x10 == 6 && q[6] == 58 {
      ErrorTranslation4to6(t, p, q, []);
    }
  }

  // ----- IPv6 -----

  /** out is the ICMPv6 error of this kind about p, or nothing if p is ICMPv6 other than an echo request. */
  ghost predicate Report6(t: Env, p: Pkt6, out: seq<seq<Byte>>, typ: Byte, code: Byte, word: U32)
    requires WellParsed6(p)
  {
    if p.proto == 58 && p.data[0] != 128 then out == []
    else
      && |out| == 1
      && var q := out[0];
      && |q| == 48 + Min(40 + p.hdrLen + |p.data|, 1232) && Get32(q, 0) == 0x6000_0000 && q[6] == 58 && q[7] == 64
      && Get16(q, 4) == |q| - 40 && q[8..24] == t.local6 && q[24..40] == p.raw[8..24]
      && q[40] == typ && q[41] == code && Get32(q, 44) == word && q[48..] == p.raw[..|q| - 48]
      && Passes6(q[40..], q[8..40], 58)
  }

  lemma Reports6(t: Env, p: Pkt6, typ: Byte, code: Byte, word: U32)
    requires WellParsed6(p)
    ensures Report6(t, p, Error6(t, p, typ, code, word), typ, code, word)
  {
    hide Icmp6, Passes6, Get16, Get32, WellParsedFrag;
    var quote := p.raw[..Min(IP6_HDR + p.hdrLen + |p.data|, MTU_MIN - IP6_HDR - ICMP_HDR)];
    Icmp6Verifies(0, t.local6, p.raw[8..24], typ, code, word, quote);
  }

  predicate FirstBytes6(p: Pkt6)
    requires WellParsed6(p)
  {
    p.frag.None? || Get16(p.frag.value, 2) / 8 == 0
  }

  /** The IPv4 header for p, one hop further. */
  ghost predicate Carried6(t: Env, p: Pkt6, q: seq<Byte>, src: Addr4, dst: Addr4)
    requires WellParsed6(p)
  {
    && |q| == 20 + |p.data| == Get16(q, 2) && q[0] == 0x45 && q[1] == Get32(p.raw, 0) / 0x10_0000 % 0x100
    && q[8] as int == p.raw[7] as int - 1 && q[9] == (if p.proto == 58 then 1 else p.proto)
    && q[12..16] == src && q[16..20] == dst && Verifies(q[..20], 0)
    && FragmentFields4(p, |p.data|, t.ident(0), Get16(q, 4), Get16(q, 6))
  }

  ghost predicate Leaves6(t: Env, p: Pkt6, out: seq<seq<Byte>>, src: Addr4, dst: Addr4)
    requires WellParsed6(p)
  {
    && (out == [] <==> FirstBytes6(p) && Unusable(t.udp, p.proto, p.data))
    && |out| <= 1
    && (out != [] ==> Carried6(t, p, out[0], src, dst))
  }

  /** What is sent for a packet that is received. */
  ghost predicate Disposed6(t: Env, p: Pkt6, out: seq<seq<Byte>>)
    requires WellParsed6(p)
  {
    var dst, src := t.map6(0, p.raw[24..40], false), t.map6(1, p.raw[8..24], true);
    if p.raw[24..40] == t.local6 then
      if p.proto != 58 then Report6(t, p, out, 4, 1, 6)
      else if p.data[0] == 128 then
        if 40 + |p.data| <= 65535 then |out| == 1 && Answers6(out[0], p) else out == []
      else out == []
    else if p.raw[7] == 1 then Report6(t, p, out, 3, 0, 0)
    else if p.proto == 58 && p.data[0] != 128 && p.data[0] != 129 then
      |out| <= 1 && forall q :: q in out ==> |q| >= 48 && q[0] == 0x45 && q[9] == 1
    else if dst.Reject? then Report6(t, p, out, 1, 0, 0)
    else if dst.Drop? then out == []
    else if src.Reject? then Report6(t, p, out, 1, 5, 0)
    else if src.Drop? then out == []
    else if 40 + p.hdrLen + |p.data| > t.mtu then t.mtu < 0x1_0000_0000 && Report6(t, p, out, 2, 0, t.mtu)
    else Leaves6(t, p, out, src.addr, dst.addr)
  }

  ghost predicate Received6(t: Env, p: Pkt6) {
    ValidEnv(t) && Parse6(p.raw) == Good6(p) && WellParsed6(p) && Accepted6(p)
  }

  lemma DispatchOf6(t: Env, p: Pkt6)
    requires Received6(t, p)
    ensures p.raw[7] != 0 && Translate(t, p.raw) == Dispatched6(t, p)
  {
    hide Dispatched6, Verifies, ParseBody6, WellParsedFrag;
  }

  lemma RefusedExactly6(t: Env, p: Pkt6, addrs: seq<Byte>)
    requires WellParsed6(p)
    ensures Payload6to4(t, p, addrs).Refused? <==> FirstBytes6(p) && Unusable(t.udp, p.proto, p.data)
  {
    hide Readdress, Echo6to4, Pseudo4, ChecksumOf;
  }

  lemma Forwards6(t: Env, p: Pkt6, src: Addr4, dst: Addr4)
    requires Received6(t, p) && Forwardable6(t, p) && IP6_HDR + p.hdrLen + |p.data| <= t.mtu
    requires t.map6(0, p.raw[24..40], false) == Mapped(dst) && t.map6(1, p.raw[8..24], true) == Mapped(src)
    ensures Leaves6(t, p, Translate(t, p.raw), src, dst)
  {
    hide Payload6to4, Parse6, Accepted6, Translate, Unusable, Hdr6to4, Seal4, FragmentFields4, WellParsedFrag, Verifies;
    RefusedExactly6(t, p, src + dst);
    if Payload6to4(t, p, src + dst).Refused? {
      HandleForwards6(t, p);
    } else {
      var data := Payload6to4(t, p, src + dst).data;
      ForwardWhole6(t, p, src, dst, data);
      Hdr6to4Fields(p, |data|, p.raw[7] - 1, src, dst, t.ident(0), data);
      var q := Translate(t, p.raw)[0];
      assert q[12..16] == q[12..20][..4] == src && q[16..20] == q[12..20][4..] == dst;
    }
  }

  /** Every IPv6 packet that is received is disposed of in this way. */
  lemma Disposition6(t: Env, p: Pkt6)
    requires Received6(t, p)
    ensures Disposed6(t, p, Translate(t, p.raw))
  {
    hide Parse6, Accepted6, Translate, Error6, IcmpError6to4, Rewritten6, Leaves6, Report6, Host6, Answers6;
    hide WellParsedFrag;
    DispatchOf6(t, p);
    var dst, src := t.map6(0, p.raw[24..40], false), t.map6(1, p.raw[8..24], true);
    if p.raw[24..40] == t.local6 {
      if p.proto == ICMP6 && p.data[0] == 128 { EchoAnswered6(t, p); }
      Reports6(t, p, 4, 1, 6);
      NoAnswer6(p);
    } else if p.raw[7] == 1 {
      Reports6(t, p, 3, 0, 0);
    } else if p.proto == ICMP6 && p.data[0] != 128 && p.data[0] != 129 {
      ErrorsBecome4(t, p);
    } else {
      Reports6(t, p, 1, 0, 0);
      Reports6(t, p, 1, 5, 0);
      Reports6(t, p, 2, 0, t.mtu);
      if dst.Mapped? && src.Mapped? && IP6_HDR + p.hdrLen + |p.data| <= t.mtu { Forwards6(t, p, src.addr, dst.addr); }
    }
  }

  lemma NoAnswer6(p: Pkt6)
    requires WellParsed6(p)
    ensures p.proto == ICMP6 && p.data[0] != 128 ==> Host6(p) == []
  {
  }

  lemma ErrorsBecome4(t: Env, p: Pkt6)
    requires ValidEnv(t) && WellParsed6(p) && p.raw[7] >= 2 && p.proto == ICMP6
    ensures |IcmpError6to4(t, p)| <= 1
    ensures forall q :: q in IcmpError6to4(t, p) ==> |q| >= 48 && q[0] == 0x45 && q[9] == 1
  {
    hide InnerError6, Message4;
    forall q | q in IcmpError6to4(t, p) ensures |q| >= 48 && q[0] == 0x45 && q[9] == 1 {
      ErrorTranslation6to4(t, p, q, []);
    }
  }

  /** A packet with segments left is refused with the pointer of its parse, before anything else is looked at. */
  lemma SegmentsLeft(t: Env, raw: seq<Byte>)
    requires ValidEnv(t) && Parse6(raw).Routed6?
    ensures WellParsed6(Parse6(raw).p)
    ensures Report6(t, Parse6(raw).p, Translate(t, raw), 4, 0, Parse6(raw).ptr % 0x1_0000_0000)
  {
    hide Error6, Report6, ParseBody6, WalkExtensions, WellParsed6, Body6;
    Parse6Partitions(raw);
    Reports6(t, Parse6(raw).p, 4, 0, Parse6(raw).ptr % 0x1_0000_0000);
  }
}
