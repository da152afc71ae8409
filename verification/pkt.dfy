/** A parsed packet as a view over its buffer, parsed by setting fields and rewritten in place. */
module Pkts {
  import opened Bytes
  import opened NetUtil
  import opened Packet
  import opened Checksum
  import opened Xlate
  import opened Buffers

  class Pkt {
    /** The packet is buf[start..end]. */
    const buf: array<Byte>
    const start: nat
    const end: nat

    var hdrLen: nat
    var proto: Byte
    /** The transport payload is buf[dataAt..dataEnd]. */
    var dataAt: nat
    var dataEnd: nat
    /** Where the fragment header is, if there is one. */
    var fragAt: Option<nat>

    constructor (buf: array<Byte>, start: nat, end: nat)
      requires start <= end <= buf.Length
      ensures this.buf == buf && this.start == start && this.end == end && InBounds()
    {
      this.buf, this.start, this.end := buf, start, end;
      hdrLen, proto, dataAt, dataEnd, fragAt := 0, 0, start, start, None;
    }

    predicate InBounds()
      reads this
    {
      && start <= dataAt <= dataEnd <= end <= buf.Length
      && (fragAt.Some? ==> start <= fragAt.value && fragAt.value + FRAG_HDR <= end)
    }

    function Raw(): seq<Byte>
      requires start <= end <= buf.Length
      reads this, buf
    {
      buf[start..end]
    }

    function Data(): seq<Byte>
      requires InBounds()
      reads this, buf
    {
      buf[dataAt..dataEnd]
    }

    ghost function View4(): Pkt4
      requires InBounds()
      reads this, buf
    {
      Pkt4(Raw(), hdrLen, Data(), proto)
    }

    ghost function View6(): Pkt6
      requires InBounds()
      reads this, buf
    {
      Pkt6(Raw(), hdrLen, if fragAt.Some? then Some(buf[fragAt.value..fragAt.value + FRAG_HDR]) else None, Data(),
        proto)
    }

    /** The fields of a parsed IPv4 packet. */
    ghost predicate Parsed4()
      reads this, buf
    {
      InBounds() && dataAt == start + hdrLen && WellParsed4(View4())
    }

    ghost predicate Parsed6()
      reads this, buf
    {
      InBounds() && dataAt == start + IP6_HDR + hdrLen && WellParsed6(View6())
      && (fragAt.Some? ==> fragAt.value == dataAt - FRAG_HDR)
    }

    /** parseIPv4. */
    method ParseIPv4() returns (reason: Reason)
      requires InBounds()
      modifies this
      ensures InBounds() && (reason != NoReason ==> Parse4(Raw()) == Bad4(reason))
      ensures reason == NoReason ==> Parsed4() && Parse4(Raw()) == Good4(View4())
    {
      hide ClassifyIPv4, Parse4, WellParsed4, Get16, HeaderOk4;
      var raw := Raw();
      if |raw| < IP4_HDR {
        Refused4(raw);
        return IPHeaderLength;
      }
      var ihl := raw[0] % 0x10 * 4;
      var total := Get16(raw, 2);
      if !HeaderOk4(raw) {
        hdrLen := IP4_HDR;
        Refused4(raw);
        return IPHeaderInvalid;
      }
      HeaderBounds4(raw);
      hdrLen := ihl;
      var last := |raw|;
      if last > total {
        last := total;
      }
      dataAt, dataEnd := start + ihl, start + last;
      proto := raw[9];
      SliceSlice(buf[..], start, end, ihl, last);
      assert View4() == Pkt4(raw, ihl, raw[ihl..last], raw[9]);
      reason := CheckUpper4(raw, last);
      if reason == NoReason { Parse4Partitions(raw); }
    }

    /** parseIPv6: the reason, and the pointer for a routing header with segments left. */
    method ParseIPv6() returns (reason: Reason, segPtr: nat)
      requires InBounds()
      modifies this
      ensures InBounds() && (reason != NoReason && reason != RoutingHeaderSegmentsLeft ==>
                Parse6(Raw()) == Bad6(reason))
      ensures reason == RoutingHeaderSegmentsLeft ==> Parsed6() && Parse6(Raw()) == Routed6(View6(), segPtr)
      ensures reason == NoReason ==> Parsed6() && Parse6(Raw()) == Good6(View6())
    {
      hide ValidIPv6, Parse6, WellParsed6, Get16, WalkExtensions, ParseBody6;
      var raw := Raw();
      if |raw| < IP6_HDR {
        Refused6(raw);
        return IPHeaderLength, 0;
      }
      if !HeaderOk6(raw) {
        Refused6(raw);
        return IPHeaderInvalid, 0;
      }
      dataAt, dataEnd, fragAt := start + IP6_HDR, end, None;
      var pl := Get16(raw, 4);
      if dataEnd - dataAt > pl {
        dataEnd := dataAt + pl;
      }
      var body := Data();
      SliceSlice(buf[..], start, end, IP6_HDR, dataEnd - start);
      assert body == Body6(raw);
      var w := WalkHeaders(body, raw[6]);
      Walked6(raw, w);
      if w.Short? {
        return ExtHeaderLength, 0;
      }
      reason, segPtr := ParseRest(raw, body, w);
      ParsesWell6(raw, View6());
    }

    /** What follows the extension headers. */
    method ParseRest(raw: seq<Byte>, body: seq<Byte>, w: Walk) returns (reason: Reason, segPtr: nat)
      requires InBounds() && fragAt == None && dataAt == start + IP6_HDR && raw == Raw() && body == Data() && w.Walk?
               && w.at <= |body|
      modifies this
      ensures InBounds()
      ensures reason != NoReason && reason != RoutingHeaderSegmentsLeft ==> ParseBody6(raw, body, w) == Bad6(reason)
      ensures reason == NoReason || reason == RoutingHeaderSegmentsLeft ==>
                dataAt == start + IP6_HDR + hdrLen && (fragAt.Some? ==> fragAt.value == dataAt - FRAG_HDR)
      ensures reason == RoutingHeaderSegmentsLeft ==> ParseBody6(raw, body, w) == Routed6(View6(), segPtr)
      ensures reason == NoReason ==> ParseBody6(raw, body, w) == Good6(View6())
    {
      hide ParseBody6, Finish6, FragOffset;
      Plain6(raw, body, w);
      SliceSlice(buf[..], dataAt, dataEnd, w.at, |body|);
      hdrLen, proto, dataAt := w.at, w.proto, dataAt + w.at;
      if proto == FRAG {
        reason := TakeFragment(raw, body, w);
        if reason != NoReason {
          return reason, 0;
        }
      } else {
        assert View6() == Pkt6(raw, w.at, None, body[w.at..], w.proto);
      }
      reason, segPtr := Finish(w.segLeft, w.segPtr);
    }

    /** The fragment header: its fields move on past it. */
    method TakeFragment(raw: seq<Byte>, body: seq<Byte>, w: Walk) returns (reason: Reason)
      requires start <= end <= buf.Length && raw == Raw() && InBounds()
      requires w.Walk? && w.proto == FRAG && w.at <= |body| && dataAt == start + IP6_HDR + w.at && hdrLen == w.at
               && dataEnd == start + IP6_HDR + |body| && body == buf[start + IP6_HDR..dataEnd]
      modifies this
      ensures InBounds() && reason != RoutingHeaderSegmentsLeft
              && (reason != NoReason ==> ParseBody6(raw, body, w) == Bad6(reason))
      ensures reason == NoReason ==> dataAt == start + IP6_HDR + hdrLen && fragAt == Some(dataAt - FRAG_HDR)
      ensures reason == NoReason ==> ParseBody6(raw, body, w) == Finish6(View6(), w.segLeft, w.segPtr)
    {
      hide Finish6, Get16, ParseBody6, Offset6, MF6, View6, FragOffset;
      Fragment6(raw, body, w);
      if dataEnd - dataAt < FRAG_HDR {
        return FragHeaderLength;
      }
      SliceSlice(buf[..], start + IP6_HDR, dataEnd, w.at, w.at + FRAG_HDR);
      SliceSlice(buf[..], start + IP6_HDR, dataEnd, w.at + FRAG_HDR, |body|);
      PassFragment(raw, body[w.at..w.at + FRAG_HDR], body[w.at + FRAG_HDR..]);
      reason := CheckFragment(FragOffset(), dataEnd - dataAt);
    }

    method PassFragment(ghost raw: seq<Byte>, ghost fh: seq<Byte>, ghost rest: seq<Byte>)
      requires InBounds() && dataAt + FRAG_HDR <= dataEnd && raw == Raw() && fh == buf[dataAt..dataAt + FRAG_HDR]
               && rest == buf[dataAt + FRAG_HDR..dataEnd]
      modifies this
      ensures InBounds() && dataEnd == old(dataEnd) && dataAt == old(dataAt) + FRAG_HDR
              && hdrLen == old(hdrLen) + FRAG_HDR && fragAt == Some(old(dataAt))
      ensures View6() == Pkt6(raw, hdrLen, Some(fh), rest, fh[0]) && FragOffset() == Get16(fh, 2)
    {
      hide Get16;
      fragAt := Some(dataAt);
      proto := buf[dataAt];
      dataAt, hdrLen := dataAt + FRAG_HDR, hdrLen + FRAG_HDR;
    }

    /** The field with the fragment offset, zero without a fragment header. */
    function FragOffset(): U16
      requires InBounds()
      reads this, buf
    {
      if fragAt.Some? then Get16(buf[fragAt.value..fragAt.value + FRAG_HDR], 2) else 0
    }

    /** The checks on the upper-layer protocol that end parseIPv6. */
    method Finish(segLeft: nat, segPtr0: nat) returns (reason: Reason, segPtr: nat)
      requires InBounds()
      ensures var f := Finish6(View6(), segLeft, segPtr0);
              if reason == NoReason then f == Good6(View6())
              else if reason == RoutingHeaderSegmentsLeft then f == Routed6(View6(), segPtr)
              else f == Bad6(reason)
    {
      if proto == ICMP6 {
        if Offset6(FragOffset()) != 0 || MF6(FragOffset()) {
          return ICMPFragmented, 0;
        }
        if dataEnd - dataAt < ICMP_HDR {
          return ICMPHeaderLength, 0;
        }
      } else if proto == ICMP {
        return IPv4OnlyProto, 0;
      }
      if segLeft != 0 {
        return RoutingHeaderSegmentsLeft, segPtr0 + 4;
      }
      return NoReason, 0;
    }

    // ----- Rewriting in place -----

    /** Overwrites the 16-bit field at offset k of the payload. */
    method PutData16(k: nat, v: U16, ghost data: seq<Byte>)
      requires InBounds() && k + 2 <= dataEnd - dataAt && data == Data()
      modifies buf
      ensures buf[..] == Splice(old(buf[..]), dataAt, Put16(data, k, v))
    {
      hide Splice, Enc16, Put16;
      ghost var s := buf[..];
      DataSplices(data);
      PutU16(buf, dataAt + k, v);
      SpliceInside(s, dataAt, data, k, Enc16(v));
      Put16Splices(data, k, v);
    }

    /** The payload in place is itself a write. */
    lemma DataSplices(data: seq<Byte>)
      requires InBounds() && data == Data()
      ensures buf[..] == Splice(buf[..], dataAt, data)
    {
    }

    /** The echo case of payload4to6 and payload6to4: new type and the checksum that goes with it. */
    method RewriteEcho(typ: Byte, ck: U16, ghost data: seq<Byte>)
      requires InBounds() && ICMP_HDR <= dataEnd - dataAt && data == Data()
      modifies buf
      ensures buf[..] == Splice(old(buf[..]), dataAt, Put16(data[0 := typ], 2, ck))
    {
      hide Splice, Enc16, Put16;
      ghost var s := buf[..];
      DataSplices(data);
      PutByte(buf, dataAt, typ);
      SpliceInside(s, dataAt, data, 0, [typ]);
      FirstSplices(data, typ);
      PutU16(buf, dataAt + 2, ck);
      SpliceInside(s, dataAt, data[0 := typ], 2, Enc16(ck));
      Put16Splices(data[0 := typ], 2, ck);
    }

    /** A UDP datagram without checksum, in `calc` mode. */
    method CalcChecksum(extra: U64, ghost pseudo: nat, ghost data: seq<Byte>)
      requires InBounds() && data == Data() && 8 <= |data| <= 65535 && extra <= ROOM && Ones(extra) == Ones(pseudo)
      modifies buf
      ensures buf[..] == Splice(old(buf[..]), dataAt, Put16(data, 6, NonZero(ChecksumOf(data, pseudo))))
    {
      hide Splice, Put16, ChecksumOf, Ones;
      var ck := Checksum.Checksum(Data(), extra);
      SameChecksum(data, extra, pseudo);
      if ck == 0 {
        ck := 0xffff;
      }
      PutData16(6, ck, data);
    }

    /** The checksum at ckOff, for new addresses. */
    method AdjustChecksum(ckOff: nat, from: seq<Byte>, to: seq<Byte>, ghost data: seq<Byte>)
      requires InBounds() && data == Data() && ckOff + 2 <= |data| && |from| <= 32 && |to| <= 32
      modifies buf
      ensures buf[..] == Splice(old(buf[..]), dataAt, Readdress(data, ckOff, proto == UDP, from, to))
    {
      hide Splice, Put16, Adjusted, Ones, Words;
      var field := Get16(Data(), ckOff);
      var remove := Sum16(from, 0);
      var add := Sum16(to, 0);
      var ck := Adjust(field, remove, add);
      SameAdjusted(field, remove, Words(from), add, Words(to));
      if proto == UDP && ck == 0 {
        ck := 0xffff;
      }
      PutData16(ckOff, ck, data);
    }

    /** The UDP and TCP cases of payload4to6 (six) and payload6to4. */
    method RewriteTransport(mode: UDPMode, from: seq<Byte>, to: seq<Byte>, six: bool, ghost pseudo: nat)
      returns (reason: Reason)
      requires InBounds() && dataEnd - dataAt <= 65535 && |from| <= 32 && |to| == (if six then 32 else 8)
      requires pseudo == if six then Pseudo6(to, dataEnd - dataAt, UDP) else Pseudo4(to, dataEnd - dataAt, UDP)
      modifies buf
      ensures Became(old(buf[..]), dataAt, Transport(mode, proto, old(Data()), from, to, pseudo), reason, buf[..])
    {
      hide Splice, Put16, ChecksumOf, Ones, Adjusted, Words, Pseudo4, Pseudo6;
      ghost var data := Data();
      DataSplices(data);
      var ckOff;
      if proto == UDP {
        if dataEnd - dataAt < 8 {
          return UDPHeaderLength;
        }
        if Get16(Data(), 6) == 0 {
          match mode
          case ForwardZero => return NoReason;
          case CalcZero =>
            var extra;
            if six {
              extra := PseudoSum6(to, dataEnd - dataAt, UDP);
            } else {
              extra := PseudoSum4(to, dataEnd - dataAt, UDP);
            }
            CalcChecksum(extra, pseudo, data);
            return NoReason;
          case DropZero => return UDPZeroChecksum;
        }
        ckOff := 6;
      } else if proto == TCP {
        if dataEnd - dataAt < 20 {
          return TCPHeaderLength;
        }
        ckOff := 16;
      } else {
        return NoReason;
      }
      AdjustChecksum(ckOff, from, to, data);
      return NoReason;
    }

    /** payload4to6: addrs are the addresses of the new IPv6 header. */
    method RewriteTo6(mode: UDPMode, addrs: seq<Byte>, ghost t: Env) returns (reason: Reason)
      requires Parsed4() && |addrs| == 32 && mode == t.udp
      modifies buf
      ensures Became(old(buf[..]), dataAt, Payload4to6(t, old(View4()), addrs), reason, buf[..])
    {
      hide Splice, Put16, Ones, Words, Pseudo6, Transport, Get16;
      var raw := Raw();
      ghost var data := Data();
      DataSplices(data);
      if Offset4(Get16(raw, 6)) != 0 {
        return NoReason;
      }
      if proto == ICMP {
        var len := Get16(raw, 2) - hdrLen;
        var ps := PseudoSum6(addrs, len, ICMP6);
        var field := Get16(Data(), 2);
        var request := buf[dataAt] == 8;
        var delta := if request then 0x7800 else 0x8100;
        var f := Fold((0xffff - field) + ps + delta);
        OnesAddLeft(ps, Pseudo6(addrs, len, ICMP6), (0xffff - field) + delta);
        assert (0xffff - field) + ps + delta == ps + ((0xffff - field) + delta);
        assert (0xffff - field) + Pseudo6(addrs, len, ICMP6) + delta
               == Pseudo6(addrs, len, ICMP6) + ((0xffff - field) + delta);
        RewriteEcho(if request then 128 else 129, 0xffff - f, data);
        return NoReason;
      }
      reason := RewriteTransport(mode, raw[12..20], addrs, true, Pseudo6(addrs, |data|, UDP));
    }

    /** payload6to4: addrs are the addresses of the new IPv4 header. */
    method RewriteTo4(mode: UDPMode, addrs: seq<Byte>, ghost t: Env) returns (reason: Reason)
      requires Parsed6() && |addrs| == 8 && mode == t.udp
      modifies buf
      ensures Became(old(buf[..]), dataAt, Payload6to4(t, old(View6()), addrs), reason, buf[..])
    {
      hide Splice, Put16, Ones, Words, Pseudo4, Pseudo6, Transport, Get16;
      var raw := Raw();
      ghost var data := Data();
      DataSplices(data);
      if Offset6(FragOffset()) != 0 {
        return NoReason;
      }
      if proto == ICMP6 {
        var len := Get16(raw, 4) - hdrLen;
        var ps := PseudoSum6(raw[8..40], len, ICMP6);
        var field := Get16(Data(), 2);
        var request := buf[dataAt] == 128;
        var delta := if request then 0x7800 else 0x8100;
        var g := Fold(ps);
        var sum: int := 0xffff - field as int;
        sum := sum + (0xffff - g as int) + (0xffff - delta);
        var f := Fold(sum);
        RewriteEcho(if request then 8 else 0, 0xffff - f, data);
        return NoReason;
      }
      reason := RewriteTransport(mode, raw[8..40], addrs, false, Pseudo4(addrs, |data|, UDP));
    }
  }

  /** Buffer s became s' as the payload rewriting r says, and this was reported. */
  ghost predicate Became(s: seq<Byte>, at: nat, r: Payload, reason: Reason, s': seq<Byte>) {
    match r
    case Refused(why) => reason == why && s' == s
    case Rewritten(d) => reason == NoReason && at + |d| <= |s| && s' == Splice(s, at, d)
  }

  /** Incremental updates see only the one's complement values of the sums. */
  lemma SameAdjusted(field: U16, remove: nat, remove': nat, add: nat, add': nat)
    requires Ones(remove) == Ones(remove') && Ones(add) == Ones(add')
    ensures Adjusted(field, remove, add) == Adjusted(field, remove', add')
  {
    hide Ones;
    OnesAddLeft(add, add', (0xffff - field) + (0xffff - Ones(remove)));
    assert add + ((0xffff - field) + (0xffff - Ones(remove))) == (0xffff - field) + (0xffff - Ones(remove)) + add;
    assert add' + ((0xffff - field) + (0xffff - Ones(remove))) == (0xffff - field) + (0xffff - Ones(remove)) + add';
  }

  lemma FirstSplices(data: seq<Byte>, v: Byte)
    requires |data| > 0
    ensures Splice(data, 0, [v]) == data[0 := v]
  {
  }

  method CheckFragment(of: U16, n: nat) returns (reason: Reason)
    ensures reason == if MF6(of) && n % 8 != 0 then FragmentMisaligned else if Offset6(of) + n > 65535
            then FragmentTooLong else NoReason
  {
    if MF6(of) && n % 8 != 0 {
      return FragmentMisaligned;
    }
    if Offset6(of) + n > 65535 {
      return FragmentTooLong;
    }
    return NoReason;
  }

  lemma SliceSlice(s: seq<Byte>, a: nat, b: nat, c: nat, d: nat)
    requires a <= b <= |s| && c <= d <= b - a
    ensures s[a..b][c..d] == s[a + c..a + d]
  {
    forall k | 0 <= k < d - c ensures s[a..b][c..d][k] == s[a + c..a + d][k] {
      assert s[a..b][c + k] == s[a + (c + k)];
    }
  }

  lemma Walked6(raw: seq<Byte>, w: Walk)
    requires |raw| >= IP6_HDR && HeaderOk6(raw) && w == WalkExtensions(Body6(raw), 0, raw[6], 0, IP6_HDR)
    ensures (w.Walk? ==> w.at <= |Body6(raw)|) && Parse6(raw) == ParseBody6(raw, Body6(raw), w)
    ensures w.Short? ==> Parse6(raw) == Bad6(ExtHeaderLength)
  {
    hide ValidIPv6, Finish6, Get16;
  }

  lemma Plain6(raw: seq<Byte>, body: seq<Byte>, w: Walk)
    requires w.Walk? && w.at <= |body|
    ensures w.proto != FRAG ==>
              ParseBody6(raw, body, w) == Finish6(Pkt6(raw, w.at, None, body[w.at..], w.proto), w.segLeft, w.segPtr)
  {
  }

  lemma Fragment6(raw: seq<Byte>, body: seq<Byte>, w: Walk)
    requires w.Walk? && w.proto == FRAG && w.at <= |body|
    ensures |body| - w.at < FRAG_HDR ==> ParseBody6(raw, body, w) == Bad6(FragHeaderLength)
    ensures |body| - w.at >= FRAG_HDR ==>
              var fh, data := body[w.at..w.at + FRAG_HDR], body[w.at + FRAG_HDR..];
              if MF6(Get16(fh, 2)) && |data| % 8 != 0 then ParseBody6(raw, body, w) == Bad6(FragmentMisaligned)
              else if Offset6(Get16(fh, 2)) + |data| > 65535 then ParseBody6(raw, body, w) == Bad6(FragmentTooLong)
              else ParseBody6(raw, body, w) == Finish6(Pkt6(raw, w.at + FRAG_HDR, Some(fh), data, fh[0]), w.segLeft,
                w.segPtr)
  {
  }

  lemma ParsesWell6(raw: seq<Byte>, p: Pkt6)
    ensures !Parse6(raw).Bad6? && Parse6(raw).p == p ==> WellParsed6(p)
  {
    hide Parse6, WellParsed6;
    if !Parse6(raw).Bad6? { Parse6Partitions(raw); }
  }

  /** The loop over the extension headers. */
  method WalkHeaders(body: seq<Byte>, first: Byte) returns (w: Walk)
    ensures w == WalkExtensions(body, 0, first, 0, IP6_HDR)
  {
    hide Extension;
    var proto, at, segLeft, segPtr := first, 0, 0, IP6_HDR;
    while Extension(proto)
      invariant 0 <= at <= |body| && segLeft >= 0 && segPtr >= 0
      invariant WalkExtensions(body, 0, first, 0, IP6_HDR) == WalkExtensions(body, at, proto, segLeft, segPtr)
      decreases |body| - at
    {
      if |body| - at < 2 {
        return Short;
      }
      var hl := (body[at + 1] as int + 1) * 8;
      if |body| - at < hl {
        return Short;
      }
      if proto == 43 {
        segLeft := body[at + 3];
      }
      if segLeft == 0 {
        segPtr := segPtr + hl;
      }
      proto := body[at];
      at := at + hl;
    }
    return Walk(at, proto, segLeft, segPtr);
  }

  lemma Refused6(raw: seq<Byte>)
    ensures |raw| < IP6_HDR ==> Parse6(raw) == Bad6(IPHeaderLength)
    ensures |raw| >= IP6_HDR && !HeaderOk6(raw) ==> Parse6(raw) == Bad6(IPHeaderInvalid)
  {
  }

  /**
   * The checks on the upper-layer protocol that end parseIPv4: they decide whether raw parses, as header and
   * raw[ihl..last].
   */
  method CheckUpper4(raw: seq<Byte>, last: nat) returns (reason: Reason)
    requires |raw| >= IP4_HDR && HeaderOk4(raw) && last == Min(|raw|, Get16(raw, 2))
    ensures Parse4(raw) == if reason == NoReason
            then Good4(Pkt4(raw, raw[0] % 0x10 * 4, raw[raw[0] % 0x10 * 4..last], raw[9])) else Bad4(reason)
  {
    hide ClassifyIPv4, Get16;
    HeaderBounds4(raw);
    var proto, fo, n := raw[9], Get16(raw, 6), last - raw[0] % 0x10 * 4;
    if proto == ICMP {
      if Offset4(fo) != 0 || MF4(fo) {
        return ICMPFragmented;
      }
      if n < ICMP_HDR {
        return ICMPHeaderLength;
      }
    } else if IPv6Only(proto) {
      return IPv6OnlyProto;
    } else {
      if MF4(fo) && n % 8 != 0 {
        return FragmentMisaligned;
      }
      if Offset4(fo) * 8 + n > 65535 {
        return FragmentTooLong;
      }
    }
    return NoReason;
  }

  lemma Refused4(raw: seq<Byte>)
    ensures |raw| < IP4_HDR ==> Parse4(raw) == Bad4(IPHeaderLength)
    ensures |raw| >= IP4_HDR && !HeaderOk4(raw) ==> Parse4(raw) == Bad4(IPHeaderInvalid)
  {
  }

  lemma HeaderBounds4(raw: seq<Byte>)
    requires |raw| >= IP4_HDR && HeaderOk4(raw)
    ensures IP4_HDR <= raw[0] % 0x10 * 4 <= |raw| && raw[0] % 0x10 * 4 <= Get16(raw, 2)
  {
  }
}
