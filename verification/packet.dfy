/** Parsing of IPv4 packets and of IPv6 packets with extension-header chains. */
module Packet {
  import opened Bytes
  import opened NetUtil

  const IP4_HDR := 20
  const IP6_HDR := 40
  const FRAG_HDR := 8
  const ICMP_HDR := 8

  const ICMP: Byte := 1
  const TCP: Byte := 6
  const UDP: Byte := 17
  const FRAG: Byte := 44
  const ICMP6: Byte := 58

  datatype Reason =
    | NoReason
    | IPHeaderLength | IPHeaderInvalid | ICMPFragmented | ICMPHeaderLength
    | IPv6OnlyProto | IPv4OnlyProto | FragmentMisaligned | FragmentTooLong
    | ExtHeaderLength | FragHeaderLength | RoutingHeaderSegmentsLeft
    | UDPHeaderLength | UDPZeroChecksum | TCPHeaderLength

  // ----- The parsed views as values -----

  /** An IPv4 packet: raw is everything received, the header is raw[..hdrLen], data the transport payload. */
  datatype Pkt4 = Pkt4(raw: seq<Byte>, hdrLen: nat, data: seq<Byte>, proto: Byte)

  /** An IPv6 packet: hdrLen counts the extension headers after the fixed header, a fragment header included. */
  datatype Pkt6 = Pkt6(raw: seq<Byte>, hdrLen: nat, frag: Option<seq<Byte>>, data: seq<Byte>, proto: Byte)

  datatype Parsed4 = Bad4(reason: Reason) | Good4(p: Pkt4)
  datatype Parsed6 = Bad6(reason: Reason) | Routed6(p: Pkt6, ptr: nat) | Good6(p: Pkt6)

  // The flag and offset fields: masks of adjacent bits read as quotients and remainders.

  function Offset4(fo: U16): nat { fo % 0x2000 }
  predicate MF4(fo: U16) { fo / 0x2000 % 2 == 1 }
  predicate DF4(fo: U16) { fo / 0x4000 % 2 == 1 }
  predicate Fragmented4(fo: U16) { Offset4(fo) != 0 || MF4(fo) }

  function Offset6(of: U16): nat { of - of % 8 }
  predicate MF6(of: U16) { of % 2 == 1 }
  predicate Fragmented6(of: U16) { Offset6(of) != 0 || MF6(of) }

  predicate IPv6Only(proto: Byte) {
    proto == 0 || proto == 43 || proto == 44 || proto == 58 || proto == 60
  }

  predicate Extension(proto: Byte) {
    proto == 0 || proto == 43 || proto == 60
  }

  predicate HeaderOk4(raw: seq<Byte>)
    requires |raw| >= IP4_HDR
  {
    var ihl := raw[0] % 0x10 * 4;
    && raw[0] / 0x10 == 4
    && IP4_HDR <= ihl <= |raw|
    && ihl <= Get16(raw, 2)
    && !ClassifyIPv4(raw[12..16]).Invalid?
    && !ClassifyIPv4(raw[16..20]).Invalid?
  }

  function Parse4(raw: seq<Byte>): Parsed4 {
    if |raw| < IP4_HDR then Bad4(IPHeaderLength)
    else if !HeaderOk4(raw) then Bad4(IPHeaderInvalid)
    else
      var ihl := raw[0] % 0x10 * 4;
      var data := raw[ihl..Min(|raw|, Get16(raw, 2))];
      var p := Pkt4(raw, ihl, data, raw[9]);
      var fo := Get16(raw, 6);
      if p.proto == ICMP then
        if Fragmented4(fo) then Bad4(ICMPFragmented)
        else if |data| < ICMP_HDR then Bad4(ICMPHeaderLength)
        else Good4(p)
      else if IPv6Only(p.proto) then Bad4(IPv6OnlyProto)
      else if MF4(fo) && |data| % 8 != 0 then Bad4(FragmentMisaligned)
      else if Offset4(fo) * 8 + |data| > 65535 then Bad4(FragmentTooLong)
      else Good4(p)
  }

  /** Where the walk over the extension headers of `data` stands: `at` bytes are consumed. */
  datatype Walk = Short | Walk(at: nat, proto: Byte, segLeft: nat, segPtr: nat)

  /** The length of the extension header at `at`. */
  function ExtensionLen(data: seq<Byte>, at: nat): nat
    requires at + 2 <= |data|
  {
    (data[at + 1] as int + 1) * 8
  }

  function WalkExtensions(data: seq<Byte>, at: nat, proto: Byte, segLeft: nat, segPtr: nat): (w: Walk)
    requires at <= |data|
    ensures w.Walk? ==> at <= w.at <= |data| && !Extension(w.proto)
    decreases |data| - at
  {
    if !Extension(proto) then Walk(at, proto, segLeft, segPtr)
    else if |data| - at < 2 then Short
    else
      var hl := ExtensionLen(data, at);
      if |data| - at < hl then Short
      else
        var left := if proto == 43 then data[at + 3] else segLeft;
        WalkExtensions(data, at + hl, data[at], left, if left == 0 then segPtr + hl else segPtr)
  }

  predicate HeaderOk6(raw: seq<Byte>)
    requires |raw| >= IP6_HDR
  {
    raw[0] / 0x10 == 6 && ValidIPv6(raw[8..24]) && ValidIPv6(raw[24..40])
  }

  /** The bytes after the fixed header, cut at the payload length. */
  function Body6(raw: seq<Byte>): seq<Byte>
    requires |raw| >= IP6_HDR
  {
    raw[IP6_HDR..Min(|raw|, IP6_HDR + Get16(raw, 4))]
  }

  function Parse6(raw: seq<Byte>): Parsed6 {
    if |raw| < IP6_HDR then Bad6(IPHeaderLength)
    else if !HeaderOk6(raw) then Bad6(IPHeaderInvalid)
    else ParseBody6(raw, Body6(raw), WalkExtensions(Body6(raw), 0, raw[6], 0, IP6_HDR))
  }

  /** parseIPv6 after the extension-header loop. */
  function ParseBody6(raw: seq<Byte>, body: seq<Byte>, w: Walk): Parsed6
    requires w.Walk? ==> w.at <= |body|
  {
    if w.Short? then Bad6(ExtHeaderLength)
    else if w.proto != FRAG then Finish6(Pkt6(raw, w.at, None, body[w.at..], w.proto), w.segLeft, w.segPtr)
    else if |body| - w.at < FRAG_HDR then Bad6(FragHeaderLength)
    else
      var fh := body[w.at..w.at + FRAG_HDR];
      var data := body[w.at + FRAG_HDR..];
      if MF6(Get16(fh, 2)) && |data| % 8 != 0 then Bad6(FragmentMisaligned)
      else if Offset6(Get16(fh, 2)) + |data| > 65535 then Bad6(FragmentTooLong)
      else Finish6(Pkt6(raw, w.at + FRAG_HDR, Some(fh), data, fh[0]), w.segLeft, w.segPtr)
  }

  function FragField(p: Pkt6): U16 {
    if p.frag.Some? && |p.frag.value| == 8 then Get16(p.frag.value, 2) else 0
  }

  /** The checks on the upper-layer protocol that end parseIPv6. */
  function Finish6(p: Pkt6, segLeft: nat, segPtr: nat): Parsed6 {
    if p.proto == ICMP6 && Fragmented6(FragField(p)) then Bad6(ICMPFragmented)
    else if p.proto == ICMP6 && |p.data| < ICMP_HDR then Bad6(ICMPHeaderLength)
    else if p.proto == ICMP then Bad6(IPv4OnlyProto)
    else if segLeft != 0 then Routed6(p, segPtr + 4)
    else Good6(p)
  }

  // ----- What a successful parse guarantees -----

  /** The packet splits into header, data and trailing bytes; header and data stay within the declared length. */
  ghost predicate WellParsed4(p: Pkt4) {
    && IP4_HDR <= p.hdrLen <= 60
    && p.hdrLen + |p.data| <= |p.raw|
    && p.raw[p.hdrLen..p.hdrLen + |p.data|] == p.data
    && p.hdrLen + |p.data| <= Get16(p.raw, 2)
    && p.hdrLen == p.raw[0] % 0x10 * 4
    && p.proto == p.raw[9] && !IPv6Only(p.proto)
    && (p.proto == ICMP ==> |p.data| >= ICMP_HDR && !Fragmented4(Get16(p.raw, 6)))
    && (MF4(Get16(p.raw, 6)) ==> |p.data| % 8 == 0)
    && Offset4(Get16(p.raw, 6)) * 8 + |p.data| <= 65535
  }

  lemma Parse4Partitions(raw: seq<Byte>)
    requires Parse4(raw).Good4?
    ensures Parse4(raw).p.raw == raw && WellParsed4(Parse4(raw).p)
    ensures var p := Parse4(raw).p; p.hdrLen + |p.data| < Get16(raw, 2) ==> p.hdrLen + |p.data| == |raw|
  {
  }

  /** Section 4 of RFC 8200: hop-by-hop options, routing header and destination options come before the upper layer. */
  predicate MoreFollows(proto: Byte) {
    proto in {0, 43, 60}
  }

  /** data[at..end] is a sequence of whole extension headers that leads from a header `first` to a header `next`. */
  ghost predicate Reaches(data: seq<Byte>, at: nat, first: Byte, end: nat, next: Byte)
    decreases |data| - at
  {
    || (at == end && first == next)
    || (&& MoreFollows(first) && at + 2 <= |data| && at + (data[at + 1] as int + 1) * 8 <= |data|
        && Reaches(data, at + (data[at + 1] as int + 1) * 8, data[at], end, next))
  }

  /** Such a sequence up to something that is no extension header. */
  ghost predicate ExtensionChain(data: seq<Byte>, at: nat, end: nat, first: Byte, last: Byte) {
    Reaches(data, at, first, end, last) && !MoreFollows(last)
  }

  lemma {:induction false} WalkFollowsChain(data: seq<Byte>, at: nat, proto: Byte, segLeft: nat, segPtr: nat)
    requires at <= |data|
    ensures var w := WalkExtensions(data, at, proto, segLeft, segPtr);
            w.Walk? ==> ExtensionChain(data, at, w.at, proto, w.proto)
    decreases |data| - at
  {
    if Extension(proto) && |data| - at >= 2 && |data| - at >= ExtensionLen(data, at) {
      var hl := ExtensionLen(data, at);
      var left := if proto == 43 then data[at + 3] else segLeft;
      WalkFollowsChain(data, at + hl, data[at], left, if left == 0 then segPtr + hl else segPtr);
    }
  }

  /** The only way the walk can fail is that the bytes do not begin with a whole chain. */
  lemma {:induction false} WalkFindsChain(data: seq<Byte>, at: nat, proto: Byte, segLeft: nat, segPtr: nat, end: nat,
                                          last: Byte)
    requires at <= |data| && ExtensionChain(data, at, end, proto, last)
    ensures var w := WalkExtensions(data, at, proto, segLeft, segPtr);
            w.Walk? && w.at == end && w.proto == last
    decreases |data| - at
  {
    if !(at == end && proto == last) {
      var hl := ExtensionLen(data, at);
      var left := if proto == 43 then data[at + 3] else segLeft;
      WalkFindsChain(data, at + hl, data[at], left, if left == 0 then segPtr + hl else segPtr, end, last);
    }
  }

  ghost predicate WellParsed6(p: Pkt6) {
    && |p.raw| >= IP6_HDR
    && IP6_HDR + p.hdrLen + |p.data| <= |p.raw|
    && p.hdrLen + |p.data| <= Get16(p.raw, 4)
    && p.raw[IP6_HDR + p.hdrLen..IP6_HDR + p.hdrLen + |p.data|] == p.data
    && p.proto != ICMP
    && (p.proto == ICMP6 ==> |p.data| >= ICMP_HDR && !Fragmented6(FragField(p)))
    && (p.frag.Some? ==> WellParsedFrag(p, p.frag.value))
  }

  ghost predicate WellParsedFrag(p: Pkt6, fh: seq<Byte>) {
    && |fh| == FRAG_HDR && FRAG_HDR <= p.hdrLen && IP6_HDR + p.hdrLen <= |p.raw|
    && fh == p.raw[IP6_HDR + p.hdrLen - FRAG_HDR..IP6_HDR + p.hdrLen]
    && p.proto == fh[0]
    && (MF6(Get16(fh, 2)) ==> |p.data| % 8 == 0)
    && Offset6(Get16(fh, 2)) + |p.data| <= 65535
  }

  lemma SliceOfSlice(raw: seq<Byte>, at: nat, body: seq<Byte>, i: nat, j: nat)
    requires at + |body| <= |raw| && body == raw[at..at + |body|] && i <= j <= |body|
    ensures raw[at + i..at + j] == body[i..j]
  {
    forall k | 0 <= k < j - i ensures raw[at + i..at + j][k] == body[i..j][k] {
      assert body[i + k] == raw[at..at + |body|][i + k];
    }
  }

  lemma ParseBodyPartitions(raw: seq<Byte>, body: seq<Byte>, w: Walk)
    requires |raw| >= IP6_HDR && IP6_HDR + |body| <= |raw| && |body| <= Get16(raw, 4)
    requires body == raw[IP6_HDR..IP6_HDR + |body|]
    requires w.Walk? ==> w.at <= |body|
    requires !ParseBody6(raw, body, w).Bad6?
    ensures ParseBody6(raw, body, w).p.raw == raw && WellParsed6(ParseBody6(raw, body, w).p)
  {
    var p := ParseBody6(raw, body, w).p;
    SliceOfSlice(raw, IP6_HDR, body, p.hdrLen, |body|);
    if p.frag.Some? {
      SliceOfSlice(raw, IP6_HDR, body, p.hdrLen - FRAG_HDR, p.hdrLen);
    }
  }

  lemma Parse6Partitions(raw: seq<Byte>)
    requires !Parse6(raw).Bad6?
    ensures Parse6(raw).p.raw == raw && WellParsed6(Parse6(raw).p)
  {
    var body := Body6(raw);
    var w := WalkExtensions(body, 0, raw[6], 0, IP6_HDR);
    ParseBodyPartitions(raw, body, w);
  }

  lemma ParseBodyChain(raw: seq<Byte>, body: seq<Byte>, w: Walk)
    requires w.Walk? ==> w.at <= |body|
    requires !ParseBody6(raw, body, w).Bad6?
    ensures var p := ParseBody6(raw, body, w).p;
            if p.frag.Some? then w.proto == FRAG && p.hdrLen == w.at + FRAG_HDR
            else w.proto == p.proto && p.hdrLen == w.at
  {
  }

  /** What precedes the fragment header, or else the data, is a whole chain of extension headers. */
  lemma Parse6Chain(raw: seq<Byte>)
    requires !Parse6(raw).Bad6?
    ensures var p := Parse6(raw).p;
            p.hdrLen <= |Body6(raw)| &&
            if p.frag.Some?
            then p.hdrLen >= FRAG_HDR && ExtensionChain(Body6(raw), 0, p.hdrLen - FRAG_HDR, raw[6], FRAG)
            else ExtensionChain(Body6(raw), 0, p.hdrLen, raw[6], p.proto)
  {
    var body := Body6(raw);
    var w := WalkExtensions(body, 0, raw[6], 0, IP6_HDR);
    ParseBodyChain(raw, body, w);
    WalkFollowsChain(body, 0, raw[6], 0, IP6_HDR);
  }
}
