/** What the translator emits for a packet, in both directions, as functions on byte strings. */
module Xlate {
  import opened Bytes
  import opened NetUtil
  import opened Packet
  import opened Checksum

  const MTU_ADJ := 20
  const MTU_MIN := 1280
  const ICMP4_MAX := 576
  const MAX_PACKET := 65535

  datatype MapResult<+T> = Mapped(addr: T) | Reject | Drop

  datatype UDPMode = DropZero | CalcZero | ForwardZero

  /**
   * The translator's parameters and the answers of its surroundings while one packet is handled: the mapper's answer
   * at each call site (numbered in call order, so the mapper may change state between two calls) and the random
   * identification values.
   */
  datatype Env = Env(
    local4: Addr4,
    local6: Addr6,
    mtu: nat,
    offlink: nat,
    udp: UDPMode,
    map4: (nat, Addr4) -> MapResult<Addr6>,
    map6: (nat, Addr6, bool) -> MapResult<Addr4>,
    ident: nat -> U16)

  /** What configuration validation and New guarantee. */
  predicate ValidEnv(t: Env) {
    MTU_MIN <= t.mtu <= MAX_PACKET && MTU_MIN <= t.offlink
  }

  /** The emitter gives no buffer for more than 65535 bytes. */
  function Emit(b: seq<Byte>): seq<seq<Byte>> {
    if |b| > MAX_PACKET then [] else [b]
  }

  // ----- Headers -----

  function Hdr4(tos: Byte, total: U16, id: U16, fo: U16, ttl: Byte, proto: Byte, src: Addr4, dst: Addr4): (h: seq<Byte>)
    ensures |h| == IP4_HDR
  {
    [0x45, tos] + Enc16(total) + Enc16(id) + Enc16(fo) + [ttl, proto, 0, 0] + src + dst
  }

  /** Fills in the header checksum. */
  function Seal4(h: seq<Byte>): (r: seq<Byte>)
    requires |h| == IP4_HDR
    ensures |r| == IP4_HDR
  {
    Put16(h, 10, ChecksumOf(h, 0))
  }

  function Hdr6(tc: Byte, payloadLen: U16, nextHeader: Byte, hop: Byte, src: Addr6, dst: Addr6): (h: seq<Byte>)
    ensures |h| == IP6_HDR
  {
    [0x60 + tc / 0x10, tc % 0x10 * 0x10, 0, 0] + Enc16(payloadLen) + [nextHeader, hop] + src + dst
  }

  function FragHdr(nextHeader: Byte, field: U16, id: U32): (h: seq<Byte>)
    ensures |h| == FRAG_HDR
  {
    [nextHeader, 0] + Enc16(field) + Enc32(id)
  }

  function Tos6(raw: seq<Byte>): Byte
    requires |raw| >= 2
  {
    raw[0] % 0x10 * 0x10 + raw[1] / 0x10
  }

  // ----- ICMP messages -----

  function IcmpBody(typ: Byte, code: Byte, word: U32, payload: seq<Byte>, pseudo: nat): (b: seq<Byte>)
    ensures |b| == ICMP_HDR + |payload|
  {
    var zeroed := [typ, code, 0, 0] + Enc32(word) + payload;
    Put16(zeroed, 2, ChecksumOf(zeroed, pseudo))
  }

  function Icmp4(tos: Byte, src: Addr4, dst: Addr4, typ: Byte, code: Byte, word: U32, payload: seq<Byte>): seq<Byte> {
    Seal4(Hdr4(tos, (IP4_HDR + ICMP_HDR + |payload|) % 0x1_0000, 0, 0, 64, ICMP, src, dst))
    + IcmpBody(typ, code, word, payload, 0)
  }

  function Icmp6(tc: Byte, src: Addr6, dst: Addr6, typ: Byte, code: Byte, word: U32, payload: seq<Byte>): seq<Byte> {
    Hdr6(tc, (ICMP_HDR + |payload|) % 0x1_0000, ICMP6, 64, src, dst)
    + IcmpBody(typ, code, word, payload, Pseudo6(src + dst, ICMP_HDR + |payload|, ICMP6))
  }

  /** sendICMPv4Error: nothing in response to ICMP other than an echo request. */
  function Error4(t: Env, p: Pkt4, typ: Byte, code: Byte, word: U32): seq<seq<Byte>>
    requires WellParsed4(p)
  {
    if p.proto == ICMP && p.data[0] != 8 then []
    else Emit(Icmp4(0, t.local4, p.raw[12..16], typ, code, word,
                    p.raw[..Min(p.hdrLen + |p.data|, ICMP4_MAX - IP4_HDR - ICMP_HDR)]))
  }

  function Error6(t: Env, p: Pkt6, typ: Byte, code: Byte, word: U32): seq<seq<Byte>>
    requires WellParsed6(p)
  {
    if p.proto == ICMP6 && p.data[0] != 128 then []
    else Emit(Icmp6(0, t.local6, p.raw[8..24], typ, code, word,
                    p.raw[..Min(IP6_HDR + p.hdrLen + |p.data|, MTU_MIN - IP6_HDR - ICMP_HDR)]))
  }

  // ----- Transport headers -----

  datatype Payload = Refused(reason: Reason) | Rewritten(data: seq<Byte>)

  /** UDP never carries a computed checksum of zero. */
  function NonZero(ck: U16): U16 {
    if ck == 0 then 0xffff else ck
  }

  /** Adjusts the checksum field at `at` for the replacement of the addresses `from` by `to`. */
  function Readdress(data: seq<Byte>, at: nat, udp: bool, from: seq<Byte>, to: seq<Byte>): seq<Byte>
    requires at + 2 <= |data|
  {
    var ck := Adjusted(Get16(data, at), Words(from), Words(to));
    Put16(data, at, if udp then NonZero(ck) else ck)
  }

  /** The cases UDP and TCP have in common in both directions; `pseudo` is the new pseudo-header sum for `calc` mode. */
  function Transport(mode: UDPMode, proto: Byte, data: seq<Byte>, from: seq<Byte>, to: seq<Byte>,
                     pseudo: nat): Payload {
    if proto == UDP then
      if |data| < 8 then Refused(UDPHeaderLength)
      else if Get16(data, 6) == 0 then
        match mode
        case ForwardZero => Rewritten(data)
        case CalcZero => Rewritten(Put16(data, 6, NonZero(ChecksumOf(data, pseudo))))
        case DropZero => Refused(UDPZeroChecksum)
      else Rewritten(Readdress(data, 6, true, from, to))
    else if proto == TCP then
      if |data| < 20 then Refused(TCPHeaderLength)
      else Rewritten(Readdress(data, 16, false, from, to))
    else Rewritten(data)
  }

  /** An echo message gains the ICMPv6 type and pseudo-header. */
  function Echo4to6(data: seq<Byte>, pseudo: nat): seq<Byte>
    requires |data| >= ICMP_HDR
  {
    var request := data[0] == 8;
    Put16(data[0 := if request then 128 else 129], 2,
          0xffff - Ones(0xffff - Get16(data, 2) + pseudo + if request then 0x7800 else 0x8100))
  }

  /** An echo message loses them. */
  function Echo6to4(data: seq<Byte>, pseudo: nat): seq<Byte>
    requires |data| >= ICMP_HDR
  {
    var request := data[0] == 128;
    Put16(data[0 := if request then 8 else 0], 2,
          0xffff - Ones(0xffff - Get16(data, 2) + (0xffff - Ones(pseudo))
            + (0xffff - if request then 0x7800 else 0x8100)))
  }

  /** payload4to6: fullLen is the payload length the IPv4 header declares, addrs the new source and destination. */
  function Payload4to6(t: Env, p: Pkt4, addrs: seq<Byte>): Payload
    requires WellParsed4(p)
  {
    if Offset4(Get16(p.raw, 6)) != 0 then Rewritten(p.data)
    else if p.proto == ICMP then
      Rewritten(Echo4to6(p.data, Pseudo6(addrs, Get16(p.raw, 2) - p.hdrLen, ICMP6)))
    else Transport(t.udp, p.proto, p.data, p.raw[12..20], addrs, Pseudo6(addrs, |p.data|, UDP))
  }

  function Payload6to4(t: Env, p: Pkt6, addrs: seq<Byte>): Payload
    requires WellParsed6(p)
  {
    if Offset6(FragField(p)) != 0 then Rewritten(p.data)
    else if p.proto == ICMP6 then
      Rewritten(Echo6to4(p.data, Pseudo6(p.raw[8..40], Get16(p.raw, 4) - p.hdrLen, ICMP6)))
    else Transport(t.udp, p.proto, p.data, p.raw[8..40], addrs, Pseudo4(addrs, |p.data|, UDP))
  }

  // ----- IPv4 to IPv6 -----

  function NextHeader(proto: Byte): Byte {
    if proto == ICMP then ICMP6 else proto
  }

  function Protocol(nextHeader: Byte): Byte {
    if nextHeader == ICMP6 then ICMP else nextHeader
  }

  function FragSize(t: Env): int {
    Min(t.offlink, t.mtu) - IP6_HDR
  }

  /** What all fragments of one packet share, and the payload size of all but the last. */
  datatype FragSpec = FragSpec(tc: Byte, hop: Byte, src: Addr6, dst: Addr6, nextHeader: Byte, id: U32, size: nat,
                               mf: bool)

  /** The offset narrowed to 16 bits, with the low bit set when more fragments follow. */
  function OffsetField(off: nat, more: bool): U16 {
    var field := off % 0x1_0000;
    if more then field - field % 2 + 1 else field
  }

  function OneFragment(f: FragSpec, off: nat, more: bool, chunk: seq<Byte>): seq<Byte>
    requires FRAG_HDR + |chunk| <= 65535
  {
    Hdr6(f.tc, FRAG_HDR + |chunk|, FRAG, f.hop, f.src, f.dst)
    + FragHdr(f.nextHeader, OffsetField(off, more), f.id)
    + chunk
  }

  /** The fragmentation loop: data starts at byte offset `off` of its datagram. */
  function Fragments(f: FragSpec, off: nat, data: seq<Byte>): seq<seq<Byte>>
    requires 0 < f.size <= 0xfff0
    decreases |data|
  {
    if data == [] then []
    else
      var n := Min(f.size, |data|);
      [OneFragment(f, off, |data| > n || f.mf, data[..n])] + Fragments(f, off + n, data[n..])
  }

  /** Whether a data packet goes out without a fragment header. */
  predicate Whole4(t: Env, p: Pkt4)
    requires WellParsed4(p)
  {
    var fo := Get16(p.raw, 6);
    !Fragmented4(fo) && (DF4(fo) || |p.data| <= FragSize(t))
  }

  predicate TooBig4(t: Env, p: Pkt4)
    requires WellParsed4(p)
  {
    var fo := Get16(p.raw, 6);
    !Fragmented4(fo) && DF4(fo) && t.mtu - MTU_ADJ < p.hdrLen + |p.data|
  }

  /** The fragment payload size: a multiple of eight that leaves room for both headers. */
  function ChunkSize(t: Env): (n: nat)
    requires ValidEnv(t)
    ensures 1232 <= n <= 0xfff0 && n % 8 == 0 && IP6_HDR + FRAG_HDR + n <= Min(t.offlink, t.mtu)
  {
    var size := FragSize(t) - FRAG_HDR;
    size - size % 8
  }

  function FragSpec4(t: Env, p: Pkt4, src: Addr6, dst: Addr6): FragSpec
    requires ValidEnv(t) && WellParsed4(p) && p.raw[8] >= 2
  {
    FragSpec(p.raw[1], p.raw[8] - 1, src, dst, NextHeader(p.proto), Get16(p.raw, 4), ChunkSize(t), MF4(Get16(p.raw, 6)))
  }

  function Send4to6(t: Env, p: Pkt4, src: Addr6, dst: Addr6, data: seq<Byte>): seq<seq<Byte>>
    requires ValidEnv(t) && WellParsed4(p) && p.raw[8] >= 2
  {
    if Whole4(t, p) then
      Emit(Hdr6(p.raw[1], |data| % 0x1_0000, NextHeader(p.proto), p.raw[8] - 1, src, dst) + data)
    else Fragments(FragSpec4(t, p, src, dst), Offset4(Get16(p.raw, 6)) * 8, data)
  }

  /** What leaves for a payload that can be rewritten. */
  function Rewritten4(t: Env, p: Pkt4, src: Addr6, dst: Addr6): seq<seq<Byte>>
    requires ValidEnv(t) && WellParsed4(p) && p.raw[8] >= 2
  {
    match Payload4to6(t, p, src + dst)
    case Refused(_) => []
    case Rewritten(data) => Send4to6(t, p, src, dst, data)
  }

  /** xlate4to6Data, once both addresses are mapped. */
  function Forward4(t: Env, p: Pkt4, src: Addr6, dst: Addr6): seq<seq<Byte>>
    requires ValidEnv(t) && WellParsed4(p) && p.raw[8] >= 2
  {
    if TooBig4(t, p) then Error4(t, p, 3, 4, t.mtu - MTU_ADJ) else Rewritten4(t, p, src, dst)
  }

  /** xlate4to6Data. */
  function Data4to6(t: Env, p: Pkt4): seq<seq<Byte>>
    requires ValidEnv(t) && WellParsed4(p) && p.raw[8] >= 2
  {
    match t.map4(0, p.raw[16..20])
    case Reject => Error4(t, p, 3, 1, 0)
    case Drop => []
    case Mapped(dst) =>
      match t.map4(1, p.raw[12..16])
      case Reject => Error4(t, p, 3, 10, 0)
      case Drop => []
      case Mapped(src) => Forward4(t, p, src, dst)
  }

  /** The plateau table of RFC 1191. */
  const PLATEAUS: seq<nat> := [65535, 32000, 17914, 8166, 4352, 2002, 1492, 1006, 508, 296]

  function EstMTU(tooBig: nat, i: nat): nat
    requires i <= |PLATEAUS|
    decreases |PLATEAUS| - i
  {
    if i == |PLATEAUS| then 68 else if tooBig > PLATEAUS[i] then PLATEAUS[i] else EstMTU(tooBig, i + 1)
  }

  /** Offsets in the IPv6 header for the offsets 0..19 of a Parameter Problem; -1 where there is none. */
  const POINTERS4TO6: seq<int> := [0, 1, 4, 4, -1, -1, -1, -1, 7, 6, -1, -1, 8, 8, 8, 8, 24, 24, 24, 24]

  datatype ErrorKind = ErrorKind(typ: Byte, code: Byte, word: U32)

  /** Type, code and second word of the ICMPv6 error for an ICMPv4 one about a packet of length emTotal. */
  function ErrorKind4to6(mtu: nat, typ: Byte, code: Byte, word: U32, emTotal: nat): Option<ErrorKind>
    requires mtu <= MAX_PACKET
  {
    match typ
    case 3 =>
      (match code
       case 0 => Some(ErrorKind(1, 0, 0)) case 1 => Some(ErrorKind(1, 0, 0)) case 5 => Some(ErrorKind(1, 0, 0))
       case 6 => Some(ErrorKind(1, 0, 0)) case 7 => Some(ErrorKind(1, 0, 0)) case 8 => Some(ErrorKind(1, 0, 0))
       case 11 => Some(ErrorKind(1, 0, 0)) case 12 => Some(ErrorKind(1, 0, 0))
       case 2 => Some(ErrorKind(4, 1, 6))
       case 3 => Some(ErrorKind(1, 4, 0))
       case 4 =>
         var m := word % 0x1_0000;
         var m := (if m < 68 then EstMTU(emTotal, 0) else m) + MTU_ADJ;
         var m := if m > mtu then mtu else m;
         Some(ErrorKind(2, 0, if m < MTU_MIN then MTU_MIN else m))
       case 9 => Some(ErrorKind(1, 1, 0)) case 10 => Some(ErrorKind(1, 1, 0)) case 13 => Some(ErrorKind(1, 1, 0))
       case 15 => Some(ErrorKind(1, 1, 0))
       case _ => None)
    case 11 => Some(ErrorKind(3, code, 0))
    case 12 =>
      if code != 0 && code != 2 then None
      else
        var ptr := word / 0x100_0000;
        if ptr >= 20 || POINTERS4TO6[ptr] < 0 then None else Some(ErrorKind(4, 0, POINTERS4TO6[ptr]))
    case _ => None
  }

  /** The embedded packet of an error message, cut at the RFC 4884 length if there is one. */
  function Embedded(data: seq<Byte>, emLen: nat): Option<seq<Byte>>
    requires |data| >= ICMP_HDR
  {
    if emLen == 0 then Some(data[ICMP_HDR..])
    else if |data| - ICMP_HDR < emLen then None
    else Some(data[ICMP_HDR..ICMP_HDR + emLen])
  }

  function EmbeddedLen4(data: seq<Byte>): nat
    requires |data| >= ICMP_HDR
  {
    if data[0] == 3 || data[0] == 11 || data[0] == 12 then Get32(data, 4) / 0x4000 % 0x400 / 4 * 4 else 0
  }

  /** An embedded packet's data is cut so that the error fits; the limits are multiples of eight. */
  function Truncate4(em: Pkt4): (r: Pkt4)
    requires WellParsed4(em)
    ensures WellParsed4(r) && |r.data| <= 1192
  {
    em.(data := em.data[..Min(|em.data|, MTU_MIN - 2 * IP6_HDR - ICMP_HDR)])
  }

  /** The embedded packet that xlate4to6ICMPError works on. */
  function Embedded4(p: Pkt4): (r: Option<Pkt4>)
    requires WellParsed4(p) && p.proto == ICMP
    ensures r.Some? ==> WellParsed4(r.value)
  {
    match Embedded(p.data, EmbeddedLen4(p.data))
    case None => None
    case Some(raw) =>
      match Parse4(raw)
      case Bad4(_) => None
      case Good4(em) =>
        Parse4Partitions(raw);
        if em.proto == ICMP && em.data[0] != 8 then None else Some(Truncate4(em))
  }

  /** The embedded packet with its IPv6 header. */
  function Inner6(em: Pkt4, src: Addr6, dst: Addr6, data: seq<Byte>): seq<Byte>
    requires WellParsed4(em)
  {
    Hdr6(em.raw[1], Get16(em.raw, 2) - em.hdrLen, NextHeader(em.proto), em.raw[8], src, dst) + data
  }

  /** New addresses of the embedded packet eraw and kind of the translated error, if it is translated. */
  function Verdict4(t: Env, data: seq<Byte>, eraw: seq<Byte>): Option<(Addr6, Addr6, ErrorKind)>
    requires ValidEnv(t) && |data| >= ICMP_HDR && |eraw| >= IP4_HDR
  {
    var m0, m1 := t.map4(0, eraw[12..16]), t.map4(1, eraw[16..20]);
    var kind := ErrorKind4to6(t.mtu, data[0], data[1], Get32(data, 4), Get16(eraw, 2));
    if !m0.Mapped? || !m1.Mapped? || kind.None? then None else Some((m0.addr, m1.addr, kind.value))
  }

  function InnerPacket4(t: Env, em: Pkt4, src: Addr6, dst: Addr6, kind: ErrorKind): Option<(ErrorKind, seq<Byte>)>
    requires WellParsed4(em)
  {
    match Payload4to6(t, em, src + dst)
    case Refused(_) => None
    case Rewritten(data) => Some((kind, Inner6(em, src, dst, data)))
  }

  /** Kind and embedded packet of the translated error, if there is one. */
  function InnerError4(t: Env, p: Pkt4): Option<(ErrorKind, seq<Byte>)>
    requires ValidEnv(t) && WellParsed4(p) && p.proto == ICMP
  {
    match Embedded4(p)
    case None => None
    case Some(em) =>
      match Verdict4(t, p.data, em.raw)
      case None => None
      case Some((src, dst, kind)) => InnerPacket4(t, em, src, dst, kind)
  }

  /** An ICMPv6 error as translated from a packet with the IPv4 header raw. */
  function Message6(raw: seq<Byte>, proto: Byte, kind: ErrorKind, inner: seq<Byte>, src: Addr6, dst: Addr6): seq<Byte>
    requires |raw| >= IP4_HDR && raw[8] >= 2
  {
    var n := ICMP_HDR + |inner|;
    Hdr6(raw[1], n % 0x1_0000, NextHeader(proto), raw[8] - 1, src, dst)
    + IcmpBody(kind.typ, kind.code, kind.word, inner, Pseudo6(src + dst, n, ICMP6))
  }

  /** xlate4to6ICMPError; a source without mapping is replaced by the translator's own address. */
  function IcmpError4to6(t: Env, p: Pkt4): seq<seq<Byte>>
    requires ValidEnv(t) && WellParsed4(p) && p.raw[8] >= 2 && p.proto == ICMP
  {
    match InnerError4(t, p)
    case None => []
    case Some((kind, inner)) =>
      var m2, m3 := t.map4(2, p.raw[12..16]), t.map4(3, p.raw[16..20]);
      if !m3.Mapped? then []
      else Emit(Message6(p.raw, p.proto, kind, inner, if m2.Mapped? then m2.addr else t.local6, m3.addr))
  }

  /** hostICMPv4: the translator answers echo requests. */
  function Host4(p: Pkt4): seq<seq<Byte>>
    requires WellParsed4(p) && p.proto == ICMP
  {
    if p.data[0] == 8 then
      Emit(Icmp4(p.raw[1], p.raw[16..20], p.raw[12..16], 0, p.data[1], Get32(p.data, 4), p.data[ICMP_HDR..]))
    else []
  }

  /** The checks handleIPv4 makes on a parsed packet. */
  predicate Accepted4(p: Pkt4)
    requires WellParsed4(p)
  {
    && p.raw[8] != 0
    && Verifies(p.raw[..p.hdrLen], 0)
    && p.hdrLen + |p.data| == Get16(p.raw, 2)
    && (p.proto == ICMP ==> Verifies(p.data, 0))
  }

  /** What is sent for a packet to the translator itself. */
  function Self4(t: Env, p: Pkt4): seq<seq<Byte>>
    requires WellParsed4(p)
  {
    if p.proto == ICMP then Host4(p) else Error4(t, p, 3, 2, 0)
  }

  /** handleIPv4 for a packet that passed the checks. */
  function Dispatched4(t: Env, p: Pkt4): seq<seq<Byte>>
    requires ValidEnv(t) && WellParsed4(p) && p.raw[8] != 0
  {
    if p.raw[16..20] == t.local4 then Self4(t, p)
    else if p.raw[8] == 1 then Error4(t, p, 11, 0, 0)
    else if p.proto != ICMP || p.data[0] == 8 || p.data[0] == 0 then Data4to6(t, p)
    else IcmpError4to6(t, p)
  }

  /** handleIPv4. */
  function Handle4(t: Env, raw: seq<Byte>): seq<seq<Byte>>
    requires ValidEnv(t)
  {
    match Parse4(raw)
    case Bad4(_) => []
    case Good4(p) =>
      Parse4Partitions(raw);
      if Accepted4(p) then Dispatched4(t, p) else []
  }

  // ----- IPv6 to IPv4 -----

  /** header6to4, its checksum still zero; id is the random value in case it is needed. */
  function Hdr6to4(p: Pkt6, payloadLen: nat, ttl: Byte, src: Addr4, dst: Addr4, id: U16): (h: seq<Byte>)
    requires WellParsed6(p)
    ensures |h| == IP4_HDR
  {
    var total := (IP4_HDR + payloadLen) % 0x1_0000;
    var tos, proto := Tos6(p.raw), Protocol(p.proto);
    if p.frag.Some? then
      var of := FragField(p);
      Hdr4(tos, total, Get32(p.frag.value, 4) % 0x1_0000, of / 8 + (if MF6(of) then 0x2000 else 0), ttl, proto, src,
        dst)
    else if p.hdrLen + payloadLen <= MTU_MIN then Hdr4(tos, total, id, 0, ttl, proto, src, dst)
    else Hdr4(tos, total, 0, 0x4000, ttl, proto, src, dst)
  }

  function Rewritten6(t: Env, p: Pkt6, src: Addr4, dst: Addr4): seq<seq<Byte>>
    requires WellParsed6(p) && p.raw[7] >= 2
  {
    match Payload6to4(t, p, src + dst)
    case Refused(_) => []
    case Rewritten(data) => Emit(Seal4(Hdr6to4(p, |p.data|, p.raw[7] - 1, src, dst, t.ident(0))) + data)
  }

  /** xlate6to4Data, once both addresses are mapped. */
  function Forward6(t: Env, p: Pkt6, src: Addr4, dst: Addr4): seq<seq<Byte>>
    requires ValidEnv(t) && WellParsed6(p) && p.raw[7] >= 2
  {
    if IP6_HDR + p.hdrLen + |p.data| > t.mtu then Error6(t, p, 2, 0, t.mtu) else Rewritten6(t, p, src, dst)
  }

  /** xlate6to4Data. */
  function Data6to4(t: Env, p: Pkt6): seq<seq<Byte>>
    requires ValidEnv(t) && WellParsed6(p) && p.raw[7] >= 2
  {
    match t.map6(0, p.raw[24..40], false)
    case Reject => Error6(t, p, 1, 0, 0)
    case Drop => []
    case Mapped(dst) =>
      match t.map6(1, p.raw[8..24], true)
      case Reject => Error6(t, p, 1, 5, 0)
      case Drop => []
      case Mapped(src) => Forward6(t, p, src, dst)
  }

  /** Offsets in the IPv4 header for the offsets 0..7 of a Parameter Problem. */
  const POINTERS6TO4: seq<int> := [0, 1, -1, -1, 2, 2, 9, 8]

  function ErrorKind6to4(mtu: nat, typ: Byte, code: Byte, word: U32): Option<ErrorKind>
    requires MTU_MIN <= mtu <= MAX_PACKET
  {
    match typ
    case 1 =>
      (match code
       case 0 => Some(ErrorKind(3, 1, 0)) case 2 => Some(ErrorKind(3, 1, 0)) case 3 => Some(ErrorKind(3, 1, 0))
       case 1 => Some(ErrorKind(3, 10, 0))
       case 4 => Some(ErrorKind(3, 3, 0))
       case _ => None)
    case 2 =>
      if word < 68 then None
      else Some(ErrorKind(3, 4, (if word > mtu then mtu else word) - MTU_ADJ))
    case 3 => Some(ErrorKind(11, code, 0))
    case 4 =>
      (match code
       case 0 =>
         if word > 39 then None
         else if word > 23 then Some(ErrorKind(12, 0, 16 * 0x100_0000))
         else if word > 7 then Some(ErrorKind(12, 0, 12 * 0x100_0000))
         else if POINTERS6TO4[word] < 0 then None
         else Some(ErrorKind(12, 0, POINTERS6TO4[word] * 0x100_0000))
       case 1 => Some(ErrorKind(3, 2, 0))
       case _ => None)
    case _ => None
  }

  function EmbeddedLen6(data: seq<Byte>): nat
    requires |data| >= ICMP_HDR
  {
    if data[0] == 1 || data[0] == 3 then Get32(data, 4) / 0x20_0000 % 0x800 / 8 * 8 else 0
  }

  function Truncate6(em: Pkt6): (r: Pkt6)
    requires WellParsed6(em)
    ensures WellParsed6(r) && |r.data| <= 528
  {
    em.(data := em.data[..Min(|em.data|, ICMP4_MAX - 2 * IP4_HDR - ICMP_HDR)])
  }

  function Embedded6(p: Pkt6): (r: Option<Pkt6>)
    requires WellParsed6(p) && p.proto == ICMP6
    ensures r.Some? ==> WellParsed6(r.value)
  {
    match Embedded(p.data, EmbeddedLen6(p.data))
    case None => None
    case Some(raw) =>
      match Parse6(raw)
      case Bad6(_) => None
      case Routed6(_, _) => None
      case Good6(em) =>
        Parse6Partitions(raw);
        if em.proto == ICMP6 && em.data[0] != 128 then None else Some(Truncate6(em))
  }

  /** The embedded packet with its IPv4 header. */
  function Inner4(em: Pkt6, src: Addr4, dst: Addr4, id: U16, data: seq<Byte>): seq<Byte>
    requires WellParsed6(em)
  {
    Seal4(Hdr6to4(em, Get16(em.raw, 4) - em.hdrLen, em.raw[7], src, dst, id)) + data
  }

  function Verdict6(t: Env, data: seq<Byte>, eraw: seq<Byte>): Option<(Addr4, Addr4, ErrorKind)>
    requires ValidEnv(t) && |data| >= ICMP_HDR && |eraw| >= IP6_HDR
  {
    var m0, m1 := t.map6(0, eraw[8..24], false), t.map6(1, eraw[24..40], false);
    var kind := ErrorKind6to4(t.mtu, data[0], data[1], Get32(data, 4));
    if !m0.Mapped? || !m1.Mapped? || kind.None? then None else Some((m0.addr, m1.addr, kind.value))
  }

  function InnerPacket6(t: Env, em: Pkt6, src: Addr4, dst: Addr4, kind: ErrorKind): Option<(ErrorKind, seq<Byte>)>
    requires WellParsed6(em)
  {
    match Payload6to4(t, em, src + dst)
    case Refused(_) => None
    case Rewritten(data) => Some((kind, Inner4(em, src, dst, t.ident(0), data)))
  }

  function InnerError6(t: Env, p: Pkt6): Option<(ErrorKind, seq<Byte>)>
    requires ValidEnv(t) && WellParsed6(p) && p.proto == ICMP6
  {
    match Embedded6(p)
    case None => None
    case Some(em) =>
      match Verdict6(t, p.data, em.raw)
      case None => None
      case Some((src, dst, kind)) => InnerPacket6(t, em, src, dst, kind)
  }

  /** An ICMPv4 error as translated from the packet p. */
  function Message4(p: Pkt6, kind: ErrorKind, inner: seq<Byte>, src: Addr4, dst: Addr4, id: U16): seq<Byte>
    requires WellParsed6(p) && p.raw[7] >= 2
  {
    Seal4(Hdr6to4(p, ICMP_HDR + |inner|, p.raw[7] - 1, src, dst, id))
      + IcmpBody(kind.typ, kind.code, kind.word, inner, 0)
  }

  /** xlate6to4ICMPError. */
  function IcmpError6to4(t: Env, p: Pkt6): seq<seq<Byte>>
    requires ValidEnv(t) && WellParsed6(p) && p.raw[7] >= 2 && p.proto == ICMP6
  {
    match InnerError6(t, p)
    case None => []
    case Some((kind, inner)) =>
      var m2, m3 := t.map6(2, p.raw[8..24], false), t.map6(3, p.raw[24..40], false);
      if !m3.Mapped? then []
      else Emit(Message4(p, kind, inner, if m2.Mapped? then m2.addr else t.local4, m3.addr, t.ident(1)))
  }

  /** hostICMPv6. */
  function Host6(p: Pkt6): seq<seq<Byte>>
    requires WellParsed6(p) && p.proto == ICMP6
  {
    if p.data[0] == 128 then
      Emit(Icmp6(Tos6(p.raw), p.raw[24..40], p.raw[8..24], 129, p.data[1], Get32(p.data, 4), p.data[ICMP_HDR..]))
    else []
  }

  predicate Accepted6(p: Pkt6)
    requires WellParsed6(p)
  {
    && p.raw[7] != 0
    && p.hdrLen + |p.data| == Get16(p.raw, 4)
    && (p.proto == ICMP6 ==> Verifies(p.data, Pseudo6(p.raw[8..40], |p.data|, ICMP6)))
  }

  function Self6(t: Env, p: Pkt6): seq<seq<Byte>>
    requires WellParsed6(p)
  {
    if p.proto == ICMP6 then Host6(p) else Error6(t, p, 4, 1, 6)
  }

  /** Data, or an echo message, as opposed to an error. */
  predicate IsData6(p: Pkt6)
    requires WellParsed6(p)
  {
    p.proto != ICMP6 || p.data[0] == 128 || p.data[0] == 129
  }

  function Dispatched6(t: Env, p: Pkt6): seq<seq<Byte>>
    requires ValidEnv(t) && WellParsed6(p) && p.raw[7] != 0
  {
    if p.raw[24..40] == t.local6 then Self6(t, p)
    else if p.raw[7] == 1 then Error6(t, p, 3, 0, 0)
    else if IsData6(p) then Data6to4(t, p)
    else IcmpError6to4(t, p)
  }

  /** handleIPv6. */
  function Handle6(t: Env, raw: seq<Byte>): seq<seq<Byte>>
    requires ValidEnv(t)
  {
    match Parse6(raw)
    case Bad6(_) => []
    case Routed6(p, ptr) =>
      Parse6Partitions(raw);
      Error6(t, p, 4, 0, ptr % 0x1_0000_0000)
    case Good6(p) =>
      Parse6Partitions(raw);
      if Accepted6(p) then Dispatched6(t, p) else []
  }

  /** Translate: the packets emitted for one inbound packet. */
  function Translate(t: Env, raw: seq<Byte>): seq<seq<Byte>>
    requires ValidEnv(t)
  {
    if |raw| == 0 then []
    else if raw[0] / 0x10 == 4 then Handle4(t, raw)
    else if raw[0] / 0x10 == 6 then Handle6(t, raw)
    else []
  }
}
