/** What holds of every packet the translator emits, and why packets cannot circulate for ever. */
module Emission {
  import opened Bytes
  import opened NetUtil
  import opened Packet
  import opened Checksum
  import opened Xlate
  import opened Headers
  import opened RoundTrip
  import opened Fragmentation

  /** Length fields equal to the size, and a verifying header if IPv4. */
  ghost predicate WellFormed(q: seq<Byte>) {
    && |q| <= MAX_PACKET
    && (|| (|q| >= IP4_HDR && q[0] == 0x45 && Get16(q, 2) == |q| && Verifies(q[..20], 0))
        || (|q| >= IP6_HDR && q[0] / 0x10 == 6 && Get16(q, 4) == |q| - IP6_HDR))
  }

  // ----- The measure -----

  /** 1 for ICMP that provokes no error, 2 for everything else. */
  function Rank4(p: Pkt4): nat {
    if p.proto == ICMP && |p.data| > 0 && p.data[0] != 8 then 1 else 2
  }

  function Rank6(p: Pkt6): nat {
    if p.proto == ICMP6 && |p.data| > 0 && p.data[0] != 128 then 1 else 2
  }

  /** Rank and hop count in lexicographic order; 0 for what does not parse. */
  function Measure(raw: seq<Byte>): nat {
    if |raw| < IP4_HDR then 0
    else if raw[0] / 0x10 == 4 then
      match Parse4(raw)
      case Bad4(_) => 0
      case Good4(p) => 0x100 * Rank4(p) + raw[8]
    else if raw[0] / 0x10 == 6 then
      match Parse6(raw)
      case Bad6(_) => 0
      case Routed6(p, _) => 0x100 * Rank6(p) + raw[7]
      case Good6(p) => 0x100 * Rank6(p) + raw[7]
    else 0
  }

  lemma MeasureBound(raw: seq<Byte>)
    ensures Measure(raw) < 0x300
  {
  }

  /** The measure of an IPv4 packet as emitted, read off its bytes. */
  lemma MeasureOf4(q: seq<Byte>)
    requires |q| >= IP4_HDR && q[0] == 0x45
    ensures Measure(q) <= 0x200 + q[8] as int
    ensures q[9] == ICMP && |q| > 20 && q[20] != 8 ==> Measure(q) <= 0x100 + q[8] as int
  {
    hide ClassifyIPv4, Fragmented4, MF4, Offset4;
  }

  /** The measure of an IPv6 packet without extension headers. */
  lemma MeasureOf6(tc: Byte, nh: Byte, hop: Byte, src: Addr6, dst: Addr6, data: seq<Byte>)
    requires |data| <= 65535 && !Extension(nh) && nh != FRAG
    ensures var m := Measure(Hdr6(tc, |data|, nh, hop, src, dst) + data);
            && m <= 0x200 + hop as int
            && (nh == ICMP6 && |data| > 0 && data[0] != 128 ==> m <= 0x100 + hop as int)
  {
    hide Hdr6, Parse6, ValidIPv6;
    ParseWhole6(tc, nh, hop, src, dst, data);
    Hdr6Fields(tc, |data|, nh, hop, src, dst, data);
  }

  /** A fragment of an ICMPv6 message does not parse; any other fragment keeps its hop count. */
  lemma MeasureOfFragment(f: FragSpec, k: nat, more: bool, chunk: seq<Byte>)
    requires 8 * k <= 65535 && FRAG_HDR + |chunk| <= 65535
    ensures var m := Measure(OneFragment(f, 8 * k, more, chunk));
            && m <= 0x200 + f.hop as int
            && (f.nextHeader == ICMP6 && (k > 0 || more) ==> m == 0)
  {
    hide Hdr6, FragHdr, Parse6, ValidIPv6, OffsetField;
    FieldOf(k, more);
    FragHdrFields(f.nextHeader, OffsetField(8 * k, more), f.id);
    OneFragmentReads(f, k, more, chunk);
    ParseFragment6(f.tc, f.hop, f.src, f.dst, f.nextHeader, OffsetField(8 * k, more), f.id, chunk);
  }

  // ----- Each producer -----

  /** Well-formed, and of measure below m. */
  ghost predicate Fine(q: seq<Byte>, m: nat) {
    WellFormed(q) && Measure(q) < m
  }

  ghost predicate AllFine(qs: seq<seq<Byte>>, m: nat) {
    forall i :: 0 <= i < |qs| ==> Fine(qs[i], m)
  }

  lemma Sealed4Fine(tos: Byte, id: U16, fo: U16, ttl: Byte, proto: Byte, src: Addr4, dst: Addr4, body: seq<Byte>,
                    m: nat)
    requires IP4_HDR + |body| <= 65535
    requires m > 0x200 + ttl as int || (proto == ICMP && |body| > 0 && body[0] != 8 && m > 0x100 + ttl as int)
    ensures Fine(Seal4(Hdr4(tos, IP4_HDR + |body|, id, fo, ttl, proto, src, dst)) + body, m)
  {
    hide Seal4, Hdr4, Measure, Verifies;
    var q := Seal4(Hdr4(tos, IP4_HDR + |body|, id, fo, ttl, proto, src, dst)) + body;
    Hdr4Fields(tos, IP4_HDR + |body|, id, fo, ttl, proto, src, dst, body);
    assert |body| > 0 ==> q[20..][0] == q[20];
    MeasureOf4(q);
  }

  lemma Whole6Fine(tc: Byte, nh: Byte, hop: Byte, src: Addr6, dst: Addr6, body: seq<Byte>, m: nat)
    requires IP6_HDR + |body| <= 65535 && !Extension(nh) && nh != FRAG
    requires m > 0x200 + hop as int || (nh == ICMP6 && |body| > 0 && body[0] != 128 && m > 0x100 + hop as int)
    ensures Fine(Hdr6(tc, |body|, nh, hop, src, dst) + body, m)
  {
    hide Hdr6, Measure, Verifies;
    Hdr6Fields(tc, |body|, nh, hop, src, dst, body);
    MeasureOf6(tc, nh, hop, src, dst, body);
  }

  lemma IcmpBodyFirst(typ: Byte, code: Byte, word: U32, payload: seq<Byte>, pseudo: nat)
    ensures IcmpBody(typ, code, word, payload, pseudo)[0] == typ
  {
  }

  lemma Icmp4Fine(tos: Byte, src: Addr4, dst: Addr4, typ: Byte, code: Byte, word: U32, payload: seq<Byte>)
    requires IP4_HDR + ICMP_HDR + |payload| <= 65535 && typ != 8
    ensures AllFine(Emit(Icmp4(tos, src, dst, typ, code, word, payload)), 0x200)
  {
    hide Seal4, Hdr4, Fine, IcmpBody;
    IcmpBodyFirst(typ, code, word, payload, 0);
    Sealed4Fine(tos, 0, 0, 64, ICMP, src, dst, IcmpBody(typ, code, word, payload, 0), 0x200);
  }

  lemma Icmp6Fine(tc: Byte, src: Addr6, dst: Addr6, typ: Byte, code: Byte, word: U32, payload: seq<Byte>)
    requires ICMP_HDR + |payload| <= 65535 && typ != 128
    ensures AllFine(Emit(Icmp6(tc, src, dst, typ, code, word, payload)), 0x200)
  {
    hide Hdr6, Fine, IcmpBody, Pseudo6;
    var ps := Pseudo6(src + dst, ICMP_HDR + |payload|, ICMP6);
    IcmpBodyFirst(typ, code, word, payload, ps);
    if IP6_HDR + ICMP_HDR + |payload| <= 65535 {
      Whole6Fine(tc, ICMP6, 64, src, dst, IcmpBody(typ, code, word, payload, ps), 0x200);
    }
  }

  /** Errors are sent only about packets of rank 2. */
  lemma Error4Fine(t: Env, p: Pkt4, typ: Byte, code: Byte, word: U32)
    requires WellParsed4(p) && typ != 8
    ensures AllFine(Error4(t, p, typ, code, word), if Rank4(p) == 2 then 0x200 else 0)
  {
    hide Icmp4, Fine;
    Icmp4Fine(0, t.local4, p.raw[12..16], typ, code, word,
      p.raw[..Min(p.hdrLen + |p.data|, ICMP4_MAX - IP4_HDR - ICMP_HDR)]);
  }

  lemma Error6Fine(t: Env, p: Pkt6, typ: Byte, code: Byte, word: U32)
    requires WellParsed6(p) && typ != 128
    ensures AllFine(Error6(t, p, typ, code, word), if Rank6(p) == 2 then 0x200 else 0)
  {
    hide Icmp6, Fine;
    Icmp6Fine(0, t.local6, p.raw[8..24], typ, code, word,
              p.raw[..Min(IP6_HDR + p.hdrLen + |p.data|, MTU_MIN - IP6_HDR - ICMP_HDR)]);
  }

  lemma FineBelow(qs: seq<seq<Byte>>, m: nat, n: nat)
    requires AllFine(qs, m) && m <= n
    ensures AllFine(qs, n)
  {
    hide Measure, WellFormed;
  }

  lemma {:induction false} FragmentsFine(f: FragSpec, c: nat, k: nat, data: seq<Byte>, m: nat)
    requires 0 < f.size <= 0xffc8 && f.size == 8 * c && 8 * k + |data| <= 65535
    requires m > 0x200 + f.hop as int || (f.nextHeader == ICMP6 && m > 0 && (k > 0 || f.mf || |data| > f.size))
    ensures AllFine(Fragments(f, 8 * k, data), m)
    decreases |data|
  {
    hide OneFragment, Fragments, Measure, WellFormed;
    if data == [] {
      FragmentsNonEmpty(f, 8 * k, data);
    } else {
      var n := Min(f.size, |data|);
      var more := |data| > n || f.mf;
      FragmentsUnfold(f, 8 * k, data);
      MeasureOfFragment(f, k, more, data[..n]);
      OneFragmentWellFormed(f, k, more, data[..n]);
      if n == f.size {
        FragmentsFine(f, c, k + c, data[n..], m);
      } else {
        FragmentsNonEmpty(f, 8 * k + n, data[n..]);
      }
    }
  }

  lemma OneFragmentWellFormed(f: FragSpec, k: nat, more: bool, chunk: seq<Byte>)
    requires 8 * k <= 65535 && 48 + |chunk| <= 65535
    ensures WellFormed(OneFragment(f, 8 * k, more, chunk))
  {
    hide OneFragment;
    OneFragmentReads(f, k, more, chunk);
  }

  // ----- IPv4 to IPv6 -----

  /** The measure of a parsed packet. */
  function Measure4(p: Pkt4): nat
    requires WellParsed4(p)
  {
    0x100 * Rank4(p) + p.raw[8]
  }

  function Measure6(p: Pkt6): nat
    requires WellParsed6(p)
  {
    0x100 * Rank6(p) + p.raw[7]
  }

  ghost predicate DataPacket4(t: Env, p: Pkt4) {
    && ValidEnv(t) && WellParsed4(p) && p.raw[8] >= 2
    && (p.proto == ICMP ==> p.data[0] == 8 || p.data[0] == 0)
  }

  /** An echo reply stays an echo reply. */
  lemma EchoTypeKept(t: Env, p: Pkt4, addrs: seq<Byte>)
    requires WellParsed4(p) && p.proto == ICMP
    ensures var r := Payload4to6(t, p, addrs);
            r.Rewritten? && |r.data| == |p.data| && (p.data[0] == 0 ==> r.data[0] == 129)
  {
    hide Ones;
  }

  lemma Send4Fine(t: Env, p: Pkt4, src: Addr6, dst: Addr6, data: seq<Byte>)
    requires DataPacket4(t, p) && !TooBig4(t, p) && Payload4to6(t, p, src + dst) == Rewritten(data)
    ensures AllFine(Send4to6(t, p, src, dst, data), Measure4(p))
  {
    hide Payload4to6, Fine, Hdr6, Fragments;
    PayloadLength4(t, p, src + dst);
    if p.proto == ICMP { EchoTypeKept(t, p, src + dst); }
    if Whole4(t, p) {
      Whole6Fine(p.raw[1], NextHeader(p.proto), p.raw[8] - 1, src, dst, data, Measure4(p));
    } else {
      var f := FragSpec4(t, p, src, dst);
      FragmentsFine(f, f.size / 8, Offset4(Get16(p.raw, 6)), data, Measure4(p));
    }
  }

  lemma Data4Fine(t: Env, p: Pkt4)
    requires DataPacket4(t, p)
    ensures AllFine(Data4to6(t, p), Measure4(p))
  {
    hide Payload4to6, Fine, Error4, Send4to6, TooBig4, Rank4;
    RankRange(p);
    Error4Fine(t, p, 3, 1, 0);
    Error4Fine(t, p, 3, 10, 0);
    Error4Fine(t, p, 3, 4, t.mtu - MTU_ADJ);
    FineBelow(Error4(t, p, 3, 1, 0), if Rank4(p) == 2 then 0x200 else 0, Measure4(p));
    FineBelow(Error4(t, p, 3, 10, 0), if Rank4(p) == 2 then 0x200 else 0, Measure4(p));
    FineBelow(Error4(t, p, 3, 4, t.mtu - MTU_ADJ), if Rank4(p) == 2 then 0x200 else 0, Measure4(p));
    var m0, m1 := t.map4(0, p.raw[16..20]), t.map4(1, p.raw[12..16]);
    if m0.Mapped? && m1.Mapped? && !TooBig4(t, p) {
      var src: seq<Byte>, dst: seq<Byte> := m1.addr, m0.addr;
      var r := Payload4to6(t, p, src + dst);
      if r.Rewritten? { Send4Fine(t, p, m1.addr, m0.addr, r.data); }
    }
  }

  lemma RankRange(p: Pkt4)
    ensures 1 <= Rank4(p) <= 2
  {
  }

  lemma KindTypes4(mtu: nat, typ: Byte, code: Byte, word: U32, emTotal: nat)
    requires mtu <= MAX_PACKET
    ensures var k := ErrorKind4to6(mtu, typ, code, word, emTotal); k.Some? ==> k.value.typ <= 4
  {
  }

  lemma TranslatedFine4(t: Env, p: Pkt4)
    requires ValidEnv(t) && WellParsed4(p) && p.raw[8] >= 2 && p.proto == ICMP && p.data[0] != 8
    ensures AllFine(IcmpError4to6(t, p), Measure4(p))
  {
    hide Payload4to6, Fine, ErrorKind4to6, IcmpBody, Hdr6, Pseudo6, Embedded4;
    EmbeddedShort4(p);
    if InnerError4(t, p).Some? {
      var em := Embedded4(p).value;
      var (emSrc, emDst, kind) := Verdict4(t, p.data, em.raw).value;
      var inner := InnerError4(t, p).value.1;
      KindTypes4(t.mtu, p.data[0], p.data[1], Get32(p.data, 4), Get16(em.raw, 2));
      PayloadLength4(t, em, emSrc + emDst);
      var m2, m3 := t.map4(2, p.raw[12..16]), t.map4(3, p.raw[16..20]);
      if m3.Mapped? {
        var src := if m2.Mapped? then m2.addr else t.local6;
        var ps := Pseudo6(src + m3.addr, ICMP_HDR + |inner|, ICMP6);
        IcmpBodyFirst(kind.typ, kind.code, kind.word, inner, ps);
        Whole6Fine(p.raw[1], ICMP6, p.raw[8] - 1, src, m3.addr, IcmpBody(kind.typ, kind.code, kind.word, inner, ps),
          Measure4(p));
      }
    }
  }

  lemma Host4Fine(p: Pkt4)
    requires WellParsed4(p) && p.proto == ICMP
    ensures AllFine(Host4(p), Measure4(p))
  {
    hide Fine, Icmp4;
    Icmp4Fine(p.raw[1], p.raw[16..20], p.raw[12..16], 0, p.data[1], Get32(p.data, 4), p.data[ICMP_HDR..]);
    FineBelow(Emit(Icmp4(p.raw[1], p.raw[16..20], p.raw[12..16], 0, p.data[1], Get32(p.data, 4), p.data[ICMP_HDR..])),
      0x200, 0x200 + p.raw[8] as int);
  }

  lemma EmbeddedShort4(p: Pkt4)
    requires WellParsed4(p) && p.proto == ICMP
    ensures Embedded4(p).Some? ==> WellParsed4(Embedded4(p).value) && |Embedded4(p).value.data| <= 1192
  {
    hide Parse4;
  }

  lemma Handle4Fine(t: Env, raw: seq<Byte>)
    requires ValidEnv(t)
    ensures Parse4(raw).Bad4? ==> Handle4(t, raw) == []
    ensures Parse4(raw).Good4? ==> WellParsed4(Parse4(raw).p) && AllFine(Handle4(t, raw), Measure4(Parse4(raw).p))
  {
    hide Parse4, Fine, Error4, Data4to6, Host4, IcmpError4to6, Verifies, Rank4;
    if Parse4(raw).Good4? {
      var p := Parse4(raw).p;
      Parse4Partitions(raw);
      RankRange(p);
      Error4Fine(t, p, 3, 2, 0);
      FineBelow(Error4(t, p, 3, 2, 0), if Rank4(p) == 2 then 0x200 else 0, Measure4(p));
      Error4Fine(t, p, 11, 0, 0);
      FineBelow(Error4(t, p, 11, 0, 0), if Rank4(p) == 2 then 0x200 else 0, Measure4(p));
      if p.proto == ICMP {
        Host4Fine(p);
      }
      if p.raw[8] >= 2 {
        if p.proto != ICMP || p.data[0] == 8 || p.data[0] == 0 {
          Data4Fine(t, p);
        } else {
          TranslatedFine4(t, p);
        }
      }
    }
  }

  // ----- IPv6 to IPv4 -----

  lemma RankRange6(p: Pkt6)
    ensures 1 <= Rank6(p) <= 2
  {
  }

  /** The three forms of header6to4 are all of one kind. */
  lemma Hdr6to4Fine(p: Pkt6, ttl: Byte, src: Addr4, dst: Addr4, id: U16, body: seq<Byte>, m: nat)
    requires WellParsed6(p) && IP4_HDR + |body| <= 65535
    requires m > 0x200 + ttl as int || (p.proto == ICMP6 && |body| > 0 && body[0] != 8 && m > 0x100 + ttl as int)
    ensures Fine(Seal4(Hdr6to4(p, |body|, ttl, src, dst, id)) + body, m)
  {
    hide Seal4, Hdr4, Fine;
    var tos, proto := Tos6(p.raw), Protocol(p.proto);
    if p.frag.Some? {
      var of := FragField(p);
      Sealed4Fine(tos, Get32(p.frag.value, 4) % 0x1_0000, of / 8 + (if MF6(of) then 0x2000 else 0), ttl, proto, src,
        dst, body, m);
    } else if p.hdrLen + |body| <= MTU_MIN {
      Sealed4Fine(tos, id, 0, ttl, proto, src, dst, body, m);
    } else {
      Sealed4Fine(tos, 0, 0x4000, ttl, proto, src, dst, body, m);
    }
  }

  ghost predicate DataPacket6(t: Env, p: Pkt6) {
    && ValidEnv(t) && WellParsed6(p) && p.raw[7] >= 2
    && (p.proto == ICMP6 ==> p.data[0] == 128 || p.data[0] == 129)
  }

  lemma EchoTypeKept6(t: Env, p: Pkt6, addrs: seq<Byte>)
    requires WellParsed6(p) && p.proto == ICMP6
    ensures var r := Payload6to4(t, p, addrs);
            r.Rewritten? && |r.data| == |p.data| && (p.data[0] == 129 ==> r.data[0] == 0)
  {
    hide Ones;
  }

  lemma Send6Fine(t: Env, p: Pkt6, src: Addr4, dst: Addr4, data: seq<Byte>)
    requires DataPacket6(t, p) && IP6_HDR + p.hdrLen + |p.data| <= t.mtu
             && Payload6to4(t, p, src + dst) == Rewritten(data)
    ensures AllFine(Emit(Seal4(Hdr6to4(p, |p.data|, p.raw[7] - 1, src, dst, t.ident(0))) + data), Measure6(p))
  {
    hide Payload6to4, Fine, Seal4, Hdr6to4;
    PayloadLength6(t, p, src + dst);
    if p.proto == ICMP6 { EchoTypeKept6(t, p, src + dst); }
    Hdr6to4Fine(p, p.raw[7] - 1, src, dst, t.ident(0), data, Measure6(p));
  }

  lemma Data6Fine(t: Env, p: Pkt6)
    requires DataPacket6(t, p)
    ensures AllFine(Data6to4(t, p), Measure6(p))
  {
    hide Payload6to4, Fine, Error6, Seal4, Hdr6to4, Rank6, Emit;
    RankRange6(p);
    Error6Fine(t, p, 1, 0, 0);
    Error6Fine(t, p, 1, 5, 0);
    Error6Fine(t, p, 2, 0, t.mtu);
    FineBelow(Error6(t, p, 1, 0, 0), if Rank6(p) == 2 then 0x200 else 0, Measure6(p));
    FineBelow(Error6(t, p, 1, 5, 0), if Rank6(p) == 2 then 0x200 else 0, Measure6(p));
    FineBelow(Error6(t, p, 2, 0, t.mtu), if Rank6(p) == 2 then 0x200 else 0, Measure6(p));
    var m0, m1 := t.map6(0, p.raw[24..40], false), t.map6(1, p.raw[8..24], true);
    if m0.Mapped? && m1.Mapped? && IP6_HDR + p.hdrLen + |p.data| <= t.mtu {
      var src: seq<Byte>, dst: seq<Byte> := m1.addr, m0.addr;
      var r := Payload6to4(t, p, src + dst);
      if r.Rewritten? { Send6Fine(t, p, m1.addr, m0.addr, r.data); }
    }
  }

  lemma KindTypes6(mtu: nat, typ: Byte, code: Byte, word: U32)
    requires MTU_MIN <= mtu <= MAX_PACKET
    ensures var k := ErrorKind6to4(mtu, typ, code, word); k.Some? ==> k.value.typ != 8
  {
  }

  lemma TranslatedFine6(t: Env, p: Pkt6)
    requires ValidEnv(t) && WellParsed6(p) && p.raw[7] >= 2 && p.proto == ICMP6 && p.data[0] != 128
    ensures AllFine(IcmpError6to4(t, p), Measure6(p))
  {
    hide Payload6to4, Fine, ErrorKind6to4, IcmpBody, Seal4, Hdr6to4, WellParsedFrag, Embedded6;
    EmbeddedShort6(p);
    if InnerError6(t, p).Some? {
      var em := Embedded6(p).value;
      var (emSrc, emDst, kind) := Verdict6(t, p.data, em.raw).value;
      var inner := InnerError6(t, p).value.1;
      KindTypes6(t.mtu, p.data[0], p.data[1], Get32(p.data, 4));
      PayloadLength6(t, em, emSrc + emDst);
      var m2, m3 := t.map6(2, p.raw[8..24], false), t.map6(3, p.raw[24..40], false);
      if m3.Mapped? {
        var src := if m2.Mapped? then m2.addr else t.local4;
        IcmpBodyFirst(kind.typ, kind.code, kind.word, inner, 0);
        Hdr6to4Fine(p, p.raw[7] - 1, src, m3.addr, t.ident(1), IcmpBody(kind.typ, kind.code, kind.word, inner, 0),
          Measure6(p));
      }
    }
  }

  lemma Host6Fine(p: Pkt6)
    requires WellParsed6(p) && p.proto == ICMP6
    ensures AllFine(Host6(p), Measure6(p))
  {
    hide Fine, Icmp6;
    Icmp6Fine(Tos6(p.raw), p.raw[24..40], p.raw[8..24], 129, p.data[1], Get32(p.data, 4), p.data[ICMP_HDR..]);
    FineBelow(Emit(Icmp6(Tos6(p.raw), p.raw[24..40], p.raw[8..24], 129, p.data[1], Get32(p.data, 4),
      p.data[ICMP_HDR..])),
              0x200, 0x200 + p.raw[7] as int);
  }

  lemma EmbeddedShort6(p: Pkt6)
    requires WellParsed6(p) && p.proto == ICMP6
    ensures Embedded6(p).Some? ==> WellParsed6(Embedded6(p).value) && |Embedded6(p).value.data| <= 528
  {
    hide Parse6;
  }

  lemma Handle6Fine(t: Env, raw: seq<Byte>)
    requires ValidEnv(t)
    ensures Parse6(raw).Bad6? ==> Handle6(t, raw) == []
    ensures !Parse6(raw).Bad6? ==> WellParsed6(Parse6(raw).p) && AllFine(Handle6(t, raw), Measure6(Parse6(raw).p))
  {
    hide Parse6, Fine, Error6, Data6to4, Host6, IcmpError6to4, Verifies, Rank6;
    if !Parse6(raw).Bad6? {
      var p := Parse6(raw).p;
      Parse6Partitions(raw);
      RankRange6(p);
      if Parse6(raw).Routed6? {
        Error6Fine(t, p, 4, 0, Parse6(raw).ptr % 0x1_0000_0000);
        FineBelow(Error6(t, p, 4, 0, Parse6(raw).ptr % 0x1_0000_0000), if Rank6(p) == 2 then 0x200 else 0, Measure6(p));
      } else {
        Handle6GoodFine(t, p);
      }
    }
  }

  lemma Handle6GoodFine(t: Env, p: Pkt6)
    requires ValidEnv(t) && WellParsed6(p) && Parse6(p.raw) == Good6(p)
    ensures AllFine(Handle6(t, p.raw), Measure6(p))
  {
    hide Parse6, Fine, Error6, Data6to4, Host6, IcmpError6to4, Verifies, Rank6;
    RankRange6(p);
    Error6Fine(t, p, 4, 1, 6);
    FineBelow(Error6(t, p, 4, 1, 6), if Rank6(p) == 2 then 0x200 else 0, Measure6(p));
    Error6Fine(t, p, 3, 0, 0);
    FineBelow(Error6(t, p, 3, 0, 0), if Rank6(p) == 2 then 0x200 else 0, Measure6(p));
    if p.proto == ICMP6 {
      Host6Fine(p);
    }
    if p.raw[7] >= 2 {
      if p.proto != ICMP6 || p.data[0] == 128 || p.data[0] == 129 {
        Data6Fine(t, p);
      } else {
        TranslatedFine6(t, p);
      }
    }
  }

  // ----- Every emission, every run -----

  /**
   * For every byte string and whatever the mapper answers: each packet emitted has length fields equal to its size
   * and, if IPv4, a verifying header; and it is strictly below the input in rank and hop count.
   */
  lemma EmittedFine(t: Env, raw: seq<Byte>, i: nat)
    requires ValidEnv(t) && i < |Translate(t, raw)|
    ensures WellFormed(Translate(t, raw)[i])
    ensures Measure(Translate(t, raw)[i]) < Measure(raw)
  {
    hide Handle4, Handle6, Parse4, Parse6, WellFormed, Rank4, Rank6;
    if raw[0] / 0x10 == 4 {
      Handle4Fine(t, raw);
      Parse4Version(raw);
      assert Fine(Handle4(t, raw)[i], Measure(raw));
    } else {
      Handle6Fine(t, raw);
      Parse6Version(raw);
      assert Fine(Handle6(t, raw)[i], Measure(raw));
    }
  }

  lemma Parse4Version(raw: seq<Byte>)
    requires Parse4(raw).Good4?
    ensures |raw| >= IP4_HDR && raw[0] / 0x10 == 4 && Parse4(raw).p.raw == raw
  {
  }

  lemma Parse6Version(raw: seq<Byte>)
    requires !Parse6(raw).Bad6?
    ensures |raw| >= IP6_HDR && raw[0] / 0x10 == 6 && Parse6(raw).p.raw == raw
  {
    Parse6Partitions(raw);
  }

  /**
   * A run in which each packet is emitted in response to the one before, with any configuration and mapper each time.
   */
  ghost predicate Circulates(envs: seq<Env>, packets: seq<seq<Byte>>) {
    && |packets| == |envs| + 1
    && forall i :: 0 <= i < |envs| ==> ValidEnv(envs[i]) && packets[i + 1] in Translate(envs[i], packets[i])
  }

  /** No packet circulates for ever: no run is longer than the measure of its first packet, which is below 768. */
  lemma {:induction false} NoLoop(envs: seq<Env>, packets: seq<seq<Byte>>)
    requires Circulates(envs, packets)
    ensures |envs| <= Measure(packets[0]) < 0x300
    decreases |envs|
  {
    hide Measure, Translate;
    MeasureBound(packets[0]);
    if |envs| > 0 {
      assert packets[0 + 1] in Translate(envs[0], packets[0]);
      var i :| 0 <= i < |Translate(envs[0], packets[0])| && Translate(envs[0], packets[0])[i] == packets[1];
      EmittedFine(envs[0], packets[0], i);
      forall j | 0 <= j < |envs[1..]|
        ensures ValidEnv(envs[1..][j])
                && packets[1..][j + 1] in Translate(envs[1..][j], packets[1..][j])
      {
        assert packets[(j + 1) + 1] in Translate(envs[j + 1], packets[j + 1]);
      }
      NoLoop(envs[1..], packets[1..]);
    }
  }
}
