/** The packets inside ICMP errors: where they end, and exactly which errors are not translated. */
module EmbeddedPackets {
  import opened Bytes
  import opened NetUtil
  import opened Packet
  import opened Xlate
  import opened RoundTrip
  import opened IcmpErrors
  import opened Kinds
  import opened Dispositions

  // ----- IPv4 -----

  /** Section 4 of RFC 4884: in these errors an octet counts the 32-bit words of the embedded packet. */
  function Declared4(data: seq<Byte>): nat
    requires |data| >= 8
  {
    if data[0] in {3, 11, 12} then data[5] as int * 4 else 0
  }

  lemma SecondOctet(a: Byte, b: Byte, rest: nat)
    requires rest < 0x1_0000
    ensures (a * 0x100_0000 + b * 0x1_0000 + rest) / 0x4000 % 0x400 / 4 * 4 == b * 4
  {
    var w, n := a * 0x100_0000 + b * 0x1_0000 + rest, rest / 0x4000;
    assert w / 0x4000 == a * 0x400 + (b * 4 + n) && n < 4;
    assert (a * 0x400 + (b * 4 + n)) % 0x400 == b * 4 + n;
    assert (b * 4 + n) / 4 == b;
  }

  lemma DeclaredLength4(data: seq<Byte>)
    requires |data| >= 8
    ensures EmbeddedLen4(data) == Declared4(data)
  {
    SecondOctet(data[4], data[5], data[6] as int * 0x100 + data[7]);
  }

  /** The embedded packet of p, if it parses; nothing beyond the declared length belongs to it. */
  ghost predicate Inside4(p: Pkt4, raw: seq<Byte>)
    requires WellParsed4(p) && p.proto == ICMP
  {
    var n := Declared4(p.data);
    if n == 0 then raw == p.data[8..] else 8 + n <= |p.data| && raw == p.data[8..8 + n]
  }

  /** It is the whole parsed packet, or its first 1192 bytes of data; there is none if it is an error itself. */
  lemma EmbeddedExactly4(p: Pkt4, raw: seq<Byte>)
    requires WellParsed4(p) && p.proto == ICMP && Inside4(p, raw)
    ensures match Parse4(raw)
            case Bad4(_) => Embedded4(p) == None
            case Good4(e) =>
              && WellParsed4(e)
              && (if e.proto == 1 && e.data[0] != 8 then Embedded4(p) == None
                  else Embedded4(p) == Some(Pkt4(raw, e.hdrLen, e.data[..Min(|e.data|, 1192)], e.proto)))
  {
    hide Parse4, EmbeddedLen4;
    DeclaredLength4(p.data);
    if Parse4(raw).Good4? { Parse4Partitions(raw); }
  }

  /** An error that declares more than it has is not translated. */
  lemma TooShort4(p: Pkt4)
    requires WellParsed4(p) && p.proto == ICMP && 8 + Declared4(p.data) > |p.data|
    ensures Embedded4(p) == None
  {
    hide EmbeddedLen4;
    DeclaredLength4(p.data);
  }

  lemma SameEmbedded4(p: Pkt4, p': Pkt4)
    requires WellParsed4(p) && WellParsed4(p') && p.proto == p'.proto == ICMP && Declared4(p.data) > 0
    requires var n := 8 + Declared4(p.data); n <= |p.data| && n <= |p'.data| && p'.data[..n] == p.data[..n]
    ensures Embedded4(p') == Embedded4(p)
    ensures p'.data[0] == p.data[0] && p'.data[1] == p.data[1] && Get32(p'.data, 4) == Get32(p.data, 4)
  {
    hide Parse4, EmbeddedLen4;
    var n := 8 + Declared4(p.data);
    SameStart(p.data, p'.data, n);
    DeclaredLength4(p.data);
    DeclaredLength4(p'.data);
    assert p'.data[8..n] == p'.data[..n][8..] == p.data[..n][8..] == p.data[8..n];
  }

  /** Two errors that differ only beyond the declared length have the same translation. */
  lemma BeyondIgnored4(t: Env, p: Pkt4, p': Pkt4)
    requires ValidEnv(t) && WellParsed4(p) && WellParsed4(p') && p.proto == p'.proto == ICMP && p.raw[8] >= 2
    requires p'.raw[..20] == p.raw[..20] && Declared4(p.data) > 0
    requires var n := 8 + Declared4(p.data); n <= |p.data| && n <= |p'.data| && p'.data[..n] == p.data[..n]
    ensures p'.raw[8] >= 2 && IcmpError4to6(t, p') == IcmpError4to6(t, p)
  {
    hide Parse4, EmbeddedLen4, Message6, InnerPacket4, ErrorKind4to6, Embedded4;
    SameEmbedded4(p, p');
    SameRaw4(p.raw, p'.raw);
    assert InnerError4(t, p) == InnerError4(t, p');
    if InnerError4(t, p).Some? {
      var (kind, inner) := InnerError4(t, p).value;
      SameMessage(p.raw, p'.raw, p.proto, kind, inner);
    }
  }

  lemma SameStart(a: seq<Byte>, b: seq<Byte>, n: nat)
    requires 8 <= n <= |a| && n <= |b| && a[..n] == b[..n]
    ensures Get32(a, 4) == Get32(b, 4) && forall i :: 0 <= i < 8 ==> a[i] == b[i]
  {
    assert forall i :: 0 <= i < 8 ==> a[i] == a[..n][i] && b[i] == b[..n][i];
  }

  lemma SameRaw4(a: seq<Byte>, b: seq<Byte>)
    requires |a| >= 20 && |b| >= 20 && a[..20] == b[..20]
    ensures a[1] == b[1] && a[8] == b[8] && a[12..16] == b[12..16] && a[16..20] == b[16..20]
  {
    assert forall i :: 0 <= i < 20 ==> a[i] == a[..20][i] && b[i] == b[..20][i];
  }

  lemma SameMessage(a: seq<Byte>, b: seq<Byte>, proto: Byte, kind: ErrorKind, inner: seq<Byte>)
    requires |a| >= 20 && |b| >= 20 && a[1] == b[1] && a[8] == b[8] >= 2
    ensures forall src: Addr6, dst: Addr6 ::
              Message6(a, proto, kind, inner, src, dst) == Message6(b, proto, kind, inner, src, dst)
  {
  }

  /** The embedded packet e keeps an error from being translated. */
  ghost predicate Hinders4(t: Env, e: Pkt4)
    requires WellParsed4(e)
  {
    || !t.map4(0, e.raw[12..16]).Mapped? || !t.map4(1, e.raw[16..20]).Mapped?
    || (Get16(e.raw, 6) % 0x2000 == 0 && Unusable(t.udp, e.proto, e.data))
  }

  /** Exactly when an ICMPv4 error is not translated. */
  lemma Lost4(t: Env, p: Pkt4)
    requires ValidEnv(t) && WellParsed4(p) && p.raw[8] >= 2 && p.proto == ICMP
    ensures IcmpError4to6(t, p) == [] <==>
              || Embedded4(p).None? || Hinders4(t, Embedded4(p).value)
              || !HasCounterpart(Meaning4(p.data[0], p.data[1], Get32(p.data, 4)))
              || !t.map4(3, p.raw[16..20]).Mapped?
  {
    hide Embedded4, ErrorKind4to6, Meaning4, Message6, Inner6, Payload4to6, Unusable, HasCounterpart, Get32, Meaning6;
    hide Canonical6;
    if Embedded4(p).Some? {
      var e := Embedded4(p).value;
      Embedded4Facts(p);
      KindMeans4to6(t.mtu, p.data[0], p.data[1], Get32(p.data, 4), Get16(e.raw, 2));
      var m0, m1 := t.map4(0, e.raw[12..16]), t.map4(1, e.raw[16..20]);
      if m0.Mapped? && m1.Mapped? {
        var src: Addr6, dst: Addr6 := m0.addr, m1.addr;
        RefusedExactly4(t, e, src + dst);
        PayloadLength4(t, e, src + dst);
        MessageFits6(p.raw, p.proto, e, m0.addr, m1.addr);
      }
    }
  }

  lemma MessageFits6(raw: seq<Byte>, proto: Byte, e: Pkt4, emSrc: Addr6, emDst: Addr6)
    requires |raw| >= IP4_HDR && raw[8] >= 2 && WellParsed4(e) && |e.data| <= 1192
    ensures forall data: seq<Byte>, kind: ErrorKind, src: Addr6, dst: Addr6 :: |data| == |e.data| ==>
              |Message6(raw, proto, kind, Inner6(e, emSrc, emDst, data), src, dst)| <= MAX_PACKET
  {
    hide Hdr6, IcmpBody;
  }

  // ----- IPv6 -----

  /** In ICMPv6 errors of these types another octet counts the 64-bit words. */
  function Declared6(data: seq<Byte>): nat
    requires |data| >= 8
  {
    if data[0] in {1, 3} then data[4] as int * 8 else 0
  }

  lemma FirstOctet(a: Byte, rest: nat)
    requires rest < 0x100_0000
    ensures (a * 0x100_0000 + rest) / 0x20_0000 % 0x800 / 8 * 8 == a * 8
  {
    var w, n := a * 0x100_0000 + rest, rest / 0x20_0000;
    assert w / 0x20_0000 == a * 8 + n && n < 8;
    assert (a * 8 + n) / 8 == a;
  }

  lemma DeclaredLength6(data: seq<Byte>)
    requires |data| >= 8
    ensures EmbeddedLen6(data) == Declared6(data)
  {
    FirstOctet(data[4], data[5] as int * 0x1_0000 + data[6] as int * 0x100 + data[7]);
  }

  ghost predicate Inside6(p: Pkt6, raw: seq<Byte>)
    requires WellParsed6(p) && p.proto == ICMP6
  {
    var n := Declared6(p.data);
    if n == 0 then raw == p.data[8..] else 8 + n <= |p.data| && raw == p.data[8..8 + n]
  }

  lemma EmbeddedExactly6(p: Pkt6, raw: seq<Byte>)
    requires WellParsed6(p) && p.proto == ICMP6 && Inside6(p, raw)
    ensures match Parse6(raw)
            case Bad6(_) => Embedded6(p) == None
            case Routed6(_, _) => Embedded6(p) == None
            case Good6(e) =>
              && WellParsed6(e)
              && (if e.proto == 58 && e.data[0] != 128 then Embedded6(p) == None
                  else Embedded6(p) == Some(Pkt6(raw, e.hdrLen, e.frag, e.data[..Min(|e.data|, 528)], e.proto)))
  {
    hide Parse6, EmbeddedLen6, WellParsedFrag;
    DeclaredLength6(p.data);
    if Parse6(raw).Good6? { Parse6Partitions(raw); }
  }

  lemma TooShort6(p: Pkt6)
    requires WellParsed6(p) && p.proto == ICMP6 && 8 + Declared6(p.data) > |p.data|
    ensures Embedded6(p) == None
  {
    hide EmbeddedLen6, WellParsedFrag;
    DeclaredLength6(p.data);
  }

  lemma SameEmbedded6(p: Pkt6, p': Pkt6)
    requires WellParsed6(p) && WellParsed6(p') && p.proto == p'.proto == ICMP6 && Declared6(p.data) > 0
    requires var n := 8 + Declared6(p.data); n <= |p.data| && n <= |p'.data| && p'.data[..n] == p.data[..n]
    ensures Embedded6(p') == Embedded6(p)
    ensures p'.data[0] == p.data[0] && p'.data[1] == p.data[1] && Get32(p'.data, 4) == Get32(p.data, 4)
  {
    hide Parse6, EmbeddedLen6, WellParsedFrag;
    var n := 8 + Declared6(p.data);
    SameStart(p.data, p'.data, n);
    DeclaredLength6(p.data);
    DeclaredLength6(p'.data);
    assert p'.data[8..n] == p'.data[..n][8..] == p.data[..n][8..] == p.data[8..n];
  }

  lemma BeyondIgnored6(t: Env, p: Pkt6, p': Pkt6)
    requires ValidEnv(t) && WellParsed6(p) && WellParsed6(p') && p.proto == p'.proto == ICMP6 && p.raw[7] >= 2
    requires p'.raw[..40] == p.raw[..40] && p'.hdrLen == p.hdrLen && p'.frag == p.frag && Declared6(p.data) > 0
    requires var n := 8 + Declared6(p.data); n <= |p.data| && n <= |p'.data| && p'.data[..n] == p.data[..n]
    ensures p'.raw[7] >= 2 && IcmpError6to4(t, p') == IcmpError6to4(t, p)
  {
    hide Parse6, EmbeddedLen6, Message4, InnerPacket6, ErrorKind6to4, WellParsedFrag, Embedded6;
    SameEmbedded6(p, p');
    SameRaw6(p.raw, p'.raw);
    assert InnerError6(t, p) == InnerError6(t, p');
    if InnerError6(t, p).Some? {
      var (kind, inner) := InnerError6(t, p).value;
      SameMessage4(p, p', kind, inner, t.ident(1));
    }
  }

  lemma SameRaw6(a: seq<Byte>, b: seq<Byte>)
    requires |a| >= 40 && |b| >= 40 && a[..40] == b[..40]
    ensures a[0] == b[0] && a[1] == b[1] && a[7] == b[7] && a[8..24] == b[8..24] && a[24..40] == b[24..40]
  {
    assert forall i :: 0 <= i < 40 ==> a[i] == a[..40][i] && b[i] == b[..40][i];
  }

  lemma SameMessage4(p: Pkt6, p': Pkt6, kind: ErrorKind, inner: seq<Byte>, id: U16)
    requires WellParsed6(p) && WellParsed6(p')
    requires p.raw[7] == p'.raw[7] >= 2 && p.raw[0] == p'.raw[0] && p.raw[1] == p'.raw[1]
    requires p'.hdrLen == p.hdrLen && p'.frag == p.frag && p'.proto == p.proto
    ensures forall src: Addr4, dst: Addr4 ::
              Message4(p, kind, inner, src, dst, id) == Message4(p', kind, inner, src, dst, id)
  {
    hide Hdr4, Seal4, IcmpBody, WellParsedFrag, Get16, Get32, Enc16;
    assert Tos6(p.raw) == Tos6(p'.raw);
  }

  ghost predicate Hinders6(t: Env, e: Pkt6)
    requires WellParsed6(e)
  {
    || !t.map6(0, e.raw[8..24], false).Mapped? || !t.map6(1, e.raw[24..40], false).Mapped?
    || (FirstBytes6(e) && Unusable(t.udp, e.proto, e.data))
  }

  /** Exactly when an ICMPv6 error is not translated. */
  lemma Lost6(t: Env, p: Pkt6)
    requires ValidEnv(t) && WellParsed6(p) && p.raw[7] >= 2 && p.proto == ICMP6
    ensures IcmpError6to4(t, p) == [] <==>
              || Embedded6(p).None? || Hinders6(t, Embedded6(p).value)
              || !HasCounterpart(Meaning6(p.data[0], p.data[1], Get32(p.data, 4)))
              || (p.data[0] == 2 && Get32(p.data, 4) < 68)
              || !t.map6(3, p.raw[24..40], false).Mapped?
  {
    hide Embedded6, ErrorKind6to4, Meaning4, Message4, Inner4, Payload6to4, Unusable, HasCounterpart, Get32, Canonical4;
    hide WellParsedFrag, FirstBytes6;
    if Embedded6(p).Some? {
      var e := Embedded6(p).value;
      Embedded6Facts(p);
      KindMeans6to4(t.mtu, p.data[0], p.data[1], Get32(p.data, 4));
      TooBigIs2(p.data[0], p.data[1], Get32(p.data, 4));
      var m0, m1 := t.map6(0, e.raw[8..24], false), t.map6(1, e.raw[24..40], false);
      if m0.Mapped? && m1.Mapped? {
        var src: Addr4, dst: Addr4 := m0.addr, m1.addr;
        RefusedExactly6(t, e, src + dst);
        PayloadLength6(t, e, src + dst);
        MessageFits4(p, e, m0.addr, m1.addr);
      }
    }
  }

  lemma TooBigIs2(typ: Byte, code: Byte, word: U32)
    ensures Meaning6(typ, code, word) == TooBig <==> typ == 2
  {
  }

  lemma MessageFits4(p: Pkt6, e: Pkt6, emSrc: Addr4, emDst: Addr4)
    requires WellParsed6(p) && p.raw[7] >= 2 && WellParsed6(e) && |e.data| <= 528
    ensures forall data: seq<Byte>, kind: ErrorKind, src: Addr4, dst: Addr4, id: U16, id': U16 :: |data| == |e.data| ==>
              |Message4(p, kind, Inner4(e, emSrc, emDst, id, data), src, dst, id')| <= MAX_PACKET
  {
    hide Hdr6to4, IcmpBody, Seal4;
  }
}
