/** ICMP errors: the ones the translator generates and the ones it translates, with the packet they are about. */
module IcmpErrors {
  import opened Bytes
  import opened NetUtil
  import opened Packet
  import opened Checksum
  import opened Xlate
  import opened Headers
  import opened TransportLaws
  import opened Kinds
  import opened RoundTrip

  lemma IcmpBodyVerifies(typ: Byte, code: Byte, word: U32, payload: seq<Byte>, pseudo: nat)
    ensures var b := IcmpBody(typ, code, word, payload, pseudo);
            Verifies(b, pseudo) && b[0] == typ && b[1] == code && Get32(b, 4) == word && b[8..] == payload
  {
    hide Words, Ones, Verifies, ChecksumOf;
    var zeroed := [typ, code, 0, 0] + Enc32(word) + payload;
    ChecksumVerifies(zeroed, 2, pseudo);
    assert zeroed[4..8] == Enc32(word);
    assert Get32(zeroed, 4) == Get32(zeroed[4..8], 0);
    assert zeroed[8..] == payload;
    var b := IcmpBody(typ, code, word, payload, pseudo);
    assert b[8..] == zeroed[8..];
  }

  /** A generated ICMPv4 message: echo replies and errors. */
  lemma Icmp4Verifies(tos: Byte, src: Addr4, dst: Addr4, typ: Byte, code: Byte, word: U32, payload: seq<Byte>)
    requires IP4_HDR + ICMP_HDR + |payload| <= 65535
    ensures var q := Icmp4(tos, src, dst, typ, code, word, payload);
            && |q| == IP4_HDR + ICMP_HDR + |payload| == Get16(q, 2) && q[9] == ICMP && q[12..16] == src
               && q[16..20] == dst
            && q[0] == 0x45 && q[1] == tos && Get16(q, 4) == 0 && Get16(q, 6) == 0 && q[8] == 64
            && Verifies(q[..20], 0) && Verifies(q[20..], 0) && q[20] == typ && q[21] == code && Get32(q, 24) == word
               && q[28..] == payload
  {
    hide Seal4, Hdr4, IcmpBody, Verifies;
    var body := IcmpBody(typ, code, word, payload, 0);
    IcmpBodyVerifies(typ, code, word, payload, 0);
    Hdr4Fields(tos, IP4_HDR + ICMP_HDR + |payload|, 0, 0, 64, ICMP, src, dst, body);
    var q := Icmp4(tos, src, dst, typ, code, word, payload);
    assert q[28..] == q[20..][8..];
    assert q[20] == q[20..][0] && q[21] == q[20..][1];
    Get32Shift(q, 20, 4);
  }

  lemma Icmp6Verifies(tc: Byte, src: Addr6, dst: Addr6, typ: Byte, code: Byte, word: U32, payload: seq<Byte>)
    requires ICMP_HDR + |payload| <= 65535
    ensures var q := Icmp6(tc, src, dst, typ, code, word, payload);
            && |q| == IP6_HDR + ICMP_HDR + |payload| && Get16(q, 4) == |q| - IP6_HDR && q[6] == ICMP6
            && Get32(q, 0) == Word6(tc) && q[7] == 64
            && q[8..24] == src && q[24..40] == dst
            && Passes6(q[40..], q[8..40], ICMP6) && q[40] == typ && q[41] == code && Get32(q, 44) == word
               && q[48..] == payload
  {
    hide Hdr6, IcmpBody, Verifies, Pseudo6;
    var n := ICMP_HDR + |payload|;
    var ps := Pseudo6(src + dst, n, ICMP6);
    var body := IcmpBody(typ, code, word, payload, ps);
    IcmpBodyVerifies(typ, code, word, payload, ps);
    Hdr6Fields(tc, n, ICMP6, 64, src, dst, body);
    var q := Icmp6(tc, src, dst, typ, code, word, payload);
    assert q[48..] == q[40..][8..];
    assert q[40] == q[40..][0] && q[41] == q[40..][1];
    Get32Shift(q, 40, 4);
  }

  lemma Get32Shift(q: seq<Byte>, at: nat, i: nat)
    requires at + i + 4 <= |q|
    ensures Get32(q, at + i) == Get32(q[at..], i)
  {
  }

  // ----- Echo requests to the translator -----

  /** q answers the echo request p: addresses swapped, same identifier, sequence number and content, valid checksums. */
  ghost predicate Answers4(q: seq<Byte>, p: Pkt4)
    requires WellParsed4(p) && p.proto == ICMP
  {
    && |q| == IP4_HDR + |p.data| == Get16(q, 2) && q[9] == ICMP && q[12..16] == p.raw[16..20]
       && q[16..20] == p.raw[12..16]
    && q[0] == 0x45 && q[1] == p.raw[1] && q[8] == 64
    && q[20] == 0 && q[21] == p.data[1] && Get32(q, 24) == Get32(p.data, 4) && q[28..] == p.data[8..]
    && Verifies(q[..20], 0) && Verifies(q[20..], 0)
  }

  lemma EchoAnswered4(t: Env, p: Pkt4)
    requires ValidEnv(t) && Parse4(p.raw) == Good4(p) && WellParsed4(p) && Accepted4(p) && p.raw[16..20] == t.local4
    requires p.proto == ICMP && p.data[0] == 8
    ensures |Translate(t, p.raw)| == 1 && Answers4(Translate(t, p.raw)[0], p)
  {
    hide Icmp4, Verifies, Parse4, Accepted4, Get32, Data4to6, IcmpError4to6, Error4;
    Parse4Head(p);
    Icmp4Verifies(p.raw[1], p.raw[16..20], p.raw[12..16], 0, p.data[1], Get32(p.data, 4), p.data[ICMP_HDR..]);
  }

  lemma Parse4Head(p: Pkt4)
    requires Parse4(p.raw) == Good4(p)
    ensures |p.raw| >= IP4_HDR && p.raw[0] / 0x10 == 4
  {
  }

  ghost predicate Answers6(q: seq<Byte>, p: Pkt6)
    requires WellParsed6(p) && p.proto == ICMP6
  {
    && |q| == IP6_HDR + |p.data| && Get16(q, 4) == |p.data| && q[6] == ICMP6 && q[8..24] == p.raw[24..40]
       && q[24..40] == p.raw[8..24]
    && Get32(q, 0) == Word6(Class6(p.raw)) && q[7] == 64
    && q[40] == 129 && q[41] == p.data[1] && Get32(q, 44) == Get32(p.data, 4) && q[48..] == p.data[8..]
    && Passes6(q[40..], q[8..40], ICMP6)
  }

  /** For IPv6 there is an answer exactly if it fits into a packet. */
  lemma EchoAnswered6(t: Env, p: Pkt6)
    requires ValidEnv(t) && Parse6(p.raw) == Good6(p) && WellParsed6(p) && Accepted6(p) && p.raw[24..40] == t.local6
    requires p.proto == ICMP6 && p.data[0] == 128
    ensures if IP6_HDR + |p.data| <= MAX_PACKET then |Translate(t, p.raw)| == 1
            && Answers6(Translate(t, p.raw)[0], p) else Translate(t, p.raw) == []
  {
    hide Icmp6, Verifies, Passes6, Parse6, Accepted6, Get32, Data6to4, IcmpError6to4, Error6, WellParsedFrag;
    Parse6Head(p);
    ClassIsTos6(p.raw);
    Icmp6Verifies(Tos6(p.raw), p.raw[24..40], p.raw[8..24], 129, p.data[1], Get32(p.data, 4), p.data[ICMP_HDR..]);
  }

  lemma Parse6Head(p: Pkt6)
    requires Parse6(p.raw) == Good6(p)
    ensures |p.raw| >= IP6_HDR && p.raw[0] / 0x10 == 6
  {
    hide WalkExtensions, ParseBody6;
  }

  // ----- Path MTU -----

  /** The estimate is the largest plateau below the size that was too big, or the minimum of 68. */
  lemma {:induction false} EstMTUIsPlateau(tooBig: nat, i: nat)
    requires i <= |PLATEAUS|
    ensures var m := EstMTU(tooBig, i);
            && (m == 68 || (m in PLATEAUS[i..] && m < tooBig))
            && forall k :: i <= k < |PLATEAUS| && PLATEAUS[k] < tooBig ==> PLATEAUS[k] <= m
    decreases |PLATEAUS| - i
  {
    if i < |PLATEAUS| {
      EstMTUIsPlateau(tooBig, i + 1);
      assert PLATEAUS[i..] == [PLATEAUS[i]] + PLATEAUS[i + 1..];
      PlateausFall(i);
    }
  }

  /** Section 7 of RFC 1191: the greatest of these plateaus below the size that was too big. */
  lemma EstimatesMTU(tooBig: nat)
    ensures var m := EstMTU(tooBig, 0);
            var plateaus := {68, 296, 508, 1006, 1492, 2002, 4352, 8166, 17914, 32000, 65535};
            && m in plateaus && (m > 68 ==> m < tooBig)
            && forall x :: x in plateaus && x < tooBig ==> x <= m
  {
    EstMTUIsPlateau(tooBig, 0);
    assert PLATEAUS[0..] == PLATEAUS;
    forall x | x in {296, 508, 1006, 1492, 2002, 4352, 8166, 17914, 32000, 65535} ensures x in PLATEAUS {
      var i := if x == 65535 then 0 else if x == 32000 then 1 else if x == 17914 then 2 else if x == 8166 then 3
        else if x == 4352 then 4 else if x == 2002 then 5 else if x == 1492 then 6 else if x == 1006 then 7
        else if x == 508 then 8 else 9;
      assert PLATEAUS[i] == x;
    }
  }

  lemma PlateausFall(i: nat)
    requires i < |PLATEAUS|
    ensures forall k :: i <= k < |PLATEAUS| ==> PLATEAUS[k] <= PLATEAUS[i]
  {
  }

  /**
   * The MTU in a translated "fragmentation needed": never below 1280, never above the link, and never more than the
   * reported MTU plus the difference of the headers, unless that is below 1280.
   */
  lemma TooBig4to6(mtu: nat, word: U32, emTotal: nat)
    requires MTU_MIN <= mtu <= MAX_PACKET
    ensures var kind := ErrorKind4to6(mtu, 3, 4, word, emTotal);
            var reported := if word % 0x1_0000 < 68 then EstMTU(emTotal, 0) else word % 0x1_0000;
            && kind.Some? && kind.value.typ == 2 && kind.value.code == 0 && MTU_MIN <= kind.value.word <= mtu
            && (reported + MTU_ADJ >= MTU_MIN ==> kind.value.word == Min(reported + MTU_ADJ, mtu))
  {
  }

  // ----- Kinds of errors -----

  ghost predicate Settles(mtu: nat, k6: ErrorKind, emTotal: nat)
    requires MTU_MIN <= mtu <= MAX_PACKET
  {
    var back := ErrorKind6to4(mtu, k6.typ, k6.code, k6.word);
    back.Some? && ErrorKind4to6(mtu, back.value.typ, back.value.code, back.value.word, emTotal) == Some(k6)
  }

  /**
   * The translation of an ICMPv4 error keeps its meaning and loses what it loses once: sent back and forth again, its
   * kind stays as it is.
   */
  lemma KindsSettle4to6(mtu: nat, typ: Byte, code: Byte, word: U32, emTotal: nat, emTotal': nat)
    requires MTU_MIN <= mtu <= MAX_PACKET && ErrorKind4to6(mtu, typ, code, word, emTotal).Some?
    ensures var k := ErrorKind4to6(mtu, typ, code, word, emTotal).value;
            Meaning6(k.typ, k.code, k.word) == Meaning4(typ, code, word) && Settles(mtu, k, emTotal')
  {
    hide ErrorKind4to6, ErrorKind6to4, EstMTU, Settles, Meaning4, Meaning6;
    KindMeans4to6(mtu, typ, code, word, emTotal);
    if typ == 3 && code == 4 {
      TooBig4to6(mtu, word, emTotal);
      TooBigSettles(mtu, ErrorKind4to6(mtu, typ, code, word, emTotal).value, emTotal');
    } else {
      OthersSettle(mtu, typ, code, word, emTotal, emTotal');
    }
  }

  lemma TooBigSettles(mtu: nat, k: ErrorKind, emTotal: nat)
    requires MTU_MIN <= k.word <= mtu <= MAX_PACKET && k.typ == 2 && k.code == 0
    ensures Settles(mtu, k, emTotal)
  {
    hide EstMTU;
  }

  lemma OthersSettle(mtu: nat, typ: Byte, code: Byte, word: U32, emTotal: nat, emTotal': nat)
    requires MTU_MIN <= mtu <= MAX_PACKET && ErrorKind4to6(mtu, typ, code, word, emTotal).Some?
             && !(typ == 3 && code == 4)
    ensures Settles(mtu, ErrorKind4to6(mtu, typ, code, word, emTotal).value, emTotal')
  {
    hide EstMTU;
  }

  /**
   * The same from ICMPv6, except for a Packet Too Big with an MTU below 1280, which comes out of the second pass as
   * 1280.
   */
  lemma KindsSettle6to4(mtu: nat, typ: Byte, code: Byte, word: U32, emTotal: nat)
    requires MTU_MIN <= mtu <= MAX_PACKET && ErrorKind6to4(mtu, typ, code, word).Some?
    ensures var k4 := ErrorKind6to4(mtu, typ, code, word).value;
            var back := ErrorKind4to6(mtu, k4.typ, k4.code, k4.word, emTotal);
            && back.Some? && Meaning4(k4.typ, k4.code, k4.word) == Meaning6(typ, code, word)
            && (ErrorKind6to4(mtu, back.value.typ, back.value.code, back.value.word) == Some(k4) <==>
                 !(typ == 2 && word < MTU_MIN))
  {
    hide Meaning4, Meaning6;
    KindMeans6to4(mtu, typ, code, word);
  }

  // ----- Originated errors -----

  /**
   * An error about p goes to its sender, has the type, code and word given, verifies, quotes the beginning of p and is
   * at most 576 bytes.
   */
  lemma Error4Quotes(t: Env, p: Pkt4, typ: Byte, code: Byte, word: U32)
    requires WellParsed4(p)
    ensures Error4(t, p, typ, code, word) == [] <==> p.proto == ICMP && p.data[0] != 8
    ensures forall q :: q in Error4(t, p, typ, code, word) ==>
              && 28 <= |q| <= ICMP4_MAX && q[12..16] == t.local4 && q[16..20] == p.raw[12..16]
              && q[0] == 0x45 && q[1] == 0 && q[8] == 64 && q[9] == ICMP && Verifies(q[..20], 0)
              && q[20] == typ && q[21] == code && Get32(q, 24) == word
              && Verifies(q[20..], 0) && q[28..] == p.raw[..|q| - 28]
              && (|q| < ICMP4_MAX ==> |q| - 28 == p.hdrLen + |p.data|)
  {
    hide Icmp4, Verifies;
    var quote := p.raw[..Min(p.hdrLen + |p.data|, ICMP4_MAX - IP4_HDR - ICMP_HDR)];
    Icmp4Verifies(0, t.local4, p.raw[12..16], typ, code, word, quote);
  }

  lemma Error6Quotes(t: Env, p: Pkt6, typ: Byte, code: Byte, word: U32)
    requires WellParsed6(p)
    ensures Error6(t, p, typ, code, word) == [] <==> p.proto == ICMP6 && p.data[0] != 128
    ensures forall q :: q in Error6(t, p, typ, code, word) ==>
              && 48 <= |q| <= MTU_MIN && q[8..24] == t.local6 && q[24..40] == p.raw[8..24]
              && Get32(q, 0) == Word6(0) && q[6] == ICMP6 && q[7] == 64
              && q[40] == typ && q[41] == code && Get32(q, 44) == word
              && Passes6(q[40..], q[8..40], ICMP6) && q[48..] == p.raw[..|q| - 48]
              && (|q| < MTU_MIN ==> |q| - 48 == IP6_HDR + p.hdrLen + |p.data|)
  {
    hide Icmp6, Verifies, Passes6;
    var quote := p.raw[..Min(IP6_HDR + p.hdrLen + |p.data|, MTU_MIN - IP6_HDR - ICMP_HDR)];
    Icmp6Verifies(0, t.local6, p.raw[8..24], typ, code, word, quote);
  }

  // ----- Translated errors -----

  /** The outer packet of a translated error. */
  ghost predicate OuterFine6(q: seq<Byte>) {
    && 88 <= |q| <= MTU_MIN && q[0] / 0x10 == 6 && Get16(q, 4) == |q| - IP6_HDR && q[6] == ICMP6
    && Passes6(q[40..], q[8..40], ICMP6)
  }

  /** The embedded header describes the whole original datagram, of which `em` holds the beginning. */
  ghost predicate InnerHeader6(q: seq<Byte>, em: Pkt4)
    requires |q| >= 88 && WellParsed4(em)
  {
    && Get32(q, 48) == Word6(em.raw[1])
    && Get16(q, 52) == Get16(em.raw, 2) - em.hdrLen
    && q[54] == NextHeader(em.proto) && q[55] == em.raw[8]
    && |q| - 88 == |em.data|
  }

  /**
   * The checksum of the embedded packet is right for the whole original datagram, em.data + rest, as far as it was
   * before.
   */
  ghost predicate InnerStatus6(q: seq<Byte>, em: Pkt4, rest: seq<Byte>)
    requires |q| >= 88 && WellParsed4(em)
  {
    var whole, whole' := em.data + rest, q[88..] + rest;
    && (Repairable(em.proto, em.data) && Offset4(Get16(em.raw, 6)) == 0 && |whole| <= 65535 ==>
          (Passes4(whole, em.raw[12..20], em.proto) <==> Passes6(whole', q[56..88], em.proto)))
    && (em.proto == ICMP ==>
          (Verifies(whole, 0) <==> Verifies(whole', Pseudo6(q[56..88], Get16(em.raw, 2) - em.hdrLen, ICMP6))))
  }

  /**
   * Addresses, type, code and second word of a translated error are those that the mapper and the table of kinds give.
   */
  ghost predicate Labelled6(t: Env, p: Pkt4, em: Pkt4, q: seq<Byte>)
    requires ValidEnv(t) && WellParsed4(p) && p.proto == ICMP && WellParsed4(em) && |q| >= 88
  {
    var m2 := t.map4(2, p.raw[12..16]);
    && t.map4(0, em.raw[12..16]) == Mapped(q[56..72]) && t.map4(1, em.raw[16..20]) == Mapped(q[72..88])
    && q[8..24] == (if m2.Mapped? then m2.addr else t.local6) && t.map4(3, p.raw[16..20]) == Mapped(q[24..40])
    && ErrorKind4to6(t.mtu, p.data[0], p.data[1], Get32(p.data, 4), Get16(em.raw, 2))
       == Some(ErrorKind(q[40], q[41], Get32(q, 44)))
    && Meaning6(q[40], q[41], Get32(q, 44)) == Meaning4(p.data[0], p.data[1], Get32(p.data, 4))
    && q[7] as int == p.raw[8] as int - 1 && Get32(q, 0) == Word6(p.raw[1])
  }

  lemma Message6Fine(p: Pkt4, em: Pkt4, emSrc: Addr6, emDst: Addr6, data: seq<Byte>, kind: ErrorKind, src: Addr6,
                     dst: Addr6)
    requires WellParsed4(p) && p.raw[8] >= 2 && p.proto == ICMP && WellParsed4(em) && |data| == |em.data| <= 1192
    ensures var q := Message6(p.raw, p.proto, kind, Inner6(em, emSrc, emDst, data), src, dst);
            && OuterFine6(q) && InnerHeader6(q, em) && q[56..88] == emSrc + emDst && q[88..] == data
            && q[56..72] == emSrc && q[72..88] == emDst && q[8..24] == src && q[24..40] == dst
            && q[40] == kind.typ && q[41] == kind.code && Get32(q, 44) == kind.word && q[7] == p.raw[8] - 1
               && Get32(q, 0) == Word6(p.raw[1])
  {
    hide Hdr6, IcmpBody, Verifies, Pseudo6, Get16, Get32, Word6;
    var inner := Inner6(em, emSrc, emDst, data);
    var n := ICMP_HDR + |inner|;
    var ps := Pseudo6(src + dst, n, ICMP6);
    var body := IcmpBody(kind.typ, kind.code, kind.word, inner, ps);
    IcmpBodyVerifies(kind.typ, kind.code, kind.word, inner, ps);
    Hdr6Fields(p.raw[1], n, ICMP6, p.raw[8] - 1, src, dst, body);
    Hdr6Fields(em.raw[1], Get16(em.raw, 2) - em.hdrLen, NextHeader(em.proto), em.raw[8], emSrc, emDst, data);
    var q := Message6(p.raw, p.proto, kind, inner, src, dst);
    assert q[48..] == q[40..][8..] == inner;
    assert q[48..][8..40] == q[56..88] && q[48..][40..] == q[88..];
    assert q[56..72] == q[48..][8..24] && q[72..88] == q[48..][24..40];
    Get16Shift(q, 48, 4);
    Get32Shift(q, 40, 4);
    assert q[40] == q[40..][0] && q[41] == q[40..][1];
    Get32Shift(q, 48, 0);
    assert q[54] == q[48..][6] && q[55] == q[48..][7] && q[48] == q[48..][0];
  }

  lemma Get16Shift(q: seq<Byte>, at: nat, i: nat)
    requires at + i + 2 <= |q|
    ensures Get16(q[at..], i) == Get16(q, at + i)
  {
  }

  lemma InnerStatus6Holds(t: Env, em: Pkt4, addrs: seq<Byte>, q: seq<Byte>, rest: seq<Byte>)
    requires WellParsed4(em) && (em.proto == ICMP ==> em.data[0] == 8) && |q| >= 88 && q[56..88] == addrs
    requires Payload4to6(t, em, addrs) == Rewritten(q[88..])
    ensures InnerStatus6(q, em, rest)
  {
    hide Words, Ones, Verifies, Passes4, Passes6, Transport, Echo4to6, Pseudo6;
    if Repairable(em.proto, em.data) && Offset4(Get16(em.raw, 6)) == 0 && |em.data + rest| <= 65535 {
      Payload4to6KeepsStatus(t, em, addrs, rest);
    }
    if em.proto == ICMP {
      var ps := Pseudo6(addrs, Get16(em.raw, 2) - em.hdrLen, ICMP6);
      Pseudo6Short(addrs, Get16(em.raw, 2) - em.hdrLen, ICMP6);
      Echo4to6Status(em.data, rest, ps);
      assert (em.data + rest)[0] == 8;
    }
  }

  lemma Embedded4Facts(p: Pkt4)
    requires WellParsed4(p) && p.proto == ICMP && Embedded4(p).Some?
    ensures var em := Embedded4(p).value; WellParsed4(em) && |em.data| <= 1192 && (em.proto == ICMP ==> em.data[0] == 8)
  {
    hide Parse4;
  }

  /**
   * A translated ICMPv4 error verifies and is at most 1280 bytes; the packet inside carries a header for the whole
   * original datagram, and its TCP, UDP or echo-request checksum is as right for that datagram as it was before,
   * however much of it was cut off.
   */
  lemma ErrorTranslation4to6(t: Env, p: Pkt4, q: seq<Byte>, rest: seq<Byte>)
    requires ValidEnv(t) && WellParsed4(p) && p.raw[8] >= 2 && p.proto == ICMP
    requires q in IcmpError4to6(t, p)
    ensures Embedded4(p).Some?
    ensures OuterFine6(q) && InnerHeader6(q, Embedded4(p).value) && InnerStatus6(q, Embedded4(p).value, rest)
    ensures Labelled6(t, p, Embedded4(p).value, q)
  {
    hide Embedded4, Payload4to6, ErrorKind4to6, Message6, Inner6, InnerStatus6, InnerHeader6, OuterFine6, Word6, Get32;
    hide Meaning4, Meaning6, Canonical6;
    var em := Embedded4(p).value;
    Embedded4Facts(p);
    var (emSrc, emDst, kind) := Verdict4(t, p.data, em.raw).value;
    var data := Payload4to6(t, em, emSrc + emDst).data;
    PayloadLength4(t, em, emSrc + emDst);
    var m2, m3 := t.map4(2, p.raw[12..16]), t.map4(3, p.raw[16..20]);
    Message6Fine(p, em, emSrc, emDst, data, kind, if m2.Mapped? then m2.addr else t.local6, m3.addr);
    OuterSize6(q);
    KindMeans4to6(t.mtu, p.data[0], p.data[1], Get32(p.data, 4), Get16(em.raw, 2));
    InnerStatus6Holds(t, em, emSrc + emDst, q, rest);
  }

  lemma OuterSize6(q: seq<Byte>)
    requires OuterFine6(q)
    ensures 88 <= |q|
  {
  }

  // ----- IPv6 to IPv4 -----

  ghost predicate OuterFine4(q: seq<Byte>) {
    && 48 <= |q| <= ICMP4_MAX && q[0] == 0x45 && Get16(q, 2) == |q| && q[9] == ICMP
    && Verifies(q[..20], 0) && Verifies(q[20..], 0)
  }

  /**
   * The embedded IPv4 header verifies and describes the whole original datagram; its total length is right exactly
   * when the payload is at most 65515 bytes, because it wraps beyond that.
   */
  ghost predicate InnerHeader4(q: seq<Byte>, em: Pkt6)
    requires |q| >= 48 && WellParsed6(em)
  {
    var full := Get16(em.raw, 4) - em.hdrLen;
    && q[28] == 0x45 && q[29] == Class6(em.raw) && Verifies(q[28..48], 0)
    && (Get16(q, 30) == IP4_HDR + full <==> full <= 65515)
    && q[36] == em.raw[7] && q[37] == Protocol(em.proto)
    && |q| - 48 == |em.data|
  }

  ghost predicate InnerStatus4(q: seq<Byte>, em: Pkt6, rest: seq<Byte>)
    requires |q| >= 48 && WellParsed6(em)
  {
    var whole, whole' := em.data + rest, q[48..] + rest;
    && (Repairable(em.proto, em.data) && Offset6(FragField(em)) == 0 && |whole| <= 65535 ==>
          (Passes6(whole, em.raw[8..40], em.proto) <==> Passes4(whole', q[40..48], em.proto)))
    && (em.proto == ICMP6 ==>
          (Verifies(whole, Pseudo6(em.raw[8..40], Get16(em.raw, 4) - em.hdrLen, ICMP6)) <==> Verifies(whole', 0)))
  }

  /**
   * Section 5.1 of RFC 7915: identification and fragment field come from the fragment header; without one, a packet of
   * at most 1280 bytes may be fragmented on the way and gets a random identification, and a bigger one may not.
   */
  ghost predicate FragmentFields4(p: Pkt6, len: nat, random: U16, id: U16, fo: U16)
    requires WellParsed6(p)
  {
    if p.frag.Some? then
      var of := Get16(p.frag.value, 2);
      id == Get32(p.frag.value, 4) % 0x1_0000 && fo == of / 8 + (if of % 2 == 1 then 0x2000 else 0)
    else if p.hdrLen + len <= 1280 then id == random && fo == 0
    else id == 0 && fo == 0x4000
  }

  /** The fields of a header made by header6to4, whichever of its three forms was used. */
  lemma Hdr6to4Fields(p: Pkt6, len: nat, ttl: Byte, src: Addr4, dst: Addr4, id: U16, rest: seq<Byte>)
    requires WellParsed6(p)
    ensures var q := Seal4(Hdr6to4(p, len, ttl, src, dst, id)) + rest;
            && |q| == 20 + |rest| && q[0] == 0x45 && q[1] == Class6(p.raw) && Get16(q, 2) == (IP4_HDR + len) % 0x1_0000
            && q[8] == ttl && q[9] == Protocol(p.proto) && q[12..20] == src + dst && q[20..] == rest
               && Verifies(q[..20], 0)
            && FragmentFields4(p, len, id, Get16(q, 4), Get16(q, 6))
  {
    hide Seal4, Hdr4, Verifies;
    ClassIsTos6(p.raw);
    var total := (IP4_HDR + len) % 0x1_0000;
    var tos, proto := Tos6(p.raw), Protocol(p.proto);
    if p.frag.Some? {
      var of := FragField(p);
      Hdr4Fields(tos, total, Get32(p.frag.value, 4) % 0x1_0000, of / 8 + (if MF6(of) then 0x2000 else 0), ttl, proto,
        src, dst, rest);
    } else if p.hdrLen + len <= MTU_MIN {
      Hdr4Fields(tos, total, id, 0, ttl, proto, src, dst, rest);
    } else {
      Hdr4Fields(tos, total, 0, 0x4000, ttl, proto, src, dst, rest);
    }
  }

  ghost predicate Labelled4(t: Env, p: Pkt6, em: Pkt6, q: seq<Byte>)
    requires ValidEnv(t) && WellParsed6(p) && p.proto == ICMP6 && WellParsed6(em) && |q| >= 48
  {
    var m2 := t.map6(2, p.raw[8..24], false);
    && t.map6(0, em.raw[8..24], false) == Mapped(q[40..44]) && t.map6(1, em.raw[24..40], false) == Mapped(q[44..48])
    && q[12..16] == (if m2.Mapped? then m2.addr else t.local4) && t.map6(3, p.raw[24..40], false) == Mapped(q[16..20])
    && ErrorKind6to4(t.mtu, p.data[0], p.data[1], Get32(p.data, 4)) == Some(ErrorKind(q[20], q[21], Get32(q, 24)))
    && Meaning4(q[20], q[21], Get32(q, 24)) == Meaning6(p.data[0], p.data[1], Get32(p.data, 4))
    && q[8] as int == p.raw[7] as int - 1 && q[1] == Class6(p.raw)
  }

  lemma Message4Fine(t: Env, p: Pkt6, em: Pkt6, emSrc: Addr4, emDst: Addr4, data: seq<Byte>, kind: ErrorKind,
                     src: Addr4, dst: Addr4)
    requires WellParsed6(p) && p.raw[7] >= 2 && p.proto == ICMP6 && WellParsed6(em) && |data| == |em.data| <= 528
    ensures var q := Message4(p, kind, Inner4(em, emSrc, emDst, t.ident(0), data), src, dst, t.ident(1));
            && OuterFine4(q) && InnerHeader4(q, em) && q[40..48] == emSrc + emDst && q[48..] == data
            && q[40..44] == emSrc && q[44..48] == emDst && q[12..16] == src && q[16..20] == dst
            && q[20] == kind.typ && q[21] == kind.code && Get32(q, 24) == kind.word && q[8] == p.raw[7] - 1
               && q[1] == Class6(p.raw)
  {
    hide Hdr6to4, Seal4, IcmpBody, Verifies, Class6, WellParsedFrag, Get16, Get32;
    var inner := Inner4(em, emSrc, emDst, t.ident(0), data);
    var body := IcmpBody(kind.typ, kind.code, kind.word, inner, 0);
    var full := Get16(em.raw, 4) - em.hdrLen;
    IcmpBodyVerifies(kind.typ, kind.code, kind.word, inner, 0);
    Hdr6to4Fields(p, ICMP_HDR + |inner|, p.raw[7] - 1, src, dst, t.ident(1), body);
    Hdr6to4Fields(em, full, em.raw[7], emSrc, emDst, t.ident(0), data);
    var q := Message4(p, kind, inner, src, dst, t.ident(1));
    assert q[28..] == q[20..][8..] == inner;
    assert q[28..][12..20] == q[40..48] && q[28..][20..] == q[48..] && q[28..][..20] == q[28..48];
    assert q[40..44] == q[40..48][..4] && q[44..48] == q[40..48][4..] && q[12..16] == q[12..20][..4]
           && q[16..20] == q[12..20][4..];
    Get16Shift(q, 28, 2);
    Get32Shift(q, 20, 4);
    assert q[20] == q[20..][0] && q[21] == q[20..][1];
    assert q[36] == q[28..][8] && q[37] == q[28..][9] && q[28] == q[28..][0] && q[29] == q[28..][1];
    TotalWraps(full);
  }

  lemma TotalWraps(full: nat)
    requires full <= 65535
    ensures (IP4_HDR + full) % 0x1_0000 == IP4_HDR + full <==> full <= 65515
  {
  }

  lemma InnerStatus4Holds(t: Env, em: Pkt6, addrs: seq<Byte>, q: seq<Byte>, rest: seq<Byte>)
    requires WellParsed6(em) && (em.proto == ICMP6 ==> em.data[0] == 128) && |q| >= 48 && q[40..48] == addrs
    requires Payload6to4(t, em, addrs) == Rewritten(q[48..])
    ensures InnerStatus4(q, em, rest)
  {
    hide Words, Ones, Verifies, Passes4, Passes6, Transport, Echo6to4, Pseudo6, WellParsedFrag;
    if Repairable(em.proto, em.data) && Offset6(FragField(em)) == 0 && |em.data + rest| <= 65535 {
      Payload6to4KeepsStatus(t, em, addrs, rest);
    }
    if em.proto == ICMP6 {
      var ps := Pseudo6(em.raw[8..40], Get16(em.raw, 4) - em.hdrLen, ICMP6);
      Pseudo6Short(em.raw[8..40], Get16(em.raw, 4) - em.hdrLen, ICMP6);
      Echo6to4Status(em.data, rest, ps);
      assert (em.data + rest)[0] == 128;
    }
  }

  lemma Embedded6Facts(p: Pkt6)
    requires WellParsed6(p) && p.proto == ICMP6 && Embedded6(p).Some?
    ensures var em := Embedded6(p).value;
            WellParsed6(em) && |em.data| <= 528 && (em.proto == ICMP6 ==> em.data[0] == 128)
  {
    hide Parse6;
  }

  /** A translated ICMPv6 error likewise, at most 576 bytes. */
  lemma ErrorTranslation6to4(t: Env, p: Pkt6, q: seq<Byte>, rest: seq<Byte>)
    requires ValidEnv(t) && WellParsed6(p) && p.raw[7] >= 2 && p.proto == ICMP6
    requires q in IcmpError6to4(t, p)
    ensures Embedded6(p).Some?
    ensures OuterFine4(q) && InnerHeader4(q, Embedded6(p).value) && InnerStatus4(q, Embedded6(p).value, rest)
    ensures Labelled4(t, p, Embedded6(p).value, q)
  {
    hide Embedded6, Payload6to4, ErrorKind6to4, Message4, Inner4, InnerStatus4, InnerHeader4, OuterFine4;
    hide WellParsedFrag, Class6, Get32, Meaning4, Meaning6, Canonical4;
    var em := Embedded6(p).value;
    Embedded6Facts(p);
    var (emSrc, emDst, kind) := Verdict6(t, p.data, em.raw).value;
    var data := Payload6to4(t, em, emSrc + emDst).data;
    PayloadLength6(t, em, emSrc + emDst);
    var m2, m3 := t.map6(2, p.raw[8..24], false), t.map6(3, p.raw[24..40], false);
    Message4Fine(t, p, em, emSrc, emDst, data, kind, if m2.Mapped? then m2.addr else t.local4, m3.addr);
    OuterSize4(q);
    KindMeans6to4(t.mtu, p.data[0], p.data[1], Get32(p.data, 4));
    InnerStatus4Holds(t, em, emSrc + emDst, q, rest);
  }

  lemma OuterSize4(q: seq<Byte>)
    requires OuterFine4(q)
    ensures 48 <= |q|
  {
  }
}
