/** One packet there and back, byte by byte. */
module Vectors {
  import opened Bytes
  import opened NetUtil
  import opened Packet
  import opened Checksum
  import opened Xlate
  import opened Headers
  import opened RoundTrip

  const SRC4: Addr4 := [192, 0, 2, 1]
  const DST4: Addr4 := [198, 51, 100, 2]
  const SRC6: Addr6 := [0x20, 1, 0xd, 0xb8, 0, 0, 0, 0, 0, 0, 0, 0, 0, 0, 0, 1]
  const DST6: Addr6 := [0, 0x64, 0xff, 0x9b, 0, 0, 0, 0, 0, 0, 0, 0, 198, 51, 100, 2]

  /** Expedited forwarding, 64 hops, from port 53 to port 1234, two bytes of content. */
  const HEADER4: seq<Byte> := [0x45, 0xb8, 0, 30, 0x12, 0x34, 0, 0, 64, 17, 0x7b, 0xac, 192, 0, 2, 1, 198, 51, 100, 2]
  const UDP4: seq<Byte> := [0, 53, 4, 210, 0, 10, 0xa6, 0x32, 104, 105]

  const HEADER6: seq<Byte> := [0x6b, 0x80, 0, 0, 0, 10, 17, 63] + SRC6 + DST6
  const UDP6: seq<Byte> := [0, 53, 4, 210, 0, 10, 0x3a, 0x7a, 104, 105]

  /** The same packet back, two hops later. */
  const HEADER4BACK: seq<Byte> :=
    [0x45, 0xb8, 0, 30, 0x12, 0x34, 0, 0, 62, 17, 0x7d, 0xac, 192, 0, 2, 1, 198, 51, 100, 2]

  lemma HeaderSum()
    ensures Words(HEADER4) == 0x2fffd
  {
    hide Words;
    EightBytes(HEADER4);
    assert HEADER4[8..] == [64, 17, 0x7b, 0xac, 192, 0, 2, 1, 198, 51, 100, 2];
    EightBytes(HEADER4[8..]);
    assert HEADER4[8..][8..] == DST4;
    TwoWords(DST4);
  }

  lemma AddressSum4()
    ensures Words(SRC4 + DST4) == 0x1ec36
  {
    hide Words;
    WordsConcat(SRC4, DST4);
    TwoWords(SRC4);
    TwoWords(DST4);
  }

  lemma Sixteen(a: Addr6)
    ensures Words(a) == Get16(a, 0) + Get16(a, 2) + Get16(a, 4) + Get16(a, 6)
                        + Get16(a, 8) + Get16(a, 10) + Get16(a, 12) + Get16(a, 14)
  {
    EightBytes(a);
    EightBytes(a[8..]);
    hide Words;
    assert a[8..][8..] == [];
    NoWords();
  }

  lemma NoWords()
    ensures Words([]) == 0
  {
  }

  lemma AddressSum6()
    ensures Words(SRC6 + DST6) == 0x257ee
  {
    hide Words;
    WordsConcat(SRC6, DST6);
    Sixteen(SRC6);
    Sixteen(DST6);
  }

  lemma Fields()
    ensures var raw := HEADER4 + UDP4;
            && raw[..20] == HEADER4 && raw[20..30] == UDP4 && raw[12..16] == SRC4 && raw[16..20] == DST4
            && raw[12..20] == SRC4 + DST4 && Get16(raw, 2) == 30 && Get16(raw, 6) == 0
  {
    var raw := HEADER4 + UDP4;
    assert raw[..20] == HEADER4 && raw[20..30] == UDP4;
    assert raw[12..16] == HEADER4[12..16] == SRC4;
    assert raw[16..20] == HEADER4[16..20] == DST4;
    assert raw[12..20] == HEADER4[12..20] == SRC4 + DST4;
  }

  lemma Parsed()
    ensures Parse4(HEADER4 + UDP4) == Good4(Pkt4(HEADER4 + UDP4, 20, UDP4, 17))
  {
    var raw := HEADER4 + UDP4;
    Fields();
    hide Get16;
    assert |raw| == 30 && raw[0] == 0x45 && raw[9] == 17;
  }

  lemma SumVerifies()
    ensures Verifies(HEADER4, 0)
  {
    HeaderSum();
    hide Words;
    assert Ones(0x2fffd) == 0xffff;
  }

  lemma Received()
    ensures var p := Pkt4(HEADER4 + UDP4, 20, UDP4, 17);
            && Parse4(p.raw) == Good4(p) && WellParsed4(p) && Accepted4(p)
            && p.raw[12..16] == SRC4 && p.raw[16..20] == DST4
            && p.raw[12..20] == SRC4 + DST4 && Get16(p.raw, 6) == 0
  {
    hide Parse4, Get16, Verifies;
    var raw := HEADER4 + UDP4;
    Parsed();
    Fields();
    SumVerifies();
    Parse4Partitions(raw);
    assert raw[8] == 64;
  }

  lemma Adjusting()
    ensures Adjusted(0xa632, 0x1ec36, 0x257ee) == 0x3a7a && Adjusted(0x3a7a, 0x257ee, 0x1ec36) == 0xa632
  {
  }

  lemma PayloadThere(t: Env, p: Pkt4)
    requires WellParsed4(p) && p.data == UDP4 && p.proto == 17 && Get16(p.raw, 6) == 0 && p.raw[12..20] == SRC4 + DST4
    ensures Payload4to6(t, p, SRC6 + DST6) == Rewritten(UDP6)
  {
    hide Words, Adjusted, WellParsed4;
    AddressSum4();
    AddressSum6();
    Adjusting();
    assert Get16(UDP4, 6) == 0xa632 && Put16(UDP4, 6, 0x3a7a) == UDP6;
  }

  lemma HeaderThere()
    ensures Hdr6(0xb8, 10, 17, 63, SRC6, DST6) == HEADER6
  {
    assert Enc16(10) == [0, 10];
    hide Enc16;
    assert [0x60 + 0xb8 / 0x10, 0xb8 % 0x10 * 0x10, 0, 0] + Enc16(10) + [17, 63] == [0x6b, 0x80, 0, 0, 0, 10, 17, 63];
  }

  /** There. */
  lemma VectorThere(t: Env)
    requires ValidEnv(t) && t.local4 != DST4 && t.map4(0, DST4) == Mapped(DST6) && t.map4(1, SRC4) == Mapped(SRC6)
    ensures Translate(t, HEADER4 + UDP4) == [HEADER6 + UDP6]
  {
    hide Parse4, Accepted4, Translate, Payload4to6, Hdr6, Get16;
    Received();
    var p := Pkt4(HEADER4 + UDP4, 20, UDP4, 17);
    PayloadThere(t, p);
    ForwardWhole4(t, p, SRC6, DST6, UDP6);
    HeaderThere();
  }

  // ----- And back -----

  lemma ReceivedBack()
    ensures var p := Pkt6(HEADER6 + UDP6, 0, None, UDP6, 17);
            && Parse6(p.raw) == Good6(p) && WellParsed6(p) && Accepted6(p)
            && p.raw[8..24] == SRC6 && p.raw[24..40] == DST6
            && p.raw[8..40] == SRC6 + DST6 && Tos6(p.raw) == 0xb8 && p.raw[7] == 63
  {
    hide Get16, Verifies, Hdr6, Parse6, Tos6, WellParsed6;
    HeaderThere();
    Hdr6Fields(0xb8, 10, 17, 63, SRC6, DST6, UDP6);
    ParseWhole6(0xb8, 17, 63, SRC6, DST6, UDP6);
    Parse6Partitions(HEADER6 + UDP6);
  }

  lemma PayloadBack(t: Env, p: Pkt6)
    requires WellParsed6(p) && p.data == UDP6 && p.proto == 17 && p.frag == None && p.raw[8..40] == SRC6 + DST6
    ensures Payload6to4(t, p, SRC4 + DST4) == Rewritten(UDP4)
  {
    hide Words, Adjusted, WellParsed6;
    AddressSum4();
    AddressSum6();
    Adjusting();
    assert Get16(UDP6, 6) == 0x3a7a && Put16(UDP6, 6, 0xa632) == UDP4;
  }

  const UNSEALED: seq<Byte> := [0x45, 0xb8, 0, 30, 0x12, 0x34, 0, 0, 62, 17, 0, 0, 192, 0, 2, 1, 198, 51, 100, 2]

  lemma Unsealed()
    ensures Hdr4(0xb8, 30, 0x1234, 0, 62, 17, SRC4, DST4) == UNSEALED
  {
    assert Enc16(30) == [0, 30] && Enc16(0x1234) == [0x12, 0x34] && Enc16(0) == [0, 0];
    hide Enc16;
  }

  lemma HeaderBack()
    ensures Seal4(UNSEALED) == HEADER4BACK
  {
    hide Words;
    EightBytes(UNSEALED);
    assert UNSEALED[8..] == [62, 17, 0, 0, 192, 0, 2, 1, 198, 51, 100, 2];
    EightBytes(UNSEALED[8..]);
    assert UNSEALED[8..][8..] == DST4;
    TwoWords(DST4);
    assert Words(UNSEALED) == 0x28251;
    assert Put16(UNSEALED, 10, 0x7dac) == HEADER4BACK;
  }

  /** The second translator draws the identification of the first packet. */
  lemma VectorBack(t: Env)
    requires ValidEnv(t) && t.local6 != DST6 && t.map6(0, DST6, false) == Mapped(DST4)
             && t.map6(1, SRC6, true) == Mapped(SRC4)
    requires t.ident(0) == 0x1234
    ensures Translate(t, HEADER6 + UDP6) == [HEADER4BACK + UDP4]
  {
    hide Parse6, Accepted6, Translate, Payload6to4, Hdr4, Seal4, Tos6, WellParsedFrag, Get16;
    ReceivedBack();
    var p := Pkt6(HEADER6 + UDP6, 0, None, UDP6, 17);
    PayloadBack(t, p);
    ForwardWhole6(t, p, SRC4, DST4, UDP4);
    assert Hdr6to4(p, 10, 62, SRC4, DST4, 0x1234) == Hdr4(0xb8, 30, 0x1234, 0, 62, 17, SRC4, DST4);
    Unsealed();
    HeaderBack();
  }

  // ----- Addresses -----

  const EXAMPLE4: Addr4 := [192, 0, 2, 33]

  lemma Example(prefix: Addr6, len: nat, v6: Addr6)
    requires ValidRFC6052PrefixLen(len) && forall k :: 0 <= k < 16 ==> v6[k] == Octet(prefix, len, EXAMPLE4, k)
    ensures Embed(prefix, len, EXAMPLE4) == Some(v6)
  {
    CarriesAt(v6, prefix, len, EXAMPLE4);
    EmbedCarries(prefix, len, EXAMPLE4, v6);
  }

  /** The examples of section 2.4 of RFC 6052, up to 48 bits. */
  lemma ShortPrefixExamples()
    ensures Embed([0x20, 1, 0xd, 0xb8, 0, 0, 0, 0, 0, 0, 0, 0, 0, 0, 0, 0], 32, EXAMPLE4)
            == Some([0x20, 1, 0xd, 0xb8, 192, 0, 2, 33, 0, 0, 0, 0, 0, 0, 0, 0])
    ensures Embed([0x20, 1, 0xd, 0xb8, 1, 0, 0, 0, 0, 0, 0, 0, 0, 0, 0, 0], 40, EXAMPLE4)
            == Some([0x20, 1, 0xd, 0xb8, 1, 192, 0, 2, 0, 33, 0, 0, 0, 0, 0, 0])
    ensures Embed([0x20, 1, 0xd, 0xb8, 1, 0x22, 0, 0, 0, 0, 0, 0, 0, 0, 0, 0], 48, EXAMPLE4)
            == Some([0x20, 1, 0xd, 0xb8, 1, 0x22, 192, 0, 0, 2, 33, 0, 0, 0, 0, 0])
  {
    hide Embed;
    Example([0x20, 1, 0xd, 0xb8, 0, 0, 0, 0, 0, 0, 0, 0, 0, 0, 0, 0], 32,
            [0x20, 1, 0xd, 0xb8, 192, 0, 2, 33, 0, 0, 0, 0, 0, 0, 0, 0]);
    Example([0x20, 1, 0xd, 0xb8, 1, 0, 0, 0, 0, 0, 0, 0, 0, 0, 0, 0], 40,
            [0x20, 1, 0xd, 0xb8, 1, 192, 0, 2, 0, 33, 0, 0, 0, 0, 0, 0]);
    Example([0x20, 1, 0xd, 0xb8, 1, 0x22, 0, 0, 0, 0, 0, 0, 0, 0, 0, 0], 48,
            [0x20, 1, 0xd, 0xb8, 1, 0x22, 192, 0, 0, 2, 33, 0, 0, 0, 0, 0]);
  }

  /** And beyond. */
  lemma LongPrefixExamples()
    ensures Embed([0x20, 1, 0xd, 0xb8, 1, 0x22, 3, 0, 0, 0, 0, 0, 0, 0, 0, 0], 56, EXAMPLE4)
            == Some([0x20, 1, 0xd, 0xb8, 1, 0x22, 3, 192, 0, 0, 2, 33, 0, 0, 0, 0])
    ensures Embed([0x20, 1, 0xd, 0xb8, 1, 0x22, 3, 0x44, 0, 0, 0, 0, 0, 0, 0, 0], 64, EXAMPLE4)
            == Some([0x20, 1, 0xd, 0xb8, 1, 0x22, 3, 0x44, 0, 192, 0, 2, 33, 0, 0, 0])
    ensures Embed([0x20, 1, 0xd, 0xb8, 1, 0x22, 3, 0x44, 0, 0, 0, 0, 0, 0, 0, 0], 96, EXAMPLE4)
            == Some([0x20, 1, 0xd, 0xb8, 1, 0x22, 3, 0x44, 0, 0, 0, 0, 192, 0, 2, 33])
  {
    hide Embed;
    Example([0x20, 1, 0xd, 0xb8, 1, 0x22, 3, 0, 0, 0, 0, 0, 0, 0, 0, 0], 56,
            [0x20, 1, 0xd, 0xb8, 1, 0x22, 3, 192, 0, 0, 2, 33, 0, 0, 0, 0]);
    Example([0x20, 1, 0xd, 0xb8, 1, 0x22, 3, 0x44, 0, 0, 0, 0, 0, 0, 0, 0], 64,
            [0x20, 1, 0xd, 0xb8, 1, 0x22, 3, 0x44, 0, 192, 0, 2, 33, 0, 0, 0]);
    Example([0x20, 1, 0xd, 0xb8, 1, 0x22, 3, 0x44, 0, 0, 0, 0, 0, 0, 0, 0], 96,
            [0x20, 1, 0xd, 0xb8, 1, 0x22, 3, 0x44, 0, 0, 0, 0, 192, 0, 2, 33]);
  }
}
