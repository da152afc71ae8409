/** What translation does to transport checksums. */
module TransportLaws {
  import opened Bytes
  import opened Packet
  import opened Checksum
  import opened Xlate

  /** The checksum of the whole datagram d passes under the given IPv4 (8 bytes) or IPv6 (32 bytes) address pair. */
  ghost predicate Passes4(d: seq<Byte>, addrs: seq<Byte>, proto: Byte) {
    Verifies(d, Pseudo4(addrs, |d|, proto))
  }

  ghost predicate Passes6(d: seq<Byte>, addrs: seq<Byte>, proto: Byte) {
    Verifies(d, Pseudo6(addrs, |d|, proto))
  }

  lemma Pseudo6Short(addrs: seq<Byte>, n: nat, nh: Byte)
    requires n <= 65535
    ensures Pseudo6(addrs, n, nh) == Words(addrs) + n + nh
  {
  }

  /** Rewriting a field before or after more bytes are appended is the same. */
  lemma PutThenAppend(data: seq<Byte>, at: nat, v: U16, rest: seq<Byte>)
    requires at + 2 <= |data|
    ensures Put16(data, at, v) + rest == Put16(data + rest, at, v)
  {
  }

  /** Changing the checksum field of a region together with its pseudo-header. */
  lemma FieldSwap(d: seq<Byte>, at: nat, ck: U16, x: nat, x': nat)
    requires at % 2 == 0 && at + 2 <= |d| && x > 0 && x' > 0
    requires (ck + x') % 0xffff == (Get16(d, at) + x) % 0xffff
    ensures Verifies(d, x) <==> Verifies(Put16(d, at, ck), x')
  {
    hide Words, Ones, Verifies;
    var d' := Put16(d, at, ck);
    WordsPut16(d, at, ck);
    VerifiesMeans(d, x);
    VerifiesMeans(d', x');
    var k := Multiple(ck + x', Get16(d, at) + x);
    Congruent(Words(d') + x', Words(d) + x, k);
  }

  lemma NonZeroCongruent(ck: U16, x: nat)
    ensures NonZero(ck) != 0 && (NonZero(ck) + x) % 0xffff == (ck + x) % 0xffff
  {
  }

  lemma CongruentShift(x: nat, y: nat, k: nat)
    requires x % 0xffff == y % 0xffff
    ensures (x + k) % 0xffff == (y + k) % 0xffff
  {
    var m := Multiple(x, y);
    Congruent(x + k, y + k, m);
  }

  /**
   * RFC 1624 at work: readdressing keeps the checksum status of the whole datagram, whatever follows the bytes at
   * hand. It holds of a whole packet, of a first fragment, and of the truncated copy in an ICMP error.
   */
  lemma ReaddressKeepsStatus(data: seq<Byte>, at: nat, udp: bool, from: seq<Byte>, to: seq<Byte>, rest: seq<Byte>,
                             k: nat)
    requires at % 2 == 0 && at + 2 <= |data| && k > 0
    ensures Verifies(data + rest, Words(from) + k) <==>
              Verifies(Readdress(data, at, udp, from, to) + rest, Words(to) + k)
  {
    hide Words, Ones, Verifies;
    var field: nat, x: nat, y: nat := Get16(data, at), Words(from), Words(to);
    var ck := Adjusted(field, x, y);
    AdjustedCongruent(field, x, y);
    CongruentShift(ck + y, field + x, k);
    NonZeroCongruent(ck, y + k);
    var ck' := if udp then NonZero(ck) else ck;
    PutThenAppend(data, at, ck', rest);
    FieldSwap(data + rest, at, ck', x + k, y + k);
  }

  /** What the translator can repair without knowing the datagram: TCP, and UDP that carries a checksum. */
  predicate Repairable(proto: Byte, data: seq<Byte>) {
    (proto == TCP && |data| >= 20) || (proto == UDP && |data| >= 8 && Get16(data, 6) != 0)
  }

  function ChecksumAt(proto: Byte): nat {
    if proto == TCP then 16 else 6
  }

  /** The bytes outside the checksum field stay, and UDP never ends up with a checksum of zero. */
  ghost predicate OnlyChecksumChanged(proto: Byte, data: seq<Byte>, data': seq<Byte>) {
    && |data'| == |data| >= ChecksumAt(proto) + 2
    && (forall i :: 0 <= i < |data| && i != ChecksumAt(proto) && i != ChecksumAt(proto) + 1 ==> data'[i] == data[i])
    && (proto == UDP ==> Get16(data', 6) != 0)
  }

  lemma TransportKeepsStatus(mode: UDPMode, proto: Byte, data: seq<Byte>, from: seq<Byte>, to: seq<Byte>, pseudo: nat,
                             rest: seq<Byte>, k: nat)
    requires Repairable(proto, data) && k > 0
    ensures var r := Transport(mode, proto, data, from, to, pseudo);
            && r.Rewritten? && OnlyChecksumChanged(proto, data, r.data)
            && (Verifies(data + rest, Words(from) + k) <==> Verifies(r.data + rest, Words(to) + k))
  {
    var at := ChecksumAt(proto);
    ReaddressKeepsStatus(data, at, proto == UDP, from, to, rest, k);
    NonZeroCongruent(Adjusted(Get16(data, at), Words(from), Words(to)), 0);
  }

  /** IPv4 to IPv6: a first or only fragment of TCP or checksummed UDP, followed by any rest of its datagram. */
  lemma Payload4to6KeepsStatus(t: Env, p: Pkt4, addrs: seq<Byte>, rest: seq<Byte>)
    requires WellParsed4(p) && Offset4(Get16(p.raw, 6)) == 0
    requires Repairable(p.proto, p.data) && |p.data| + |rest| <= 65535
    ensures var r := Payload4to6(t, p, addrs);
            && r.Rewritten? && OnlyChecksumChanged(p.proto, p.data, r.data)
            && (Passes4(p.data + rest, p.raw[12..20], p.proto) <==> Passes6(r.data + rest, addrs, p.proto))
  {
    hide Words, Ones;
    var n := |p.data| + |rest|;
    TransportKeepsStatus(t.udp, p.proto, p.data, p.raw[12..20], addrs, Pseudo6(addrs, |p.data|, UDP), rest,
      n + p.proto);
    Pseudo6Short(addrs, n, p.proto);
  }

  /** IPv6 to IPv4 likewise. */
  lemma Payload6to4KeepsStatus(t: Env, p: Pkt6, addrs: seq<Byte>, rest: seq<Byte>)
    requires WellParsed6(p) && Offset6(FragField(p)) == 0
    requires Repairable(p.proto, p.data) && |p.data| + |rest| <= 65535
    ensures var r := Payload6to4(t, p, addrs);
            && r.Rewritten? && OnlyChecksumChanged(p.proto, p.data, r.data)
            && (Passes6(p.data + rest, p.raw[8..40], p.proto) <==> Passes4(r.data + rest, addrs, p.proto))
  {
    hide Words, Ones;
    var n := |p.data| + |rest|;
    TransportKeepsStatus(t.udp, p.proto, p.data, p.raw[8..40], addrs, Pseudo4(addrs, |p.data|, UDP), rest, n + p.proto);
    Pseudo6Short(p.raw[8..40], n, p.proto);
  }

  /** Later fragments, other protocols and, in `forward` mode, UDP without a checksum leave as they came. */
  lemma Untouched4to6(t: Env, p: Pkt4, addrs: seq<Byte>)
    requires WellParsed4(p)
    requires || Get16(p.raw, 6) % 0x2000 != 0 || p.proto !in {1, 6, 17}
             || (p.proto == 17 && |p.data| >= 8 && Get16(p.data, 6) == 0 && t.udp == ForwardZero)
    ensures Payload4to6(t, p, addrs) == Rewritten(p.data)
  {
  }

  lemma Untouched6to4(t: Env, p: Pkt6, addrs: seq<Byte>)
    requires WellParsed6(p)
    requires || (p.frag.Some? && Get16(p.frag.value, 2) / 8 != 0) || p.proto !in {6, 17, 58}
             || (p.proto == 17 && |p.data| >= 8 && Get16(p.data, 6) == 0 && t.udp == ForwardZero)
    ensures Payload6to4(t, p, addrs) == Rewritten(p.data)
  {
  }

  /** `calc` mode gives a datagram that is all there a checksum that passes, in both directions. */
  lemma CalcPasses(data: seq<Byte>, pseudo: nat)
    requires |data| >= 8 && Get16(data, 6) == 0 && pseudo > 0
    ensures Verifies(Put16(data, 6, NonZero(ChecksumOf(data, pseudo))), pseudo)
  {
    var ck := ChecksumOf(data, pseudo);
    ChecksumVerifies(data, 6, pseudo);
    NonZeroCongruent(ck, pseudo);
    var d := Put16(data, 6, ck);
    FieldSwap(d, 6, NonZero(ck), pseudo, pseudo);
    assert Put16(d, 6, NonZero(ck)) == Put16(data, 6, NonZero(ck));
  }

  /** What follows data in its datagram adds nothing to the checksum, the longer length included. */
  predicate Silent(data: seq<Byte>, rest: seq<Byte>) {
    (Words(data + rest) + |rest|) % 0xffff == Words(data) % 0xffff
  }

  /** After an even number of bytes, as in a first fragment, only the rest itself counts; an empty rest is silent. */
  lemma SilentEven(data: seq<Byte>, rest: seq<Byte>)
    ensures |data| % 2 == 0 ==> (Silent(data, rest) <==> (Words(rest) + |rest|) % 0xffff == 0)
    ensures rest == [] ==> Silent(data, rest)
  {
    hide Words;
    if rest == [] { assert data + rest == data; }
    if |data| % 2 == 0 {
      WordsConcat(data, rest);
      var x, y := Words(data), Words(rest) + |rest|;
      if Silent(data, rest) {
        var k := Multiple(x + y, x);
        Congruent(y, 0, k);
      }
      if y % 0xffff == 0 {
        var k := Multiple(y, 0);
        Congruent(x + y, x, k);
      }
    }
  }

  /**
   * `calc` mode sums the bytes at hand. The datagram, with whatever follows them, passes exactly if what follows is
   * silent: always for a datagram that is all there, and only by chance for a first fragment or a truncated copy.
   */
  lemma CalcStatus(data: seq<Byte>, rest: seq<Byte>, base: nat)
    requires |data| >= 8 && Get16(data, 6) == 0
    ensures var r := Put16(data, 6, NonZero(ChecksumOf(data, base + |data|)));
            Verifies(r + rest, base + |data| + |rest|) <==> Silent(data, rest)
  {
    var x, y := base + |data|, base + |data| + |rest|;
    var ck := NonZero(ChecksumOf(data, x));
    var r := Put16(data, 6, ck);
    CalcPasses(data, x);
    hide Words, Ones, Verifies, ChecksumOf, NonZero;
    VerifiesMeans(r, x);
    VerifiesMeans(r + rest, y);
    WordsPut16(data, 6, ck);
    PutThenAppend(data, 6, ck, rest);
    WordsPut16(data + rest, 6, ck);
    assert Get16(data + rest, 6) == 0;
    var k := Multiple(Words(r) + x, 0);
    if Silent(data, rest) {
      var j := Multiple(Words(data + rest) + |rest|, Words(data));
      Congruent(Words(r + rest) + y, 0, k + j);
    }
    if Verifies(r + rest, y) {
      var j := Multiple(Words(r + rest) + y, 0);
      Congruent(Words(data + rest) + |rest|, Words(data), j - k);
    }
  }

  /**
   * IPv4 to IPv6 in `calc` mode: the first or only fragment of a UDP datagram without checksum, followed by any rest.
   */
  lemma CalcStatus4to6(t: Env, p: Pkt4, addrs: seq<Byte>, rest: seq<Byte>)
    requires WellParsed4(p) && Offset4(Get16(p.raw, 6)) == 0 && t.udp == CalcZero && p.proto == UDP
    requires |p.data| >= 8 && Get16(p.data, 6) == 0 && |p.data| + |rest| <= 65535
    ensures var r := Payload4to6(t, p, addrs);
            && r.Rewritten? && OnlyChecksumChanged(UDP, p.data, r.data)
            && (Passes6(r.data + rest, addrs, UDP) <==> Silent(p.data, rest))
  {
    hide Words, Ones, Verifies, Silent, ChecksumOf;
    CalcStatus(p.data, rest, Words(addrs) + UDP);
    Pseudo6Short(addrs, |p.data|, UDP);
    Pseudo6Short(addrs, |p.data| + |rest|, UDP);
    NonZeroCongruent(ChecksumOf(p.data, Pseudo6(addrs, |p.data|, UDP)), 0);
  }

  /** IPv6 to IPv4 likewise. */
  lemma CalcStatus6to4(t: Env, p: Pkt6, addrs: seq<Byte>, rest: seq<Byte>)
    requires WellParsed6(p) && Offset6(FragField(p)) == 0 && t.udp == CalcZero && p.proto == UDP
    requires |p.data| >= 8 && Get16(p.data, 6) == 0 && |p.data| + |rest| <= 65535
    ensures var r := Payload6to4(t, p, addrs);
            && r.Rewritten? && OnlyChecksumChanged(UDP, p.data, r.data)
            && (Passes4(r.data + rest, addrs, UDP) <==> Silent(p.data, rest))
  {
    hide Words, Ones, Verifies, Silent, ChecksumOf;
    CalcStatus(p.data, rest, Words(addrs) + UDP);
    NonZeroCongruent(ChecksumOf(p.data, Pseudo4(addrs, |p.data|, UDP)), 0);
  }

  // ----- Echo messages -----

  function AllZero(b: seq<Byte>): bool {
    forall i :: 0 <= i < |b| ==> b[i] == 0
  }

  lemma WordsAllZero(b: seq<Byte>)
    ensures Words(b) == 0 <==> AllZero(b)
  {
    WordsZero(b);
  }

  /** The sum of an echo message after its type and checksum are replaced. */
  lemma EchoWords(data: seq<Byte>, rest: seq<Byte>, typ: Byte, ck: U16)
    requires |data| >= ICMP_HDR
    ensures Words(Put16(data[0 := typ], 2, ck) + rest)
         == Words(data + rest) + (typ - data[0]) * 0x100 + ck - Get16(data, 2)
  {
    var d := data[0 := typ];
    WordsPutFirst(data + rest, typ);
    assert (data + rest)[0 := typ] == d + rest;
    WordsPut16(d + rest, 2, ck);
    PutThenAppend(d, 2, ck, rest);
  }

  /**
   * An echo message translated to ICMPv6 verifies under the new pseudo-header exactly when it verified before or was
   * all zero bytes, whatever follows the bytes at hand.
   */
  lemma Echo4to6Status(data: seq<Byte>, rest: seq<Byte>, pseudo: nat)
    requires |data| >= ICMP_HDR && pseudo > 0 && (data[0] == 8 || data[0] == 0)
    ensures Verifies(Echo4to6(data, pseudo) + rest, pseudo) <==> Verifies(data + rest, 0) || AllZero(data + rest)
  {
    hide Words, Ones, Verifies;
    var typ := if data[0] == 8 then 128 else 129;
    var x := 0xffff - Get16(data, 2) + pseudo + if data[0] == 8 then 0x7800 else 0x8100;
    EchoWords(data, rest, typ, 0xffff - Ones(x));
    var k := OnesSplit(x);
    Congruent(Words(Echo4to6(data, pseudo) + rest) + pseudo, Words(data + rest), k);
    VerifiesMeans(data + rest, 0);
    VerifiesMeans(Echo4to6(data, pseudo) + rest, pseudo);
    WordsAllZero(data + rest);
  }

  /** An ICMPv6 echo reply with no content: its ICMPv4 form is nothing but zero bytes. */
  predicate BlankReply(d: seq<Byte>) {
    |d| >= 4 && d[0] == 129 && d[1] == 0 && AllZero(d[4..])
  }

  /**
   * An echo message translated to ICMPv4 verifies exactly when it verified before and is not a blank reply: that one
   * gets checksum 0 where 0xffff would be needed.
   */
  lemma Echo6to4Status(data: seq<Byte>, rest: seq<Byte>, pseudo: nat)
    requires |data| >= ICMP_HDR && pseudo > 0 && (data[0] == 128 || data[0] == 129)
    ensures Verifies(Echo6to4(data, pseudo) + rest, 0) <==> Verifies(data + rest, pseudo) && !BlankReply(data + rest)
  {
    hide Words, Ones, Verifies;
    var d, e := data + rest, Echo6to4(data, pseudo) + rest;
    var delta := if data[0] == 128 then 0x7800 else 0x8100;
    var x := 0xffff - Get16(data, 2) + (0xffff - Ones(pseudo)) + (0xffff - delta);
    EchoWords(data, rest, if data[0] == 128 then 8 else 0, 0xffff - Ones(x));
    var k := OnesSplit(x);
    var j := OnesSplit(pseudo);
    Congruent(Words(e), Words(d) + pseudo, k - j - 2);
    VerifiesMeans(d, pseudo);
    VerifiesMeans(e, 0);
    WordsAllZero(e);
    if Verifies(d, pseudo) {
      BlankBecomesZero(data, rest, pseudo);
    }
  }

  /** For a message that verified, the translated one is all zero exactly if it was a blank reply. */
  lemma BlankBecomesZero(data: seq<Byte>, rest: seq<Byte>, pseudo: nat)
    requires |data| >= ICMP_HDR && (data[0] == 128 || data[0] == 129)
    requires Words(Echo6to4(data, pseudo) + rest) % 0xffff == 0
    ensures AllZero(Echo6to4(data, pseudo) + rest) <==> BlankReply(data + rest)
  {
    var d, e := data + rest, Echo6to4(data, pseudo) + rest;
    assert forall i :: 4 <= i < |d| ==> e[i] == d[i] == d[4..][i - 4];
    if BlankReply(d) {
      var tail := e[4..];
      assert e == e[..4] + tail;
      WordsConcat(e[..4], tail);
      WordsAllZero(tail);
      var ck := Get16(e, 2);
      assert Words(e[..4]) == ck by {
        assert e[..4][2..] == e[2..4];
        assert e[..4][2..][2..] == [];
      }
      var x := 0xffff - Get16(data, 2) + (0xffff - Ones(pseudo)) + (0xffff - 0x8100);
      assert ck == 0xffff - Ones(x) && Ones(x) > 0;
    }
  }

  /** Only type and checksum of an echo message change, in either direction. */
  lemma EchoKeepsContent(data: seq<Byte>, pseudo: nat)
    requires |data| >= ICMP_HDR
    ensures |Echo4to6(data, pseudo)| == |data| == |Echo6to4(data, pseudo)|
    ensures forall i :: 0 <= i < |data| && i != 0 && i != 2 && i != 3 ==>
              Echo4to6(data, pseudo)[i] == data[i] == Echo6to4(data, pseudo)[i]
    ensures data[0] == 8 ==> Echo4to6(data, pseudo)[0] == 128
    ensures data[0] == 0 ==> Echo4to6(data, pseudo)[0] == 129
    ensures data[0] == 128 ==> Echo6to4(data, pseudo)[0] == 8
    ensures data[0] == 129 ==> Echo6to4(data, pseudo)[0] == 0
  {
  }

  /**
   * Every accepted ICMPv4 echo message verifies as an ICMPv6 message; if it is fragmented on the way, once reassembled.
   */
  lemma EchoPasses4to6(t: Env, p: Pkt4, addrs: seq<Byte>)
    requires WellParsed4(p) && Accepted4(p) && p.proto == ICMP && (p.data[0] == 8 || p.data[0] == 0)
    ensures var r := Payload4to6(t, p, addrs);
            r.Rewritten? && |r.data| == |p.data| && Passes6(r.data, addrs, ICMP6)
  {
    hide Words, Ones, Verifies, Echo4to6, Pseudo6;
    var ps := Pseudo6(addrs, |p.data|, ICMP6);
    Pseudo6Short(addrs, |p.data|, ICMP6);
    Echo4to6Status(p.data, [], ps);
    assert p.data + [] == p.data && Echo4to6(p.data, ps) + [] == Echo4to6(p.data, ps);
    EchoKeepsContent(p.data, ps);
  }

  /** Every accepted ICMPv6 echo message verifies as an ICMPv4 message, except the blank reply. */
  lemma EchoPasses6to4(t: Env, p: Pkt6, addrs: seq<Byte>)
    requires WellParsed6(p) && Accepted6(p) && p.proto == ICMP6 && (p.data[0] == 128 || p.data[0] == 129)
    ensures var r := Payload6to4(t, p, addrs);
            r.Rewritten? && |r.data| == |p.data| && (Verifies(r.data, 0) <==> !BlankReply(p.data))
  {
    hide Words, Ones, Verifies, Echo6to4, Pseudo6;
    var ps := Pseudo6(p.raw[8..40], |p.data|, ICMP6);
    Pseudo6Short(p.raw[8..40], |p.data|, ICMP6);
    Echo6to4Status(p.data, [], ps);
    assert p.data + [] == p.data && Echo6to4(p.data, ps) + [] == Echo6to4(p.data, ps);
    EchoKeepsContent(p.data, ps);
  }
}
