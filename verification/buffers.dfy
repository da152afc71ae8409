/** Writing into byte buffers in place. */
module Buffers {
  import opened Bytes
  import opened Checksum
  import opened Packet
  import opened Xlate

  /** s with the bytes from `at` on replaced by c. */
  function Splice(s: seq<Byte>, at: nat, c: seq<Byte>): (r: seq<Byte>)
    requires at + |c| <= |s|
    ensures |r| == |s|
  {
    s[..at] + c + s[at + |c|..]
  }

  lemma SpliceReads(s: seq<Byte>, at: nat, c: seq<Byte>)
    requires at + |c| <= |s|
    ensures Splice(s, at, c)[at..at + |c|] == c
    ensures Splice(s, at, c)[..at] == s[..at] && Splice(s, at, c)[at + |c|..] == s[at + |c|..]
  {
  }

  /** Two adjacent writes are one. */
  lemma SpliceNext(s: seq<Byte>, at: nat, c: seq<Byte>, d: seq<Byte>)
    requires at + |c| + |d| <= |s|
    ensures Splice(Splice(s, at, c), at + |c|, d) == Splice(s, at, c + d)
  {
  }

  /** A write inside an earlier one. */
  lemma SpliceInside(s: seq<Byte>, at: nat, c: seq<Byte>, k: nat, d: seq<Byte>)
    requires at + |c| <= |s| && k + |d| <= |c|
    ensures Splice(Splice(s, at, c), at + k, d) == Splice(s, at, Splice(c, k, d))
  {
    var x, y := Splice(Splice(s, at, c), at + k, d), Splice(s, at, Splice(c, k, d));
    forall i | 0 <= i < |s| ensures x[i] == y[i] {}
  }

  lemma Put16Splices(s: seq<Byte>, at: nat, v: U16)
    requires at + 2 <= |s|
    ensures Splice(s, at, Enc16(v)) == Put16(s, at, v)
  {
  }

  /** copy(b[at:], src) */
  method Copy(b: array<Byte>, at: nat, src: seq<Byte>)
    requires at + |src| <= b.Length
    modifies b
    ensures b[..] == Splice(old(b[..]), at, src)
  {
    hide Splice;
    NothingSplices(b[..], at);
    for i := 0 to |src|
      invariant b[..] == Splice(old(b[..]), at, src[..i])
    {
      SpliceNext(old(b[..]), at, src[..i], [src[i]]);
      assert src[..i + 1] == src[..i] + [src[i]];
      PutByte(b, at + i, src[i]);
    }
    assert src[..|src|] == src;
  }

  method PutByte(b: array<Byte>, at: nat, v: Byte)
    requires at < b.Length
    modifies b
    ensures b[..] == Splice(old(b[..]), at, [v])
  {
    b[at] := v;
  }

  lemma NothingSplices(s: seq<Byte>, at: nat)
    requires at <= |s|
    ensures Splice(s, at, []) == s
  {
  }

  method PutU16(b: array<Byte>, at: nat, v: U16)
    requires at + 2 <= b.Length
    modifies b
    ensures b[..] == Splice(old(b[..]), at, Enc16(v))
  {
    b[at] := v / 0x100;
    b[at + 1] := v % 0x100;
  }

  method PutU32(b: array<Byte>, at: nat, v: U32)
    requires at + 4 <= b.Length
    modifies b
    ensures b[..] == Splice(old(b[..]), at, Enc32(v))
  {
    hide Splice, Get16, Get32;
    PutU16(b, at, v / 0x1_0000);
    PutU16(b, at + 2, v % 0x1_0000);
    SpliceNext(old(b[..]), at, Enc16(v / 0x1_0000), Enc16(v % 0x1_0000));
  }

  /** The fixed IPv6 header, field by field. */
  method WriteHdr6(b: array<Byte>, at: nat, tc: Byte, payloadLen: U16, nextHeader: Byte, hop: Byte, src: Addr6,
                   dst: Addr6)
    requires at + IP6_HDR <= b.Length
    modifies b
    ensures b[..] == Splice(old(b[..]), at, Hdr6(tc, payloadLen, nextHeader, hop, src, dst))
    ensures b[at..at + 4] == Enc32(0x6000_0000 + tc * 0x10_0000)
  {
    hide Splice, Get16, Get32, Enc16, Enc32;
    ghost var s := b[..];
    var w := 0x6000_0000 + tc * 0x10_0000;
    PutU32(b, at, w);
    PutU16(b, at + 4, payloadLen);
    PutByte(b, at + 6, nextHeader);
    PutByte(b, at + 7, hop);
    Copy(b, at + 8, src);
    Copy(b, at + 24, dst);
    SpliceNext(s, at, Enc32(w), Enc16(payloadLen));
    SpliceNext(s, at, Enc32(w) + Enc16(payloadLen), [nextHeader]);
    SpliceNext(s, at, Enc32(w) + Enc16(payloadLen) + [nextHeader], [hop]);
    SpliceNext(s, at, Enc32(w) + Enc16(payloadLen) + [nextHeader] + [hop], src);
    SpliceNext(s, at, Enc32(w) + Enc16(payloadLen) + [nextHeader] + [hop] + src, dst);
    VersionWord(tc);
    assert Enc32(w) + Enc16(payloadLen) + [nextHeader] + [hop] + src + dst
           == Hdr6(tc, payloadLen, nextHeader, hop, src, dst);
    SpliceReads(s, at, Hdr6(tc, payloadLen, nextHeader, hop, src, dst));
    assert b[at..at + 4] == b[..][at..at + IP6_HDR][..4];
  }

  lemma VersionWord(tc: Byte)
    ensures Enc32(0x6000_0000 + tc * 0x10_0000) == [0x60 + tc / 0x10, tc % 0x10 * 0x10, 0, 0]
  {
  }

  /** The IPv4 header with a zero checksum. */
  method WriteHdr4(b: array<Byte>, at: nat, tos: Byte, total: U16, id: U16, fo: U16, ttl: Byte, proto: Byte, src: Addr4,
                   dst: Addr4)
    requires at + IP4_HDR <= b.Length
    modifies b
    ensures b[..] == Splice(old(b[..]), at, Hdr4(tos, total, id, fo, ttl, proto, src, dst))
  {
    hide Splice, Get16, Enc16;
    ghost var s := b[..];
    Copy(b, at, [0x45, tos]);
    PutU16(b, at + 2, total);
    PutU16(b, at + 4, id);
    PutU16(b, at + 6, fo);
    Copy(b, at + 8, [ttl, proto, 0, 0]);
    Copy(b, at + 12, src);
    Copy(b, at + 16, dst);
    SpliceNext(s, at, [0x45, tos], Enc16(total));
    SpliceNext(s, at, [0x45, tos] + Enc16(total), Enc16(id));
    SpliceNext(s, at, [0x45, tos] + Enc16(total) + Enc16(id), Enc16(fo));
    SpliceNext(s, at, [0x45, tos] + Enc16(total) + Enc16(id) + Enc16(fo), [ttl, proto, 0, 0]);
    SpliceNext(s, at, [0x45, tos] + Enc16(total) + Enc16(id) + Enc16(fo) + [ttl, proto, 0, 0], src);
    SpliceNext(s, at, [0x45, tos] + Enc16(total) + Enc16(id) + Enc16(fo) + [ttl, proto, 0, 0] + src, dst);
  }

  /** Stores the header checksum of the header just written. */
  method SealHdr4(b: array<Byte>, at: nat, ghost s: seq<Byte>, ghost h: seq<Byte>)
    requires at + IP4_HDR <= b.Length == |s| && |h| == IP4_HDR && b[..] == Splice(s, at, h)
    modifies b
    ensures b[..] == Splice(s, at, Seal4(h))
  {
    hide Splice, ChecksumOf, Get16;
    SpliceReads(s, at, h);
    assert b[at..at + IP4_HDR] == h;
    var ck := Checksum.Checksum(b[at..at + IP4_HDR], 0);
    PutU16(b, at + 10, ck);
    SpliceInside(s, at, h, 10, Enc16(ck));
    Put16Splices(h, 10, ck);
  }

  /** An ICMP message: type, code, second word, payload, then the checksum over all of it. */
  method WriteIcmp(b: array<Byte>, at: nat, typ: Byte, code: Byte, word: U32, payload: seq<Byte>, extra: U64,
                   ghost pseudo: nat)
    requires at + ICMP_HDR + |payload| <= b.Length && |payload| <= 65535 && extra <= ROOM && Ones(extra) == Ones(pseudo)
    modifies b
    ensures b[..] == Splice(old(b[..]), at, IcmpBody(typ, code, word, payload, pseudo))
  {
    hide Splice, ChecksumOf, Get16, Get32, Enc16, Enc32;
    ghost var s := b[..];
    Copy(b, at, [typ, code, 0, 0]);
    PutU32(b, at + 4, word);
    Copy(b, at + 8, payload);
    SpliceNext(s, at, [typ, code, 0, 0], Enc32(word));
    SpliceNext(s, at, [typ, code, 0, 0] + Enc32(word), payload);
    ghost var zeroed := [typ, code, 0, 0] + Enc32(word) + payload;
    SpliceReads(s, at, zeroed);
    var n := ICMP_HDR + |payload|;
    assert b[at..at + n] == zeroed;
    var ck := Checksum.Checksum(b[at..at + n], extra);
    SameChecksum(zeroed, extra, pseudo);
    PutU16(b, at + 2, ck);
    SpliceInside(s, at, zeroed, 2, Enc16(ck));
    Put16Splices(zeroed, 2, ck);
  }

  /** Checksums see only the one's complement value of the pseudo-header sum. */
  lemma SameChecksum(b: seq<Byte>, x: nat, y: nat)
    requires Ones(x) == Ones(y)
    ensures ChecksumOf(b, x) == ChecksumOf(b, y) && (Verifies(b, x) <==> Verifies(b, y))
  {
    hide Ones, Words;
    OnesAddLeft(x, y, Words(b));
  }

  method WriteFragHdr(b: array<Byte>, at: nat, nextHeader: Byte, field: U16, id: U32)
    requires at + FRAG_HDR <= b.Length
    modifies b
    ensures b[..] == Splice(old(b[..]), at, FragHdr(nextHeader, field, id))
  {
    hide Splice, Get16, Get32, Enc16, Enc32;
    ghost var s := b[..];
    Copy(b, at, [nextHeader, 0]);
    PutU16(b, at + 2, field);
    PutU32(b, at + 4, id);
    SpliceNext(s, at, [nextHeader, 0], Enc16(field));
    SpliceNext(s, at, [nextHeader, 0] + Enc16(field), Enc32(id));
  }

  /** pseudo4: the unfolded sum, which has the same one's complement value as the specification's. */
  method PseudoSum4(addrs: seq<Byte>, length: nat, proto: Byte) returns (r: U64)
    requires |addrs| == 8 && length <= 0x1_ffff
    ensures r <= ROOM && Ones(r) == Ones(Pseudo4(addrs, length, proto))
  {
    hide Ones, Words;
    var a := Sum16(addrs[..4], 0);
    var b := Sum16(addrs[4..], 0);
    PseudoSum(addrs, 4, a, b, length + proto);
    r := a + b + length + proto;
  }

  /** pseudo6. */
  method PseudoSum6(addrs: seq<Byte>, length: nat, nextHeader: Byte) returns (r: U64)
    requires |addrs| == 32 && length <= 0x1_ffff
    ensures r <= ROOM && Ones(r) == Ones(Pseudo6(addrs, length, nextHeader))
  {
    hide Ones, Words;
    var a := Sum16(addrs[..16], 0);
    var b := Sum16(addrs[16..], 0);
    var l := length % 0x1_0000_0000 / 0x1_0000 + length % 0x1_0000;
    PseudoSum(addrs, 16, a, b, l + nextHeader);
    r := a + b + l + nextHeader;
  }

  lemma PseudoSum(addrs: seq<Byte>, k: nat, a: nat, b: nat, rest: nat)
    requires k <= |addrs| && k % 2 == 0 && Ones(a) == Ones(Words(addrs[..k])) && Ones(b) == Ones(Words(addrs[k..]))
    ensures Ones(a + b + rest) == Ones(Words(addrs) + rest)
  {
    hide Ones, Words;
    var x, y := Words(addrs[..k]), Words(addrs[k..]);
    OnesAddLeft(a, x, b + rest);
    OnesAddLeft(b, y, x + rest);
    assert addrs[..k] + addrs[k..] == addrs;
    WordsConcat(addrs[..k], addrs[k..]);
    assert a + (b + rest) == a + b + rest && x + (b + rest) == b + (x + rest) && y + (x + rest) == Words(addrs) + rest;
  }
}
