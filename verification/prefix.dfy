/** Address prefixes of both families. */
module Prefixes {
  import opened Bytes
  import opened Bits

  datatype Prefix4 = Prefix4(addr: Addr4, bits: nat)
  datatype Prefix6 = Prefix6(addr: Addr6, bits: nat)

  function Val4(a: Addr4): U32 {
    Get32(a, 0)
  }

  /** The last four bytes of an IPv6 address. */
  function LowWord(a: Addr6): U32 {
    Get32(a, 12)
  }

  lemma EncodeVal4(a: Addr4)
    ensures Enc32(Val4(a)) == a
  {
    var v := Val4(a);
    assert v / 0x1_0000 == Get16(a, 0) && v % 0x1_0000 == Get16(a, 2);
    EncodeGet16(a, 0);
    EncodeGet16(a, 2);
    assert a == a[0..2] + a[2..4];
  }

  lemma EncodeGet16(b: seq<Byte>, i: nat)
    requires i + 2 <= |b|
    ensures Enc16(Get16(b, i)) == b[i..i + 2]
  {
  }

  lemma Val4Injective(a: Addr4, b: Addr4)
    requires Val4(a) == Val4(b)
    ensures a == b
  {
    EncodeVal4(a);
    EncodeVal4(b);
  }

  lemma EncodeLowWord(a: Addr6)
    ensures Enc32(LowWord(a)) == a[12..]
  {
    EncodeVal4(a[12..]);
  }

  predicate Contains4(p: Prefix4, a: Addr4) {
    p.bits <= 32 && Shr(Val4(a), 32 - p.bits) == Shr(Val4(p.addr), 32 - p.bits)
  }

  predicate Masked4(p: Prefix4) {
    p.bits <= 32 && Low(Val4(p.addr), 32 - p.bits) == 0
  }

  /** Whole bytes first, then the bits of the byte the prefix ends in; beyond 96 bits, those of the last word. */
  predicate Contains6(p: Prefix6, a: Addr6) {
    if p.bits <= 96 then
      && a[..p.bits / 8] == p.addr[..p.bits / 8]
      && Shr(a[p.bits / 8], 8 - p.bits % 8) == Shr(p.addr[p.bits / 8], 8 - p.bits % 8)
    else
      p.bits <= 128 && a[..12] == p.addr[..12] && Shr(LowWord(a), 128 - p.bits) == Shr(LowWord(p.addr), 128 - p.bits)
  }

  predicate Masked6(p: Prefix6) {
    if p.bits <= 96 then
      Low(p.addr[p.bits / 8], 8 - p.bits % 8) == 0 && forall i :: p.bits / 8 < i < 16 ==> p.addr[i] == 0
    else p.bits <= 128 && Low(LowWord(p.addr), 128 - p.bits) == 0
  }

  predicate Overlaps6(p: Prefix6, q: Prefix6) {
    if p.bits <= q.bits then Contains6(p, q.addr) else Contains6(q, p.addr)
  }

  /** Prefixes of the same length are equal or disjoint. */
  lemma SameLength4(p: Prefix4, q: Prefix4, a: Addr4)
    requires Masked4(p) && Masked4(q) && p.bits == q.bits && Contains4(p, a) && Contains4(q, a)
    ensures p == q
  {
    hide Low, Shr;
    SameHigh(Val4(p.addr), Val4(q.addr), 32 - p.bits);
    Val4Injective(p.addr, q.addr);
  }

  lemma FullLength4(p: Prefix4, a: Addr4)
    requires p.bits == 32
    ensures Contains4(p, a) <==> a == p.addr
  {
    if Contains4(p, a) { Val4Injective(a, p.addr); }
  }

  lemma FullLength6(p: Prefix6, a: Addr6)
    requires p.bits == 128
    ensures Contains6(p, a) <==> a == p.addr
  {
    if Contains6(p, a) {
      EncodeLowWord(a);
      EncodeLowWord(p.addr);
      assert a == a[..12] + a[12..] && p.addr == p.addr[..12] + p.addr[12..];
    }
  }

  /** A byte shifted out entirely. */
  lemma ByteGone(x: Byte)
    ensures Shr(x, 8) == 0
  {
    Pow2Values();
    ShrZero(x, 8);
  }

  /** Agreement on a longer prefix is agreement on a shorter one. */
  lemma Shorter6(a: Addr6, b: Addr6, m: nat, n: nat)
    requires m <= n && Contains6(Prefix6(b, n), a)
    ensures Contains6(Prefix6(b, m), a)
  {
    hide Shr, Get32;
    if m <= 96 {
      var k := m / 8;
      if n <= 96 {
        assert a[..k] == a[..n / 8][..k] && b[..k] == b[..n / 8][..k];
        if k < n / 8 {
          assert a[k] == a[..n / 8][k] && b[k] == b[..n / 8][k];
        } else {
          ShrMonotone(a[k], b[k], 8 - n % 8, 8 - m % 8);
        }
      } else {
        assert a[..k] == a[..12][..k] && b[..k] == b[..12][..k];
        if k < 12 {
          assert a[k] == a[..12][k] && b[k] == b[..12][k];
        } else {
          ByteGone(a[12]);
          ByteGone(b[12]);
        }
      }
    } else {
      ShrMonotone(LowWord(a), LowWord(b), 128 - n, 128 - m);
    }
  }

  lemma Symmetric6(a: Addr6, b: Addr6, n: nat)
    ensures Contains6(Prefix6(b, n), a) <==> Contains6(Prefix6(a, n), b)
  {
  }

  lemma Transitive6(a: Addr6, b: Addr6, d: Addr6, n: nat)
    requires Contains6(Prefix6(b, n), a) && Contains6(Prefix6(d, n), a)
    ensures Contains6(Prefix6(b, n), d)
  {
  }

  /** Two prefixes that contain the same address overlap. */
  lemma CommonMemberOverlaps(p: Prefix6, q: Prefix6, a: Addr6)
    requires Contains6(p, a) && Contains6(q, a)
    ensures Overlaps6(p, q)
  {
    hide Contains6;
    if p.bits <= q.bits {
      Shorter6(a, q.addr, p.bits, q.bits);
      Transitive6(a, p.addr, q.addr, p.bits);
    } else {
      Shorter6(a, p.addr, q.bits, p.bits);
      Transitive6(a, q.addr, p.addr, q.bits);
    }
  }
}
