/** Prefixes read bit by bit, and the address ranges that the translator treats specially. */
module PrefixBits {
  import opened Bytes
  import opened NetUtil
  import opened Bits
  import opened Prefixes

  /** Bit i of an address, the most significant one first. */
  predicate Bit(a: seq<Byte>, i: nat)
    requires i < 8 * |a|
  {
    TestBit(a[i / 8], 7 - i % 8)
  }

  /** The first n bits are the same. */
  ghost predicate Agree(a: seq<Byte>, b: seq<Byte>, n: nat)
    requires |a| == |b| && n <= 8 * |a|
  {
    forall i: nat :: i < n ==> Bit(a, i) == Bit(b, i)
  }

  // ----- Bits of numbers -----

  lemma {:induction false} SameBits(x: nat, y: nat)
    requires forall i: nat :: TestBit(x, i) == TestBit(y, i)
    ensures x == y
    decreases x + y
  {
    assert TestBit(x, 0) == TestBit(y, 0);
    if x + y > 0 {
      forall i: nat ensures TestBit(x / 2, i) == TestBit(y / 2, i) {
        assert TestBit(x, i + 1) == TestBit(y, i + 1);
      }
      SameBits(x / 2, y / 2);
    }
  }

  ghost predicate SameFrom(x: nat, y: nat, k: nat) {
    forall i: nat :: i >= k ==> TestBit(x, i) == TestBit(y, i)
  }

  ghost predicate ZeroBelow(x: nat, k: nat) {
    forall i: nat :: i < k ==> !TestBit(x, i)
  }

  lemma SameFromHalf(x: nat, y: nat, k: nat)
    requires k > 0
    ensures SameFrom(x, y, k) <==> SameFrom(x / 2, y / 2, k - 1)
  {
    if SameFrom(x, y, k) {
      forall i: nat | i >= k - 1 ensures TestBit(x / 2, i) == TestBit(y / 2, i) {
        assert TestBit(x, i + 1) == TestBit(y, i + 1);
      }
    }
    if SameFrom(x / 2, y / 2, k - 1) {
      forall i: nat | i >= k ensures TestBit(x, i) == TestBit(y, i) {
        assert TestBit(x / 2, i - 1) == TestBit(y / 2, i - 1);
      }
    }
  }

  lemma ZeroBelowHalf(x: nat, k: nat)
    requires k > 0
    ensures ZeroBelow(x, k) <==> x % 2 == 0 && ZeroBelow(x / 2, k - 1)
  {
    if ZeroBelow(x, k) {
      assert !TestBit(x, 0);
      forall i: nat | i < k - 1 ensures !TestBit(x / 2, i) {
        assert !TestBit(x, i + 1);
      }
    }
    if x % 2 == 0 && ZeroBelow(x / 2, k - 1) {
      forall i: nat | i < k ensures !TestBit(x, i) {
        if i > 0 { assert !TestBit(x / 2, i - 1); }
      }
    }
  }

  /** Shifting right keeps exactly the bits from k on. */
  lemma {:induction false} ShrBits(x: nat, y: nat, k: nat)
    ensures Shr(x, k) == Shr(y, k) <==> SameFrom(x, y, k)
    decreases k
  {
    hide SameFrom;
    if k == 0 {
      if SameFrom(x, y, k) { SameEverywhere(x, y); } else { SameAsItself(x); }
    } else {
      ShrBits(x / 2, y / 2, k - 1);
      SameFromHalf(x, y, k);
    }
  }

  lemma SameEverywhere(x: nat, y: nat)
    requires SameFrom(x, y, 0)
    ensures x == y
  {
    SameBits(x, y);
  }

  lemma SameAsItself(x: nat)
    ensures SameFrom(x, x, 0)
  {
  }

  /** The lower part is zero exactly if its bits are. */
  lemma {:induction false} LowBits(x: nat, k: nat)
    ensures Low(x, k) == 0 <==> ZeroBelow(x, k)
    decreases k
  {
    if k > 0 {
      LowBits(x / 2, k - 1);
      ZeroBelowHalf(x, k);
    }
  }

  lemma {:induction false} HighBits(x: nat, k: nat, i: nat)
    requires x < Pow2(k) && i >= k
    ensures !TestBit(x, i)
    decreases k
  {
    if k == 0 { ZeroBits(i); } else { HighBits(x / 2, k - 1, i - 1); }
  }

  /** A number of two parts: the lower k bits are those of lo, the others those of hi. */
  lemma {:induction false} PartBits(hi: nat, lo: nat, k: nat, i: nat)
    requires lo < Pow2(k)
    ensures TestBit(hi * Pow2(k) + lo, i) == if i < k then TestBit(lo, i) else TestBit(hi, i - k)
    decreases k
  {
    if k > 0 {
      var x := hi * Pow2(k) + lo;
      assert x == 2 * (hi * Pow2(k - 1)) + lo;
      assert x / 2 == hi * Pow2(k - 1) + lo / 2 && x % 2 == lo % 2;
      if i > 0 { PartBits(hi, lo / 2, k - 1, i - 1); }
    }
  }

  lemma ByteBits(hi: nat, lo: Byte, i: nat)
    ensures TestBit(hi * 0x100 + lo, i) == if i < 8 then TestBit(lo, i) else TestBit(hi, i - 8)
  {
    Pow2Values();
    PartBits(hi, lo, 8, i);
  }

  /** The bits of a big-endian word are those of its bytes. */
  lemma WordBits(b: seq<Byte>, at: nat, i: nat)
    requires at + 4 <= |b| && i < 32
    ensures TestBit(Get32(b, at), i) == TestBit(b[at + 3 - i / 8], i % 8)
  {
    hide TestBit;
    var b0: nat, b1: nat := b[at], b[at] as int * 0x100 + b[at + 1];
    var b2: nat := (b[at] as int * 0x100 + b[at + 1]) * 0x100 + b[at + 2];
    assert Get32(b, at) == b2 * 0x100 + b[at + 3];
    ByteBits(b2, b[at + 3], i);
    if i >= 8 { ByteBits(b1, b[at + 2], i - 8); }
    if i >= 16 { ByteBits(b0, b[at + 1], i - 16); }
  }

  lemma WordHigh(b: seq<Byte>, at: nat, i: nat)
    requires at + 4 <= |b| && i >= 32
    ensures !TestBit(Get32(b, at), i)
  {
    Pow2Values();
    HighBits(Get32(b, at), 32, i);
  }

  // ----- Prefixes -----

  lemma Bit4(a: Addr4, i: nat)
    requires i < 32
    ensures Bit(a, i) == TestBit(Val4(a), 31 - i)
  {
    WordBits(a, 0, 31 - i);
  }

  /** A prefix contains the addresses that share its first bits. */
  lemma Contains4Bits(p: Prefix4, a: Addr4)
    ensures Contains4(p, a) <==> p.bits <= 32 && Agree(p.addr, a, p.bits)
  {
    hide Shr, Bit, TestBit, Get32;
    if p.bits <= 32 {
      ShrBits(Val4(a), Val4(p.addr), 32 - p.bits);
      if Contains4(p, a) {
        forall i: nat | i < p.bits ensures Bit(p.addr, i) == Bit(a, i) {
          Bit4(a, i);
          Bit4(p.addr, i);
        }
      }
      if Agree(p.addr, a, p.bits) {
        forall i: nat | i >= 32 - p.bits ensures TestBit(Val4(a), i) == TestBit(Val4(p.addr), i) {
          if i >= 32 {
            WordHigh(a, 0, i);
            WordHigh(p.addr, 0, i);
          } else {
            Bit4(a, 31 - i);
            Bit4(p.addr, 31 - i);
          }
        }
      }
    }
  }

  ghost predicate ZeroFrom(a: seq<Byte>, n: nat) {
    forall i: nat :: n <= i < 8 * |a| ==> !Bit(a, i)
  }

  /** It is masked if the others are zero. */
  lemma Masked4Bits(p: Prefix4)
    ensures Masked4(p) <==> p.bits <= 32 && ZeroFrom(p.addr, p.bits)
  {
    hide Low, Bit, TestBit, Get32;
    if p.bits <= 32 {
      LowBits(Val4(p.addr), 32 - p.bits);
      if Masked4(p) {
        forall i: nat | p.bits <= i < 32 ensures !Bit(p.addr, i) { Bit4(p.addr, i); }
      }
      if ZeroFrom(p.addr, p.bits) {
        forall i: nat | i < 32 - p.bits ensures !TestBit(Val4(p.addr), i) { Bit4(p.addr, 31 - i); }
      }
    }
  }

  // ----- IPv6 -----

  lemma ByteAt(a: seq<Byte>, b: seq<Byte>, k: nat)
    requires |a| == |b| && k < |a|
    requires forall i: nat :: 8 * k <= i < 8 * k + 8 ==> Bit(a, i) == Bit(b, i)
    ensures a[k] == b[k]
  {
    hide TestBit;
    Pow2Values();
    forall i: nat ensures TestBit(a[k], i) == TestBit(b[k], i) {
      if i >= 8 {
        HighBits(a[k], 8, i);
        HighBits(b[k], 8, i);
      } else {
        assert Bit(a, 8 * k + (7 - i)) == Bit(b, 8 * k + (7 - i));
      }
    }
    SameBits(a[k], b[k]);
  }

  /** Whole bytes agree exactly if all their bits do. */
  lemma WholeBytes(a: seq<Byte>, b: seq<Byte>, k: nat)
    requires |a| == |b| && k <= |a|
    ensures a[..k] == b[..k] <==> Agree(a, b, 8 * k)
  {
    hide TestBit;
    if a[..k] == b[..k] {
      forall i: nat | i < 8 * k ensures Bit(a, i) == Bit(b, i) {
        assert a[i / 8] == a[..k][i / 8] && b[i / 8] == b[..k][i / 8];
      }
    }
    if Agree(a, b, 8 * k) {
      forall j | 0 <= j < k ensures a[..k][j] == b[..k][j] {
        ByteAt(a, b, j);
      }
    }
  }

  /** Bits in the middle of a byte. */
  lemma AgreeMore(a: seq<Byte>, b: seq<Byte>, k: nat, n: nat)
    requires |a| == |b| && k < |a| && n <= 8
    ensures Agree(a, b, 8 * k + n) <==> Agree(a, b, 8 * k) && SameFrom(a[k], b[k], 8 - n)
  {
    hide TestBit;
    if Agree(a, b, 8 * k + n) {
      forall i: nat | i >= 8 - n ensures TestBit(a[k], i) == TestBit(b[k], i) {
        ByteBit(a, b, k, i);
      }
    }
    if Agree(a, b, 8 * k) && SameFrom(a[k], b[k], 8 - n) {
      forall i: nat | i < 8 * k + n ensures Bit(a, i) == Bit(b, i) {
        if i >= 8 * k { BitOfByte(a, b, k, i); }
      }
    }
  }

  lemma ByteBit(a: seq<Byte>, b: seq<Byte>, k: nat, i: nat)
    requires |a| == |b| && k < |a| && (i < 8 ==> Bit(a, 8 * k + (7 - i)) == Bit(b, 8 * k + (7 - i)))
    ensures TestBit(a[k], i) == TestBit(b[k], i)
  {
    hide TestBit;
    Pow2Values();
    if i >= 8 {
      HighBits(a[k], 8, i);
      HighBits(b[k], 8, i);
    }
  }

  lemma BitOfByte(a: seq<Byte>, b: seq<Byte>, k: nat, i: nat)
    requires |a| == |b| && k < |a| && 8 * k <= i < 8 * k + 8
    requires TestBit(a[k], 7 - (i - 8 * k)) == TestBit(b[k], 7 - (i - 8 * k))
    ensures Bit(a, i) == Bit(b, i)
  {
    hide TestBit;
    assert i / 8 == k && i % 8 == i - 8 * k;
  }

  lemma Bit6(a: Addr6, i: nat)
    requires 96 <= i < 128
    ensures Bit(a, i) == TestBit(LowWord(a), 127 - i)
  {
    hide TestBit;
    WordBits(a, 12, 127 - i);
  }

  /** Bits in the last word. */
  lemma AgreeWord(a: Addr6, b: Addr6, n: nat)
    requires 96 <= n <= 128
    ensures Agree(a, b, n) <==> Agree(a, b, 96) && SameFrom(LowWord(a), LowWord(b), 128 - n)
  {
    hide TestBit, Bit, LowWord;
    if Agree(a, b, n) {
      forall i: nat | i >= 128 - n ensures TestBit(LowWord(a), i) == TestBit(LowWord(b), i) {
        LowWordBit(a, b, i);
      }
    }
    if Agree(a, b, 96) && SameFrom(LowWord(a), LowWord(b), 128 - n) {
      forall i: nat | i < n ensures Bit(a, i) == Bit(b, i) {
        if i >= 96 {
          Bit6(a, i);
          Bit6(b, i);
        }
      }
    }
  }

  lemma LowWordBit(a: Addr6, b: Addr6, i: nat)
    requires i < 32 ==> Bit(a, 127 - i) == Bit(b, 127 - i)
    ensures TestBit(LowWord(a), i) == TestBit(LowWord(b), i)
  {
    hide TestBit, Bit, Get32;
    if i >= 32 {
      WordHigh(a, 12, i);
      WordHigh(b, 12, i);
    } else {
      Bit6(a, 127 - i);
      Bit6(b, 127 - i);
    }
  }

  lemma Contains6Bits(p: Prefix6, a: Addr6)
    ensures Contains6(p, a) <==> p.bits <= 128 && Agree(a, p.addr, p.bits)
  {
    hide Shr, Bit, TestBit, Get32, Agree, SameFrom;
    if p.bits <= 96 {
      var k, n := p.bits / 8, p.bits % 8;
      WholeBytes(a, p.addr, k);
      ShrBits(a[k], p.addr[k], 8 - n);
      AgreeMore(a, p.addr, k, n);
    } else if p.bits <= 128 {
      WholeBytes(a, p.addr, 12);
      ShrBits(LowWord(a), LowWord(p.addr), 128 - p.bits);
      AgreeWord(a, p.addr, p.bits);
    }
  }

  lemma ZeroByte(a: seq<Byte>, k: nat, n: nat)
    requires k < |a| && n <= 8
    ensures Low(a[k], 8 - n) == 0 <==> forall i: nat :: 8 * k + n <= i < 8 * k + 8 ==> !Bit(a, i)
  {
    hide TestBit, Low;
    LowBits(a[k], 8 - n);
    if ZeroBelow(a[k], 8 - n) {
      forall i: nat | 8 * k + n <= i < 8 * k + 8 ensures !Bit(a, i) {
        assert i / 8 == k && i % 8 == i - 8 * k;
      }
    }
    if forall i: nat :: 8 * k + n <= i < 8 * k + 8 ==> !Bit(a, i) {
      forall i: nat | i < 8 - n ensures !TestBit(a[k], i) {
        assert !Bit(a, 8 * k + (7 - i));
      }
    }
  }

  lemma ByteIsZero(x: Byte)
    ensures Low(x, 8) == 0 <==> x == 0
  {
    Pow2Values();
    LowWraps(x, 8);
  }

  lemma Masked6Bits(p: Prefix6)
    ensures Masked6(p) <==> p.bits <= 128 && ZeroFrom(p.addr, p.bits)
  {
    hide Low, Bit, TestBit, Get32;
    var a := p.addr;
    if p.bits <= 96 {
      var k, n := p.bits / 8, p.bits % 8;
      ZeroByte(a, k, n);
      if Masked6(p) {
        forall i: nat | p.bits <= i < 128 ensures !Bit(a, i) {
          ByteIsZero(a[i / 8]);
          ZeroByte(a, i / 8, 0);
        }
      }
      if ZeroFrom(a, p.bits) {
        forall j: nat | k < j < 16 ensures a[j] == 0 {
          ZeroByte(a, j, 0);
          ByteIsZero(a[j]);
        }
      }
    } else if p.bits <= 128 {
      LowBits(LowWord(a), 128 - p.bits);
      if Masked6(p) {
        forall i: nat | p.bits <= i < 128 ensures !Bit(a, i) { Bit6(a, i); }
      }
      if ZeroFrom(a, p.bits) {
        forall i: nat | i < 128 - p.bits ensures !TestBit(LowWord(a), i) { Bit6(a, 127 - i); }
      }
    }
  }

  /** Two prefixes overlap exactly if some address is in both. */
  lemma OverlapsExactly(p: Prefix6, q: Prefix6)
    requires p.bits <= 128 && q.bits <= 128
    ensures Overlaps6(p, q) <==> exists x: Addr6 :: Contains6(p, x) && Contains6(q, x)
  {
    hide Contains6;
    if Overlaps6(p, q) {
      var x := if p.bits <= q.bits then q.addr else p.addr;
      ContainsItself(p);
      ContainsItself(q);
      assert Contains6(p, x) && Contains6(q, x);
    }
    if x: Addr6 :| Contains6(p, x) && Contains6(q, x) { CommonMemberOverlaps(p, q, x); }
  }

  lemma ContainsItself(p: Prefix6)
    requires p.bits <= 128
    ensures Contains6(p, p.addr)
  {
  }

  // ----- Ranges -----

  /** Which addresses are never translated, and which are link-local. */
  lemma ClassRanges(a: Addr4)
    ensures ClassifyIPv4(a).Invalid? <==>
              || Val4(a) <= 0x00ff_ffff                 // 0.0.0.0/8
              || 0x7f00_0000 <= Val4(a) <= 0x7fff_ffff  // 127.0.0.0/8
              || 0xe000_0000 <= Val4(a) <= 0xefff_ffff  // 224.0.0.0/4
              || Val4(a) == 0xffff_ffff                 // 255.255.255.255
    ensures ClassifyIPv4(a).LinkLocal? <==> 0xa9fe_0000 <= Val4(a) <= 0xa9fe_ffff // 169.254.0.0/16
  {
  }

  /** Section 3.1 of RFC 6052 with RFC 5735: the addresses that are not global. */
  lemma PrivateRanges(a: Addr4)
    ensures IsPrivateIPv4(a) <==>
              || 0x0a00_0000 <= Val4(a) <= 0x0aff_ffff // 10.0.0.0/8
              || 0x6440_0000 <= Val4(a) <= 0x647f_ffff // 100.64.0.0/10
              || 0xac10_0000 <= Val4(a) <= 0xac1f_ffff // 172.16.0.0/12
              || 0xc000_0200 <= Val4(a) <= 0xc000_02ff // 192.0.2.0/24
              || 0xc0a8_0000 <= Val4(a) <= 0xc0a8_ffff // 192.168.0.0/16
              || 0xc612_0000 <= Val4(a) <= 0xc613_ffff // 198.18.0.0/15
              || 0xc633_6400 <= Val4(a) <= 0xc633_64ff // 198.51.100.0/24
              || 0xcb00_7100 <= Val4(a) <= 0xcb00_71ff // 203.0.113.0/24
  {
  }

  /** ::/8 without 64:ff9b::/32, ff00::/8 and fe80::/10 are never in a packet that is taken. */
  lemma ValidRanges(a: Addr6)
    ensures ValidIPv6(a) <==>
              && !(Get32(a, 0) <= 0x00ff_ffff && Get32(a, 0) != 0x0064_ff9b)
              && !(0xff00_0000 <= Get32(a, 0))
              && !(0xfe80_0000 <= Get32(a, 0) <= 0xfebf_ffff)
  {
  }
}
