/** Bit operations on natural numbers, for bitmaps, masks and host parts. */
module Bits {
  function Pow2(n: nat): (r: nat)
    ensures r > 0
  {
    if n == 0 then 1 else 2 * Pow2(n - 1)
  }

  function TestBit(w: nat, i: nat): bool {
    if i == 0 then w % 2 == 1 else TestBit(w / 2, i - 1)
  }

  /** w | v */
  function Or(w: nat, v: nat): nat {
    if w == 0 && v == 0 then 0 else (if w % 2 == 1 || v % 2 == 1 then 1 else 0) + 2 * Or(w / 2, v / 2)
  }

  /** w & v */
  function And(w: nat, v: nat): nat {
    if w == 0 then 0 else (if w % 2 == 1 && v % 2 == 1 then 1 else 0) + 2 * And(w / 2, v / 2)
  }

  /** w &^ v */
  function AndNot(w: nat, v: nat): nat {
    if w == 0 then 0 else (if w % 2 == 1 && v % 2 == 0 then 1 else 0) + 2 * AndNot(w / 2, v / 2)
  }

  function PopCount(w: nat): nat {
    if w == 0 then 0 else w % 2 + PopCount(w / 2)
  }

  lemma {:induction false} ZeroBits(i: nat)
    ensures !TestBit(0, i)
    decreases i
  {
    if i > 0 { ZeroBits(i - 1); }
  }

  lemma OrHalves(w: nat, v: nat)
    ensures Or(w, v) / 2 == Or(w / 2, v / 2) && (Or(w, v) % 2 == 1 <==> w % 2 == 1 || v % 2 == 1)
  {
  }

  lemma {:induction false} OrBits(w: nat, v: nat, i: nat)
    ensures TestBit(Or(w, v), i) <==> TestBit(w, i) || TestBit(v, i)
    decreases i
  {
    hide Or;
    OrHalves(w, v);
    if i > 0 { OrBits(w / 2, v / 2, i - 1); }
  }

  lemma AndNotHalves(w: nat, v: nat)
    ensures AndNot(w, v) / 2 == AndNot(w / 2, v / 2) && (AndNot(w, v) % 2 == 1 <==> w % 2 == 1 && v % 2 == 0)
  {
  }

  lemma {:induction false} AndNotBits(w: nat, v: nat, i: nat)
    ensures TestBit(AndNot(w, v), i) <==> TestBit(w, i) && !TestBit(v, i)
    decreases i
  {
    hide AndNot;
    AndNotHalves(w, v);
    if i > 0 { AndNotBits(w / 2, v / 2, i - 1); }
  }

  lemma {:induction false} Pow2Bits(k: nat, i: nat)
    ensures TestBit(Pow2(k), i) <==> i == k
    decreases i + k
  {
    if k == 0 {
      if i > 0 { ZeroBits(i - 1); }
    } else if i > 0 {
      Pow2Bits(k - 1, i - 1);
      assert Pow2(k) / 2 == Pow2(k - 1);
    }
  }

  /** The usual test of one bit. */
  lemma {:induction false} AndMask(w: nat, i: nat)
    ensures And(w, Pow2(i)) != 0 <==> TestBit(w, i)
    decreases i
  {
    if w == 0 {
      ZeroBits(i);
    } else if i > 0 {
      AndMask(w / 2, i - 1);
      assert Pow2(i) % 2 == 0 && Pow2(i) / 2 == Pow2(i - 1);
    } else {
      AndZero(w / 2);
      assert Pow2(0) == 1;
    }
  }

  lemma {:induction false} AndZero(w: nat)
    ensures And(w, 0) == 0
    decreases w
  {
    if w > 0 { AndZero(w / 2); }
  }

  lemma {:induction false} Pow2Sum(m: nat, n: nat)
    ensures Pow2(m + n) == Pow2(m) * Pow2(n)
    decreases n
  {
    if n > 0 {
      Pow2Sum(m, n - 1);
      assert Pow2(m) * (2 * Pow2(n - 1)) == 2 * (Pow2(m) * Pow2(n - 1));
    }
  }

  lemma Pow2Values()
    ensures Pow2(8) == 0x100 && Pow2(24) == 0x100_0000 && Pow2(32) == 0x1_0000_0000
    ensures Pow2(64) == 0x1_0000_0000_0000_0000
  {
    assert Pow2(0) == 1 && Pow2(1) == 2 && Pow2(2) == 4;
    Pow2Sum(2, 2);
    Pow2Sum(4, 4);
    Pow2Sum(8, 8);
    Pow2Sum(16, 8);
    Pow2Sum(16, 16);
    Pow2Sum(32, 32);
  }

  lemma {:induction false} OrBound(w: nat, v: nat, n: nat)
    requires w < Pow2(n) && v < Pow2(n)
    ensures Or(w, v) < Pow2(n)
    decreases n
  {
    if n > 0 { OrBound(w / 2, v / 2, n - 1); }
  }

  lemma {:induction false} AndNotBound(w: nat, v: nat)
    ensures AndNot(w, v) <= w
    decreases w
  {
    if w > 0 { AndNotBound(w / 2, v / 2); }
  }

  lemma {:induction false} Pow2Monotone(i: nat, n: nat)
    requires i < n
    ensures Pow2(i) < Pow2(n)
    decreases n
  {
    if i + 1 < n { Pow2Monotone(i, n - 1); }
  }

  // ----- Low and high parts -----

  /** The low k bits: x & (2^k - 1). */
  function Low(x: nat, k: nat): nat {
    if k == 0 then 0 else x % 2 + 2 * Low(x / 2, k - 1)
  }

  /** x >> k */
  function Shr(x: nat, k: nat): nat {
    if k == 0 then x else Shr(x / 2, k - 1)
  }

  lemma {:induction false} LowBound(x: nat, k: nat)
    ensures Low(x, k) < Pow2(k) && Low(x, k) <= x
    decreases k
  {
    if k > 0 { LowBound(x / 2, k - 1); }
  }

  /** A number below 2^k is its own low part; the next 2^k numbers wrap once. */
  lemma {:induction false} LowWraps(x: nat, k: nat)
    requires x < 2 * Pow2(k)
    ensures Low(x, k) == if x < Pow2(k) then x else x - Pow2(k)
    decreases k
  {
    if k > 0 { LowWraps(x / 2, k - 1); }
  }

  lemma {:induction false} LowZero(k: nat)
    ensures Low(0, k) == 0 && Shr(0, k) == 0
    decreases k
  {
    if k > 0 { LowZero(k - 1); }
  }

  /** Disjoint bits add. */
  lemma {:induction false} OrDisjoint(w: nat, v: nat, k: nat)
    requires Low(w, k) == 0 && v < Pow2(k)
    ensures Or(w, v) == w + v
    decreases k
  {
    if w == 0 && v == 0 {
    } else if k == 0 {
      OrZero(w);
    } else {
      OrDisjoint(w / 2, v / 2, k - 1);
    }
  }

  lemma {:induction false} OrZero(w: nat)
    ensures Or(w, 0) == w
    decreases w
  {
    if w > 0 { OrZero(w / 2); }
  }

  /** Adding a low part to a number without one. */
  lemma {:induction false} JoinParts(w: nat, v: nat, k: nat)
    requires Low(w, k) == 0 && v < Pow2(k)
    ensures Shr(w + v, k) == Shr(w, k) && Low(w + v, k) == v
    decreases k
  {
    if k > 0 {
      JoinParts(w / 2, v / 2, k - 1);
      assert (w + v) / 2 == w / 2 + v / 2;
    }
  }

  /** A number with the same high part as w, which has no low part, is w plus its own low part. */
  lemma {:induction false} SameHigh(x: nat, w: nat, k: nat)
    requires Shr(x, k) == Shr(w, k) && Low(w, k) == 0
    ensures x == w + Low(x, k)
    decreases k
  {
    if k > 0 { SameHigh(x / 2, w / 2, k - 1); }
  }

  /** A number without a low part leaves room for one. */
  lemma {:induction false} RoomBelow(w: nat, k: nat, n: nat)
    requires Low(w, k) == 0 && w < Pow2(n) && k <= n
    ensures w + Pow2(k) <= Pow2(n)
    decreases k
  {
    if k > 0 { RoomBelow(w / 2, k - 1, n - 1); }
  }

  /** Agreeing on fewer low bits removed implies agreeing on more removed. */
  lemma {:induction false} ShrMonotone(x: nat, y: nat, k: nat, m: nat)
    requires Shr(x, k) == Shr(y, k) && k <= m
    ensures Shr(x, m) == Shr(y, m)
    decreases k
  {
    if k > 0 { ShrMonotone(x / 2, y / 2, k - 1, m - 1); }
  }

  lemma {:induction false} ShrZero(x: nat, k: nat)
    ensures Shr(x, k) == 0 <==> x < Pow2(k)
    decreases k
  {
    if k > 0 { ShrZero(x / 2, k - 1); }
  }

  /** Folding the high part onto the low part makes a number smaller. */
  lemma {:induction false} FoldShrinks(h: nat, k: nat)
    requires k >= 1 && h >= Pow2(k)
    ensures Low(h, k) + Shr(h, k) < h
    decreases k
  {
    if k > 1 { FoldShrinks(h / 2, k - 1); }
    else { assert Low(h / 2, 0) == 0 && Shr(h / 2, 0) == h / 2 && Pow2(0) == 1; }
  }

  // ----- Counting -----

  /** The bits of w below n. */
  function BitsBelow(w: nat, n: nat): set<nat> {
    set i: nat | i < n && TestBit(w, i)
  }

  function CountBelow(w: nat, n: nat): nat {
    if n == 0 then 0 else CountBelow(w, n - 1) + (if TestBit(w, n - 1) then 1 else 0)
  }

  lemma {:induction false} CountBelowIsCard(w: nat, n: nat)
    ensures |BitsBelow(w, n)| == CountBelow(w, n)
    decreases n
  {
    if n > 0 {
      CountBelowIsCard(w, n - 1);
      if TestBit(w, n - 1) {
        assert BitsBelow(w, n) == BitsBelow(w, n - 1) + {n - 1};
      } else {
        assert BitsBelow(w, n) == BitsBelow(w, n - 1);
      }
    } else {
      assert BitsBelow(w, n) == {};
    }
  }

  lemma {:induction false} CountFromLow(w: nat, n: nat)
    requires n > 0
    ensures CountBelow(w, n) == w % 2 + CountBelow(w / 2, n - 1)
    decreases n
  {
    if n > 1 { CountFromLow(w, n - 1); } else { assert CountBelow(w, 0) == 0 == CountBelow(w / 2, 0); }
  }

  /** The population count is the number of set bits. */
  lemma {:induction false} PopCountIsCard(w: nat, n: nat)
    requires w < Pow2(n)
    ensures PopCount(w) == |BitsBelow(w, n)|
    decreases n
  {
    CountBelowIsCard(w, n);
    if n > 0 {
      CountFromLow(w, n);
      PopCountIsCard(w / 2, n - 1);
      CountBelowIsCard(w / 2, n - 1);
    } else {
      assert BitsBelow(w, n) == {};
    }
  }
}
