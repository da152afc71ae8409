/** Where the search for a free address begins, which one it takes, who gives one up, and which lines a load takes. */
module PoolStart {
  import opened Bytes
  import opened NetUtil
  import opened Bits
  import opened PoolSpec

  /** The residue of x modulo 2^k - 1, with 2^k - 1 itself for the multiples other than zero. */
  function Reduced(c: Params, x: nat): nat
    requires ValidParams(c)
  {
    if x == 0 then 0 else (x - 1) % Max(c) + 1
  }

  lemma {:induction false} LowAndHigh(x: nat, k: nat)
    ensures x == Shr(x, k) * Pow2(k) + Low(x, k)
    decreases k
  {
    if k > 0 {
      LowAndHigh(x / 2, k - 1);
      Doubled(x, Shr(x / 2, k - 1), Pow2(k - 1), Low(x / 2, k - 1));
    }
  }

  lemma Doubled(x: nat, s: nat, m: nat, l: nat)
    requires x / 2 == s * m + l
    ensures x == s * (2 * m) + (x % 2 + 2 * l)
  {
    assert s * (2 * m) == 2 * (s * m);
  }

  lemma MaxPositive(c: Params)
    requires ValidParams(c)
    ensures Max(c) >= 1
  {
    Pow2Monotone(0, HostBits(c));
  }

  lemma SameResidue(x: nat, y: nat, m: nat, k: nat)
    requires m >= 1 && x == y + k * m && y >= 1
    ensures (x - 1) % m == (y - 1) % m
  {
    ModMultiple(y - 1, m, k);
  }

  lemma {:induction false} ModMultiple(y: nat, m: nat, k: nat)
    requires m >= 1
    ensures (y + k * m) % m == y % m
    decreases k
  {
    if k > 0 {
      ModMultiple(y, m, k - 1);
      ModStep(y + (k - 1) * m, m);
      assert y + k * m == y + (k - 1) * m + m;
    }
  }

  lemma ModStep(x: nat, m: nat)
    requires m >= 1
    ensures (x + m) % m == x % m
  {
    var q, r := x / m, x % m;
    assert x + m == (q + 1) * m + r;
    Quotient(x + m, m, q + 1, r);
  }

  lemma Quotient(x: nat, m: nat, q: nat, r: nat)
    requires m >= 1 && x == q * m + r && r < m
    ensures x % m == r
  {
    var d := x / m - q;
    assert d * m == r - x % m;
    assert d >= 1 ==> d * m >= m;
    assert d <= -1 ==> d * m + m <= 0;
  }

  lemma Small(x: nat, m: nat)
    requires 1 <= x <= m
    ensures (x - 1) % m + 1 == x
  {
  }

  /** Folding the upper part onto the lower one is reduction modulo 2^k - 1. */
  lemma {:induction false} FoldReduces(c: Params, h: nat)
    requires ValidParams(c)
    ensures FoldHash(c, h) == Reduced(c, h)
    decreases h
  {
    hide ValidParams, Low, Shr, Size;
    MaxPositive(c);
    if h <= Max(c) {
      if h > 0 { Small(h, Max(c)); }
    } else {
      var k := HostBits(c);
      assert Size(c) == Pow2(k) by { SizeIs(c); }
      assert k >= 1 by { BitsPositive(c); }
      FoldShrinks(h, k);
      LowAndHigh(h, k);
      var s, l := Shr(h, k), Low(h, k);
      FoldReduces(c, l + s);
      Regroup(h, s, l, Size(c));
      SameResidue(h, l + s, Max(c), s);
    }
  }

  lemma Regroup(h: nat, s: nat, l: nat, size: nat)
    requires h == s * size + l && h >= 1 && size >= 1
    ensures h == (l + s) + s * (size - 1) && l + s >= 1
  {
    assert s * size == s * (size - 1) + s;
  }

  lemma SizeIs(c: Params)
    ensures Size(c) == Pow2(HostBits(c))
  {
  }

  lemma BitsPositive(c: Params)
    requires ValidParams(c)
    ensures HostBits(c) >= 1
  {
  }

  /** The starting offset: the four words of the address, added in 32 bits and reduced one by one. */
  lemma StartsAt(c: Params, a: Addr6)
    requires ValidParams(c)
    ensures var h1 := Reduced(c, Get32(a, 0));
            var h2 := Reduced(c, (h1 + Get32(a, 4)) % 0x1_0000_0000);
            var h3 := Reduced(c, (h2 + Get32(a, 8)) % 0x1_0000_0000);
            Hash(c, a) == Reduced(c, (h3 + Get32(a, 12)) % 0x1_0000_0000)
  {
    hide Reduced, Get32, HashFrom, ValidParams;
    var h1 := Reduced(c, Get32(a, 0));
    var h2 := Reduced(c, (h1 + Get32(a, 4)) % 0x1_0000_0000);
    var h3 := Reduced(c, (h2 + Get32(a, 8)) % 0x1_0000_0000);
    OneWord(c, a, 0, 0);
    OneWord(c, a, 4, h1);
    OneWord(c, a, 8, h2);
    OneWord(c, a, 12, h3);
    LastWord(c, a, Reduced(c, (h3 + Get32(a, 12)) % 0x1_0000_0000));
  }

  lemma OneWord(c: Params, a: Addr6, i: nat, h: nat)
    requires ValidParams(c) && i <= 12 && i % 4 == 0 && h <= Max(c)
    ensures var h' := Reduced(c, (h + Get32(a, i)) % 0x1_0000_0000);
            h' <= Max(c) && HashFrom(c, a, i, h) == HashFrom(c, a, i + 4, h')
  {
    hide Reduced, Get32, ValidParams, FoldHash;
    FoldReduces(c, (h + Get32(a, i)) % 0x1_0000_0000);
  }

  lemma LastWord(c: Params, a: Addr6, h: nat)
    requires ValidParams(c) && h <= Max(c)
    ensures HashFrom(c, a, 16, h) == h
  {
  }

  /** The offset i places after h, around the end. */
  function Around(c: Params, h: nat, i: nat): int
  {
    if h + i < Size(c) then h + i else h + i - Size(c)
  }

  lemma {:induction false} ProbeFirst(c: Params, s: State, reserved: nat -> bool, h: nat, i: nat) returns (j: nat)
    requires h <= Max(c) && i <= Max(c) && Probe(c, s, reserved, h, i).Some?
    ensures i <= j <= Max(c) && Probe(c, s, reserved, h, i).value == Around(c, h, j)
    ensures forall m: nat :: i <= m < j ==> Around(c, h, m) >= 0 && !Free(c, s, reserved, Around(c, h, m))
    decreases Size(c) - i
  {
    hide Free, Size;
    ProbeAtWraps(c, h, i);
    if Free(c, s, reserved, ProbeAt(c, h, i)) {
      j := i;
    } else {
      j := ProbeFirst(c, s, reserved, h, i + 1);
    }
  }

  /** An unknown host gets the first free offset from its starting offset on, if one is free at all. */
  lemma GetsFirstFree(c: Params, s: State, a: Addr6, now: int, reserved: nat -> bool, s': State, r: Option<nat>)
    returns (j: nat)
    requires ValidParams(c) && Assigns(c, s, a, now, reserved, s', r) && !Known(s, a)
    requires exists off: nat :: Free(c, s, reserved, off)
    ensures j <= Max(c) && r.Some? && r.value == Around(c, Hash(c, a), j) && Free(c, s, reserved, r.value)
    ensures forall m: nat :: m < j ==> Around(c, Hash(c, a), m) >= 0 && !Free(c, s, reserved, Around(c, Hash(c, a), m))
  {
    hide Hash, Probe, Free, Size;
    var off: nat :| Free(c, s, reserved, off);
    if Probe(c, s, reserved, Hash(c, a), 0).None? { ProbeComplete(c, s, reserved, Hash(c, a), off); }
    ProbeFinds(c, s, reserved, Hash(c, a));
    MaxPositive(c);
    j := ProbeFirst(c, s, reserved, Hash(c, a), 0);
  }

  /** In particular its starting offset, if that is free. */
  lemma GetsStart(c: Params, s: State, a: Addr6, now: int, reserved: nat -> bool, s': State, r: Option<nat>)
    requires ValidParams(c) && Assigns(c, s, a, now, reserved, s', r) && !Known(s, a)
             && Free(c, s, reserved, Hash(c, a))
    ensures r == Some(Hash(c, a))
  {
    hide Hash, Free, Assigns;
    var j := GetsFirstFree(c, s, a, now, reserved, s', r);
    assert Around(c, Hash(c, a), 0) == Hash(c, a);
  }

  // ----- Who gives up an address -----

  /**
   * Only the address handed out changes. It is taken from another host only if that host is dormant, none was idle
   * longer, the new holder had no address, and no address is left.
   */
  lemma StealsExactly(c: Params, s: State, a: Addr6, now: int, reserved: nat -> bool, s': State, off: nat)
    requires ValidParams(c) && Inv(c, s) && Assigns(c, s, a, now, reserved, s', Some(off))
    ensures off in s' && s'[off].v6 == a && s'[off].lastUse == now && !s'[off].dormant
    ensures forall x: nat :: x != off ==> (x in s' <==> x in s) && (x in s ==> s'[x] == s[x])
    ensures off in s && s[off].v6 != a ==>
              && s[off].dormant
              && (forall x: nat :: x in s && s[x].dormant ==> s[x].lastUse >= s[off].lastUse)
              && (forall x: nat :: x in s ==> s[x].v6 != a)
              && (forall x: nat :: 1 <= x <= Max(c) ==> x in s || reserved(c.base + x))
  {
    hide Hash, Probe, Assigns;
    AssignOutcome(c, s, a, now, reserved, s', Some(off));
    if off in s && s[off].v6 != a {
      forall x: nat | 1 <= x <= Max(c) ensures x in s || reserved(c.base + x) { assert !Free(c, s, reserved, x); }
    }
  }

  /** A lookup changes when the host found was last used, and nothing else. */
  lemma TouchesOnly(s: State, off: nat, now: int, x: nat)
    ensures x in Touched(s, off, now) <==> x in s
    ensures x in s ==>
              var h := Touched(s, off, now)[x];
              && h.v6 == s[x].v6 && h.dormant == s[x].dormant
              && h.lastUse == if x == off then now else s[x].lastUse
  {
  }

  // ----- Loading -----

  /** A line that is well formed and about an address that the pool may hand out. */
  ghost predicate Sensible(c: Params, reserved: nat -> bool, l: Line) {
    && l.Line? && l.last >= 1 && ValidIPv6(l.v6)
    && c.base < l.v4 <= c.base + Max(c) && !reserved(l.v4)
  }

  /** Nothing in the state has an address of the line. */
  ghost predicate Unheard(c: Params, s: State, l: Line) {
    l.Line? && (forall off: nat :: off in s ==> c.base + off != l.v4 && s[off].v6 != l.v6)
  }

  lemma AcceptsExactly(c: Params, s: State, reserved: nat -> bool, l: Line)
    ensures Accepts(c, s, reserved, l) <==> Sensible(c, reserved, l) && Unheard(c, s, l)
  {
    hide ValidIPv6, Size;
  }

  /** Whoever a load brings in comes from a sensible line, as dormant, and nobody already there changes. */
  lemma {:induction false} TakenFromLine(c: Params, s: State, reserved: nat -> bool, lines: seq<Line>, off: nat)
    requires off in AddLines(c, s, reserved, lines)
    ensures off in s ==> AddLines(c, s, reserved, lines)[off] == s[off]
    ensures off !in s ==>
              exists i :: 0 <= i < |lines| && Sensible(c, reserved, lines[i]) && lines[i].v4 == c.base + off
                          && AddLines(c, s, reserved, lines)[off] == Host(lines[i].v6, lines[i].last, true)
    decreases |lines|
  {
    hide Unheard, ValidIPv6, Size, Known;
    if lines != [] {
      var l := lines[0];
      var s1 := if Accepts(c, s, reserved, l) then s[l.v4 - c.base := Host(l.v6, l.last, true)] else s;
      AcceptsExactly(c, s, reserved, l);
      TakenFromLine(c, s1, reserved, lines[1..], off);
      if off !in s && off !in s1 {
        var i :| 0 <= i < |lines[1..]| && Sensible(c, reserved, lines[1..][i]) && lines[1..][i].v4 == c.base + off
                 && AddLines(c, s, reserved, lines)[off] == Host(lines[1..][i].v6, lines[1..][i].last, true);
        assert lines[i + 1] == lines[1..][i];
      }
    }
  }

  /** No other line is about one of the addresses of line i. */
  ghost predicate Singular(lines: seq<Line>, i: nat) {
    && i < |lines| && lines[i].Line?
    && forall j :: 0 <= j < |lines| && j != i && lines[j].Line? ==>
         lines[j].v4 != lines[i].v4 && lines[j].v6 != lines[i].v6
  }

  /** A sensible line about unheard-of addresses is taken. */
  lemma {:induction false} LineTaken(c: Params, s: State, reserved: nat -> bool, lines: seq<Line>, i: nat)
    requires ValidParams(c) && Inv(c, s) && Singular(lines, i) && Sensible(c, reserved, lines[i])
             && Unheard(c, s, lines[i])
    ensures var off := lines[i].v4 - c.base;
            && off >= 0 && off in AddLines(c, s, reserved, lines)
            && AddLines(c, s, reserved, lines)[off] == Host(lines[i].v6, lines[i].last, true)
    decreases |lines|
  {
    hide ValidParams, Inv, ValidIPv6, Size, Known;
    var l := lines[0];
    var s1 := if Accepts(c, s, reserved, l) then s[l.v4 - c.base := Host(l.v6, l.last, true)] else s;
    AcceptsExactly(c, s, reserved, l);
    AddLinesKeepsInv(c, s, reserved, [l]);
    assert [l][1..] == [] && AddLines(c, s, reserved, [l]) == s1;
    if i == 0 {
      AddLinesKeepsInv(c, s1, reserved, lines[1..]);
    } else {
      assert Singular(lines[1..], i - 1) by {
        forall j | 0 <= j < |lines[1..]| && j != i - 1 && lines[1..][j].Line?
          ensures lines[1..][j].v4 != lines[i].v4 && lines[1..][j].v6 != lines[i].v6
        {
          assert lines[1..][j] == lines[j + 1];
        }
      }
      assert Unheard(c, s1, lines[i]);
      LineTaken(c, s1, reserved, lines[1..], i - 1);
    }
  }

  /**
   * What a complete load makes of a host it brought in: mapped if the short lease still runs, dormant if not; if one of
   * them was used in the future, all stay dormant and count as used when the short lease would just be over.
   */
  lemma LoadedHost(before: State, after: State, now: int, minLease: int, off: nat)
    requires off in after && off !in before && after[off].dormant
    ensures var h, future := Settled(before, after, now, minLease)[off],
                exists o: nat :: o in after && o !in before && after[o].lastUse > now;
            && h.v6 == after[off].v6
            && (future ==> h.dormant && h.lastUse == now - minLease)
            && (!future ==> h.lastUse == after[off].lastUse && (h.dormant <==> h.lastUse + minLease < now))
  {
  }
}
