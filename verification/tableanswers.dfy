/** Exactly when the table maps an address, rejects it or drops it, told by its entries. */
module TableAnswers {
  import opened Bytes
  import opened NetUtil
  import opened Bits
  import opened Prefixes
  import opened PoolSpec
  import opened Xlate
  import opened Table
  import opened TableLaws
  import opened Mappers
  import opened PrefixBits

  /** The entry e decides about a: no longer prefix contains a. */
  ghost predicate Decides(es: seq<Entry>, e: Entry, a: Addr4) {
    && e in es && Contains4(V4(e), a)
    && forall i :: 0 <= i < |es| && Contains4(V4(es[i]), a) ==> V4(es[i]).bits <= V4(e).bits
  }

  ghost predicate NothingMatches(es: seq<Entry>, a: Addr4) {
    forall i :: 0 <= i < |es| ==> !Contains4(V4(es[i]), a)
  }

  lemma DecidesIsFound(t: Table, es: seq<Entry>, e: Entry, a: Addr4)
    requires Accepted(t, es)
    ensures Decides(es, e, a) <==> Lookup4(t, a) == Some(e)
    ensures NothingMatches(es, a) <==> Lookup4(t, a) == None
  {
    hide ValidEntries, Conflicting, TableOf, Lookup4, Contains4;
    Lookup4Longest(t, es, a);
    if Lookup4(t, a).Some? {
      var f := Lookup4(t, a).value;
      assert f in es && Contains4(V4(f), a);
      var j :| 0 <= j < |es| && es[j] == f;
      if Decides(es, e, a) {
        var i :| 0 <= i < |es| && es[i] == e;
        assert V4(es[j]).bits <= V4(e).bits;
      }
    }
  }

  /** The well-known prefix of RFC 6052, 64:ff9b::/96. */
  predicate WellKnown(p: Prefix6) {
    p == Prefix6([0, 0x64, 0xff, 0x9b, 0, 0, 0, 0, 0, 0, 0, 0, 0, 0, 0, 0], 96)
  }

  /** Section 3.1 of RFC 6052: a strict table keeps addresses that are not global out of the well-known prefix. */
  predicate KeptOut(t: Table, p: Prefix6, a: Addr4) {
    t.strict && WellKnown(p) && IsPrivateIPv4(a)
  }

  /** The dynamic host x is mapped at a. */
  ghost predicate Leased(pv: PoolView, a: Addr4, x: Addr6) {
    && pv.WithPool?
    && exists off: nat :: off in pv.s && pv.s[off].v6 == x && !pv.s[off].dormant && Val4(a) == pv.c.base + off
  }

  /** Both addresses are equally far from the beginning of their nets. */
  ghost predicate SameOffset(p4: Prefix4, p6: Prefix6, a: Addr4, x: Addr6) {
    x[..12] == p6.addr[..12] && LowWord(x) - LowWord(p6.addr) == Val4(a) - Val4(p4.addr)
  }

  /** From IPv4, for the entry that decides. */
  lemma Answer4(t: Table, es: seq<Entry>, pv: PoolView, a: Addr4, e: Entry)
    requires Accepted(t, es) && WellFormed(t) && PoolFits(es, pv) && Decides(es, e, a)
    ensures match e
            case Static(p4, p6, _) => Map4to6(t, pv, a).Mapped? && SameOffset(p4, p6, a, Map4to6(t, pv, a).addr)
            case Nat64(p) =>
              && (Map4to6(t, pv, a).Drop? <==> ClassifyIPv4(a) != Usable)
              && (Map4to6(t, pv, a).Reject? <==> ClassifyIPv4(a) == Usable && KeptOut(t, p, a))
              && (Map4to6(t, pv, a).Mapped? ==>
                    ValidRFC6052PrefixLen(p.bits) && Carries(Map4to6(t, pv, a).addr, p.addr, p.bits, a))
            case PoolRange(_) =>
              && !Map4to6(t, pv, a).Drop?
              && (Map4to6(t, pv, a).Mapped? <==> exists x: Addr6 :: Leased(pv, a, x))
              && (Map4to6(t, pv, a).Mapped? ==> Leased(pv, a, Map4to6(t, pv, a).addr))
  {
    hide ValidEntries, Conflicting, TableOf, Lookup4, Contains4, JoinStatic6, Low, Inv, ClassifyIPv4, IsPrivateIPv4;
    DecidesIsFound(t, es, e, a);
    EntryValid(es, e);
    match e
    case Static(_, _, _) => StaticOffset(e, a);
    case Nat64(p) =>
      EmbedAlways(p, a);
      EmbedCarries(p.addr, p.bits, a, Embed(p.addr, p.bits, a).value);
    case PoolRange(_) =>
      if pv.WithPool? {
        OnlyPool(es, e, PoolEntry(pv.c));
        forall x: Addr6 ensures Leased(pv, a, x) <==> Map4to6(t, pv, a) == Mapped(x) { LeasedAt(pv, a, x); }
      }
  }

  lemma EmbedAlways(p: Prefix6, a: Addr4)
    requires ValidNat64(p)
    ensures Embed(p.addr, p.bits, a).Some? && (IsWellKnownPrefix(p.addr, p.bits) <==> WellKnown(p))
  {
  }

  lemma LeasedAt(pv: PoolView, a: Addr4, x: Addr6)
    requires pv.WithPool? && ValidParams(pv.c) && Inv(pv.c, pv.s) && Contains4(PoolEntry(pv.c).pv4, a)
    ensures var off := Low(Val4(a), HostBits(pv.c));
            Leased(pv, a, x) <==> off in pv.s && pv.s[off].v6 == x && !pv.s[off].dormant
  {
    hide Low, Inv, Contains4, Enc32, Get32;
    PoolAddress(pv.c, a);
    Val4Of(pv.c.base + Low(Val4(a), HostBits(pv.c)));
  }

  /** What nothing matches is rejected. */
  lemma Unmatched4(t: Table, es: seq<Entry>, pv: PoolView, a: Addr4)
    requires Accepted(t, es) && NothingMatches(es, a)
    ensures Map4to6(t, pv, a) == Reject
  {
    hide ValidEntries, Conflicting, TableOf, Lookup4, Contains4;
    DecidesIsFound(t, es, Nat64(Prefix6(WELL_KNOWN, 96)), a);
  }

  /** From IPv6, for the registered entry that contains x. */
  lemma Answer6(t: Table, es: seq<Entry>, pv: PoolView, x: Addr6, e: Entry)
    requires Accepted(t, es) && WellFormed(t) && GoodView(pv) && e in es && Registered6(e) && Contains6(V6(e), x)
    ensures e.Static? ==> Map6to4(t, pv, x).Mapped? && SameOffset(e.sv4, e.sv6, Map6to4(t, pv, x).addr, x)
    ensures e.Nat64? && (forall a: Addr4 :: !CarriedBy(e.nv6, x, a)) ==> Map6to4(t, pv, x) == Drop
    ensures forall a: Addr4 :: e.Nat64? && CarriedBy(e.nv6, x, a) ==>
              && (Map6to4(t, pv, x).Reject? <==> ClassifyIPv4(a) == Usable && KeptOut(t, e.nv6, a))
              && (Map6to4(t, pv, x).Mapped? <==>
                   ClassifyIPv4(a) == Usable && !KeptOut(t, e.nv6, a) && Decides(es, e, a))
              && (Map6to4(t, pv, x).Mapped? ==> Map6to4(t, pv, x).addr == a)
  {
    hide ValidEntries, Conflicting, TableOf, Lookup4, Lookup6, Contains6, JoinStatic4, ClassifyIPv4, IsPrivateIPv4;
    hide Extract;
    hide Decides, Inv, CarriedBy;
    FoundHere(t, es, e, x);
    EntryValid(es, e);
    if e.Static? { StaticOffsetBack(e, x); }
    if e.Nat64? {
      EmbedAlways(e.nv6, [0, 0, 0, 0]);
      forall a: Addr4 ensures CarriedBy(e.nv6, x, a) <==> Extract(x, e.nv6.bits) == Some(a) {
        ExtractsCarried(e.nv6, x, a);
      }
      if Extract(x, e.nv6.bits).Some? {
        var a := Extract(x, e.nv6.bits).value;
        assert CarriedBy(e.nv6, x, a);
        DecidesIsFound(t, es, e, a);
      }
    }
  }

  /** x is the embedding of a in the prefix, by section 2.2 of RFC 6052. */
  ghost predicate CarriedBy(p: Prefix6, x: Addr6, a: Addr4) {
    ValidRFC6052PrefixLen(p.bits) && Carries(x, x, p.bits, a)
  }

  lemma ExtractsCarried(p: Prefix6, x: Addr6, a: Addr4)
    requires ValidNat64(p)
    ensures CarriedBy(p, x, a) <==> Extract(x, p.bits) == Some(a)
  {
    hide Carries, Extract;
    ExtractFinds(x, p.bits, a);
  }

  /** An address that no registered entry contains is mapped exactly if it is that of a mapped dynamic host. */
  lemma Unregistered6(t: Table, es: seq<Entry>, pv: PoolView, x: Addr6)
    requires Accepted(t, es) && WellFormed(t) && GoodView(pv)
    requires forall i :: 0 <= i < |es| && Registered6(es[i]) ==> !Contains6(V6(es[i]), x)
    ensures Map6to4(t, pv, x).Mapped? || Map6to4(t, pv, x).Reject?
    ensures Map6to4(t, pv, x).Mapped? <==> pv.WithPool? && exists off: nat :: IsMapped(pv.s, x, off)
    ensures forall off: nat :: pv.WithPool? && IsMapped(pv.s, x, off) ==>
              Map6to4(t, pv, x).Mapped? && Val4(Map6to4(t, pv, x).addr) == pv.c.base + off
  {
    hide ValidEntries, Conflicting, TableOf, Lookup6, Contains6, Enc32, Get32;
    Lookup6Unique(t, es, x);
    if pv.WithPool? && exists off: nat :: IsMapped(pv.s, x, off) {
      var off: nat :| IsMapped(pv.s, x, off);
      forall o: nat | IsMapped(pv.s, x, o) ensures o == off { OnlyMapped(pv.c, pv.s, x, off, o); }
      Val4Of(pv.c.base + off);
    }
  }

  /**
   * A private address that the well-known prefix decides about is rejected exactly by a strict table, in both
   * directions.
   */
  lemma StrictExactly(t: Table, es: seq<Entry>, pv: PoolView, a: Addr4, e: Entry, x: Addr6)
    requires Accepted(t, es) && WellFormed(t) && PoolFits(es, pv) && GoodView(pv)
    requires Decides(es, e, a) && e.Nat64? && WellKnown(e.nv6)
    requires IsPrivateIPv4(a) && Embed(e.nv6.addr, 96, a) == Some(x)
    ensures Map4to6(t, pv, a) == if t.strict then Reject else Mapped(x)
    ensures Map6to4(t, pv, x) == if t.strict then Reject else Mapped(a)
  {
    hide ValidEntries, Conflicting, TableOf, Lookup4, Lookup6, Contains4, Contains6, Embed, Inv, ClassifyIPv4;
    PrivateUsable(a);
    DecidesIsFound(t, es, e, a);
    EntryValid(es, e);
    EmbeddedIn(e.nv6, a, x);
    FoundHere(t, es, e, x);
  }

  lemma PrivateUsable(a: Addr4)
    requires IsPrivateIPv4(a)
    ensures ClassifyIPv4(a) == Usable
  {
  }

  /** A static map keeps the offset of an address from the beginning of its net. */
  lemma StaticOffset(e: Entry, a: Addr4)
    requires e.Static? && ValidEntry(e) && Contains4(e.sv4, a)
    ensures SameOffset(e.sv4, e.sv6, a, JoinStatic6(e, a))
  {
    hide Shr, Low, Or, Get32, Enc32, ClassifyIPv4, ValidIPv6;
    var k := 32 - e.sv4.bits;
    if e.sv4.bits == 32 {
      FullLength4(e.sv4, a);
    } else {
      SameHigh(Val4(a), Val4(e.sv4.addr), k);
      LowBound(Val4(a), k);
      LowMasked(e.sv6);
      OrDisjoint(LowWord(e.sv6.addr), Low(Val4(a), k), k);
      LowWordOf(e.sv6.addr[..12], Or32(LowWord(e.sv6.addr), Host32(Val4(a), e.sv4.bits)));
    }
  }

  lemma StaticOffsetBack(e: Entry, x: Addr6)
    requires e.Static? && Registered6(e) && ValidEntry(e) && Contains6(e.sv6, x)
    ensures SameOffset(e.sv4, e.sv6, JoinStatic4(e, x), x)
  {
    hide JoinStatic4, JoinStatic6, Contains4, Contains6, ValidStatic, SameOffset;
    JoinBack(e, x);
    StaticOffset(e, JoinStatic4(e, x));
  }

  // ----- What the builder accepts -----

  /** Which prefixes are taken, bit by bit. */
  lemma TakesExactly(p4: Prefix4, p6: Prefix6)
    ensures ValidNat64(p6) <==>
              p6.bits in {32, 40, 48, 56, 64, 96} && ZeroFrom(p6.addr, p6.bits) && ValidIPv6(p6.addr)
    ensures ValidStatic(p4, p6) <==>
              && p4.bits <= 32 && p6.bits == 96 + p4.bits && ZeroFrom(p4.addr, p4.bits) && ZeroFrom(p6.addr, p6.bits)
              && !ClassifyIPv4(p4.addr).Invalid? && ValidIPv6(p6.addr)
  {
    hide Masked4, Masked6, ZeroFrom, ValidIPv6, ClassifyIPv4;
    Masked4Bits(p4);
    Masked6Bits(p6);
  }

  /** Some address would have both entries as its longest match, or lie in the IPv6 sides of both. */
  ghost predicate Ambiguous(d: Entry, e: Entry) {
    || (V4(d).bits == V4(e).bits && exists a: Addr4 :: Contains4(V4(d), a) && Contains4(V4(e), a))
    || (Registered6(d) && Registered6(e) && exists x: Addr6 :: Contains6(V6(d), x) && Contains6(V6(e), x))
  }

  /** Entries conflict exactly if some address is ambiguous between two of them. */
  lemma ConflictsExactly(es: seq<Entry>)
    requires ValidEntries(es)
    ensures Conflicting(es) <==> exists i, j :: 0 <= i < j < |es| && Ambiguous(es[i], es[j])
  {
    hide Clash, Ambiguous, ValidEntry;
    forall i, j | 0 <= i < j < |es| ensures Clash(es[i], es[j]) <==> Ambiguous(es[i], es[j]) {
      ClashExactly(es[i], es[j]);
    }
  }

  lemma ClashExactly(d: Entry, e: Entry)
    requires ValidEntry(d) && ValidEntry(e)
    ensures Clash(d, e) <==> Ambiguous(d, e)
  {
    hide Contains4, Contains6, Overlaps6, Masked4, Masked6, ClassifyIPv4, ValidIPv6;
    Whole4(d);
    Whole4(e);
    if V4(d) == V4(e) {
      ItsOwn(V4(d));
      assert Contains4(V4(d), V4(d).addr) && Contains4(V4(e), V4(d).addr);
    }
    if V4(d).bits == V4(e).bits {
      forall a: Addr4 | Contains4(V4(d), a) && Contains4(V4(e), a) ensures V4(d) == V4(e) {
        SamePrefix(V4(d), V4(e), a);
      }
    }
    if Registered6(d) && Registered6(e) { OverlapsExactly(V6(d), V6(e)); }
  }

  lemma Whole4(e: Entry)
    requires ValidEntry(e)
    ensures V4(e).bits <= 32 && ZeroFrom(V4(e).addr, V4(e).bits)
  {
    hide ClassifyIPv4, ValidIPv6, Masked4, Masked6, ZeroFrom;
    AnyMasked();
    if V4(e).bits == 32 { HostMasked(V4(e)); }
    Masked4Bits(V4(e));
  }

  lemma AnyMasked()
    ensures Masked4(ANY4)
  {
    hide Low;
    LowBound(0, 32);
  }

  lemma HostMasked(p: Prefix4)
    requires p.bits == 32
    ensures Masked4(p)
  {
  }

  lemma ItsOwn(p: Prefix4)
    requires p.bits <= 32
    ensures Contains4(p, p.addr)
  {
    Contains4Bits(p, p.addr);
  }

  lemma SamePrefix(p: Prefix4, q: Prefix4, a: Addr4)
    requires p.bits == q.bits <= 32 && ZeroFrom(p.addr, p.bits) && ZeroFrom(q.addr, q.bits)
    requires Contains4(p, a) && Contains4(q, a)
    ensures p == q
  {
    hide Contains4, Bit;
    Contains4Bits(p, a);
    Contains4Bits(q, a);
    assert Agree(p.addr, q.addr, 32) by {
      forall i: nat | i < 32 ensures Bit(p.addr, i) == Bit(q.addr, i) {
        if i < p.bits { assert Bit(p.addr, i) == Bit(a, i) == Bit(q.addr, i); }
      }
    }
    WholeBytes(p.addr, q.addr, 4);
    assert p.addr == p.addr[..4] == q.addr[..4] == q.addr;
  }
}
