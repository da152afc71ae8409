/** The packet round trip with the answers of a proved table. */
module EndToEnd {
  import opened Bytes
  import opened NetUtil
  import opened Prefixes
  import opened Packet
  import opened Checksum
  import opened PoolSpec
  import opened Xlate
  import opened Table
  import opened TableLaws
  import opened Mappers
  import RoundTrip

  /**
   * The mapper is the table: lookups answer what it says, and an allocating one too when there is nothing to allocate.
   */
  ghost predicate ServedBy(t: Env, tb: Table, pv: PoolView)
    requires WellFormed(tb) && GoodView(pv)
  {
    && (forall k, a :: t.map4(k, a) == Map4to6(tb, pv, a))
    && (forall k, x, allocate :: Map6to4(tb, pv, x).Mapped? || !allocate ==>
            t.map6(k, x, allocate) == Map6to4(tb, pv, x))
  }

  /** The translator's own addresses are in the table. */
  ghost predicate KnowsSelf(t: Env, es: seq<Entry>) {
    exists derived :: Static(Prefix4(t.local4, 32), Prefix6(t.local6, 128), derived) in es
  }

  ghost predicate ValidHosts(pv: PoolView) {
    pv.WithPool? ==> forall off :: off in pv.s ==> ValidIPv6(pv.s[off].v6)
  }

  /** A pool behind its table has such hosts only, and none that the table maps by other means. */
  lemma ProperHosts(tb: Table, c: Params, s: State)
    requires WellFormed(tb) && ValidParams(c) && AllProper(tb, c, s)
    ensures ValidHosts(WithPool(c, s)) && Clean(tb, WithPool(c, s))
  {
    hide ReservedBy, Lookup6, ValidIPv6, ValidParams;
    forall off | off in s ensures ValidIPv6(s[off].v6) && Lookup6(tb, s[off].v6) == None {
      assert Proper(tb, c, off, s[off]);
    }
  }

  /** So it is in every state of every run through the table. */
  lemma RunHosts(tb: Table, c: Params, states: seq<State>, steps: seq<Step>, i: nat)
    requires WellFormed(tb) && ValidParams(c) && Run(c, states, steps) && Inv(c, states[0])
             && AllProper(tb, c, states[0])
    requires i < |states| && forall k :: 0 <= k < |steps| ==> ThroughTable(tb, c, steps[k])
    ensures Inv(c, states[i]) && ValidHosts(WithPool(c, states[i])) && Clean(tb, WithPool(c, states[i]))
  {
    hide Run, ThroughTable, AllProper, Inv, ValidParams, ValidHosts, Clean;
    RunStaysProper(tb, c, states, steps, i);
    ProperHosts(tb, c, states[i]);
  }

  lemma SelfMaps(t: Env, tb: Table, es: seq<Entry>, pv: PoolView)
    requires Accepted(tb, es) && KnowsSelf(t, es)
    ensures Map4to6(tb, pv, t.local4) == Mapped(t.local6)
  {
    hide ValidEntries, Conflicting, FirstNet4;
    var derived :| Static(Prefix4(t.local4, 32), Prefix6(t.local6, 128), derived) in es;
    var self := Static(Prefix4(t.local4, 32), Prefix6(t.local6, 128), derived);
    var i :| 0 <= i < |es| && es[i] == self;
    assert Lookup4(tb, t.local4) == Some(self);
  }

  /** Everything the table maps to, the derived own address aside, may appear in an IPv6 packet. */
  lemma ImageValid(tb: Table, es: seq<Entry>, pv: PoolView, a: Addr4, x: Addr6)
    requires Accepted(tb, es) && ValidHosts(pv) && Map4to6(tb, pv, a) == Mapped(x) && !DerivedSelf(tb, a)
    ensures ValidIPv6(x)
  {
    hide ValidEntries, Conflicting, TableOf, Lookup4, Contains4, Contains6, JoinStatic6, EmbedIn, Bits.Low, ValidIPv6;
    Lookup4Longest(tb, es, a);
    var e := Lookup4(tb, a).value;
    EntryValid(es, e);
    if e.Static? { JoinThere(e, a); } else if e.Nat64? { EmbedThere(tb, e.nv6, a, x); }
  }

  /** The pool without its hosts. */
  function Emptied(pv: PoolView): PoolView {
    if pv.NoPool? then pv else WithPool(pv.c, map[])
  }

  lemma EmptiedFits(tb: Table, es: seq<Entry>, pv: PoolView)
    requires WellFormed(tb) && PoolFits(es, pv)
    ensures PoolFits(es, Emptied(pv)) && Clean(tb, Emptied(pv)) && ValidHosts(Emptied(pv))
  {
    if pv.WithPool? { EmptyInv(pv.c); }
  }

  predicate InPool(tb: Table, a: Addr4) {
    Lookup4(tb, a).Some? && Lookup4(tb, a).value.PoolRange?
  }

  /** Outside the pool's range the answer does not depend on the pool. */
  lemma OutsidePool(tb: Table, pv: PoolView, pv': PoolView, a: Addr4)
    requires !InPool(tb, a)
    ensures Map4to6(tb, pv, a) == Map4to6(tb, pv', a)
  {
    hide Lookup4, JoinStatic6, EmbedIn;
  }

  lemma RegisteredAnswers(tb: Table, pv: PoolView, pv': PoolView, x: Addr6)
    requires WellFormed(tb) && GoodView(pv) && GoodView(pv') && Map6to4(tb, Emptied(pv), x).Mapped?
    ensures Lookup6(tb, x).Some? && Map6to4(tb, pv', x) == Map6to4(tb, Emptied(pv), x)
  {
    hide Lookup6, JoinStatic4, Unembed;
  }

  /** Outside the pool's range an address comes back whatever happened to the pool in the meantime. */
  lemma StaticBack(tb: Table, es: seq<Entry>, pv: PoolView, pv': PoolView, a: Addr4, x: Addr6)
    requires Accepted(tb, es) && WellFormed(tb) && PoolFits(es, pv) && GoodView(pv) && GoodView(pv')
    requires Map4to6(tb, pv, a) == Mapped(x) && !DerivedSelf(tb, a) && !InPool(tb, a)
    ensures Map6to4(tb, pv', x) == Mapped(a) && ValidIPv6(x)
  {
    hide Map4to6, Map6to4, Accepted, PoolFits, Clean, DerivedSelf, InPool, ValidHosts, WellFormed, GoodView, ValidIPv6;
    EmptiedFits(tb, es, pv);
    OutsidePool(tb, pv, Emptied(pv), a);
    MapsBack(tb, es, Emptied(pv), a, x);
    ImageValid(tb, es, Emptied(pv), a, x);
    RegisteredAnswers(tb, pv, pv', x);
  }

  /** A dynamic host keeps its address from one view of the pool to the other, and it is one for the pool to map. */
  ghost predicate Stays(tb: Table, pv: PoolView, pv': PoolView, a: Addr4) {
    && WellFormed(tb) && pv.WithPool? && pv'.WithPool? && pv'.c == pv.c
    && var off := Bits.Low(Val4(a), HostBits(pv.c));
    && off in pv.s && off in pv'.s && pv'.s[off].v6 == pv.s[off].v6 && !pv'.s[off].dormant
    && Lookup6(tb, pv.s[off].v6) == None && ValidIPv6(pv.s[off].v6)
  }

  /** A host that was just used stays through every run that maintains the pool within the short lease. */
  lemma HostStays(tb: Table, c: Params, states: seq<State>, steps: seq<Step>, i: nat, a: Addr4, x: Addr6, now: int,
                  minLease: int)
    requires WellFormed(tb) && ValidParams(c) && Run(c, states, steps) && Inv(c, states[0])
             && AllProper(tb, c, states[0]) && i < |states|
    requires Holds(states[0], Bits.Low(Val4(a), HostBits(c)), x, now)
    requires forall k :: 0 <= k < |steps| ==> WithinLease(steps[k], now, minLease)
    ensures Stays(tb, WithPool(c, states[0]), WithPool(c, states[i]), a)
  {
    hide Run, WithinLease, Inv, ValidParams, Bits.Low, ReservedBy, Lookup6, ValidIPv6;
    var off := Bits.Low(Val4(a), HostBits(c));
    LeaseKept(c, states, steps, i, off, x, now, minLease);
    assert Proper(tb, c, off, states[0][off]);
  }

  lemma DynamicBack(tb: Table, es: seq<Entry>, pv: PoolView, pv': PoolView, a: Addr4, x: Addr6)
    requires Accepted(tb, es) && PoolFits(es, pv') && GoodView(pv')
    requires Map4to6(tb, pv, a) == Mapped(x) && InPool(tb, a) && Stays(tb, pv, pv', a)
    ensures WellFormed(tb) && Map6to4(tb, pv', x) == Mapped(a) && ValidIPv6(x) && Lookup6(tb, x) == None
  {
    hide ValidEntries, Conflicting, TableOf, Lookup4, Lookup6, Contains4, Bits.Low, Inv, Enc32, ValidParams, ValidIPv6;
    Lookup4Longest(tb, es, a);
    OnlyPool(es, Lookup4(tb, a).value, PoolEntry(pv'.c));
    PoolAddress(pv'.c, a);
    var off := Bits.Low(Val4(a), HostBits(pv.c));
    assert IsMapped(pv'.s, x, off);
    forall o | IsMapped(pv'.s, x, o) ensures o == off { OnlyMapped(pv'.c, pv'.s, x, off, o); }
  }

  /**
   * The table maps a in the view pv, a is not the derived own address, and if a is dynamic its host is still there in
   * pv'.
   */
  ghost predicate Carried(tb: Table, pv: PoolView, pv': PoolView, a: Addr4) {
    Map4to6(tb, pv, a).Mapped? && !DerivedSelf(tb, a) && (InPool(tb, a) ==> Stays(tb, pv, pv', a))
  }

  /**
   * The table is one that Build makes, the pool is its pool in both views, and each translator is served in its view.
   */
  ghost predicate Serves(tb: Table, es: seq<Entry>, pv: PoolView, t: Env) {
    Accepted(tb, es) && DerivedEmbedded(es) && PoolFits(es, pv) && WellFormed(tb) && GoodView(pv) && ServedBy(t, tb, pv)
  }

  /** The translator's own IPv6 address is never left to the pool. */
  lemma SelfRegistered(t: Env, tb: Table, es: seq<Entry>, pv: PoolView)
    requires Accepted(tb, es) && WellFormed(tb) && PoolFits(es, pv) && GoodView(pv) && DerivedEmbedded(es)
             && KnowsSelf(t, es)
    ensures Lookup6(tb, t.local6).Some?
  {
    hide Map4to6, Map6to4, Accepted, PoolFits, Clean, DerivedSelf, DerivedEmbedded, KnowsSelf, WellFormed, Lookup6;
    hide GoodView;
    SelfMaps(t, tb, es, pv);
    if DerivedSelf(tb, t.local4) {
      DerivedSelfStays(tb, es, pv, t.local4, t.local6);
    } else {
      SelfOutside(t, tb, es);
      EmptiedFits(tb, es, pv);
      OutsidePool(tb, pv, Emptied(pv), t.local4);
      MapsBack(tb, es, Emptied(pv), t.local4, t.local6);
      RegisteredAnswers(tb, pv, pv, t.local6);
    }
  }

  lemma SelfOutside(t: Env, tb: Table, es: seq<Entry>)
    requires Accepted(tb, es) && KnowsSelf(t, es)
    ensures !InPool(tb, t.local4)
  {
    hide ValidEntries, Conflicting, FirstNet4;
    var derived :| Static(Prefix4(t.local4, 32), Prefix6(t.local6, 128), derived) in es;
    var self := Static(Prefix4(t.local4, 32), Prefix6(t.local6, 128), derived);
    var i :| 0 <= i < |es| && es[i] == self;
    assert Lookup4(tb, t.local4) == Some(self);
  }

  /** An address that is carried comes back in the later view, and is not the translator's own unless it was before. */
  lemma CarriedBack(t: Env, tb: Table, es: seq<Entry>, pv: PoolView, pv': PoolView, a: Addr4, x: Addr6)
    requires Accepted(tb, es) && WellFormed(tb) && DerivedEmbedded(es) && KnowsSelf(t, es)
    requires PoolFits(es, pv) && GoodView(pv) && PoolFits(es, pv') && GoodView(pv')
    requires Carried(tb, pv, pv', a) && Map4to6(tb, pv, a) == Mapped(x)
    ensures Map6to4(tb, pv', x) == Mapped(a) && ValidIPv6(x) && (a != t.local4 ==> x != t.local6)
  {
    hide Map4to6, Map6to4, Accepted, PoolFits, Clean, DerivedSelf, DerivedEmbedded, KnowsSelf, WellFormed, InPool;
    hide Stays, GoodView, ValidIPv6, Lookup6;
    if InPool(tb, a) {
      DynamicBack(tb, es, pv, pv', a, x);
      SelfRegistered(t, tb, es, pv);
    } else {
      StaticBack(tb, es, pv, pv', a, x);
      if x == t.local6 {
        EmptiedFits(tb, es, pv);
        OutsidePool(tb, pv, Emptied(pv), a);
        SelfMaps(t, tb, es, Emptied(pv));
        Injective(tb, es, Emptied(pv), a, t.local4, x);
      }
    }
  }

  ghost predicate ComesBack(t: Env, t': Env, p: Pkt4) {
    && ValidEnv(t) && ValidEnv(t') && WellParsed4(p)
    && exists q, r :: Translate(t, p.raw) == [q] && Translate(t', q) == [r] && RoundTrip.ArrivedBack(p, r)
  }

  ghost predicate BetweenCarried(tb: Table, pv: PoolView, pv': PoolView, p: Pkt4) {
    |p.raw| >= IP4_HDR && Carried(tb, pv, pv', p.raw[12..16]) && Carried(tb, pv, pv', p.raw[16..20])
  }

  /**
   * End to end: every packet the round trip is about, between two such addresses, comes back. The pool may have changed
   * in any way between the two directions, except that dynamic hosts that take part are still there.
   */
  lemma PacketReturns(t: Env, t': Env, tb: Table, es: seq<Entry>, pv: PoolView, pv': PoolView, p: Pkt4)
    requires Serves(tb, es, pv, t) && Serves(tb, es, pv', t') && KnowsSelf(t, es) && t'.local4 == t.local4
             && t'.local6 == t.local6
    requires Parse4(p.raw) == Good4(p) && RoundTrip.Traveller(t, p) && ValidEnv(t') && t.mtu <= t'.mtu
    requires BetweenCarried(tb, pv, pv', p)
    ensures ComesBack(t, t', p)
  {
    hide Map4to6, Map6to4, Accepted, PoolFits, Clean, DerivedEmbedded, DerivedSelf, KnowsSelf, Parse4, Translate;
    hide GoodView;
    hide RoundTrip.ArrivedBack, ValidIPv6, Verifies, RoundTrip.Survives, Whole4, TooBig4, WellParsed4, InPool, Stays;
    hide WellFormed;
    var src4, dst4 := p.raw[12..16], p.raw[16..20];
    var src6, dst6 := Map4to6(tb, pv, src4).addr, Map4to6(tb, pv, dst4).addr;
    CarriedBack(t, tb, es, pv, pv', src4, src6);
    CarriedBack(t, tb, es, pv, pv', dst4, dst6);
    assert RoundTrip.MapsBack(t, t', src4, dst4, src6, dst6);
    RoundTrip.RoundTrip(t, t', p, src6, dst6);
  }
}
