/** What holds of the address maps of every table that Build accepts. */
module TableLaws {
  import opened Bytes
  import opened NetUtil
  import opened Bits
  import opened Prefixes
  import opened PoolSpec
  import opened Xlate
  import opened Table

  /** A table as Build makes it. */
  ghost predicate Accepted(t: Table, es: seq<Entry>) {
    ValidEntries(es) && !Conflicting(es) && TableOf(t, es)
  }

  function PoolEntry(c: Params): Entry
    requires ValidParams(c)
  {
    PoolRange(Prefix4(Enc32(c.base), c.bits))
  }

  /** The pool given to the table is the one of its pool entry. */
  ghost predicate PoolFits(es: seq<Entry>, pv: PoolView) {
    if pv.NoPool? then forall i :: 0 <= i < |es| ==> !es[i].PoolRange?
    else ValidParams(pv.c) && Inv(pv.c, pv.s) && PoolEntry(pv.c) in es
  }

  /** No dynamic host has an address that the table maps by other means. */
  ghost predicate Clean(t: Table, pv: PoolView)
    requires WellFormed(t)
  {
    pv.WithPool? ==> forall off :: off in pv.s ==> Lookup6(t, pv.s[off].v6) == None
  }

  predicate DerivedSelf(t: Table, a: Addr4) {
    match Lookup4(t, a)
    case Some(Static(_, _, v4Only)) => v4Only
    case _ => false
  }

  /** The derived own address is the embedding of its IPv4 address in the prefix, as configuration makes it. */
  ghost predicate DerivedEmbedded(es: seq<Entry>) {
    forall i :: 0 <= i < |es| && es[i].Static? && es[i].v4Only ==>
      exists j :: 0 <= j < |es| && es[j].Nat64? && Embed(es[j].nv6.addr, es[j].nv6.bits, es[i].sv4.addr)
        == Some(es[i].sv6.addr)
  }

  lemma EntryValid(es: seq<Entry>, e: Entry)
    requires ValidEntries(es) && e in es
    ensures ValidEntry(e)
  {
  }

  lemma OnlyPool(es: seq<Entry>, d: Entry, e: Entry)
    requires ValidEntries(es) && d in es && e in es && d.PoolRange? && e.PoolRange?
    ensures d == e
  {
    var i :| 0 <= i < |es| && es[i] == d;
    var j :| 0 <= j < |es| && es[j] == e;
  }

  /** The registered entry that contains an address is the one found. */
  lemma FoundHere(t: Table, es: seq<Entry>, e: Entry, x: Addr6)
    requires Accepted(t, es) && e in es && Registered6(e) && Contains6(V6(e), x)
    ensures WellFormed(t) && Lookup6(t, x) == Some(e)
  {
    hide Contains6, Lookup6, ValidEntries, Conflicting, TableOf;
    Lookup6Unique(t, es, x);
  }

  /** The address of a pool host, given back from its offset. */
  lemma PoolAddress(c: Params, a: Addr4)
    requires ValidParams(c) && Contains4(PoolEntry(c).pv4, a)
    ensures var off := Low(Val4(a), HostBits(c)); off <= Max(c) && Enc32(c.base + off) == a
  {
    hide Low, Shr, Pow2, Get32, Enc32;
    Val4Of(c.base);
    LowBound(Val4(a), HostBits(c));
    SameHigh(Val4(a), c.base, HostBits(c));
    EncodeVal4(a);
  }

  lemma OnlyMapped(c: Params, s: State, x: Addr6, off: nat, o: nat)
    requires Inv(c, s) && IsMapped(s, x, off) && IsMapped(s, x, o)
    ensures o == off
  {
  }

  /** From IPv4 to IPv6 and back: every address that maps, except the derived own one, comes back. */
  lemma MapsBack(t: Table, es: seq<Entry>, pv: PoolView, a: Addr4, x: Addr6)
    requires Accepted(t, es) && PoolFits(es, pv) && WellFormed(t) && Clean(t, pv)
    requires Map4to6(t, pv, a) == Mapped(x) && !DerivedSelf(t, a)
    ensures Map6to4(t, pv, x) == Mapped(a)
  {
    hide ValidEntries, Conflicting, TableOf, Lookup4, Lookup6, Contains4, Contains6, JoinStatic4, JoinStatic6, EmbedIn;
    hide Low, Inv;
    Lookup4Longest(t, es, a);
    var e := Lookup4(t, a).value;
    EntryValid(es, e);
    if e.Static? {
      JoinThere(e, a);
      FoundHere(t, es, e, x);
    } else if e.Nat64? {
      EmbedThere(t, e.nv6, a, x);
      FoundHere(t, es, e, x);
      EmbedBack(t, e, a, x);
    } else {
      PoolBack(t, es, pv, e, a, x);
    }
  }

  lemma EmbedBack(t: Table, e: Entry, a: Addr4, x: Addr6)
    requires e.Nat64? && ValidNat64(e.nv6) && EmbedIn(t, e.nv6, a) == Mapped(x) && Lookup4(t, a) == Some(e)
    ensures Unembed(t, e, x) == Mapped(a)
  {
    hide Lookup4, Extract, ClassifyIPv4, Forbidden, Embed;
    EmbedThere(t, e.nv6, a, x);
  }

  lemma PoolBack(t: Table, es: seq<Entry>, pv: PoolView, e: Entry, a: Addr4, x: Addr6)
    requires Accepted(t, es) && PoolFits(es, pv) && WellFormed(t) && Clean(t, pv)
    requires e.PoolRange? && e in es && Lookup4(t, a) == Some(e) && Contains4(V4(e), a)
             && Map4to6(t, pv, a) == Mapped(x)
    ensures Map6to4(t, pv, x) == Mapped(a)
  {
    hide ValidEntries, Conflicting, TableOf, Lookup4, Lookup6, Contains4, Low, Inv, Enc32, ValidParams;
    OnlyPool(es, e, PoolEntry(pv.c));
    PoolAddress(pv.c, a);
    var off := Low(Val4(a), HostBits(pv.c));
    assert IsMapped(pv.s, x, off);
    forall o | IsMapped(pv.s, x, o) ensures o == off { OnlyMapped(pv.c, pv.s, x, off, o); }
  }

  /** The derived own address does not come back: its embedding hairpins. */
  lemma DerivedSelfStays(t: Table, es: seq<Entry>, pv: PoolView, a: Addr4, x: Addr6)
    requires Accepted(t, es) && PoolFits(es, pv) && WellFormed(t) && DerivedEmbedded(es)
    requires Map4to6(t, pv, a) == Mapped(x) && DerivedSelf(t, a)
    ensures !Map6to4(t, pv, x).Mapped?
    ensures exists n :: n in es && n.Nat64? && ValidNat64(n.nv6) && Embed(n.nv6.addr, n.nv6.bits, a) == Some(x)
              && Lookup6(t, x) == Some(n)
  {
    hide ValidEntries, Conflicting, TableOf, Lookup4, Lookup6, Contains4, Contains6, Embed, Inv, Extract, Forbidden;
    hide ClassifyIPv4;
    Lookup4Longest(t, es, a);
    var e := Lookup4(t, a).value;
    EntryValid(es, e);
    FullLength4(e.sv4, a);
    var i :| 0 <= i < |es| && es[i] == e;
    var j :| 0 <= j < |es| && es[j].Nat64? && Embed(es[j].nv6.addr, es[j].nv6.bits, es[i].sv4.addr)
      == Some(es[i].sv6.addr);
    var n := es[j];
    EntryValid(es, n);
    EmbeddedIn(n.nv6, a, x);
    FoundHere(t, es, n, x);
  }

  lemma EmbeddedIn(p: Prefix6, a: Addr4, x: Addr6)
    requires ValidNat64(p) && Embed(p.addr, p.bits, a) == Some(x)
    ensures Contains6(p, x) && Extract(x, p.bits) == Some(a)
  {
    hide Carries, Embed, Extract, ValidIPv6;
    EmbedCarries(p.addr, p.bits, a, x);
    CarriesPrefix(x, p.addr, p.bits, a);
    ExtractFinds(x, p.bits, a);
    ByteGone(x[p.bits / 8]);
    ByteGone(p.addr[p.bits / 8]);
  }

  /** An address that maps to IPv6 comes back exactly if it is not the derived own one. */
  lemma MapsBackExactly(t: Table, es: seq<Entry>, pv: PoolView, a: Addr4, x: Addr6)
    requires Accepted(t, es) && PoolFits(es, pv) && WellFormed(t) && Clean(t, pv) && DerivedEmbedded(es)
    requires Map4to6(t, pv, a) == Mapped(x)
    ensures Map6to4(t, pv, x) == Mapped(a) <==> !DerivedSelf(t, a)
  {
    hide Map4to6, Map6to4, Accepted, PoolFits, Clean, DerivedSelf, DerivedEmbedded;
    if DerivedSelf(t, a) { DerivedSelfStays(t, es, pv, a, x); } else { MapsBack(t, es, pv, a, x); }
  }

  /** The map from IPv4 to IPv6 is injective. */
  lemma Injective(t: Table, es: seq<Entry>, pv: PoolView, a: Addr4, b: Addr4, x: Addr6)
    requires Accepted(t, es) && PoolFits(es, pv) && WellFormed(t) && Clean(t, pv) && DerivedEmbedded(es)
    requires Map4to6(t, pv, a) == Mapped(x) && Map4to6(t, pv, b) == Mapped(x)
    ensures a == b
  {
    hide Map4to6, Map6to4, ValidEntries, Conflicting, TableOf, Clean, DerivedSelf, DerivedEmbedded, Lookup6, Embed;
    if !DerivedSelf(t, a) { MapsBack(t, es, pv, a, x); } else { DerivedSelfStays(t, es, pv, a, x); }
    if !DerivedSelf(t, b) { MapsBack(t, es, pv, b, x); } else { DerivedSelfStays(t, es, pv, b, x); }
    if DerivedSelf(t, a) && DerivedSelf(t, b) {
      var n :| n in es && n.Nat64? && ValidNat64(n.nv6) && Embed(n.nv6.addr, n.nv6.bits, a) == Some(x)
        && Lookup6(t, x) == Some(n);
      var m :| m in es && m.Nat64? && ValidNat64(m.nv6) && Embed(m.nv6.addr, m.nv6.bits, b) == Some(x)
        && Lookup6(t, x) == Some(m);
      EmbeddedIn(n.nv6, a, x);
      EmbeddedIn(n.nv6, b, x);
    }
  }

  // ----- From IPv6 to IPv4 and back -----

  /** The entry that answers for an IPv6 address: the registered one that contains it, else the pool. */
  ghost function Owner(t: Table, pv: PoolView, x: Addr6): Option<Entry>
    requires WellFormed(t) && (pv.WithPool? ==> ValidParams(pv.c))
  {
    if Lookup6(t, x).Some? || pv.NoPool? then Lookup6(t, x) else Some(PoolEntry(pv.c))
  }

  /**
   * An IPv6 address that maps to IPv4 comes back exactly if the longest match of its image is the entry that made it.
   */
  lemma ReturnsExactly(t: Table, es: seq<Entry>, pv: PoolView, x: Addr6, a: Addr4)
    requires Accepted(t, es) && PoolFits(es, pv) && WellFormed(t) && Clean(t, pv) && DerivedEmbedded(es)
    requires Map6to4(t, pv, x) == Mapped(a)
    ensures Map4to6(t, pv, a) == Mapped(x) <==> Lookup4(t, a) == Owner(t, pv, x)
  {
    hide Map6to4, Map4to6, Accepted, Clean, DerivedEmbedded, Lookup4, Lookup6, ValidParams, Inv;
    if Lookup4(t, a) == Owner(t, pv, x) { OwnerReturns(t, es, pv, x, a); }
    if Map4to6(t, pv, a) == Mapped(x) { ReturnIsOwner(t, es, pv, x, a); }
  }

  lemma OwnerReturns(t: Table, es: seq<Entry>, pv: PoolView, x: Addr6, a: Addr4)
    requires Accepted(t, es) && PoolFits(es, pv) && WellFormed(t)
    requires Map6to4(t, pv, x) == Mapped(a) && Lookup4(t, a) == Owner(t, pv, x)
    ensures Map4to6(t, pv, a) == Mapped(x)
  {
    hide ValidEntries, Conflicting, TableOf, Lookup4, Lookup6, Contains6, JoinStatic4, JoinStatic6, Low, Unembed, Inv;
    hide Enc32, ValidParams;
    Lookup6Unique(t, es, x);
    match Lookup6(t, x)
    case None =>
      var off :| IsMapped(pv.s, x, off);
      OffsetBack(pv.c, pv.s, off);
      forall o | IsMapped(pv.s, x, o) ensures o == off { OnlyMapped(pv.c, pv.s, x, off, o); }
    case Some(e) =>
      EntryValid(es, e);
      if e.Static? { JoinBack(e, x); } else { Hairpin(t, pv, e, x, a); }
  }

  lemma OffsetBack(c: Params, s: State, off: nat)
    requires ValidParams(c) && Inv(c, s) && off in s
    ensures c.base + off < 0x1_0000_0000 && Low(Val4(Enc32(c.base + off)), HostBits(c)) == off
  {
    hide Low, Shr, Enc32, Get32, Pow2;
    Val4Of(c.base + off);
    JoinParts(c.base, off, HostBits(c));
  }

  lemma ReturnIsOwner(t: Table, es: seq<Entry>, pv: PoolView, x: Addr6, a: Addr4)
    requires Accepted(t, es) && PoolFits(es, pv) && WellFormed(t) && Clean(t, pv) && DerivedEmbedded(es)
    requires Map6to4(t, pv, x) == Mapped(a) && Map4to6(t, pv, a) == Mapped(x)
    ensures Lookup4(t, a) == Owner(t, pv, x)
  {
    hide ValidEntries, Conflicting, TableOf, Lookup4, Lookup6, Contains4, Contains6, JoinStatic4, JoinStatic6, EmbedIn;
    hide Unembed, Inv, Low;
    MapsBackExactly(t, es, pv, a, x);
    Lookup4Longest(t, es, a);
    var e := Lookup4(t, a).value;
    EntryValid(es, e);
    if e.Static? {
      JoinThere(e, a);
      FoundHere(t, es, e, x);
    } else if e.Nat64? {
      EmbedThere(t, e.nv6, a, x);
      FoundHere(t, es, e, x);
    } else {
      OnlyPool(es, e, PoolEntry(pv.c));
    }
  }

  // ----- Pools filled through a table -----

  /** The hook that Build installs in the pool. */
  predicate ReservedBy(t: Table, c: Params, v: nat)
    requires ValidParams(c)
  {
    v < 0x1_0000_0000 ==> Lookup4(t, Enc32(v)) != Some(PoolEntry(c))
  }

  /**
   * A step that goes through the table: only addresses that packets may have and the table does not register reach the
   * pool.
   */
  ghost predicate ThroughTable(t: Table, c: Params, step: Step)
    requires WellFormed(t) && ValidParams(c)
  {
    match step
    case Touch(_, _) => true
    case Maintain(_, _, _) => true
    case Assign(a, _, reserved, _) =>
      Lookup6(t, a) == None && ValidIPv6(a) && forall v: nat :: reserved(v) == ReservedBy(t, c, v)
    case Load(lines, _, _, _, reserved) =>
      && (forall i :: 0 <= i < |lines| && lines[i].Line? ==> Lookup6(t, lines[i].v6) == None)
      && (forall v: nat :: reserved(v) == ReservedBy(t, c, v))
  }

  /**
   * A host as the table wants it: its IPv6 address may be in packets and is the pool's to map, and so is its IPv4
   * address.
   */
  ghost predicate Proper(t: Table, c: Params, off: nat, h: Host)
    requires WellFormed(t) && ValidParams(c)
  {
    Lookup6(t, h.v6) == None && ValidIPv6(h.v6) && !ReservedBy(t, c, c.base + off)
  }

  ghost predicate AllProper(t: Table, c: Params, s: State)
    requires WellFormed(t) && ValidParams(c)
  {
    forall off :: off in s ==> Proper(t, c, off, s[off])
  }

  lemma AssignStaysProper(t: Table, c: Params, s: State, a: Addr6, now: int, reserved: nat -> bool, s': State,
                          r: Option<nat>)
    requires WellFormed(t) && ValidParams(c) && AllProper(t, c, s) && Assigns(c, s, a, now, reserved, s', r)
    requires Lookup6(t, a) == None && ValidIPv6(a) && forall v: nat :: reserved(v) == ReservedBy(t, c, v)
    ensures AllProper(t, c, s')
  {
    hide Probe, Hash, Max, Size, Lookup6, ReservedBy, ValidIPv6;
    if r.Some? {
      assert !reserved(c.base + r.value) || r.value in s;
      if r.value in s { assert Proper(t, c, r.value, s[r.value]); }
      assert s' == s[r.value := Host(a, now, false)];
    }
  }

  lemma {:induction false} LoadStaysProper(t: Table, c: Params, s: State, reserved: nat -> bool, lines: seq<Line>)
    requires WellFormed(t) && ValidParams(c) && AllProper(t, c, s)
    requires forall i :: 0 <= i < |lines| && lines[i].Line? ==> Lookup6(t, lines[i].v6) == None
    requires forall v: nat :: reserved(v) == ReservedBy(t, c, v)
    ensures AllProper(t, c, AddLines(c, s, reserved, lines))
    decreases |lines|
  {
    hide Lookup6, ReservedBy, ValidIPv6;
    if lines != [] {
      var l := lines[0];
      var s1 := if Accepts(c, s, reserved, l) then s[l.v4 - c.base := Host(l.v6, l.last, true)] else s;
      if Accepts(c, s, reserved, l) { assert reserved(c.base + (l.v4 - c.base)) == ReservedBy(t, c, l.v4); }
      LoadStaysProper(t, c, s1, reserved, lines[1..]);
    }
  }

  lemma StepStaysProper(t: Table, c: Params, s: State, step: Step, s': State)
    requires WellFormed(t) && ValidParams(c) && AllProper(t, c, s) && Next(c, s, step, s') && ThroughTable(t, c, step)
    ensures AllProper(t, c, s')
  {
    hide Assigns, AddLines, Settled, Lookup6, ReservedBy, ValidIPv6;
    match step
    case Touch(off, now) =>
    case Assign(a, now, reserved, r) => AssignStaysProper(t, c, s, a, now, reserved, s', r);
    case Maintain(now, minLease, maxLease) =>
    case Load(lines, broken, now, minLease, reserved) =>
      var added := AddLines(c, s, reserved, lines);
      LoadStaysProper(t, c, s, reserved, lines);
      SettledKeepsAddresses(s, added, now, minLease);
  }

  /**
   * Over every run through the table, from an empty pool or one such run left, every host stays as the table wants it.
   */
  lemma {:induction false} RunStaysProper(t: Table, c: Params, states: seq<State>, steps: seq<Step>, i: nat)
    requires WellFormed(t) && ValidParams(c) && Run(c, states, steps) && Inv(c, states[0]) && AllProper(t, c, states[0])
    requires i < |states| && forall k :: 0 <= k < |steps| ==> ThroughTable(t, c, steps[k])
    ensures Inv(c, states[i]) && AllProper(t, c, states[i])
    decreases i
  {
    hide Next, ThroughTable, Proper, Inv;
    if i > 0 {
      RunStaysProper(t, c, states, steps, i - 1);
      assert Next(c, states[i - 1], steps[i - 1], states[i - 1 + 1]) && ThroughTable(t, c, steps[i - 1]);
      NextKeepsInv(c, states[i - 1], steps[i - 1], states[i]);
      StepStaysProper(t, c, states[i - 1], steps[i - 1], states[i]);
    }
  }

  lemma EmptyInv(c: Params)
    ensures Inv(c, map[])
  {
  }

  /** From an empty pool on, the pool stays clean and every mapped host maps there and back. */
  lemma PoolBothWays(t: Table, es: seq<Entry>, c: Params, states: seq<State>, steps: seq<Step>, i: nat, off: nat)
    requires Accepted(t, es) && WellFormed(t) && ValidParams(c) && PoolEntry(c) in es && Run(c, states, steps)
             && states[0] == map[]
    requires i < |states| && forall k :: 0 <= k < |steps| ==> ThroughTable(t, c, steps[k])
    requires off in states[i] && !states[i][off].dormant
    ensures var pv, a, x := WithPool(c, states[i]), c.base + off, states[i][off].v6;
            a < 0x1_0000_0000 && Inv(c, states[i]) && Clean(t, pv)
            && Map4to6(t, pv, Enc32(a)) == Mapped(x) && Map6to4(t, pv, x) == Mapped(Enc32(a))
  {
    hide Next, ThroughTable, ValidEntries, Conflicting, TableOf, Lookup4, Lookup6, Low, Inv, Enc32, ValidParams;
    EmptyInv(c);
    RunStaysProper(t, c, states, steps, i);
    var s := states[i];
    OffsetBack(c, s, off);
    assert Proper(t, c, off, s[off]);
    assert Lookup4(t, Enc32(c.base + off)) == Some(PoolEntry(c));
    assert IsMapped(s, s[off].v6, off);
    forall o | IsMapped(s, s[off].v6, o) ensures o == off { OnlyMapped(c, s, s[off].v6, off, o); }
  }

  /**
   * Whatever the pool holds, a dynamic address comes back exactly if the table leaves the host's address to the pool or
   * a static map sends it there too.
   */
  lemma PoolReturnsExactly(t: Table, es: seq<Entry>, pv: PoolView, a: Addr4, x: Addr6)
    requires Accepted(t, es) && PoolFits(es, pv) && WellFormed(t) && pv.WithPool?
    requires Lookup4(t, a) == Some(PoolEntry(pv.c)) && Map4to6(t, pv, a) == Mapped(x)
    ensures Map6to4(t, pv, x) == Mapped(a) <==>
            match Lookup6(t, x)
            case None => true
            case Some(e) => e.Static? && Contains4(e.sv4, a) && JoinStatic6(e, a) == x
  {
    hide ValidEntries, Conflicting, TableOf, Lookup4, Lookup6, Contains4, Contains6, JoinStatic4, JoinStatic6;
    hide Low, Inv, Enc32, ValidParams, Extract;
    Lookup6Unique(t, es, x);
    if Lookup6(t, x).Some? {
      var e := Lookup6(t, x).value;
      EntryValid(es, e);
      if e.Static? { JoinBack(e, x); }
      if e.Static? && Contains4(e.sv4, a) { JoinThere(e, a); }
    } else {
      Lookup4Longest(t, es, a);
      PoolAddress(pv.c, a);
      var off := Low(Val4(a), HostBits(pv.c));
      assert IsMapped(pv.s, x, off);
      forall o | IsMapped(pv.s, x, o) ensures o == off { OnlyMapped(pv.c, pv.s, x, off, o); }
    }
  }

  // ----- Where the way back fails -----

  const PREFIX: Entry := Nat64(Prefix6([0x20, 1, 0xd, 0xb8, 0, 0, 0, 0, 0, 0, 0, 0, 0, 0, 0, 0], 96))
  const SELF: Entry := Static(Prefix4([203, 0, 114, 1], 32),
                              Prefix6([0x20, 1, 0xd, 0xb8, 0, 0, 0, 0, 0, 0, 0, 0, 203, 0, 114, 1], 128), true)

  ghost function DerivedTable(): Table {
    Table(false, map[SELF.sv4.addr := SELF], [PREFIX], map[], [PREFIX])
  }

  lemma DerivedTableOf()
    ensures Accepted(DerivedTable(), [PREFIX, SELF]) && WellFormed(DerivedTable())
  {
    hide Shr, Get32, FirstNet4, FirstNet6;
    assert ValidNat64(PREFIX.nv6) by { SelfEmbedded(); }
    assert !Clash(PREFIX, SELF);
  }

  lemma SelfEmbedded()
    ensures Embed(PREFIX.nv6.addr, PREFIX.nv6.bits, SELF.sv4.addr) == Some(SELF.sv6.addr) && ValidNat64(PREFIX.nv6)
  {
    LowZero(8);
    assert PREFIX.nv6.addr[..12] + SELF.sv4.addr == SELF.sv6.addr;
  }

  /** A prefix and an own address derived from it: the packet to that address does not find its way back. */
  lemma DerivedSelfLost() returns (t: Table)
    ensures Accepted(t, [PREFIX, SELF]) && WellFormed(t) && PoolFits([PREFIX, SELF], NoPool)
            && DerivedEmbedded([PREFIX, SELF])
    ensures Map4to6(t, NoPool, SELF.sv4.addr) == Mapped(SELF.sv6.addr) && Map6to4(t, NoPool, SELF.sv6.addr) == Drop
  {
    hide ValidEntries, Conflicting, TableOf, FirstNet4, FirstNet6, Contains6, Embed, Extract, ValidNat64, Lookup6;
    t := DerivedTable();
    DerivedTableOf();
    SelfEmbedded();
    var es := [PREFIX, SELF];
    assert DerivedEmbedded(es) by {
      assert es[0].Nat64? && Embed(es[0].nv6.addr, es[0].nv6.bits, es[1].sv4.addr) == Some(es[1].sv6.addr);
    }
    EmbeddedIn(PREFIX.nv6, SELF.sv4.addr, SELF.sv6.addr);
    FoundHere(t, es, PREFIX, SELF.sv6.addr);
  }

  const NET: Entry := Static(Prefix4([10, 0, 0, 0], 31),
                             Prefix6([0x20, 1, 0xd, 0xb8, 0, 0, 0, 0, 0, 0, 0, 0, 0, 0, 0, 0], 127), false)
  const HOST: Entry := Static(Prefix4([10, 0, 0, 1], 32),
                              Prefix6([0x20, 2, 0xd, 0xb8, 0, 0, 0, 0, 0, 0, 0, 0, 0, 0, 0, 1], 128), false)

  /** A host inside a static net takes the return path of the net's IPv6 address. */
  lemma OverlapBreaksReturn() returns (t: Table, x: Addr6, a: Addr4, y: Addr6)
    ensures Accepted(t, [NET, HOST]) && WellFormed(t)
    ensures Map6to4(t, NoPool, x) == Mapped(a) && Map4to6(t, NoPool, a) == Mapped(y) && y != x
  {
    hide Get32, Or, Low, Shr, JoinStatic4, ValidStatic, Contains4, Contains6, Conflicting, ValidEntries, TableOf;
    hide Lookup4, Lookup6;
    a := [10, 0, 0, 1];
    y := HOST.sv6.addr;
    t := ExampleTable();
    ExampleEntries();
    x := JoinStatic6(NET, a);
    assert Lookup6(t, x) == Some(NET) && JoinStatic4(NET, x) == a && x != y by {
      ExampleStatic();
      JoinThere(NET, a);
      ExampleTableOf();
      assert x[1] == NET.sv6.addr[..12][1];
      FoundHere(t, [NET, HOST], NET, x);
    }
    ExampleTableOf();
  }

  ghost function ExampleTable(): Table {
    Table(false, map[HOST.sv4.addr := HOST], [NET], map[HOST.sv6.addr := HOST], [NET])
  }

  lemma ExampleTableOf()
    ensures TableOf(ExampleTable(), [NET, HOST]) && WellFormed(ExampleTable())
    ensures Lookup4(ExampleTable(), [10, 0, 0, 1]) == Some(HOST)
  {
    hide Low, Shr, Get32, FirstNet4, FirstNet6;
  }

  lemma ExampleStatic()
    ensures ValidStatic(NET.sv4, NET.sv6) && ValidStatic(HOST.sv4, HOST.sv6) && Contains4(NET.sv4, [10, 0, 0, 1])
  {
  }

  lemma ExampleEntries()
    ensures ValidEntries([NET, HOST]) && !Conflicting([NET, HOST])
  {
    hide Low, Shr, ValidStatic;
    ExampleStatic();
    assert NET.sv6.addr[..12][1] != HOST.sv6.addr[..12][1];
    assert !Clash(NET, HOST);
  }

  const POOL: Params := Params(0xc0a8_0000, 31)

  ghost function PoolTable(): Table {
    Table(false, map[HOST.sv4.addr := HOST], [PoolEntry4()], map[HOST.sv6.addr := HOST], [])
  }

  function PoolEntry4(): Entry { PoolRange(Prefix4([192, 168, 0, 0], 31)) }

  lemma PoolValid()
    ensures Low(0xc0a8_0000, 1) == 0 && Pow2(1) == 2 && ValidParams(POOL) && PoolEntry(POOL) == PoolEntry4()
    ensures ValidEntry(PoolEntry4()) && Contains4(PoolEntry4().pv4, [192, 168, 0, 1])
  {
  }

  lemma PoolTableOf()
    ensures Accepted(PoolTable(), [HOST, PoolEntry4()]) && WellFormed(PoolTable())
    ensures Lookup4(PoolTable(), [192, 168, 0, 1]) == Some(PoolEntry4())
            && Lookup6(PoolTable(), HOST.sv6.addr) == Some(HOST)
  {
    hide Low, Shr, Get32, Contains4, Masked4, Masked6, ValidStatic;
    PoolValid();
    ExampleStatic();
    assert !Clash(HOST, PoolEntry4());
  }

  /**
   * A state file can bring in a host whose IPv6 address a static map owns; the pool's answer for it does not come back.
   */
  lemma LoadBreaksReturn(reserved: nat -> bool) returns (a: Addr4, x: Addr6, s: State)
    requires ValidParams(POOL) && forall v: nat :: reserved(v) == ReservedBy(PoolTable(), POOL, v)
    ensures Accepted(PoolTable(), [HOST, PoolEntry4()]) && WellFormed(PoolTable()) && Inv(POOL, s)
    ensures s == Loaded(POOL, map[], reserved, [Line(0xc0a8_0001, x, 5)], false, 5, 10)
    ensures Map4to6(PoolTable(), WithPool(POOL, s), a) == Mapped(x)
            && Map6to4(PoolTable(), WithPool(POOL, s), x) == Mapped([10, 0, 0, 1]) && a != [10, 0, 0, 1]
  {
    hide Low, Shr, Lookup4, Lookup6, TableOf, ValidEntries, Conflicting;
    PoolValid();
    PoolTableOf();
    a, x := [192, 168, 0, 1], HOST.sv6.addr;
    var l := Line(0xc0a8_0001, x, 5);
    s := map[1 := Host(x, 5, false)];
    assert Enc32(0xc0a8_0001) == a;
    assert !reserved(0xc0a8_0001);
    assert Accepts(POOL, map[], reserved, l);
    var one: State := map[1 := Host(x, 5, true)];
    assert AddLines(POOL, map[], reserved, [l]) == AddLines(POOL, one, reserved, []) == one;
    assert Settled(map[], one, 5, 10) == s;
    assert Low(Val4(a), 1) == 1 by { LowOne(); }
  }

  lemma LowOne()
    ensures Low(0xc0a8_0001, 1) == 1 && Val4([192, 168, 0, 1]) == 0xc0a8_0001
  {
  }
}
