/** The table at work: the mapper the translator asks. */
module AddressMap {
  import opened Bytes
  import opened NetUtil
  import opened Bits
  import opened Prefixes
  import opened PoolSpec
  import opened PoolIndex
  import opened DynamicPool
  import opened Xlate
  import opened Table
  import opened TableLaws

  class AddressTable {
    const t: Table
    const pool: Pool?

    constructor (t: Table, pool: Pool?)
      ensures this.t == t && this.pool == pool
    {
      this.t, this.pool := t, pool;
    }

    ghost predicate Valid()
      reads pool, if pool == null then {} else {pool.used} + pool.Hosts()
    {
      && WellFormed(t)
      && (if pool == null then forall i :: 0 <= i < |t.nets4| ==> !t.nets4[i].PoolRange? else pool.Valid())
      && (forall a :: a in t.hosts4 ==> t.hosts4[a].Static?)
      && (forall a :: a in t.hosts6 ==> t.hosts6[a].Static?)
    }

    ghost function View(): PoolView
      reads pool, if pool == null then {} else {pool.used} + pool.Hosts()
    {
      if pool == null then NoPool else WithPool(pool.c, pool.Model())
    }

    /** lookup4: the host, else the first net that contains the address. */
    method FindIPv4(a: Addr4) returns (r: Option<Entry>)
      ensures r == Lookup4(t, a)
    {
      hide Contains4;
      if a in t.hosts4 {
        return Some(t.hosts4[a]);
      }
      for i := 0 to |t.nets4|
        invariant FirstNet4(t.nets4, a) == FirstNet4(t.nets4[i..], a)
      {
        if Contains4(V4(t.nets4[i]), a) {
          return Some(t.nets4[i]);
        }
        assert t.nets4[i..][1..] == t.nets4[i + 1..];
      }
      return None;
    }

    method FindIPv6(a: Addr6) returns (r: Option<Entry>)
      requires WellFormed(t)
      ensures r == Lookup6(t, a)
    {
      hide Contains6;
      if a in t.hosts6 {
        return Some(t.hosts6[a]);
      }
      for i := 0 to |t.nets6|
        invariant FirstNet6(t.nets6, a) == FirstNet6(t.nets6[i..], a)
      {
        if Contains6(V6(t.nets6[i]), a) {
          return Some(t.nets6[i]);
        }
        assert t.nets6[i..][1..] == t.nets6[i + 1..];
      }
      return None;
    }

    /** What the pool is when it was filled through this table only. */
    ghost predicate Tidy()
      reads pool, if pool == null then {} else {pool.used} + pool.Hosts()
    {
      && Valid()
      && (pool != null ==> AllProper(t, pool.c, pool.Model()))
      && (pool != null ==> forall v: nat :: pool.reserved(v) == ReservedBy(t, pool.c, v))
    }

    /** MapIPv4ToIPv6: what the specification says; a dynamic host found is marked as used now. */
    method MapIPv4ToIPv6(a: Addr4, now: int) returns (r: MapResult<Addr6>)
      requires Valid()
      modifies if pool == null then {} else pool.Hosts()
      ensures Valid() && r == Map4to6(t, old(View()), a)
      ensures pool != null ==> unchanged(pool) && unchanged(pool.used)
      ensures pool != null ==> pool.Model() == Looked4(t, pool.c, old(pool.Model()), a, now)
      ensures old(Tidy()) ==> Tidy()
    {
      hide Lookup4, Lookup6, Contains4, JoinStatic6, EmbedIn, Low, Pool.Model, ReservedBy, BitmapOk, IndexesOk;
      var e := FindIPv4(a);
      match e
      case None => r := Reject;
      case Some(Static(p4, p6, v4Only)) => r := Mapped(JoinStatic6(Static(p4, p6, v4Only), a));
      case Some(Nat64(p)) => r := EmbedIn(t, p, a);
      case Some(PoolRange(p)) =>
        Found4(t, a);
        ghost var s := pool.Model();
        var found := pool.Lookup4(Val4(a), now);
        r := if found.Some? then Mapped(found.value) else Reject;
        TouchStaysProper(t, pool.c, s, Low(Val4(a), HostBits(pool.c)), now);
    }

    /**
     * MapIPv6ToIPv4: what the specification says for addresses the table or the pool knows; the others get a pool
     * address on request.
     */
    method MapIPv6ToIPv4(a: Addr6, allocate: bool, now: int) returns (r: MapResult<Addr4>)
      requires Valid()
      modifies if pool == null then {} else {pool, pool.used} + pool.Hosts()
      ensures Valid() && (pool != null ==>
                pool.reserved == old(pool.reserved) && fresh(pool.Hosts() - old(pool.Hosts())))
      ensures pool != null && !allocate ==> unchanged(pool) && unchanged(pool.used)
      ensures !Asks(t, old(View()), a, allocate) ==> r == Map6to4(t, old(View()), a)
      ensures pool != null ==> Looked6(t, pool.c, old(pool.Model()), a, allocate, now, pool.reserved, pool.Model(), r)
      ensures old(Tidy()) && (allocate ==> ValidIPv6(a)) ==> Tidy()
    {
      hide Lookup4, Lookup6, Contains6, JoinStatic4, Unembed, Low, Pool.Model, ReservedBy, BitmapOk, IndexesOk;
      hide AssignsAddress;
      var e := FindIPv6(a);
      match e
      case None =>
        if pool == null {
          return Reject;
        }
        r := AskPool(a, allocate, now);
      case Some(Static(p4, p6, v4Only)) => r := Mapped(JoinStatic4(Static(p4, p6, v4Only), a));
      case Some(Nat64(p)) => r := Unembed(t, Nat64(p), a);
      case Some(PoolRange(p)) => r := Drop;
    }

    method AskPool(a: Addr6, allocate: bool, now: int) returns (r: MapResult<Addr4>)
      requires Valid() && pool != null && Lookup6(t, a) == None
      modifies pool, pool.used, pool.Hosts()
      ensures Valid() && pool.reserved == old(pool.reserved) && fresh(pool.Hosts() - old(pool.Hosts()))
      ensures !allocate ==> unchanged(pool) && unchanged(pool.used)
      ensures !Asks(t, old(View()), a, allocate) ==> r == Map6to4(t, old(View()), a)
      ensures Looked6(t, pool.c, old(pool.Model()), a, allocate, now, pool.reserved, pool.Model(), r)
      ensures old(Tidy()) && (allocate ==> ValidIPv6(a)) ==> Tidy()
    {
      hide Lookup6, Pool.Model, ReservedBy, BitmapOk, IndexesOk, AssignsAddress, Map6to4, Asks, Looked6, Inv, AllProper;
      hide Max, Size, ValidIPv6;
      ghost var s, known := pool.Model(), a in pool.mapped;
      MappedIndex(pool.c, pool.by4, pool.mapped, pool.dormant, s, a);
      var v := pool.Lookup6(a, allocate, now);
      r := if v.Some? then Mapped(Enc32(v.value)) else Reject;
      PoolAnswers(t, pool.c, s, a, allocate, now, pool.reserved, pool.Model(), v, known);
    }
  }

  /** The pool is asked for a new assignment: nothing maps the address and the caller wants it mapped. */
  ghost predicate Asks(t: Table, pv: PoolView, a: Addr6, allocate: bool)
    requires WellFormed(t)
  {
    allocate && pv.WithPool? && Lookup6(t, a) == None && forall off :: !IsMapped(pv.s, a, off)
  }

  /** The pool and the answer after an IPv6 lookup. */
  ghost predicate Looked6(t: Table, c: Params, s: State, a: Addr6, allocate: bool, now: int, reserved: nat -> bool,
                          s': State, r: MapResult<Addr4>)
    requires ValidParams(c) && WellFormed(t)
  {
    if Lookup6(t, a).Some? then s' == s
    else if exists off :: IsMapped(s, a, off) then
      exists off :: IsMapped(s, a, off) && s' == Touched(s, off, now)
    else if allocate then Gets(c, s, a, now, reserved, s', r)
    else s' == s
  }

  /** The pool is asked to assign an address to a, and r is its answer. */
  ghost predicate Gets(c: Params, s: State, a: Addr6, now: int, reserved: nat -> bool, s': State, r: MapResult<Addr4>)
    requires ValidParams(c)
  {
    if r.Mapped? then AssignsAddress(c, s, a, now, reserved, s', Some(Val4(r.addr)))
    else r == Reject && AssignsAddress(c, s, a, now, reserved, s', None)
  }

  /** The pool after an IPv4 lookup: a mapped host that was asked for was used now. */
  function Looked4(t: Table, c: Params, s: State, a: Addr4, now: int): State {
    var off := Low(Val4(a), HostBits(c));
    match Lookup4(t, a)
    case Some(PoolRange(_)) => if off in s && !s[off].dormant then Touched(s, off, now) else s
    case _ => s
  }

  lemma Found4(t: Table, a: Addr4)
    ensures match Lookup4(t, a)
            case Some(e) => (a in t.hosts4 && e == t.hosts4[a]) || e in t.nets4
            case None => true
  {
  }

  lemma TouchStaysProper(t: Table, c: Params, s: State, off: nat, now: int)
    requires WellFormed(t) && ValidParams(c)
    ensures AllProper(t, c, s) ==> AllProper(t, c, Touched(s, off, now))
  {
    hide ReservedBy, Lookup6, ValidIPv6;
    forall o | AllProper(t, c, s) && o in Touched(s, off, now) ensures Proper(t, c, o, Touched(s, off, now)[o]) {
      assert Proper(t, c, o, s[o]);
    }
  }

  lemma MappedIndex(c: Params, by4: ByOffset, mapped: ByAddress, dormant: ByAddress, s: State, a: Addr6)
    requires IndexesOk(c, by4, mapped, dormant, s)
    ensures Inv(c, s) && (a in mapped <==> exists off :: IsMapped(s, a, off))
  {
    hide IndexesOk, Inv;
    IndexesAgree(c, by4, mapped, dormant, s);
    if off :| IsMapped(s, a, off) { HostFiled(c, by4, mapped, dormant, s, off); }
  }

  lemma HostFiled(c: Params, by4: ByOffset, mapped: ByAddress, dormant: ByAddress, s: State, off: nat)
    requires IndexesOk(c, by4, mapped, dormant, s) && off in s
    ensures off in by4 && Filed(by4, mapped, dormant, s, off)
  {
  }

  /** The pool's own answer is the table's answer, and a pool filled through the table stays so. */
  lemma PoolAnswers(t: Table, c: Params, s: State, a: Addr6, allocate: bool, now: int, reserved: nat -> bool, s': State,
                    v: Option<U32>, known: bool)
    requires WellFormed(t) && ValidParams(c) && Inv(c, s) && Lookup6(t, a) == None
    requires known <==> exists off :: IsMapped(s, a, off)
    requires if known then v.Some? && v.value >= c.base && IsMapped(s, a, v.value - c.base)
             && s' == Touched(s, v.value - c.base, now)
             else if allocate then AssignsAddress(c, s, a, now, reserved, s', v)
             else v == None && s' == s
    ensures var pv, r := WithPool(c, s), if v.Some? then Mapped(Enc32(v.value)) else Reject;
            && (!Asks(t, pv, a, allocate) ==> r == Map6to4(t, pv, a))
            && Looked6(t, c, s, a, allocate, now, reserved, s', r)
    ensures AllProper(t, c, s) && (allocate ==> ValidIPv6(a))
            && (forall x: nat :: reserved(x) == ReservedBy(t, c, x)) ==>
              AllProper(t, c, s')
  {
    hide Lookup6, ReservedBy, Inv, Assigns, Enc32, AllProper, Max, Size, ValidIPv6;
    if known {
      var off := v.value - c.base;
      TouchStaysProper(t, c, s, off, now);
      forall o | IsMapped(s, a, o) ensures o == off { OnlyMapped(c, s, a, off, o); }
    } else if allocate {
      if v.Some? { Val4Of(v.value); }
      if AllProper(t, c, s) && ValidIPv6(a) && forall x: nat :: reserved(x) == ReservedBy(t, c, x) {
        AssignStaysProper(t, c, s, a, now, reserved, s', if v.Some? then Some(v.value - c.base) else None);
      }
    }
  }
}
