/** The mapper as the translator uses it while it handles one packet. */
module Mappers {
  import opened Bytes
  import opened NetUtil
  import opened PoolSpec
  import opened PoolIndex
  import opened DynamicPool
  import opened Prefixes
  import opened Bits
  import opened Xlate
  import opened Table
  import opened TableLaws
  import opened AddressMap

  ghost predicate GoodView(pv: PoolView) {
    pv.WithPool? ==> ValidParams(pv.c) && Inv(pv.c, pv.s)
  }

  /** Two views that differ at most in when their hosts were last used. */
  ghost predicate SameMaps(v: PoolView, w: PoolView) {
    match v
    case NoPool => w.NoPool?
    case WithPool(c, s) =>
      && w.WithPool? && w.c == c && w.s.Keys == s.Keys
      && forall off :: off in s ==> w.s[off].v6 == s[off].v6 && w.s[off].dormant == s[off].dormant
  }

  lemma SameMaps4(t: Table, v: PoolView, w: PoolView, a: Addr4)
    requires SameMaps(v, w)
    ensures Map4to6(t, v, a) == Map4to6(t, w, a)
  {
    hide Lookup4, JoinStatic6, EmbedIn, Low;
  }

  lemma SameMaps6(t: Table, v: PoolView, w: PoolView, x: Addr6)
    requires WellFormed(t) && GoodView(v) && GoodView(w) && SameMaps(v, w)
    ensures Map6to4(t, v, x) == Map6to4(t, w, x)
  {
    hide Lookup6, JoinStatic4, Unembed, Inv, ValidParams, Enc32;
    if v.WithPool? {
      forall off ensures IsMapped(v.s, x, off) <==> IsMapped(w.s, x, off) {}
      if off :| IsMapped(v.s, x, off) {
        forall o | IsMapped(v.s, x, o) ensures o == off { OnlyMapped(v.c, v.s, x, off, o); }
      }
    }
  }

  /** w is v after some of its mapped hosts were used now. */
  ghost predicate Used(v: PoolView, w: PoolView, now: int) {
    && SameMaps(v, w)
    && (v.WithPool? ==>
         forall off :: off in v.s && w.s[off] != v.s[off] ==> !v.s[off].dormant && w.s[off].lastUse == now)
  }

  lemma UsedSame(v: PoolView, now: int)
    ensures Used(v, v, now)
  {
  }

  lemma TouchedUsed(v: PoolView, c: Params, s: State, off: nat, now: int)
    requires Used(v, WithPool(c, s), now) && off in s && !s[off].dormant
    ensures Used(v, WithPool(c, Touched(s, off, now)), now)
  {
  }

  /** w is v after some of its mapped hosts were used now and then x asked for an address and got the answer r. */
  ghost predicate Assigned(v: PoolView, w: PoolView, x: Addr6, now: int, reserved: nat -> bool, r: MapResult<Addr4>) {
    && v.WithPool? && w.WithPool? && w.c == v.c && ValidParams(v.c)
    && exists mid: State :: Used(v, WithPool(v.c, mid), now) && Gets(v.c, mid, x, now, reserved, w.s, r)
  }

  /**
   * What handling one packet does to the pool; src is the source to be mapped, if it comes to that, and r its answer.
   */
  ghost predicate Moved(t: Table, v: PoolView, w: PoolView, src: Option<Addr6>, now: int, reserved: nat -> bool,
                        r: MapResult<Addr4>)
    requires WellFormed(t)
  {
    if src.Some? && Asks(t, v, src.value, true) then Assigned(v, w, src.value, now, reserved, r) else Used(v, w, now)
  }

  function NoneReserved(v: nat): bool { false }

  /** The hook that the pool checks before it hands out an address. */
  ghost function Hook(table: AddressTable): nat -> bool
    reads table.pool
  {
    if table.pool == null then NoneReserved else table.pool.reserved
  }

  ghost function Owned(table: AddressTable): set<object>
    reads table.pool
  {
    if table.pool == null then {} else {table.pool, table.pool.used} + table.pool.Hosts()
  }

  /** The table with its pool at one time. */
  datatype TableState = TableState(valid: bool, view: PoolView, tidy: bool, owned: set<object>, hook: nat -> bool)

  ghost function StateOf(table: AddressTable): TableState
    reads table.pool, Owned(table)
  {
    TableState(table.Valid(), table.View(), table.Tidy(), Owned(table), Hook(table))
  }

  /** The table can be asked and agrees with the view pv but for hosts used now. */
  ghost predicate Ready(pv: PoolView, now: int, st: TableState) {
    st.valid && Used(pv, st.view, now)
  }

  /** The table was asked, and nothing but the use of hosts changed. */
  ghost predicate Kept(pv: PoolView, now: int, st: TableState, st': TableState) {
    Ready(pv, now, st') && st'.owned == st.owned && st'.hook == st.hook && (st.tidy ==> st'.tidy)
  }

  /** The table was asked, for src too if there is one, and r is the answer for it. */
  ghost predicate Answered(t: Table, pv: PoolView, src: Option<Addr6>, now: int, r: MapResult<Addr4>, st: TableState,
                           st': TableState) {
    && WellFormed(t) && st'.valid && st'.hook == st.hook
    && Moved(t, pv, st'.view, src, now, st'.hook, r)
    && (st.tidy && (src.Some? ==> ValidIPv6(src.value)) ==> st'.tidy)
  }

  lemma KeptAnswers(t: Table, pv: PoolView, now: int, r: MapResult<Addr4>, st: TableState, st': TableState)
    requires WellFormed(t) && Kept(pv, now, st, st')
    ensures Answered(t, pv, None, now, r, st, st')
  {
    hide Used, WellFormed;
  }

  lemma ViewGood(table: AddressTable)
    requires table.Valid()
    ensures GoodView(table.View()) && WellFormed(table.t)
  {
    hide BitmapOk, IndexesOk, Inv, WellFormed;
    if table.pool != null {
      IndexesAgree(table.pool.c, table.pool.by4, table.pool.mapped, table.pool.dormant, table.pool.Model());
    }
  }

  /**
   * map4to6: the answer as of the view pv, which the table still agrees with; a dynamic host asked for was used now.
   */
  method MapTo6(table: AddressTable, a: Addr4, now: int, ghost pv: PoolView) returns (r: MapResult<Addr6>)
    requires table.Valid() && Used(pv, table.View(), now)
    modifies Owned(table)
    ensures table.Valid() && Used(pv, table.View(), now) && r == Map4to6(table.t, pv, a)
    ensures table.pool != null ==> table.pool.Model() == Looked4(table.t, table.pool.c, old(table.pool.Model()), a, now)
    ensures Owned(table) == old(Owned(table)) && Hook(table) == old(Hook(table)) && (old(table.Tidy()) ==> table.Tidy())
  {
    hide Map4to6, Lookup4, Low, Pool.Model, BitmapOk, IndexesOk, Pool.Valid, WellFormed, AllProper, SameMaps, Looked4;
    SameMaps4(table.t, pv, table.View(), a);
    ghost var view := table.View();
    r := table.MapIPv4ToIPv6(a, now);
    if table.pool != null { Looked4Uses(table.t, pv, view.c, view.s, a, now); }
  }

  lemma Looked4Uses(t: Table, v: PoolView, c: Params, s: State, a: Addr4, now: int)
    requires Used(v, WithPool(c, s), now)
    ensures Used(v, WithPool(c, Looked4(t, c, s, a, now)), now)
  {
    hide Lookup4, Low, Touched, Used;
    var off := Low(Val4(a), HostBits(c));
    if off in s && !s[off].dormant { TouchedUsed(v, c, s, off, now); }
  }

  /** map6to4 without allocation. */
  method MapTo4(table: AddressTable, x: Addr6, now: int, ghost pv: PoolView) returns (r: MapResult<Addr4>)
    requires table.Valid() && GoodView(pv) && Used(pv, table.View(), now)
    modifies Owned(table)
    ensures table.Valid() && Used(pv, table.View(), now) && r == Map6to4(table.t, pv, x)
    ensures table.pool != null ==>
              Looked6(table.t, table.pool.c, old(table.pool.Model()), x, false, now, Hook(table), table.pool.Model(), r)
    ensures Owned(table) == old(Owned(table)) && Hook(table) == old(Hook(table)) && (old(table.Tidy()) ==> table.Tidy())
  {
    hide Map6to4, Lookup6, Low, Pool.Model, BitmapOk, IndexesOk, Pool.Valid, WellFormed, AllProper, SameMaps, Looked6;
    hide GoodView, Asks, ValidIPv6;
    ghost var view := table.View();
    ViewGood(table);
    SameMaps6(table.t, pv, view, x);
    NoAsk(table.t, view, x);
    r := table.MapIPv6ToIPv4(x, false, now);
    if table.pool != null {
      Looked6Uses(table.t, pv, view.c, view.s, x, false, now, Hook(table), table.pool.Model(), r);
    }
  }

  lemma NoAsk(t: Table, pv: PoolView, x: Addr6)
    requires WellFormed(t) && GoodView(pv)
    ensures !Asks(t, pv, x, false) && (Map6to4(t, pv, x).Mapped? ==> !Asks(t, pv, x, true))
    ensures pv.WithPool? ==> ValidParams(pv.c)
  {
    hide Lookup6;
  }

  lemma SameAsks(t: Table, v: PoolView, w: PoolView, x: Addr6, allocate: bool)
    requires WellFormed(t) && SameMaps(v, w)
    ensures Asks(t, v, x, allocate) <==> Asks(t, w, x, allocate)
  {
    hide Lookup6;
    if v.WithPool? {
      forall off ensures IsMapped(v.s, x, off) <==> IsMapped(w.s, x, off) {}
    }
  }

  lemma Looked6Uses(t: Table, v: PoolView, c: Params, s: State, x: Addr6, allocate: bool, now: int,
                    reserved: nat -> bool, s': State, r: MapResult<Addr4>)
    requires WellFormed(t) && ValidParams(c) && Used(v, WithPool(c, s), now)
             && Looked6(t, c, s, x, allocate, now, reserved, s', r)
    requires !Asks(t, WithPool(c, s), x, allocate)
    ensures Used(v, WithPool(c, s'), now)
  {
    hide Lookup6, Touched, Used, ValidParams, Gets;
    if Lookup6(t, x).None? && exists off :: IsMapped(s, x, off) {
      var off :| IsMapped(s, x, off) && s' == Touched(s, off, now);
      TouchedUsed(v, c, s, off, now);
    }
  }

  lemma Looked6Moves(t: Table, v: PoolView, c: Params, s: State, x: Addr6, now: int, reserved: nat -> bool, s': State,
                     r: MapResult<Addr4>)
    requires WellFormed(t) && ValidParams(c) && Used(v, WithPool(c, s), now)
             && Looked6(t, c, s, x, true, now, reserved, s', r)
    ensures Moved(t, v, WithPool(c, s'), Some(x), now, reserved, r)
  {
    hide Lookup6, ValidParams, Gets, Asks;
    SameAsks(t, v, WithPool(c, s), x, true);
    if Asks(t, v, x, true) {
      AsksGets(t, c, s, x, now, reserved, s', r);
    } else {
      Looked6Uses(t, v, c, s, x, true, now, reserved, s', r);
    }
  }

  lemma AsksGets(t: Table, c: Params, s: State, x: Addr6, now: int, reserved: nat -> bool, s': State,
                 r: MapResult<Addr4>)
    requires WellFormed(t) && ValidParams(c) && Looked6(t, c, s, x, true, now, reserved, s', r)
             && Asks(t, WithPool(c, s), x, true)
    ensures Gets(c, s, x, now, reserved, s', r)
  {
    hide Lookup6, ValidParams, Gets;
  }

  /** map6to4 with allocation: an address that nothing maps gets one from the pool, and every other keeps its answer. */
  method MapSource(table: AddressTable, x: Addr6, now: int, ghost pv: PoolView) returns (r: MapResult<Addr4>)
    requires table.Valid() && WellFormed(table.t) && GoodView(pv) && Used(pv, table.View(), now)
    modifies Owned(table)
    ensures table.Valid() && (!Asks(table.t, pv, x, true) ==> r == Map6to4(table.t, pv, x))
    ensures Moved(table.t, pv, table.View(), Some(x), now, Hook(table), r)
    ensures table.pool != null ==>
              Looked6(table.t, table.pool.c, old(table.pool.Model()), x, true, now, Hook(table), table.pool.Model(), r)
    ensures fresh(Owned(table) - old(Owned(table))) && Hook(table) == old(Hook(table))
    ensures old(table.Tidy()) && ValidIPv6(x) ==> table.Tidy()
  {
    hide Map6to4, Lookup6, Low, Pool.Model, BitmapOk, IndexesOk, Pool.Valid, WellFormed, AllProper, SameMaps, Looked6;
    hide GoodView, Asks, ValidIPv6, Assigned;
    ghost var view := table.View();
    ViewGood(table);
    SameMaps6(table.t, pv, view, x);
    SameAsks(table.t, pv, view, x, true);
    NoAsk(table.t, pv, x);
    NoAsk(table.t, view, x);
    r := table.MapIPv6ToIPv4(x, true, now);
    if table.pool != null {
      Looked6Moves(table.t, pv, view.c, view.s, x, now, Hook(table), table.pool.Model(), r);
    } else {
      assert !Asks(table.t, pv, x, true) by { NeverAsks(table.t, pv, view, x); }
    }
  }

  lemma NeverAsks(t: Table, v: PoolView, w: PoolView, x: Addr6)
    requires WellFormed(t) && SameMaps(v, w) && w.NoPool?
    ensures !Asks(t, v, x, true)
  {
    hide Lookup6;
  }
}
